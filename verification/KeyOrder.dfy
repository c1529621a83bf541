/** Bytewise order of keys, and sorting by it. */
module KeyOrder {
  import opened Paths
  import opened Trees

  predicate Less(a: string, b: string)
  {
    b != "" && (a == "" || a[0] < b[0] || (a[0] == b[0] && Less(a[1..], b[1..])))
  }

  ghost predicate StrictlySorted(xs: seq<string>) { forall i, j :: 0 <= i < j < |xs| ==> Less(xs[i], xs[j]) }

  lemma {:induction false} LessTransitive(a: string, b: string, c: string)
    requires Less(a, b) && Less(b, c)
    ensures Less(a, c)
  {
    if a != "" && a[0] == b[0] && b[0] == c[0] {
      LessTransitive(a[1..], b[1..], c[1..]);
    }
  }

  lemma {:induction false} LessTotal(a: string, b: string)
    ensures a == b || Less(a, b) || Less(b, a)
    ensures !(Less(a, b) && Less(b, a)) && !Less(a, a)
  {
    if a != "" && b != "" {
      LessTotal(a[1..], b[1..]);
      assert a == [a[0]] + a[1..] && b == [b[0]] + b[1..];
    }
    if a != "" {
      LessTotal(a[1..], a[1..]);
    }
  }

  /** A common prefix does not matter, so trimming one keeps the order. */
  lemma {:induction false} LessPastPrefix(p: string, a: string, b: string)
    ensures Less(p + a, p + b) <==> Less(a, b)
  {
    if p == "" {
      assert p + a == a && p + b == b;
    } else {
      LessPastPrefix(p[1..], a, b);
      assert (p + a)[1..] == p[1..] + a && (p + b)[1..] == p[1..] + b;
    }
  }

  /** Bytewise order: the first place where two keys differ decides, and a key comes before its extensions. */
  lemma FirstDifferenceDecides(p: string, c: char, d: char, a: string, b: string)
    ensures Less(p + [c] + a, p + [d] + b) <==> c < d || (c == d && Less(a, b))
    ensures Less(p, p + [d] + b) && !Less(p + [d] + b, p)
  {
    assert p + [c] + a == p + ([c] + a) && p + [d] + b == p + ([d] + b) && p + "" == p;
    LessPastPrefix(p, [c] + a, [d] + b);
    LessPastPrefix(p, "", [d] + b);
    LessPastPrefix(p, [d] + b, "");
    assert ([c] + a)[1..] == a && ([d] + b)[1..] == b;
  }

  /** A file beside a directory sorts before what is in it: "dir.txt" before "dir/b.txt". */
  lemma DotBeforeSlash(dir: string, ext: string, inner: string)
    ensures Less(dir + "." + ext, dir + "/" + inner)
  {
    assert dir + "." + ext == dir + ("." + ext) && dir + "/" + inner == dir + ("/" + inner);
    LessPastPrefix(dir, "." + ext, "/" + inner);
  }

  /** slices.SortFunc with strings.Compare, on names that do not repeat. */
  method Sort(xs: seq<string>) returns (ys: seq<string>)
    requires NoDup(xs)
    ensures StrictlySorted(ys) && multiset(ys) == multiset(xs)
  {
    ys := [];
    for i := 0 to |xs|
      invariant StrictlySorted(ys) && multiset(ys) == multiset(xs[..i])
    {
      assert xs[..i + 1] == xs[..i] + [xs[i]];
      forall y | y in ys ensures y != xs[i] {
        assert y in multiset(ys) && y in multiset(xs[..i]);
      }
      ys := Insert(ys, xs[i]);
    }
    assert xs[..|xs|] == xs;
  }

  method Insert(ys: seq<string>, x: string) returns (zs: seq<string>)
    requires StrictlySorted(ys) && x !in ys
    ensures StrictlySorted(zs) && multiset(zs) == multiset(ys) + multiset{x}
  {
    var k := 0;
    while k < |ys| && Less(ys[k], x)
      invariant k <= |ys| && forall i :: 0 <= i < k ==> Less(ys[i], x)
    {
      k := k + 1;
    }
    forall i | k <= i < |ys| ensures Less(x, ys[i]) {
      LessTotal(x, ys[k]);
      if i > k {
        LessTransitive(x, ys[k], ys[i]);
      }
    }
    zs := ys[..k] + [x] + ys[k..];
    assert ys == ys[..k] + ys[k..];
  }

  // ----- listings -----

  lemma {:induction false} NoDupCounts(xs: seq<string>, x: string)
    requires NoDup(xs)
    ensures multiset(xs)[x] == if x in xs then 1 else 0
  {
    if xs != [] {
      var n := |xs| - 1;
      assert xs == xs[..n] + [xs[n]];
      NoDupCounts(xs[..n], x);
      assert xs[n] !in xs[..n];
    }
  }

  /** Two listings of the same files hold the same names the same number of times. */
  lemma ListingsAgree(a: seq<string>, b: seq<string>, parent: Path, rel: set<Path>)
    requires Lists(a, parent, rel) && Lists(b, parent, rel)
    ensures multiset(a) == multiset(b)
  {
    forall x ensures multiset(a)[x] == multiset(b)[x] {
      NoDupCounts(a, x);
      NoDupCounts(b, x);
    }
  }

  /** A sorted rearrangement of a listing is a listing, strictly sorted. */
  lemma SortedListing(a: seq<string>, b: seq<string>, parent: Path, rel: set<Path>)
    requires Lists(a, parent, rel) && multiset(a) == multiset(b) && StrictlySorted(b)
    ensures Lists(b, parent, rel)
  {
    forall x ensures x in a <==> x in b {
      assert x in a <==> x in multiset(a);
      assert x in b <==> x in multiset(b);
    }
    forall i, j | 0 <= i < j < |b| ensures b[i] != b[j] {
      LessTotal(b[i], b[j]);
    }
  }

  /**
   * SSH List next to Walk on the same directory: the same names, each file once, the
   * listing strictly sorted.
   */
  method ListAndWalk(t: Tree, at: Path) returns (listed: seq<string>, walked: seq<string>)
    requires t.Valid()
    ensures Lists(listed, [], t.Below(at)) && Lists(walked, [], t.Below(at))
    ensures multiset(listed) == multiset(walked) && StrictlySorted(listed)
    ensures forall x :: x in listed <==> exists p :: p in t.files && at <= p && |at| < |p| && x == JoinAll(p[|at|..])
  {
    ghost var height := if Height(t.dirs) > |at| then Height(t.dirs) else |at|;
    var found := ListUnder(t, at, [], "", height);
    listed := Sort(found);
    walked := Walk(t, at, [], "", height);
    SortedListing(found, listed, [], t.Below(at));
    ListingsAgree(listed, walked, [], t.Below(at));
    ListedFiles(t, at, listed);
  }

  /** A listing of a directory, by the paths of the files in it. */
  lemma ListedFiles(t: Tree, at: Path, names: seq<string>)
    requires Lists(names, [], t.Below(at))
    ensures forall x :: x in names <==> exists p :: p in t.files && at <= p && |at| < |p| && x == JoinAll(p[|at|..])
  {
    assert forall r: Path :: [] + r == r;
    forall x ensures x in names <==> exists p :: p in t.files && at <= p && |at| < |p| && x == JoinAll(p[|at|..]) {
      if x in names {
        var r :| r in t.Below(at) && x == JoinAll([] + r);
        var p :| p in t.files && at <= p && |at| < |p| && p[|at|..] == r;
      } else if exists p :: p in t.files && at <= p && |at| < |p| && x == JoinAll(p[|at|..]) {
        var p :| p in t.files && at <= p && |at| < |p| && x == JoinAll(p[|at|..]);
        assert p[|at|..] in t.Below(at);
      }
    }
  }
}
