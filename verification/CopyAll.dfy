/**
 * CopyAll's choice of objects and destinations (copy.go): prefix normalisation, the
 * filters, and why the copies it makes can run in any order.
 */
module CopyAll {
  import opened Common
  import opened Paths
  import opened Guard
  import opened AtomicCopies

  function NormPrefix(p: string): string
  {
    var cleaned := Clean("/" + p);
    if HasPrefix(cleaned, "/") then cleaned[1..] else cleaned
  }

  /** dstPrefix relative to srcPrefix, when it lies strictly inside it. */
  function NestedPrefix(srcPrefix: string, dstPrefix: string): Option<string>
  {
    var src, dst := NormPrefix(srcPrefix), NormPrefix(dstPrefix);
    if dst == src then None
    else if src == "" then if dst != ".." && !HasPrefix(dst, "../") then Some(dst) else None
    else if HasPrefix(dst, src + "/") then Some(dst[|src| + 1..])
    else None
  }

  predicate CleanRelative(name: string)
  {
    name != "" && !IsAbs(name) && Clean(name) == name && name != ".." && !HasPrefix(name, "../")
  }

  predicate FolderMarker(name: string) { name != "" && name[|name| - 1] == '/' }

  /** A folder marker is a name that ends in a slash. */
  lemma FolderMarkerExactly(name: string)
    ensures FolderMarker(name) <==> exists stem :: name == stem + "/"
  {
    if FolderMarker(name) {
      assert name == name[..|name| - 1] + "/";
    }
  }

  /** Objects already under a destination inside the source are left out. */
  predicate AlreadyThere(srcPrefix: string, dstPrefix: string, name: string)
  {
    var nested := NestedPrefix(srcPrefix, dstPrefix);
    nested.Some? && HasPrefix(name, nested.value + "/")
  }

  datatype Selection = Selected(names: seq<string>) | NothingToCopy | UncleanName

  function Without(names: seq<string>, drop: string -> bool): seq<string>
  {
    if names == [] then []
    else
      var front := Without(names[..|names| - 1], drop);
      var last := names[|names| - 1];
      if drop(last) then front else front + [last]
  }

  lemma {:induction false} WithoutCounts(names: seq<string>, drop: string -> bool, x: string)
    ensures multiset(Without(names, drop))[x] == if drop(x) then 0 else multiset(names)[x]
  {
    if names != [] {
      var front := names[..|names| - 1];
      assert names == front + [names[|names| - 1]];
      WithoutCounts(front, drop, x);
    }
  }

  /** slices.DeleteFunc: order kept, exactly the matching names gone; `at` are the places of the rest. */
  method DeleteFunc(names: seq<string>, drop: string -> bool) returns (kept: seq<string>, ghost at: seq<int>)
    ensures PicksAt(kept, names, at) && forall i :: 0 <= i < |names| ==> (i in at <==> !drop(names[i]))
    ensures forall x :: multiset(kept)[x] == if drop(x) then 0 else multiset(names)[x]
  {
    kept, at := [], [];
    for i := 0 to |names|
      invariant kept == Without(names[..i], drop)
      invariant PicksAt(kept, names, at) && forall k :: 0 <= k < |at| ==> at[k] < i
      invariant forall j :: 0 <= j < i ==> (j in at <==> !drop(names[j]))
    {
      assert names[..i + 1][..i] == names[..i];
      if !drop(names[i]) {
        kept := kept + [names[i]];
        at := at + [i];
      }
    }
    assert names[..|names|] == names;
    forall x { WithoutCounts(names, drop, x); }
  }

  method AllClean(names: seq<string>) returns (ok: bool)
    ensures ok <==> forall x :: x in names ==> CleanRelative(x)
  {
    for i := 0 to |names|
      invariant forall j :: 0 <= j < i ==> CleanRelative(names[j])
    {
      if !CleanRelative(names[i]) {
        return false;
      }
    }
    ok := true;
  }

  /** Every listed name as often as it was listed, but no folder markers and none already there; all clean. */
  ghost predicate SelectedFrom(listed: seq<string>, srcPrefix: string, dstPrefix: string, names: seq<string>)
  {
    && (forall x :: multiset(names)[x] == if FolderMarker(x) || AlreadyThere(srcPrefix, dstPrefix, x) then 0 else multiset(listed)[x])
    && (forall x :: x in listed && !FolderMarker(x) ==> CleanRelative(x))
  }

  /** The listed names CopyListed copies: no folder markers, none unclean, none already there. */
  method Select(listed: seq<string>, srcPrefix: string, dstPrefix: string) returns (r: Selection, ghost at: seq<int>)
    ensures r == NothingToCopy <==> forall x :: x in listed ==> FolderMarker(x)
    ensures r == UncleanName <==> exists x :: x in listed && !FolderMarker(x) && !CleanRelative(x)
    ensures r.Selected? ==> SelectedFrom(listed, srcPrefix, dstPrefix, r.names) && PicksAt(r.names, listed, at)
  {
    at := [];
    var names, first := DropMarkers(listed);
    assert forall x :: x in names <==> x in multiset(names);
    assert forall x :: x in listed <==> x in multiset(listed);
    if names == [] {
      return NothingToCopy, at;
    }
    assert names[0] in names;
    var clean := AllClean(names);
    if !clean {
      return UncleanName, at;
    }
    var kept;
    kept, at := DropNested(listed, names, first, srcPrefix, dstPrefix);
    r := Selected(kept);
  }

  /** The first filter: a name ending in a slash is no object. */
  method DropMarkers(listed: seq<string>) returns (names: seq<string>, ghost at: seq<int>)
    ensures PicksAt(names, listed, at)
    ensures forall x :: multiset(names)[x] == if FolderMarker(x) then 0 else multiset(listed)[x]
  {
    names, at := DeleteFunc(listed, x => FolderMarker(x));
  }

  /** The second filter, over what the first one left of the listing. */
  method DropNested(ghost listed: seq<string>, names: seq<string>, ghost first: seq<int>, srcPrefix: string, dstPrefix: string)
    returns (kept: seq<string>, ghost at: seq<int>)
    requires PicksAt(names, listed, first)
    ensures PicksAt(kept, listed, at)
    ensures forall x :: multiset(kept)[x] == if AlreadyThere(srcPrefix, dstPrefix, x) then 0 else multiset(names)[x]
  {
    ghost var second;
    kept, second := DeleteFunc(names, x => AlreadyThere(srcPrefix, dstPrefix, x));
    at := seq(|second|, k requires 0 <= k < |second| => first[second[k]]);
    PickedTwice(listed, names, kept, first, second, at);
  }

  lemma PickedTwice(xs: seq<string>, ys: seq<string>, zs: seq<string>, first: seq<int>, second: seq<int>, at: seq<int>)
    requires PicksAt(ys, xs, first) && PicksAt(zs, ys, second)
    requires |at| == |second| && forall k :: 0 <= k < |at| ==> at[k] == first[second[k]]
    ensures PicksAt(zs, xs, at)
  {
  }

  // ----- the string tests, said by elements -----

  lemma NormPlain(cs: seq<string>)
    requires Plain(cs)
    ensures NormPrefix(JoinAll(cs)) == JoinAll(cs)
  {
    RenderKeepsElements(true, cs);
    assert "/" + JoinAll(cs) == Render(true, cs);
    assert ("/" + JoinAll(cs))[1..] == JoinAll(cs);
  }

  /** normPrefix resolves any prefix from the root, and drops the slash it put in front. */
  lemma NormExactly(p: string)
    ensures Plain(Elements("/" + p)) && NormPrefix(p) == JoinAll(Elements("/" + p))
  {
    ElementsNormal("/" + p);
    var cs := Elements("/" + p);
    assert forall i :: 0 <= i < |cs| ==> Real(cs[i]);
    assert Clean("/" + p) == "/" + JoinAll(cs);
    assert ("/" + JoinAll(cs))[1..] == JoinAll(cs);
  }

  /** nestedPrefix for any two prefixes, guarded or not: by where each leads from the root. */
  lemma NestedFromRoot(srcPrefix: string, dstPrefix: string)
    ensures var s, d := Elements("/" + srcPrefix), Elements("/" + dstPrefix);
      NestedPrefix(srcPrefix, dstPrefix) == if s <= d && |s| < |d| then Some(JoinAll(d[|s|..])) else None
  {
    var s, d := Elements("/" + srcPrefix), Elements("/" + dstPrefix);
    NormExactly(srcPrefix);
    NormExactly(dstPrefix);
    NormPlain(s);
    NormPlain(d);
    assert NestedPrefix(srcPrefix, dstPrefix) == NestedPrefix(JoinAll(s), JoinAll(d));
    NestedExactly(s, d);
  }

  /** nestedPrefix answers exactly for a destination strictly inside the source. */
  lemma NestedExactly(src: seq<string>, dst: seq<string>)
    requires Plain(src) && Plain(dst)
    ensures NestedPrefix(JoinAll(src), JoinAll(dst))
         == if src <= dst && |src| < |dst| then Some(JoinAll(dst[|src|..])) else None
  {
    NormPlain(src);
    NormPlain(dst);
    JoinNonempty(src);
    JoinNonempty(dst);
    if src == dst {
    } else if src == [] {
      EscapesIffClimbs(dst);
      assert dst[0..] == dst;
    } else {
      PrefixIsElementPrefix(src, dst);
      if src <= dst && |src| < |dst| {
        var rest := dst[|src|..];
        assert dst == src + rest;
        JoinConcat(src, rest);
      } else if JoinAll(src) == JoinAll(dst) {
        JoinInjective(src, dst);
      }
    }
  }

  /** cleanRelative accepts the names that spell themselves out, and "." besides. */
  lemma RelativeExactly(name: string)
    ensures CleanRelative(name) && name != "." <==>
            Plain(Elements(name)) && Elements(name) != [] && name == JoinAll(Elements(name))
  {
    var cs := Elements(name);
    ElementsNormal(name);
    if CleanRelative(name) && name != "." {
      EscapesIffClimbs(cs);
      assert forall i :: 0 <= i < |cs| ==> cs[i] != "..";
    } else if Plain(cs) && cs != [] && name == JoinAll(cs) {
      JoinNonempty(cs);
      EscapesIffClimbs(cs);
    }
  }

  /** A dot passes the check although joining drops it: its copy would be the prefix itself. */
  lemma DotIsAccepted()
    ensures CleanRelative(".") && PathJoin("p", ".") == "p"
  {
    SplitWord(".");
    SplitWord("p");
    SplitConcat("p", ".");
    ResolveConcat(false, [], ["p"], ["."]);
    assert "p" + "/" + "." == "p/.";
  }

  /** Joining keeps every accepted name as it is, except "." under a prefix. */
  lemma JoinKeepsNameIff(prefix: string, name: string)
    requires CleanKey(prefix) == Ok(prefix) && CleanRelative(name)
    ensures PathJoin(prefix, name) == (if prefix == "" then name else prefix + "/" + name)
       <==> name != "." || prefix == ""
  {
    CleanExactly(prefix);
    var p := Elements(prefix);
    if name == "." {
      JoinedDot(prefix, p);
    } else {
      RelativeExactly(name);
      JoinedKey(p, Elements(name));
      JoinNonempty(p);
      if p != [] {
        JoinConcat(p, Elements(name));
      }
    }
  }

  lemma JoinedDot(prefix: string, p: seq<string>)
    requires Plain(p) && Elements(prefix) == p && prefix == JoinAll(p)
    ensures PathJoin(prefix, ".") == if prefix == "" then "." else prefix
  {
    SplitWord(".");
    JoinNonempty(p);
    if prefix != "" {
      ElementsOfJoined(prefix, ".");
    }
  }

  // ----- any order of copies -----

  /** A prefix as the guard hands it to the backend. */
  predicate Guarded(prefix: string) { CleanKey(prefix) == Ok(prefix) }

  /** A name CopyListed may copy between these prefixes. */
  predicate Kept(srcPrefix: string, dstPrefix: string, name: string)
  {
    CleanRelative(name) && !AlreadyThere(srcPrefix, dstPrefix, name)
  }

  predicate Chosen(srcPrefix: string, dstPrefix: string, name: string)
  {
    Kept(srcPrefix, dstPrefix, name) && name != "."
  }

  function MoveOf(srcPrefix: string, dstPrefix: string, name: string): Move
  {
    Move(PathJoin(srcPrefix, name), PathJoin(dstPrefix, name))
  }

  /** An accepted name is its elements rendered; "." has none. */
  lemma NameElements(name: string)
    requires CleanRelative(name)
    ensures Plain(Elements(name)) && name == Render(false, Elements(name))
    ensures Elements(name) == [] <==> name == "."
  {
    RenderEmpty(false);
    RelativeExactly(name);
  }

  /** Different elements are different keys, the empty ones included. */
  lemma RenderInjective(a: seq<string>, b: seq<string>)
    requires Plain(a) && Plain(b) && Render(false, a) == Render(false, b)
    ensures a == b
  {
    RenderKeepsElements(false, a);
    RenderKeepsElements(false, b);
  }

  lemma JoinedName(prefix: string, name: string)
    requires Guarded(prefix) && CleanRelative(name)
    ensures Plain(Elements(prefix)) && PathJoin(prefix, name) == Render(false, Elements(prefix) + Elements(name))
  {
    var p, n := Elements(prefix), Elements(name);
    CleanExactly(prefix);
    NameElements(name);
    if name == "." {
      JoinedDot(prefix, p);
      assert p + n == p;
    } else {
      JoinedKey(p, n);
      JoinNonempty(n);
      JoinNonempty(p + n);
    }
  }

  lemma MoveElements(srcPrefix: string, dstPrefix: string, name: string)
    requires Guarded(srcPrefix) && Guarded(dstPrefix) && CleanRelative(name)
    ensures var s, d, n := Elements(srcPrefix), Elements(dstPrefix), Elements(name);
      && Plain(s) && Plain(d) && Plain(n) && Plain(s + n) && Plain(d + n)
      && MoveOf(srcPrefix, dstPrefix, name) == Move(Render(false, s + n), Render(false, d + n))
  {
    JoinedName(srcPrefix, name);
    JoinedName(dstPrefix, name);
    NameElements(name);
  }

  /** What the nested filter drops, by elements. */
  lemma AlreadyThereExactly(srcPrefix: string, dstPrefix: string, name: string)
    requires Guarded(srcPrefix) && Guarded(dstPrefix) && CleanRelative(name)
    ensures var s, d, n := Elements(srcPrefix), Elements(dstPrefix), Elements(name);
      AlreadyThere(srcPrefix, dstPrefix, name) <==>
        s <= d && |s| < |d| && d[|s|..] <= n && |d| - |s| < |n|
  {
    CleanExactly(srcPrefix);
    CleanExactly(dstPrefix);
    NameElements(name);
    var s, d, n := Elements(srcPrefix), Elements(dstPrefix), Elements(name);
    NestedExactly(s, d);
    if s <= d && |s| < |d| {
      var rest := d[|s|..];
      JoinNonempty(rest);
      if n != [] {
        JoinNonempty(n);
        PrefixIsElementPrefix(rest, n);
      }
    }
  }

  /** The order-free condition, by elements: the destination is not a strict ancestor of the source. */
  lemma AncestorExactly(srcPrefix: string, dstPrefix: string)
    requires Guarded(srcPrefix) && Guarded(dstPrefix)
    ensures NestedPrefix(dstPrefix, srcPrefix).Some? <==>
            Elements(dstPrefix) <= Elements(srcPrefix) && |Elements(dstPrefix)| < |Elements(srcPrefix)|
  {
    CleanExactly(srcPrefix);
    CleanExactly(dstPrefix);
    NestedExactly(Elements(dstPrefix), Elements(srcPrefix));
  }

  /** Two lists that begin one list: one begins the other. */
  lemma CommonPrefix(a: seq<string>, n: seq<string>, b: seq<string>, m: seq<string>)
    requires a + n == b + m
    ensures |a| <= |b| ==> a <= b && n == b[|a|..] + m
  {
    if |a| <= |b| {
      var whole := a + n;
      assert whole[..|a|] == a && whole[..|b|] == b;
      assert b[..|a|] == whole[..|b|][..|a|] == a;
      assert n == whole[|a|..] && b[|a|..] + m == whole[|a|..];
    }
  }

  /** Elements written and read coincide for one name, or for none written onto the destination's own name. */
  lemma NoOverlap(s: seq<string>, d: seq<string>, n: seq<string>, m: seq<string>)
    requires d + n == s + m
    requires !(d <= s && |d| < |s|)
    requires !(s <= d && |s| < |d| && d[|s|..] <= m && |d| - |s| < |m|)
    ensures n == m || (n == [] && s <= d && |s| < |d| && m == d[|s|..])
  {
    CommonPrefix(d, n, s, m);
    CommonPrefix(s, m, d, n);
  }

  /** x is "." and y is the destination's own name: x is copied onto the object y reads. */
  predicate DotMeets(srcPrefix: string, dstPrefix: string, x: string, y: string)
  {
    x == "." && NestedPrefix(srcPrefix, dstPrefix) == Some(y)
  }

  /** Two names collide in that one way only; otherwise what one copy writes no other reads or writes. */
  lemma KeptIndependent(srcPrefix: string, dstPrefix: string, x: string, y: string)
    requires Guarded(srcPrefix) && Guarded(dstPrefix) && NestedPrefix(dstPrefix, srcPrefix).None?
    requires Kept(srcPrefix, dstPrefix, x) && Kept(srcPrefix, dstPrefix, y)
    ensures var a, b := MoveOf(srcPrefix, dstPrefix, x), MoveOf(srcPrefix, dstPrefix, y);
            a.to == b.from || a.to == b.to ==> x == y || DotMeets(srcPrefix, dstPrefix, x, y)
  {
    var s, d, n, m := Elements(srcPrefix), Elements(dstPrefix), Elements(x), Elements(y);
    MoveElements(srcPrefix, dstPrefix, x);
    MoveElements(srcPrefix, dstPrefix, y);
    NameElements(x);
    NameElements(y);
    var a, b := MoveOf(srcPrefix, dstPrefix, x), MoveOf(srcPrefix, dstPrefix, y);
    if a.to == b.to {
      RenderInjective(d + n, d + m);
      NoOverlap(d, d, n, m);
    } else if a.to == b.from {
      RenderInjective(d + n, s + m);
      AncestorExactly(srcPrefix, dstPrefix);
      AlreadyThereExactly(srcPrefix, dstPrefix, y);
      NoOverlap(s, d, n, m);
      NestedExactly(s, d);
      CleanExactly(srcPrefix);
      CleanExactly(dstPrefix);
      JoinNonempty(m);
    }
  }

  lemma NestedKeysDiffer(s: seq<string>, d: seq<string>, m: seq<string>)
    requires Plain(s) && Plain(m) && m != [] && d == s + m
    ensures Plain(d + m)
    ensures Render(false, s) != Render(false, d) && Render(false, d) != Render(false, d + m) && Render(false, s) != Render(false, d + m)
  {
    assert Plain(d) && Plain(d + m);
    if Render(false, s) == Render(false, d) { RenderInjective(s, d); }
    if Render(false, d) == Render(false, d + m) { RenderInjective(d, d + m); }
    if Render(false, s) == Render(false, d + m) { RenderInjective(s, d + m); }
  }

  /** The destination's own name, by elements. */
  lemma OwnName(s: seq<string>, d: seq<string>, y: string)
    requires Plain(s) && Plain(d) && NestedPrefix(JoinAll(s), JoinAll(d)) == Some(y)
    ensures Plain(Elements(y)) && Elements(y) != [] && d == s + Elements(y)
  {
    NestedExactly(s, d);
    var m := d[|s|..];
    assert Plain(m) && m != [] && d == s + m;
    PlainElements(m);
  }

  /** Where they do meet, the two copies run into each other. */
  lemma DotMeetsChains(srcPrefix: string, dstPrefix: string, y: string)
    requires Guarded(srcPrefix) && Guarded(dstPrefix) && CleanRelative(y) && DotMeets(srcPrefix, dstPrefix, ".", y)
    ensures var a, b := MoveOf(srcPrefix, dstPrefix, "."), MoveOf(srcPrefix, dstPrefix, y);
            a.to == b.from && a.from != a.to && b.from != b.to && a.from != b.to
  {
    var s, d, m := Elements(srcPrefix), Elements(dstPrefix), Elements(y);
    CleanExactly(srcPrefix);
    CleanExactly(dstPrefix);
    OwnName(s, d, y);
    NestedKeysDiffer(s, d, m);
    DotIsAccepted();
    NameElements(".");
    MoveElements(srcPrefix, dstPrefix, ".");
    MoveElements(srcPrefix, dstPrefix, y);
    assert s + [] == s && d + [] == d;
  }

  function MovesOf(srcPrefix: string, dstPrefix: string, names: seq<string>): (ms: seq<Move>)
    ensures |ms| == |names| && forall i :: 0 <= i < |names| ==> ms[i] == MoveOf(srcPrefix, dstPrefix, names[i])
  {
    seq(|names|, i requires 0 <= i < |names| => MoveOf(srcPrefix, dstPrefix, names[i]))
  }

  /** The names hold both "." and the destination's own name inside the source. */
  predicate DotClash(srcPrefix: string, dstPrefix: string, names: seq<string>)
  {
    exists y :: y in names && "." in names && DotMeets(srcPrefix, dstPrefix, ".", y)
  }

  /** The copies of a selection are independent exactly when "." is not listed beside the destination's own name. */
  lemma IndependentIff(srcPrefix: string, dstPrefix: string, names: seq<string>)
    requires Guarded(srcPrefix) && Guarded(dstPrefix) && NestedPrefix(dstPrefix, srcPrefix).None?
    requires forall x :: x in names ==> Kept(srcPrefix, dstPrefix, x)
    ensures Independent(Moves(MovesOf(srcPrefix, dstPrefix, names))) <==> !DotClash(srcPrefix, dstPrefix, names)
  {
    var ms := MovesOf(srcPrefix, dstPrefix, names);
    if DotClash(srcPrefix, dstPrefix, names) {
      var y :| y in names && "." in names && DotMeets(srcPrefix, dstPrefix, ".", y);
      DotMeetsChains(srcPrefix, dstPrefix, y);
      var i :| 0 <= i < |names| && names[i] == ".";
      var j :| 0 <= j < |names| && names[j] == y;
      assert ms[i] in Moves(ms) && ms[j] in Moves(ms) && ms[i].to == ms[j].from && ms[i] != ms[j];
    } else {
      forall a, b | a in Moves(ms) && b in Moves(ms) && (a.to == b.from || a.to == b.to)
        ensures a == b
      {
        var i :| 0 <= i < |ms| && ms[i] == a;
        var j :| 0 <= j < |ms| && ms[j] == b;
        KeptIndependent(srcPrefix, dstPrefix, names[i], names[j]);
      }
    }
  }

  /**
   * Confluence: copied in any order, the selected objects end at dst/name with the
   * content src/name had at the start, and no other key changes.
   */
  lemma CopyAllConfluence<V>(st: Store<V>, srcPrefix: string, dstPrefix: string, names: seq<string>)
    requires Guarded(srcPrefix) && Guarded(dstPrefix) && NestedPrefix(dstPrefix, srcPrefix).None?
    requires forall x :: x in names ==> Kept(srcPrefix, dstPrefix, x) && PathJoin(srcPrefix, x) in st
    requires !DotClash(srcPrefix, dstPrefix, names)
    ensures var ms := MovesOf(srcPrefix, dstPrefix, names);
            CopiedExactly(st, ApplyAll(st, ms), Moves(ms))
  {
    IndependentIff(srcPrefix, dstPrefix, names);
    AnyOrderCopiesExactly(st, MovesOf(srcPrefix, dstPrefix, names));
  }

  /** A selection that holds both has two copies whose order matters on some store. */
  lemma DotClashBreaksOrder(srcPrefix: string, dstPrefix: string, names: seq<string>) returns (st: Store<int>, y: string)
    requires Guarded(srcPrefix) && Guarded(dstPrefix)
    requires (forall x :: x in names ==> Kept(srcPrefix, dstPrefix, x)) && DotClash(srcPrefix, dstPrefix, names)
    ensures y in names && "." in names && PathJoin(srcPrefix, ".") in st && PathJoin(srcPrefix, y) in st
    ensures !Commute(st, MoveOf(srcPrefix, dstPrefix, "."), MoveOf(srcPrefix, dstPrefix, y))
  {
    y :| y in names && "." in names && DotMeets(srcPrefix, dstPrefix, ".", y);
    DotMeetsChains(srcPrefix, dstPrefix, y);
    st := ChainedMovesDiffer(MoveOf(srcPrefix, dstPrefix, "."), MoveOf(srcPrefix, dstPrefix, y));
  }

  /** Two copies of listed objects commute on every store. */
  ghost predicate OrderFree(srcPrefix: string, dstPrefix: string)
  {
    forall st: Store<int>, x, y ::
      Chosen(srcPrefix, dstPrefix, x) && Chosen(srcPrefix, dstPrefix, y)
      && PathJoin(srcPrefix, x) in st && PathJoin(srcPrefix, y) in st ==>
        Commute(st, MoveOf(srcPrefix, dstPrefix, x), MoveOf(srcPrefix, dstPrefix, y))
  }

  predicate Commute<V(==)>(st: Store<V>, a: Move, b: Move)
  {
    Apply(Apply(st, a), b) == Apply(Apply(st, b), a)
  }

  lemma IndependentCommute<V>(st: Store<V>, a: Move, b: Move)
    requires a.from in st && b.from in st && Independent({a, b})
    ensures Commute(st, a, b)
  {
    var ab, ba := [a, b], [b, a];
    assert Moves(ab) == {a, b} == Moves(ba);
    AnyOrderCopiesExactly(st, ab);
    AnyOrderCopiesExactly(st, ba);
    CopiedUniquely(st, ApplyAll(st, ab), ApplyAll(st, ba), {a, b});
    assert ab[..1] == [a] && ba[..1] == [b] && [a][..0] == [] && [b][..0] == [];
    assert ApplyAll(st, [a]) == Apply(st, a) && ApplyAll(st, [b]) == Apply(st, b);
  }

  /**
   * The condition is exact. Into a strict ancestor r levels up, name "r/x" is copied
   * onto "src/x", which name "x" reads: the two copies do not commute.
   */
  lemma OrderFreeIff(srcPrefix: string, dstPrefix: string)
    requires Guarded(srcPrefix) && Guarded(dstPrefix)
    ensures OrderFree(srcPrefix, dstPrefix) <==> NestedPrefix(dstPrefix, srcPrefix).None?
  {
    if NestedPrefix(dstPrefix, srcPrefix).None? {
      forall st: Store<int>, x, y |
        Chosen(srcPrefix, dstPrefix, x) && Chosen(srcPrefix, dstPrefix, y)
        && PathJoin(srcPrefix, x) in st && PathJoin(srcPrefix, y) in st
        ensures Commute(st, MoveOf(srcPrefix, dstPrefix, x), MoveOf(srcPrefix, dstPrefix, y))
      {
        var a, b := MoveOf(srcPrefix, dstPrefix, x), MoveOf(srcPrefix, dstPrefix, y);
        KeptIndependent(srcPrefix, dstPrefix, x, y);
        KeptIndependent(srcPrefix, dstPrefix, y, x);
        IndependentCommute(st, a, b);
      }
    } else {
      AncestorBreaksOrder(srcPrefix, dstPrefix);
    }
  }

  lemma AncestorBreaksOrder(srcPrefix: string, dstPrefix: string)
    requires Guarded(srcPrefix) && Guarded(dstPrefix) && NestedPrefix(dstPrefix, srcPrefix).Some?
    ensures !OrderFree(srcPrefix, dstPrefix)
  {
    AncestorExactly(srcPrefix, dstPrefix);
    CleanExactly(srcPrefix);
    var s, d := Elements(srcPrefix), Elements(dstPrefix);
    var far, near := ChainedNames(s, d);
    InAncestor(srcPrefix, dstPrefix, far);
    InAncestor(srcPrefix, dstPrefix, near);
    var a, b := MoveOf(srcPrefix, dstPrefix, JoinAll(far)), MoveOf(srcPrefix, dstPrefix, JoinAll(near));
    assert s + far != [] && s + near != [] && d + far != [] && d + near != [];
    var st := ChainedMovesDiffer(a, b);
  }

  /** Two names of which one is written where the other is read. */
  lemma ChainedNames(s: seq<string>, d: seq<string>) returns (far: seq<string>, near: seq<string>)
    requires Plain(s) && d <= s && |d| < |s|
    ensures Plain(far) && Plain(near) && far != [] && near != []
    ensures JoinAll(d + far) == JoinAll(s + near) && JoinAll(s + far) != JoinAll(d + far)
    ensures JoinAll(s + near) != JoinAll(d + near) && JoinAll(s + far) != JoinAll(d + near)
  {
    near, far := ["x"], s[|d|..] + ["x"];
    assert Real("x");
    assert d + far == s + near;
    assert Plain(d) && Plain(s + far) && Plain(d + far) && Plain(d + near);
    if JoinAll(s + far) == JoinAll(d + far) { JoinInjective(s + far, d + far); }
    if JoinAll(s + near) == JoinAll(d + near) { JoinInjective(s + near, d + near); }
    if JoinAll(s + far) == JoinAll(d + near) { JoinInjective(s + far, d + near); }
  }

  /** Into an ancestor no name is filtered out. */
  lemma InAncestor(srcPrefix: string, dstPrefix: string, n: seq<string>)
    requires Guarded(srcPrefix) && Guarded(dstPrefix) && Plain(n) && n != []
    requires Elements(dstPrefix) <= Elements(srcPrefix)
    ensures var s, d, name := Elements(srcPrefix), Elements(dstPrefix), JoinAll(n);
      && Chosen(srcPrefix, dstPrefix, name)
      && MoveOf(srcPrefix, dstPrefix, name) == Move(JoinAll(s + n), JoinAll(d + n))
  {
    PlainElements(n);
    RelativeExactly(JoinAll(n));
    AlreadyThereExactly(srcPrefix, dstPrefix, JoinAll(n));
    MoveElements(srcPrefix, dstPrefix, JoinAll(n));
    JoinNonempty(Elements(srcPrefix) + n);
    JoinNonempty(Elements(dstPrefix) + n);
  }

  lemma ChainedMovesDiffer(a: Move, b: Move) returns (st: Store<int>)
    requires a.to == b.from && a.from != a.to && b.from != b.to && a.from != b.to
    ensures a.from in st && b.from in st && !Commute(st, a, b)
  {
    st := map[a.from := 1, b.from := 2];
    var first, second := Apply(st, a), Apply(st, b);
    assert first[b.from] == 1 && Apply(first, b)[b.to] == 1;
    assert second[b.to] == 2 && Apply(second, a)[b.to] == 2;
  }
}
