/** S3's DeleteAll (s3/storage.go): walk the prefix, then delete what was found in batches. */
module S3Delete {
  import opened Common
  import opened Paths
  import opened Guard
  import opened Trees

  const BATCH_SIZE: int := 1000

  datatype Outcome = Deleted | Missing | Failed

  /** Clean keys: every one spells out its elements. */
  predicate CleanKeys(keys: set<string>)
  {
    forall k :: k in keys ==> !IsAbs(k) && Plain(Elements(k)) && Elements(k) != [] && k == JoinAll(Elements(k))
  }

  /** The tree that listing with a "/" delimiter shows. */
  function TreeOf(keys: set<string>): Tree
  {
    Tree(set k | k in keys :: Elements(k),
         set k, n | k in keys && 0 < n < |Elements(k)| :: Elements(k)[..n])
  }

  lemma TreeOfValid(keys: set<string>)
    requires CleanKeys(keys)
    ensures TreeOf(keys).Valid()
  {
  }

  /** The keys a directory-like prefix holds; prefix is "" or ends in "/". */
  function Under(keys: set<string>, prefix: string): set<string> { set k | k in keys && HasPrefix(k, prefix) }

  function KeySet(objs: seq<string>): set<string> { set k | k in objs }

  // ----- the prefix and the keys under it -----

  lemma TrailingSlash(a: string, s: string)
    requires s != ""
    ensures PathJoin(a, s + "/") == PathJoin(a, s)
  {
    var x := if a == "" then s else a + "/" + s;
    assert x + "/" == x + "/" + "";
    SplitConcat(x, "");
    ResolveConcat(IsAbs(x), [], Split(x), [""]);
    assert a + "/" + (s + "/") == a + "/" + s + "/";
  }

  lemma {:induction false} JoinEnds(cs: seq<string>)
    requires Plain(cs) && cs != []
    ensures JoinAll(cs) != "" && JoinAll(cs)[|JoinAll(cs)| - 1] in cs[|cs| - 1]
  {
    assert Real(cs[0]);
    if |cs| > 1 {
      JoinEnds(cs[1..]);
    }
  }

  lemma NoTrailingSlash(cs: seq<string>)
    requires Plain(cs) && cs != []
    ensures JoinAll(cs) != "" && FixPrefix(JoinAll(cs)) == JoinAll(cs) + "/"
  {
    JoinEnds(cs);
    assert Real(cs[|cs| - 1]);
  }

  /** The prefix DeleteAll walks: the storage's elements, then the caller's, then a slash. */
  function SubPrefix(root: string, pathPrefix: string): string { Reroot(true, root, FixPrefix(pathPrefix)) }

  lemma SubPrefixForm(root: string, pathPrefix: string)
    requires !IsAbs(root) && Plain(Elements(root)) && ObjectKey(pathPrefix) == Ok(pathPrefix)
    ensures var e := Elements(root) + Elements(pathPrefix); var sub := SubPrefix(root, pathPrefix);
      e != [] && Plain(e) && !IsAbs(sub) && Elements(sub) == e && sub == JoinAll(e) + "/"
  {
    CleanExactly(pathPrefix);
    ObjectKeyExactly(pathPrefix);
    var p := Elements(pathPrefix);
    JoinedUnder(root, p);
    NoTrailingSlash(p);
    TrailingSlash(root, pathPrefix);
    var e := Elements(root) + p;
    NoTrailingSlash(e);
    PlainElements(e);
    FixPrefixKeeps(JoinAll(e));
  }

  /** A key begins with the prefix exactly when its elements go on from the prefix's. */
  lemma UnderIsBelow(keys: set<string>, e: seq<string>, k: string)
    requires CleanKeys(keys) && k in keys && Plain(e) && e != []
    ensures HasPrefix(k, JoinAll(e) + "/") <==> e <= Elements(k) && |e| < |Elements(k)|
  {
    PrefixIsElementPrefix(e, Elements(k));
  }

  lemma KeyOfBelow(keys: set<string>, e: seq<string>, r: seq<string>)
    requires CleanKeys(keys) && r in TreeOf(keys).Below(e)
    ensures JoinAll(e + r) in keys && Elements(JoinAll(e + r)) == e + r && r != []
  {
    var p :| p in TreeOf(keys).files && e <= p && |e| < |p| && r == p[|e|..];
    var k :| k in keys && Elements(k) == p;
    assert e + r == p;
  }

  /** A name the walk found, by its elements. */
  lemma WalkedName(keys: set<string>, e: seq<string>, names: seq<string>, x: string)
    requires CleanKeys(keys) && Lists(names, [], TreeOf(keys).Below(e))
    ensures x in names <==> Elements(x) in TreeOf(keys).Below(e) && x == JoinAll(Elements(x))
    ensures x in names ==> Plain(Elements(x)) && Elements(x) != []
  {
    TreeOfValid(keys);
    BelowPlain(TreeOf(keys), e);
    assert [] + Elements(x) == Elements(x);
    if x in names {
      var r :| r in TreeOf(keys).Below(e) && x == JoinAll([] + r);
      assert [] + r == r;
      PlainElements(r);
    }
  }

  /** The full key of a name the walk found: it exists, and is under the prefix. */
  lemma WalkedKey(keys: set<string>, sub: string, e: seq<string>, names: seq<string>, x: string)
    requires CleanKeys(keys) && !IsAbs(sub) && Elements(sub) == e && Plain(e) && e != [] && sub == JoinAll(e) + "/"
    requires Lists(names, [], TreeOf(keys).Below(e)) && x in names
    ensures var k := PathJoin(sub, x); k in Under(keys, sub) && Elements(k) == e + Elements(x) && x == JoinAll(Elements(x))
  {
    WalkedName(keys, e, names, x);
    JoinedUnder(sub, Elements(x));
    KeyOfBelow(keys, e, Elements(x));
    UnderIsBelow(keys, e, JoinAll(e + Elements(x)));
  }

  lemma WalkedApart(keys: set<string>, sub: string, e: seq<string>, names: seq<string>, x: string, y: string)
    requires CleanKeys(keys) && !IsAbs(sub) && Elements(sub) == e && Plain(e) && e != [] && sub == JoinAll(e) + "/"
    requires Lists(names, [], TreeOf(keys).Below(e)) && x in names && y in names
    ensures PathJoin(sub, x) == PathJoin(sub, y) ==> x == y
  {
    WalkedKey(keys, sub, e, names, x);
    WalkedKey(keys, sub, e, names, y);
    if e + Elements(x) == e + Elements(y) {
      PlainSuffix(e, Elements(x), Elements(y));
    }
  }

  /** Every key under the prefix is the full key of a name the walk found. */
  lemma KeyWalked(keys: set<string>, sub: string, e: seq<string>, names: seq<string>, k: string)
    requires CleanKeys(keys) && !IsAbs(sub) && Elements(sub) == e && Plain(e) && e != [] && sub == JoinAll(e) + "/"
    requires Lists(names, [], TreeOf(keys).Below(e)) && k in Under(keys, sub)
    ensures exists x :: x in names && PathJoin(sub, x) == k
  {
    UnderIsBelow(keys, e, k);
    var p := Elements(k);
    var r := p[|e|..];
    assert p in TreeOf(keys).files && e + r == p;
    assert r in TreeOf(keys).Below(e);
    PlainElements(r);
    JoinedUnder(sub, r);
    WalkedName(keys, e, names, JoinAll(r));
    assert JoinAll(r) in names && PathJoin(sub, JoinAll(r)) == k;
  }

  /** What the walk finds, joined onto the prefix, is exactly the keys under it, each once. */
  lemma FoundKeys(keys: set<string>, sub: string, e: seq<string>, names: seq<string>, objs: seq<string>)
    requires CleanKeys(keys) && !IsAbs(sub) && Elements(sub) == e && Plain(e) && e != [] && sub == JoinAll(e) + "/"
    requires Lists(names, [], TreeOf(keys).Below(e))
    requires |objs| == |names| && forall i :: 0 <= i < |names| ==> objs[i] == PathJoin(sub, names[i])
    ensures NoDup(objs) && KeySet(objs) == Under(keys, sub)
  {
    forall i, j | 0 <= i < j < |objs| ensures objs[i] != objs[j] {
      WalkedApart(keys, sub, e, names, names[i], names[j]);
    }
    forall k | k in objs ensures k in Under(keys, sub) {
      var i :| 0 <= i < |objs| && objs[i] == k;
      WalkedKey(keys, sub, e, names, names[i]);
    }
    forall k | k in Under(keys, sub) ensures k in objs {
      KeyWalked(keys, sub, e, names, k);
      var x :| x in names && PathJoin(sub, x) == k;
      var j :| 0 <= j < |names| && names[j] == x;
      assert objs[j] == k;
    }
  }

  class Bucket {
    var keys: set<string>
    const reliable: bool
    /** Every DeleteObjects request made, in order. */
    ghost var requests: seq<seq<string>>

    constructor (keys: set<string>, reliable: bool)
      ensures this.keys == keys && this.reliable == reliable && requests == []
    {
      this.keys, this.reliable, requests := keys, reliable, [];
    }

    /** One API call: at most 1000 keys, all removed or none. */
    method DeleteObjects(batch: seq<string>) returns (ok: bool)
      requires 0 < |batch| <= BATCH_SIZE
      modifies this
      ensures requests == old(requests) + [batch] && (reliable ==> ok)
      ensures keys == if ok then old(keys) - KeySet(batch) else old(keys)
    {
      ok := *;
      if reliable {
        ok := true;
      }
      requests := requests + [batch];
      if ok {
        keys := keys - KeySet(batch);
      }
    }

    /** deleteKnown on full keys: consecutive batches, stopping at the first failure. */
    method DeleteKnown(objs: seq<string>) returns (ok: bool, ghost batches: seq<seq<string>>)
      modifies this
      ensures requests == old(requests) + batches && (reliable ==> ok)
      ensures forall b :: b in batches ==> 0 < |b| <= BATCH_SIZE
      ensures forall j :: 0 <= j < |batches| - 1 ==> |batches[j]| == BATCH_SIZE
      ensures Flatten(batches) <= objs && (ok ==> Flatten(batches) == objs)
      ensures ok ==> keys == old(keys) - KeySet(objs)
      ensures keys <= old(keys) && forall k :: k in old(keys) - keys ==> k in objs
    {
      ok, batches := true, [];
      var i := 0;
      while i < |objs|
        invariant 0 <= i <= |objs| && ok && requests == old(requests) + batches
        invariant forall b :: b in batches ==> 0 < |b| <= BATCH_SIZE
        invariant forall j :: 0 <= j < |batches| ==> |batches[j]| == BATCH_SIZE || (j == |batches| - 1 && i == |objs|)
        invariant Flatten(batches) == objs[..i]
        invariant keys == old(keys) - KeySet(objs[..i])
      {
        var end := i + BATCH_SIZE;
        if end > |objs| {
          end := |objs|;
        }
        var batch := objs[i..end];
        ok := DeleteObjects(batch);
        batches := batches + [batch];
        assert batches[..|batches| - 1] + [batch] == batches && objs[..i] + batch == objs[..end];
        if !ok {
          return;
        }
        i := end;
      }
      assert objs[..i] == objs;
    }

    /** Walk and join: the full keys under the prefix, each once. A listing sees no other key. */
    method FindKeys(sub: string, ghost e: seq<string>) returns (objs: seq<string>)
      requires CleanKeys(Under(keys, sub)) && !IsAbs(sub) && Elements(sub) == e && Plain(e) && e != [] && sub == JoinAll(e) + "/"
      ensures NoDup(objs) && KeySet(objs) == Under(keys, sub)
    {
      var under := Under(keys, sub);
      var t := TreeOf(under);
      TreeOfValid(under);
      var names := Walk(t, Elements(sub), [], "", if Height(t.dirs) > |e| then Height(t.dirs) else |e|);
      objs := JoinNames(sub, names);
      FoundKeys(under, sub, e, names, objs);
      assert Under(under, sub) == under;
    }

    static method JoinNames(prefix: string, names: seq<string>) returns (objs: seq<string>)
      ensures |objs| == |names| && forall i :: 0 <= i < |names| ==> objs[i] == PathJoin(prefix, names[i])
    {
      objs := [];
      for i := 0 to |names|
        invariant |objs| == i && forall j :: 0 <= j < i ==> objs[j] == PathJoin(prefix, names[j])
      {
        objs := objs + [PathJoin(prefix, names[i])];
      }
    }

    /**
     * DeleteAll: a prefix with nothing under it is reported; otherwise exactly the keys
     * under "prefix/" go, each named once, in requests of at most 1000.
     */
    method DeleteAll(root: string, pathPrefix: string) returns (r: Outcome, ghost batches: seq<seq<string>>)
      requires !IsAbs(root) && Plain(Elements(root)) && ObjectKey(pathPrefix) == Ok(pathPrefix)
      requires CleanKeys(Under(keys, SubPrefix(root, pathPrefix)))
      modifies this
      ensures requests == old(requests) + batches && forall b :: b in batches ==> 0 < |b| <= BATCH_SIZE
      ensures var under := Under(old(keys), SubPrefix(root, pathPrefix));
        && (r == Missing <==> under == {})
        && (r == Deleted ==> keys == old(keys) - under && NoDup(Flatten(batches)) && KeySet(Flatten(batches)) == under)
        && old(keys) - under <= keys <= old(keys)
        && (reliable ==> r != Failed)
      ensures r == Deleted ==> forall k ::
        k in keys <==> k in old(keys) && !(JoinAll(Elements(root) + Elements(pathPrefix)) + "/" <= k)
    {
      SubPrefixForm(root, pathPrefix);
      r, batches := DeleteUnder(SubPrefix(root, pathPrefix), Elements(root) + Elements(pathPrefix));
    }

    method DeleteUnder(sub: string, ghost e: seq<string>) returns (r: Outcome, ghost batches: seq<seq<string>>)
      requires CleanKeys(Under(keys, sub)) && !IsAbs(sub) && Elements(sub) == e && Plain(e) && e != [] && sub == JoinAll(e) + "/"
      modifies this
      ensures requests == old(requests) + batches && forall b :: b in batches ==> 0 < |b| <= BATCH_SIZE
      ensures var under := Under(old(keys), sub);
        && (r == Missing <==> under == {})
        && (r == Deleted ==> keys == old(keys) - under && NoDup(Flatten(batches)) && KeySet(Flatten(batches)) == under)
        && old(keys) - under <= keys <= old(keys)
        && (reliable ==> r != Failed)
    {
      batches := [];
      var objs := FindKeys(sub, e);
      assert objs != [] ==> objs[0] in KeySet(objs);
      if objs == [] {
        return Missing, batches;
      }
      var ok;
      ok, batches := DeleteKnown(objs);
      r := if ok then Deleted else Failed;
    }
  }
}
