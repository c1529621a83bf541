/** S3's flat listing, paged by marker (the ListObjects v1 loop of s3/storage.go). */
module S3Listing {
  import opened Paths
  import opened Trees
  import opened KeyOrder

  /** The keys under a prefix, in the bucket's order. */
  function Matching(keys: seq<string>, prefix: string): seq<string>
  {
    if keys == [] then []
    else
      var front, last := Matching(keys[..|keys| - 1], prefix), keys[|keys| - 1];
      if HasPrefix(last, prefix) then front + [last] else front
  }

  /** The keys after a marker. */
  function After(keys: seq<string>, marker: string): seq<string>
  {
    if keys == [] || Less(marker, keys[0]) then keys else After(keys[1..], marker)
  }

  /** A bucket's keys, in order; S3 has no empty key. */
  ghost predicate Ordered(keys: seq<string>) { StrictlySorted(keys) && forall k :: k in keys ==> k != "" }

  datatype Page = Page(contents: seq<string>, truncated: bool, nextMarker: string)

  /**
   * A server that answers with some of the keys after the marker, from the first on: all
   * of them, or at least one and the promise of more. NextMarker may be left out.
   */
  method ListObjects(keys: seq<string>, prefix: string, marker: string) returns (page: Page)
    requires Ordered(keys)
    ensures var rest := After(Matching(keys, prefix), marker);
      && page.contents <= rest
      && (page.truncated <==> |page.contents| < |rest|)
      && (page.truncated ==> page.contents != [])
      && (page.nextMarker == "" || (page.contents != [] && page.nextMarker == page.contents[|page.contents| - 1]))
  {
    var rest := After(Matching(keys, prefix), marker);
    var n: nat :| n <= |rest| && (rest == [] || n >= 1);
    var contents := rest[..n];
    var named: bool := *;
    page := Page(contents, n < |rest|, if named && n > 0 then contents[n - 1] else "");
  }

  /** What List answers for keys under a prefix: each without it, the prefix's own key left out. */
  function Names(keys: seq<string>, prefix: string): seq<string>
    requires forall k :: k in keys ==> HasPrefix(k, prefix)
  {
    if keys == [] then []
    else
      var last := keys[|keys| - 1];
      assert last in keys && HasPrefix(last, prefix);
      var front := Names(keys[..|keys| - 1], prefix);
      if last == prefix then front else front + [last[|prefix|..]]
  }

  lemma {:induction false} MatchingMembers(keys: seq<string>, prefix: string, k: string)
    ensures k in Matching(keys, prefix) <==> k in keys && HasPrefix(k, prefix)
  {
    if keys != [] {
      var front, last := keys[..|keys| - 1], keys[|keys| - 1];
      assert keys == front + [last];
      MatchingMembers(front, prefix, k);
    }
  }

  lemma OrderedFront(keys: seq<string>)
    requires Ordered(keys) && keys != []
    ensures var n := |keys| - 1; Ordered(keys[..n]) && keys[n] != "" && forall k :: k in keys[..n] ==> Less(k, keys[n])
  {
    var n := |keys| - 1;
    assert keys[n] in keys && forall k :: k in keys[..n] ==> k in keys;
  }

  lemma OrderedAppend(front: seq<string>, last: string)
    requires Ordered(front) && last != "" && forall k :: k in front ==> Less(k, last)
    ensures Ordered(front + [last])
  {
  }

  lemma {:induction false} MatchingOrdered(keys: seq<string>, prefix: string)
    requires Ordered(keys)
    ensures Ordered(Matching(keys, prefix))
    ensures forall k :: k in Matching(keys, prefix) ==> HasPrefix(k, prefix)
  {
    if keys != [] {
      var n := |keys| - 1;
      OrderedFront(keys);
      MatchingOrdered(keys[..n], prefix);
      forall k { MatchingMembers(keys[..n], prefix, k); }
      OrderedAppend(Matching(keys[..n], prefix), keys[n]);
    }
  }

  /** A key of the list as marker leaves exactly the keys behind it; no marker leaves all. */
  lemma {:induction false} AfterKey(keys: seq<string>, i: nat)
    requires Ordered(keys) && i <= |keys|
    ensures After(keys, if i == 0 then "" else keys[i - 1]) == keys[i..]
  {
    if i == 0 {
      assert keys[0..] == keys;
      if keys != [] { assert keys[0] in keys; }
    } else {
      var marker := keys[i - 1];
      LessTotal(marker, keys[0]);
      assert i > 1 ==> Less(keys[0], marker);
      if i == 1 {
        AfterSame(keys);
      } else {
        AfterKey(keys[1..], i - 1);
        assert keys[1..][i - 1..] == keys[i..];
      }
    }
  }

  lemma AfterSame(keys: seq<string>)
    requires Ordered(keys) && keys != []
    ensures After(keys, keys[0]) == keys[1..]
  {
    LessTotal(keys[0], keys[0]);
    if |keys| > 1 {
      assert Less(keys[0], keys[1]) && keys[1..][0] == keys[1];
    }
  }

  lemma {:induction false} NamesConcat(a: seq<string>, b: seq<string>, prefix: string)
    requires forall k :: k in a + b ==> HasPrefix(k, prefix)
    ensures Names(a + b, prefix) == Names(a, prefix) + Names(b, prefix)
  {
    if b == [] {
      assert a + b == a;
    } else {
      var n := |b| - 1;
      assert (a + b)[..|a + b| - 1] == a + b[..n] && (a + b)[|a + b| - 1] == b[n];
      NamesConcat(a, b[..n], prefix);
    }
  }

  lemma {:induction false} NamesMembers(keys: seq<string>, prefix: string, x: string)
    requires forall k :: k in keys ==> HasPrefix(k, prefix)
    ensures x in Names(keys, prefix) <==> x != "" && prefix + x in keys
  {
    if keys != [] {
      var n := |keys| - 1;
      var front, last := keys[..n], keys[n];
      assert keys == front + [last] && last in keys && forall k :: k in front ==> k in keys;
      NamesMembers(front, prefix, x);
      var name := DropPrefix(last, prefix);
      assert last[|prefix|..] == name && (prefix + x)[|prefix|..] == x;
    }
  }

  lemma {:induction false} NamesSorted(keys: seq<string>, prefix: string)
    requires Ordered(keys) && forall k :: k in keys ==> HasPrefix(k, prefix)
    ensures StrictlySorted(Names(keys, prefix))
  {
    if keys != [] {
      var n := |keys| - 1;
      var front, last := keys[..n], keys[n];
      OrderedFront(keys);
      assert last in keys && forall k :: k in front ==> k in keys;
      NamesSorted(front, prefix);
      var name := DropPrefix(last, prefix);
      var before := Names(front, prefix);
      forall i | 0 <= i < |before| ensures Less(before[i], name) {
        NamesMembers(front, prefix, before[i]);
        LessPastPrefix(prefix, before[i], name);
      }
      assert last[|prefix|..] == name;
    }
  }

  /** Every key under the prefix is answered for exactly once, trimmed, in order. */
  lemma NamesExactly(keys: seq<string>, prefix: string)
    requires Ordered(keys) && forall k :: k in keys ==> HasPrefix(k, prefix)
    ensures forall x :: x in Names(keys, prefix) <==> x != "" && prefix + x in keys
    ensures StrictlySorted(Names(keys, prefix))
  {
    forall x { NamesMembers(keys, prefix, x); }
    NamesSorted(keys, prefix);
  }

  lemma ListedExactly(keys: seq<string>, prefix: string)
    requires Ordered(keys)
    ensures Ordered(Matching(keys, prefix)) && forall k :: k in Matching(keys, prefix) ==> HasPrefix(k, prefix)
    ensures forall x :: x in Names(Matching(keys, prefix), prefix) <==> x != "" && prefix + x in keys
    ensures StrictlySorted(Names(Matching(keys, prefix), prefix))
  {
    MatchingOrdered(keys, prefix);
    NamesExactly(Matching(keys, prefix), prefix);
    forall x { MatchingMembers(keys, prefix, prefix + x); }
  }

  /** What one page adds to what was listed so far. */
  lemma PageStep(ms: seq<string>, seen: nat, contents: seq<string>, prefix: string)
    requires forall k :: k in ms ==> HasPrefix(k, prefix)
    requires seen <= |ms| && contents <= ms[seen..]
    ensures forall k :: k in contents ==> HasPrefix(k, prefix)
    ensures Names(ms[..seen + |contents|], prefix) == Names(ms[..seen], prefix) + Names(contents, prefix)
    ensures contents != [] ==> contents[|contents| - 1] == ms[seen + |contents| - 1]
    ensures ms[seen..][|contents|..] == ms[seen + |contents|..]
  {
    assert ms[..seen + |contents|] == ms[..seen] + contents;
    assert forall k :: k in contents ==> k in ms[seen..];
    NamesConcat(ms[..seen], contents, prefix);
  }

  /** v1 List: every key under the prefix once, without the prefix, in order. */
  method ListV1(keys: seq<string>, prefix: string) returns (res: seq<string>)
    requires Ordered(keys)
    ensures forall x :: x in res <==> x != "" && prefix + x in keys
    ensures StrictlySorted(res)
  {
    ListedExactly(keys, prefix);
    res := ListPages(keys, prefix, Matching(keys, prefix));
  }

  /** The loop: page after page from the last key seen, until a page is not truncated. */
  method ListPages(keys: seq<string>, prefix: string, ghost ms: seq<string>) returns (res: seq<string>)
    requires Ordered(keys) && ms == Matching(keys, prefix) && Ordered(ms) && forall k :: k in ms ==> HasPrefix(k, prefix)
    ensures res == Names(ms, prefix)
  {
    var marker := "";
    ghost var seen := 0;
    res := [];
    AfterKey(ms, 0);
    while true
      invariant seen <= |ms| && After(ms, marker) == ms[seen..]
      invariant res == Names(ms[..seen], prefix)
      decreases |ms| - seen
    {
      var page := ListObjects(keys, prefix, marker);
      PageStep(ms, seen, page.contents, prefix);
      var names := Collect(page.contents, prefix);
      res := res + names;
      seen := seen + |page.contents|;
      if !page.truncated {
        break;
      }
      marker := page.nextMarker;
      if marker == "" && page.contents != [] {
        marker := page.contents[|page.contents| - 1];
      }
      assert ms[seen - 1] in ms;
      if marker == "" {
        break;
      }
      AfterKey(ms, seen);
    }
    assert ms[..|ms|] == ms;
  }

  /** collect: the names of one page, appended one by one. */
  method Collect(contents: seq<string>, prefix: string) returns (names: seq<string>)
    requires forall k :: k in contents ==> HasPrefix(k, prefix)
    ensures names == Names(contents, prefix)
  {
    names := [];
    for i := 0 to |contents|
      invariant names == Names(contents[..i], prefix)
    {
      assert contents[..i + 1][..i] == contents[..i] && contents[i] in contents;
      var name := contents[i][|prefix|..];
      assert contents[i] == prefix + name;
      if name != "" {
        names := names + [name];
      }
    }
    assert contents[..|contents|] == contents;
  }
}
