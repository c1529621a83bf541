/**
 * Slash-separated paths: Go's path.Clean and path.Join, written as the documented
 * component-stack rules, and the normal form that both of them keep.
 */
module Paths {
  predicate HasPrefix(s: string, prefix: string) { prefix <= s }

  predicate IsAbs(s: string) { s != "" && s[0] == '/' }

  /** strings.Split(s, "/"). */
  function Split(s: string): (cs: seq<string>)
    ensures |cs| >= 1
  {
    if s == "" then [""]
    else
      var rest := Split(s[1..]);
      if s[0] == '/' then [""] + rest else Prepend(s[0], rest)
  }

  /** One more character in front of the first element. */
  function Prepend(c: char, cs: seq<string>): seq<string>
    requires cs != []
  {
    [[c] + cs[0]] + cs[1..]
  }

  /** strings.Join(cs, "/"). */
  function JoinAll(cs: seq<string>): string
  {
    if cs == [] then "" else if |cs| == 1 then cs[0] else cs[0] + "/" + JoinAll(cs[1..])
  }

  /** One element of path.Clean: "" and "." vanish, ".." takes back a real element if there is one. */
  function Push(rooted: bool, stack: seq<string>, c: string): seq<string>
  {
    if c == "" || c == "." then stack
    else if c != ".." then stack + [c]
    else if stack != [] && stack[|stack| - 1] != ".." then stack[..|stack| - 1]
    else if rooted then stack
    else stack + [".."]
  }

  function Resolve(rooted: bool, stack: seq<string>, cs: seq<string>): seq<string>
    decreases |cs|
  {
    if cs == [] then stack else Resolve(rooted, Push(rooted, stack, cs[0]), cs[1..])
  }

  /** Where a path leads: its elements once every "", "." and inner ".." is gone. */
  function Elements(s: string): seq<string> { Resolve(IsAbs(s), [], Split(s)) }

  function Render(rooted: bool, cs: seq<string>): string
  {
    var out := if rooted then "/" + JoinAll(cs) else JoinAll(cs);
    if out == "" then "." else out
  }

  function Clean(s: string): string { Render(IsAbs(s), Elements(s)) }

  function PathJoin(a: string, b: string): string
  {
    if a == "" && b == "" then "" else if a == "" then Clean(b) else Clean(a + "/" + b)
  }

  predicate Real(c: string) { c != "" && c != "." && c != ".." && '/' !in c }

  /** Elements that name something below where they start. */
  predicate Plain(cs: seq<string>) { forall i :: 0 <= i < |cs| ==> Real(cs[i]) }

  /** What Resolve leaves: real elements, after leading ".." ones if the path is relative. */
  predicate Normal(rooted: bool, cs: seq<string>)
  {
    && (forall i :: 0 <= i < |cs| ==> cs[i] != "" && cs[i] != "." && '/' !in cs[i] && (rooted ==> cs[i] != ".."))
    && (forall i, j :: 0 <= i < j < |cs| && cs[j] == ".." ==> cs[i] == "..")
  }

  // ----- splitting and joining -----

  /** No element of a split path holds a slash. */
  predicate Slashless(cs: seq<string>) { forall i :: 0 <= i < |cs| ==> '/' !in cs[i] }

  lemma {:induction false} SplitSlashless(s: string)
    ensures Slashless(Split(s))
  {
    if s != "" {
      SplitSlashless(s[1..]);
    }
  }

  lemma {:induction false} SplitWord(c: string)
    requires '/' !in c
    ensures Split(c) == [c]
  {
    if c != "" {
      SplitWord(c[1..]);
      assert [c[0]] + c[1..] == c;
    }
  }

  lemma PrependConcat(c: char, a: seq<string>, b: seq<string>)
    requires a != []
    ensures Prepend(c, a + b) == Prepend(c, a) + b
  {
  }

  lemma {:induction false} SplitConcat(a: string, b: string)
    ensures Split(a + "/" + b) == Split(a) + Split(b)
  {
    if a == "" {
      assert "" + "/" + b == "/" + b;
      assert ("/" + b)[1..] == b;
    } else {
      SplitConcat(a[1..], b);
      var s, rest, tail := a + "/" + b, Split(a[1..]), Split(b);
      assert s[1..] == a[1..] + "/" + b && s[0] == a[0];
      if a[0] == '/' {
        assert [""] + (rest + tail) == ([""] + rest) + tail;
      } else {
        PrependConcat(a[0], rest, tail);
      }
    }
  }

  lemma {:induction false} SplitJoin(cs: seq<string>)
    requires cs != [] && Slashless(cs)
    ensures Split(JoinAll(cs)) == cs
  {
    SplitWord(cs[0]);
    if |cs| > 1 {
      SplitJoin(cs[1..]);
      SplitConcat(cs[0], JoinAll(cs[1..]));
      assert [cs[0]] + cs[1..] == cs;
    }
  }

  /** Joining loses nothing: equal strings come from equal elements. */
  lemma JoinInjective(a: seq<string>, b: seq<string>)
    requires Plain(a) && Plain(b) && JoinAll(a) == JoinAll(b)
    ensures a == b
  {
    if a == [] || b == [] {
      JoinNonempty(a);
      JoinNonempty(b);
    } else {
      SplitJoin(a);
      SplitJoin(b);
    }
  }

  lemma JoinNonempty(cs: seq<string>)
    requires Plain(cs)
    ensures JoinAll(cs) == "" <==> cs == []
    ensures cs != [] ==> !IsAbs(JoinAll(cs))
  {
    if cs != [] {
      assert Real(cs[0]) && cs[0][0] in cs[0];
    }
  }

  lemma {:induction false} JoinConcat(a: seq<string>, b: seq<string>)
    requires a != [] && b != []
    ensures JoinAll(a + b) == JoinAll(a) + "/" + JoinAll(b)
  {
    if |a| == 1 {
      assert (a + b)[1..] == b;
    } else {
      JoinConcat(a[1..], b);
      assert (a + b)[1..] == a[1..] + b;
    }
  }

  /** The string test for "under": s begins with "p/" exactly when p's elements begin s's. */
  lemma PrefixIsElementPrefix(p: seq<string>, s: seq<string>)
    requires Plain(p) && Plain(s) && p != []
    ensures HasPrefix(JoinAll(s), JoinAll(p) + "/") <==> (p <= s && |p| < |s|)
  {
    if p <= s && |p| < |s| {
      var rest := s[|p|..];
      assert s == p + rest;
      JoinExtends(p, rest);
    } else if HasPrefix(JoinAll(s), JoinAll(p) + "/") {
      var rest := DropPrefix(JoinAll(s), JoinAll(p) + "/");
      PrefixSplits(p, s, rest);
    }
  }

  lemma DropPrefix(s: string, front: string) returns (rest: string)
    requires HasPrefix(s, front)
    ensures s == front + rest
  {
    rest := s[|front|..];
  }

  lemma JoinExtends(p: seq<string>, rest: seq<string>)
    requires p != [] && rest != []
    ensures HasPrefix(JoinAll(p + rest), JoinAll(p) + "/")
  {
    JoinConcat(p, rest);
  }

  lemma PrefixSplits(p: seq<string>, s: seq<string>, rest: string)
    requires Plain(p) && Plain(s) && p != []
    requires JoinAll(s) == JoinAll(p) + "/" + rest
    ensures p <= s && |p| < |s|
  {
    SplitConcat(JoinAll(p), rest);
    SplitJoin(p);
    JoinNonempty(s);
    SplitJoin(s);
    assert s == p + Split(rest);
  }

  // ----- resolving -----

  lemma {:induction false} ResolveConcat(rooted: bool, stack: seq<string>, a: seq<string>, b: seq<string>)
    ensures Resolve(rooted, stack, a + b) == Resolve(rooted, Resolve(rooted, stack, a), b)
    decreases |a|
  {
    if a == [] {
      assert a + b == b;
    } else {
      assert (a + b)[1..] == a[1..] + b;
      ResolveConcat(rooted, Push(rooted, stack, a[0]), a[1..], b);
    }
  }

  lemma {:induction false} ResolveNormal(rooted: bool, stack: seq<string>, cs: seq<string>)
    requires Normal(rooted, stack + cs)
    ensures Resolve(rooted, stack, cs) == stack + cs
    decreases |cs|
  {
    if cs == [] {
      assert stack + cs == stack;
    } else {
      var whole := stack + cs;
      assert whole[|stack|] == cs[0];
      assert stack + [cs[0]] + cs[1..] == whole;
      if stack != [] {
        assert whole[|stack| - 1] == stack[|stack| - 1];
      }
      assert Push(rooted, stack, cs[0]) == stack + [cs[0]];
      ResolveNormal(rooted, stack + [cs[0]], cs[1..]);
    }
  }

  lemma {:induction false} ResolveIsNormal(rooted: bool, stack: seq<string>, cs: seq<string>)
    requires Normal(rooted, stack) && Slashless(cs)
    ensures Normal(rooted, Resolve(rooted, stack, cs))
    decreases |cs|
  {
    if cs != [] {
      ResolveIsNormal(rooted, Push(rooted, stack, cs[0]), cs[1..]);
    }
  }

  lemma ElementsNormal(s: string)
    ensures Normal(IsAbs(s), Elements(s))
  {
    SplitSlashless(s);
    ResolveIsNormal(IsAbs(s), [], Split(s));
  }

  lemma RenderEmpty(rooted: bool)
    ensures IsAbs(Render(rooted, [])) == rooted && Elements(Render(rooted, [])) == []
  {
    if rooted {
      SplitConcat("", "");
      assert "/" == "" + "/" + "";
      ResolveConcat(true, [], [""], [""]);
    } else {
      SplitWord(".");
    }
  }

  lemma SplitRendered(rooted: bool, cs: seq<string>)
    requires Normal(rooted, cs) && cs != []
    ensures IsAbs(Render(rooted, cs)) == rooted
    ensures Split(Render(rooted, cs)) == if rooted then [""] + cs else cs
  {
    assert cs[0] != "" && cs[0][0] in cs[0];
    var body := JoinAll(cs);
    assert body != "" && body[0] == cs[0][0];
    SplitJoin(cs);
    if rooted {
      assert "/" + body == "" + "/" + body;
      SplitConcat("", body);
    }
  }

  /** Rendering a normal form and reading it back changes nothing. */
  lemma RenderKeepsElements(rooted: bool, cs: seq<string>)
    requires Normal(rooted, cs)
    ensures IsAbs(Render(rooted, cs)) == rooted && Elements(Render(rooted, cs)) == cs
  {
    if cs == [] {
      RenderEmpty(rooted);
    } else {
      SplitRendered(rooted, cs);
      assert [] + cs == cs;
      ResolveNormal(rooted, [], cs);
      ResolveConcat(rooted, [], [""], cs);
    }
  }

  /** path.Clean keeps where a path leads, and cleaning again changes nothing. */
  lemma CleanKeepsElements(s: string)
    ensures IsAbs(Clean(s)) == IsAbs(s) && Elements(Clean(s)) == Elements(s)
    ensures Clean(Clean(s)) == Clean(s)
  {
    ElementsNormal(s);
    RenderKeepsElements(IsAbs(s), Elements(s));
  }

  /** What follows a slash is resolved from where the part before it leads. */
  lemma ElementsOfJoined(a: string, tail: string)
    requires a != ""
    ensures IsAbs(a + "/" + tail) == IsAbs(a)
    ensures Elements(a + "/" + tail) == Resolve(IsAbs(a), Elements(a), Split(tail))
  {
    SplitConcat(a, tail);
    ResolveConcat(IsAbs(a), [], Split(a), Split(tail));
  }

  /** ".." takes back the element before it, wherever it stands. */
  lemma DotDotTakesBack(a: string, c: string, tail: string)
    requires a != "" && Real(c)
    ensures Elements(a + "/" + c + "/..") == Elements(a)
    ensures Elements(a + "/" + c + "/../" + tail) == Elements(a + "/" + tail)
  {
    SplitWord(c);
    SplitWord("..");
    var down, up := a + "/" + c, a + "/" + c + "/..";
    ElementsOfJoined(a, c);
    assert Elements(down) == Elements(a) + [c];
    assert up == down + "/" + "..";
    ElementsOfJoined(down, "..");
    assert (Elements(a) + [c])[..|Elements(a)|] == Elements(a);
    assert a + "/" + c + "/../" + tail == up + "/" + tail;
    ElementsOfJoined(up, tail);
    ElementsOfJoined(a, tail);
  }

  /** With nothing to take back it stays at the root, and climbs on a relative path. */
  lemma DotDotClimbs(a: string)
    requires a != "" && (Elements(a) == [] || Elements(a)[|Elements(a)| - 1] == "..")
    ensures Elements(a + "/..") == if IsAbs(a) then [] else Elements(a) + [".."]
  {
    SplitWord("..");
    assert a + "/.." == a + "/" + "..";
    ElementsOfJoined(a, "..");
    ElementsNormal(a);
  }

  /** The parent of a clean path. */
  lemma ParentOf(cs: seq<string>)
    requires Plain(cs) && cs != []
    ensures Elements(JoinAll(cs) + "/..") == cs[..|cs| - 1]
  {
    var n := |cs| - 1;
    PlainElements(cs);
    JoinNonempty(cs);
    SplitWord("..");
    assert JoinAll(cs) + "/.." == JoinAll(cs) + "/" + "..";
    ElementsOfJoined(JoinAll(cs), "..");
    assert Real(cs[n]);
  }

  lemma ResolveDescends(rooted: bool, stack: seq<string>, b: seq<string>)
    requires Normal(rooted, stack) && Plain(b)
    ensures Resolve(rooted, stack, if b == [] then [""] else b) == stack + b
  {
    if b == [] {
      assert stack + b == stack;
    } else {
      ResolveNormal(rooted, stack, b);
    }
  }

  lemma SplitPlain(b: seq<string>)
    requires Plain(b)
    ensures Split(JoinAll(b)) == if b == [] then [""] else b
  {
    if b != [] {
      SplitJoin(b);
    }
  }

  /** Joining plain elements onto any path goes down by exactly those elements. */
  lemma JoinDescends(a: string, b: seq<string>)
    requires Plain(b)
    ensures var j := PathJoin(a, JoinAll(b));
            IsAbs(j) == IsAbs(a) && Elements(j) == Elements(a) + b
  {
    var tail := JoinAll(b);
    SplitPlain(b);
    if a == "" {
      JoinNonempty(b);
      assert Elements("") == [] && [] + b == b;
      ResolveDescends(false, [], b);
      CleanKeepsElements(tail);
    } else {
      ElementsNormal(a);
      ElementsOfJoined(a, tail);
      ResolveDescends(IsAbs(a), Elements(a), b);
      CleanKeepsElements(a + "/" + tail);
    }
  }

  lemma PlainElements(cs: seq<string>)
    requires Plain(cs)
    ensures !IsAbs(JoinAll(cs)) && Elements(JoinAll(cs)) == cs
  {
    if cs != [] {
      JoinNonempty(cs);
      RenderKeepsElements(false, cs);
    }
  }

  /** Joined keys are the elements laid end to end, whatever the prefix looked like before cleaning. */
  lemma JoinedUnder(prefix: string, name: seq<string>)
    requires !IsAbs(prefix) && Plain(Elements(prefix)) && Plain(name) && name != []
    ensures PathJoin(prefix, JoinAll(name)) == JoinAll(Elements(prefix) + name)
  {
    var b := JoinAll(name);
    JoinNonempty(name);
    JoinDescends(prefix, name);
    var joined := if prefix == "" then b else prefix + "/" + b;
    CleanKeepsElements(joined);
    JoinNonempty(Elements(prefix) + name);
  }

  lemma JoinedKey(prefix: seq<string>, name: seq<string>)
    requires Plain(prefix) && Plain(name) && name != []
    ensures PathJoin(JoinAll(prefix), JoinAll(name)) == JoinAll(prefix + name)
  {
    PlainElements(prefix);
    JoinedUnder(JoinAll(prefix), name);
  }
}
