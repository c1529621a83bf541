/** The key guard (guard.go): which keys it lets through, and where they can lead. */
module Guard {
  import opened Common
  import opened Paths

  datatype Gate = Ok(key: string) | UnsafeKey

  predicate Escapes(cleaned: string) { cleaned == ".." || HasPrefix(cleaned, "../") }

  function CleanKey(key: string): Gate
  {
    if IsAbs(key) then UnsafeKey
    else if key == "" then Ok("")
    else
      var cleaned := Clean(key);
      if Escapes(cleaned) then UnsafeKey else if cleaned == "." then Ok("") else Ok(cleaned)
  }

  function ObjectKey(key: string): Gate
  {
    var cleaned := CleanKey(key);
    if cleaned.Ok? && cleaned.key == "" then UnsafeKey else cleaned
  }

  function ListPrefix(prefix: string): Gate { CleanKey(prefix) }

  // ----- which keys pass -----

  function Delta(c: string): int { if c == "" || c == "." then 0 else if c == ".." then -1 else 1 }

  /** Walking the elements one by one from `depth` levels down never climbs above the start. */
  predicate StaysInside(depth: int, cs: seq<string>)
    decreases |cs|
  {
    cs == [] || (depth + Delta(cs[0]) >= 0 && StaysInside(depth + Delta(cs[0]), cs[1..]))
  }

  lemma {:induction false} ClimbedOutForGood(stack: seq<string>, cs: seq<string>)
    requires stack != [] && stack[0] == ".."
    ensures Resolve(false, stack, cs) != [] && Resolve(false, stack, cs)[0] == ".."
    decreases |cs|
  {
    if cs != [] {
      ClimbedOutForGood(Push(false, stack, cs[0]), cs[1..]);
    }
  }

  lemma {:induction false} DepthDecides(stack: seq<string>, cs: seq<string>)
    requires Plain(stack) && Slashless(cs)
    ensures StaysInside(|stack|, cs) <==> Plain(Resolve(false, stack, cs))
    ensures !StaysInside(|stack|, cs) ==> Resolve(false, stack, cs) != [] && Resolve(false, stack, cs)[0] == ".."
    decreases |cs|
  {
    if cs != [] {
      var next := Push(false, stack, cs[0]);
      if |stack| + Delta(cs[0]) < 0 {
        ClimbedOutForGood(next, cs[1..]);
      } else {
        assert Plain(next) && |next| == |stack| + Delta(cs[0]);
        DepthDecides(next, cs[1..]);
      }
    }
  }

  lemma EscapesIffClimbs(cs: seq<string>)
    requires Normal(false, cs)
    ensures Escapes(Render(false, cs)) <==> cs != [] && cs[0] == ".."
    ensures Render(false, cs) == "." <==> cs == []
  {
    if cs != [] {
      var s := JoinAll(cs);
      SplitJoin(cs);
      if s == ".." || s == "." {
        SplitWord(s);
      } else if HasPrefix(s, "../") {
        assert s == ".." + "/" + s[3..];
        SplitConcat("..", s[3..]);
        SplitWord("..");
      }
    }
  }

  /** clean accepts exactly the relative keys that never climb out, and answers with their elements. */
  lemma CleanExactly(key: string)
    ensures CleanKey(key).Ok? <==> !IsAbs(key) && StaysInside(0, Split(key))
    ensures CleanKey(key).Ok? ==> Plain(Elements(key)) && CleanKey(key).key == JoinAll(Elements(key))
  {
    if !IsAbs(key) {
      SplitSlashless(key);
      DepthDecides([], Split(key));
      ElementsNormal(key);
      EscapesIffClimbs(Elements(key));
    }
  }

  /** objectKey accepts those of them that name something below the root. */
  lemma ObjectKeyExactly(key: string)
    ensures ObjectKey(key).Ok? <==> CleanKey(key).Ok? && Elements(key) != []
    ensures ObjectKey(key).Ok? ==> ObjectKey(key) == CleanKey(key)
  {
    CleanExactly(key);
    if CleanKey(key).Ok? {
      JoinNonempty(Elements(key));
    }
  }

  lemma CleanIdempotent(key: string)
    requires CleanKey(key).Ok?
    ensures CleanKey(CleanKey(key).key) == CleanKey(key)
    ensures Elements(CleanKey(key).key) == Elements(key)
  {
    CleanExactly(key);
    var cs := Elements(key);
    JoinNonempty(cs);
    if cs != [] {
      RenderKeepsElements(false, cs);
    }
  }

  /** A step down and back up inside a key leaves the key that is handed on as it was. */
  lemma DetourIsCleaned(a: string, c: string, tail: string)
    requires a != "" && Real(c)
    ensures CleanKey(a + "/" + c + "/../" + tail) == CleanKey(a + "/" + tail)
  {
    DotDotTakesBack(a, c, tail);
  }

  // ----- where navigation can lead -----

  function FixPrefix(prefix: string): string
  {
    if prefix != "" && prefix[|prefix| - 1] != '/' then prefix + "/" else prefix
  }

  /** A backend's relative SubStorage: object stores keep their prefix ending in a slash. */
  function Reroot(slash: bool, cwd: string, sub: string): string
  {
    if slash then FixPrefix(PathJoin(cwd, sub)) else PathJoin(cwd, sub)
  }

  /** The working directory after a chain of guarded relative SubStorage calls; None if one is refused. */
  function Navigate(slash: bool, cwd: string, subs: seq<string>): Option<string>
    decreases |subs|
  {
    if subs == [] then Some(cwd)
    else
      match ListPrefix(subs[0])
      case UnsafeKey => None
      case Ok(safe) => Navigate(slash, Reroot(slash, cwd, safe), subs[1..])
  }

  /** The elements a chain of sub-paths spells out. */
  function Descent(subs: seq<string>): seq<string>
  {
    if subs == [] then [] else Elements(subs[0]) + Descent(subs[1..])
  }

  /** Descent by one sub-path after another. */
  lemma {:induction false} DescentLaws(subs: seq<string>, more: seq<string>, sub: string)
    ensures Descent([sub]) == Elements(sub)
    ensures Descent(subs + more) == Descent(subs) + Descent(more)
  {
    if subs == [] {
      assert subs + more == more;
    } else {
      assert (subs + more)[1..] == subs[1..] + more;
      DescentLaws(subs[1..], more, sub);
      Assoc(Elements(subs[0]), Descent(subs[1..]), Descent(more));
    }
    assert [sub][1..] == [];
  }

  /** A chain is refused exactly when one of its sub-paths is, wherever it starts. */
  lemma {:induction false} NavigateAccepts(slash: bool, cwd: string, subs: seq<string>)
    ensures Navigate(slash, cwd, subs).Some? <==> forall i :: 0 <= i < |subs| ==> ListPrefix(subs[i]).Ok?
    decreases |subs|
  {
    if subs != [] && ListPrefix(subs[0]).Ok? {
      NavigateAccepts(slash, Reroot(slash, cwd, ListPrefix(subs[0]).key), subs[1..]);
      assert forall i :: 0 < i < |subs| ==> subs[i] == subs[1..][i - 1];
    }
  }

  lemma FixPrefixKeeps(s: string)
    ensures IsAbs(FixPrefix(s)) == IsAbs(s) && Elements(FixPrefix(s)) == Elements(s)
  {
    if FixPrefix(s) != s {
      assert FixPrefix(s) == s + "/" + "";
      SplitConcat(s, "");
      ResolveConcat(IsAbs(s), [], Split(s), [""]);
    }
  }

  lemma RerootDescends(slash: bool, cwd: string, sub: string)
    requires ListPrefix(sub).Ok?
    ensures var next := Reroot(slash, cwd, ListPrefix(sub).key);
            IsAbs(next) == IsAbs(cwd) && Elements(next) == Elements(cwd) + Elements(sub)
  {
    CleanExactly(sub);
    JoinDescends(cwd, Elements(sub));
    FixPrefixKeeps(PathJoin(cwd, ListPrefix(sub).key));
  }

  lemma Assoc(a: seq<string>, b: seq<string>, c: seq<string>)
    ensures (a + b) + c == a + (b + c)
  {
  }

  lemma PlainConcat(a: seq<string>, b: seq<string>)
    requires Plain(a) && Plain(b)
    ensures Plain(a + b)
  {
  }

  lemma {:induction false} DescentPlain(slash: bool, cwd: string, subs: seq<string>)
    requires Navigate(slash, cwd, subs).Some?
    ensures Plain(Descent(subs))
    decreases |subs|
  {
    if subs != [] {
      CleanExactly(subs[0]);
      DescentPlain(slash, Reroot(slash, cwd, ListPrefix(subs[0]).key), subs[1..]);
      PlainConcat(Elements(subs[0]), Descent(subs[1..]));
    }
  }

  lemma {:induction false} NavigateDescends(slash: bool, cwd: string, subs: seq<string>)
    requires Navigate(slash, cwd, subs).Some?
    ensures var end := Navigate(slash, cwd, subs).value;
            IsAbs(end) == IsAbs(cwd) && Elements(end) == Elements(cwd) + Descent(subs)
    decreases |subs|
  {
    if subs != [] {
      RerootDescends(slash, cwd, subs[0]);
      NavigateDescends(slash, Reroot(slash, cwd, ListPrefix(subs[0]).key), subs[1..]);
      Assoc(Elements(cwd), Elements(subs[0]), Descent(subs[1..]));
    }
  }

  /**
   * Containment: whatever root a guarded storage was given and however it was navigated,
   * a key that passes leads at or under that root, strictly under it for an object, by
   * exactly the elements its sub-paths and the key itself spell out.
   */
  lemma Containment(slash: bool, root: string, subs: seq<string>, key: string)
    requires Navigate(slash, root, subs).Some? && ListPrefix(key).Ok?
    ensures var full := PathJoin(Navigate(slash, root, subs).value, ListPrefix(key).key);
      && IsAbs(full) == IsAbs(root)
      && Elements(full) == Elements(root) + (Descent(subs) + Elements(key))
      && Plain(Descent(subs) + Elements(key))
      && (ObjectKey(key).Ok? ==> |Elements(root)| < |Elements(full)|)
  {
    var cwd := Navigate(slash, root, subs).value;
    NavigateDescends(slash, root, subs);
    DescentPlain(slash, root, subs);
    CleanExactly(key);
    ObjectKeyExactly(key);
    PlainConcat(Descent(subs), Elements(key));
    RerootDescends(false, cwd, key);
    Assoc(Elements(root), Descent(subs), Elements(key));
  }

  /** guard.Delete: every path is gated before any reaches the store. */
  method GateAll(paths: seq<string>) returns (safe: Option<seq<string>>)
    ensures safe.Some? <==> forall i :: 0 <= i < |paths| ==> ObjectKey(paths[i]).Ok?
    ensures safe.Some? ==> |safe.value| == |paths|
    ensures safe.Some? ==> forall i :: 0 <= i < |paths| ==> ObjectKey(paths[i]) == Ok(safe.value[i])
  {
    var keys := [];
    for i := 0 to |paths|
      invariant |keys| == i && forall j :: 0 <= j < i ==> ObjectKey(paths[j]) == Ok(keys[j])
    {
      match ObjectKey(paths[i])
      case UnsafeKey => return None;
      case Ok(key) => keys := keys + [key];
    }
    safe := Some(keys);
  }
}
