/**
 * Directory trees and the two traversals of them: Walk over ListDir (utils.go) and the
 * recursive listing SSH List makes before sorting it (ssh/storage.go).
 */
module Trees {
  import opened Paths

  type Path = seq<string>

  /** A finite tree by the paths in it; an object store's "directories" are its keys' prefixes. */
  datatype Tree = Tree(files: set<Path>, dirs: set<Path>) {
    /** Paths are real names, and whatever holds something is a directory. */
    ghost predicate Valid()
    {
      && (forall p :: p in files + dirs ==> p != [] && Plain(p))
      && (forall p, n :: p in files && 0 < n < |p| ==> p[..n] in dirs)
    }

    ghost function Below(at: Path): set<Path>
    {
      set p | p in files && at <= p && |at| < |p| :: p[|at|..]
    }
  }

  /** Longest path of a set, which bounds how deep a traversal recurses. */
  ghost function Height(ps: set<Path>): (h: nat)
    ensures forall p :: p in ps ==> |p| <= h
  {
    if ps == {} then 0
    else
      var p :| p in ps;
      var h := Height(ps - {p});
      if |p| > h then |p| else h
  }

  predicate NoDup<T(==)>(xs: seq<T>) { forall i, j :: 0 <= i < j < |xs| ==> xs[i] != xs[j] }

  /** One way, any way, to list a set. */
  method Enumerate(names: set<string>) returns (xs: seq<string>)
    ensures NoDup(xs) && forall x :: x in xs <==> x in names
  {
    xs := [];
    var left := names;
    while left != {}
      invariant left <= names && NoDup(xs) && forall x :: x in xs <==> x in names - left
    {
      var x :| x in left;
      assert x !in xs && forall i :: 0 <= i < |xs| ==> xs[i] in xs;
      xs := xs + [x];
      left := left - {x};
    }
  }

  /** The names directly in a directory, files and sub-directories, each in an order the server chose. */
  method ListDir(t: Tree, at: Path) returns (files: seq<string>, dirs: seq<string>)
    ensures NoDup(files) && forall f :: f in files <==> at + [f] in t.files
    ensures NoDup(dirs) && forall d :: d in dirs <==> at + [d] in t.dirs
  {
    files := Enumerate(set p | p in t.files && |p| == |at| + 1 && at <= p :: p[|at|]);
    dirs := Enumerate(set p | p in t.dirs && |p| == |at| + 1 && at <= p :: p[|at|]);
    forall f ensures f in files <==> at + [f] in t.files {
      if f in files {
        var p :| p in t.files && |p| == |at| + 1 && at <= p && p[|at|] == f;
        assert p == at + [f];
      }
      assert (at + [f])[|at|] == f && at <= at + [f];
    }
    forall d ensures d in dirs <==> at + [d] in t.dirs {
      if d in dirs {
        var p :| p in t.dirs && |p| == |at| + 1 && at <= p && p[|at|] == d;
        assert p == at + [d];
      }
      assert (at + [d])[|at|] == d && at <= at + [d];
    }
  }

  // ----- what a listing of a directory must contain -----

  /** names lists, once each, exactly the files whose path relative to `at` is in `rel`. */
  ghost predicate Lists(names: seq<string>, parent: Path, rel: set<Path>)
  {
    && NoDup(names)
    && (forall x :: x in names <==> exists r :: r in rel && x == JoinAll(parent + r))
  }

  lemma PlainSuffix(parent: Path, r: Path, s: Path)
    requires parent + r == parent + s
    ensures r == s
  {
    assert r == (parent + r)[|parent|..];
    assert s == (parent + s)[|parent|..];
  }

  /** Listings of disjoint sets of paths put together list their union. */
  lemma ListsUnion(a: seq<string>, b: seq<string>, parent: Path, relA: set<Path>, relB: set<Path>)
    requires Lists(a, parent, relA) && Lists(b, parent, relB) && relA !! relB
    requires Plain(parent) && forall r :: r in relA + relB ==> Plain(r)
    ensures Lists(a + b, parent, relA + relB)
  {
    forall x | x in a && x in b ensures false {
      var r :| r in relA && x == JoinAll(parent + r);
      var s :| s in relB && x == JoinAll(parent + s);
      assert r in relA + relB && s in relA + relB;
      JoinInjective(parent + r, parent + s);
      PlainSuffix(parent, r, s);
    }
    assert forall i, j :: 0 <= i < |a| && 0 <= j < |b| ==> a[i] in a && b[j] in b;
  }

  lemma ListsOne(parent: Path, r: Path)
    ensures Lists([JoinAll(parent + r)], parent, {r})
  {
  }

  /** A listing of a sub-directory is a listing from above with one more element in front. */
  lemma ListsDeeper(names: seq<string>, parent: Path, d: string, rel: set<Path>)
    requires Lists(names, parent + [d], rel)
    ensures Lists(names, parent, set r | r in rel :: [d] + r)
  {
    var up := set r | r in rel :: [d] + r;
    forall x ensures x in names <==> exists r :: r in up && x == JoinAll(parent + r) {
      if x in names {
        var r :| r in rel && x == JoinAll(parent + [d] + r);
        assert parent + [d] + r == parent + ([d] + r);
        assert [d] + r in up;
      }
      if exists q :: q in up && x == JoinAll(parent + q) {
        var q :| q in up && x == JoinAll(parent + q);
        var r :| r in rel && q == [d] + r;
        assert parent + q == parent + [d] + r;
      }
    }
  }

  // ----- directory entries -----

  datatype Entry = File(name: string) | Dir(name: string)

  /** The files an entry of directory `at` accounts for, relative to `at`. */
  ghost function EntryRel(t: Tree, at: Path, e: Entry): set<Path>
  {
    match e
    case File(f) => {[f]}
    case Dir(d) => set r | r in t.Below(at + [d]) :: [d] + r
  }

  ghost function EntriesRel(t: Tree, at: Path, es: seq<Entry>): set<Path>
  {
    set e, r | e in es && r in EntryRel(t, at, e) :: r
  }

  /** es is the directory `at`, each entry once. */
  ghost predicate IsDirectory(t: Tree, at: Path, es: seq<Entry>)
  {
    && NoDup(es)
    && forall e :: e in es <==> match e case File(f) => at + [f] in t.files case Dir(d) => at + [d] in t.dirs
  }

  lemma EntriesDisjoint(t: Tree, at: Path, a: Entry, b: Entry)
    requires a != b
    ensures EntryRel(t, at, a) !! EntryRel(t, at, b)
  {
    assert forall r :: r in EntryRel(t, at, a) ==> r != [] && r[0] == a.name && (a.Dir? <==> |r| >= 2);
    assert forall r :: r in EntryRel(t, at, b) ==> r != [] && r[0] == b.name && (b.Dir? <==> |r| >= 2);
  }

  /** Every file below a directory is under exactly one of its entries. */
  lemma EntriesAreBelow(t: Tree, at: Path, es: seq<Entry>)
    requires t.Valid() && IsDirectory(t, at, es)
    ensures EntriesRel(t, at, es) == t.Below(at)
  {
    forall r | r in EntriesRel(t, at, es) ensures r in t.Below(at) {
      var e :| e in es && r in EntryRel(t, at, e);
      match e
      case File(f) =>
        assert at + [f] in t.files && (at + [f])[|at|..] == [f];
      case Dir(d) =>
        var q :| q in t.Below(at + [d]) && r == [d] + q;
        var p :| p in t.files && at + [d] <= p && |at + [d]| < |p| && q == p[|at + [d]|..];
        assert at == (at + [d])[..|at|] && at <= p && p[|at|..] == [d] + q;
    }
    forall r | r in t.Below(at) ensures r in EntriesRel(t, at, es) {
      var p :| p in t.files && at <= p && |at| < |p| && r == p[|at|..];
      if |r| == 1 {
        assert p == at + [r[0]];
        assert File(r[0]) in es && r == [r[0]];
        assert r in EntryRel(t, at, File(r[0]));
      } else {
        var d := r[0];
        assert p[..|at| + 1] == at + [d];
        assert Dir(d) in es;
        assert p[|at + [d]|..] == r[1..];
        assert r[1..] in t.Below(at + [d]);
        assert r == [d] + r[1..];
        assert r in EntryRel(t, at, Dir(d));
      }
    }
  }

  lemma BelowPlain(t: Tree, at: Path)
    requires t.Valid()
    ensures forall r :: r in t.Below(at) ==> Plain(r) && r != []
  {
  }

  /** A traversal's step: what one more entry contributes is appended. */
  lemma ListsNext(t: Tree, at: Path, parent: Path, names: seq<string>, es: seq<Entry>, piece: seq<string>, e: Entry)
    requires Lists(names, parent, EntriesRel(t, at, es)) && Lists(piece, parent, EntryRel(t, at, e))
    requires e !in es && Plain(parent)
    requires forall r :: r in EntriesRel(t, at, es + [e]) ==> Plain(r)
    ensures Lists(names + piece, parent, EntriesRel(t, at, es + [e]))
  {
    var before, one := EntriesRel(t, at, es), EntryRel(t, at, e);
    forall r | r in before && r in one ensures false {
      var x :| x in es && r in EntryRel(t, at, x);
      EntriesDisjoint(t, at, x, e);
    }
    assert e in es + [e];
    assert forall x :: x in es ==> x in es + [e];
    assert EntriesRel(t, at, es + [e]) == before + one;
    ListsUnion(names, piece, parent, before, one);
  }

  // ----- the traversals -----

  /** The entries of a directory in one sequence, as ReadDir gives them. */
  method ReadDir(t: Tree, at: Path) returns (es: seq<Entry>)
    ensures IsDirectory(t, at, es)
  {
    var files, dirs := ListDir(t, at);
    es := Entries(files, dirs);
    EntriesOfListing(t, at, files, dirs);
  }

  function Entries(files: seq<string>, dirs: seq<string>): seq<Entry>
  {
    seq(|files|, i requires 0 <= i < |files| => File(files[i])) + seq(|dirs|, i requires 0 <= i < |dirs| => Dir(dirs[i]))
  }

  lemma EntriesOfListing(t: Tree, at: Path, files: seq<string>, dirs: seq<string>)
    requires NoDup(files) && forall f :: f in files <==> at + [f] in t.files
    requires NoDup(dirs) && forall d :: d in dirs <==> at + [d] in t.dirs
    ensures IsDirectory(t, at, Entries(files, dirs))
  {
    var es := Entries(files, dirs);
    forall e ensures e in es <==> match e case File(f) => at + [f] in t.files case Dir(d) => at + [d] in t.dirs {
      match e
      case File(f) =>
        if f in files { var i :| 0 <= i < |files| && files[i] == f; assert es[i] == e; }
      case Dir(d) =>
        if d in dirs { var i :| 0 <= i < |dirs| && dirs[i] == d; assert es[|files| + i] == e; }
    }
  }

  /** listUnder: every file below `at`, each name once, by one recursive pass over the entries. */
  method ListUnder(t: Tree, at: Path, ghost parent: Path, rel: string, ghost height: nat) returns (res: seq<string>)
    requires t.Valid() && Plain(parent) && rel == JoinAll(parent)
    requires |at| <= height && forall p :: p in t.dirs ==> |p| <= height
    ensures Lists(res, parent, t.Below(at))
    decreases height - |at|, 1
  {
    var es := ReadDir(t, at);
    EntriesAreBelow(t, at, es);
    BelowPlain(t, at);
    res := [];
    for i := 0 to |es|
      invariant Lists(res, parent, EntriesRel(t, at, es[..i]))
    {
      assert es[i] in es;
      var piece := ListEntry(t, at, parent, rel, height, es[i]);
      WalkStep(t, at, parent, es, i, res, piece);
      res := res + piece;
    }
    assert es[..|es|] == es;
  }

  /** What one entry adds: a file its own name, a directory what is below it. */
  method ListEntry(t: Tree, at: Path, ghost parent: Path, rel: string, ghost height: nat, e: Entry) returns (piece: seq<string>)
    requires t.Valid() && Plain(parent) && rel == JoinAll(parent)
    requires |at| <= height && forall p :: p in t.dirs ==> |p| <= height
    requires match e case File(f) => at + [f] in t.files case Dir(d) => at + [d] in t.dirs
    ensures Lists(piece, parent, EntryRel(t, at, e))
    decreases height - |at|, 0
  {
    var full := at + [e.name];
    assert full in t.files + t.dirs && full[|at|] == e.name && Real(e.name);
    JoinedKey(parent, [e.name]);
    var name := PathJoin(rel, e.name);
    if e.Dir? {
      piece := ListUnder(t, full, parent + [e.name], name, height);
      ListsDeeper(piece, parent, e.name, t.Below(full));
    } else {
      piece := [name];
      ListsOne(parent, [e.name]);
    }
  }

  /** Walk: the files of each directory first, then its sub-directories. */
  method Walk(t: Tree, at: Path, ghost parent: Path, prefix: string, ghost height: nat) returns (res: seq<string>)
    requires t.Valid() && Plain(parent) && prefix == JoinAll(parent)
    requires |at| <= height && forall p :: p in t.dirs ==> |p| <= height
    ensures Lists(res, parent, t.Below(at))
    decreases height - |at|
  {
    var files, dirs := ListDir(t, at);
    ghost var es := Entries(files, dirs);
    EntriesOfListing(t, at, files, dirs);
    EntriesAreBelow(t, at, es);
    BelowPlain(t, at);
    res := [];
    for i := 0 to |files|
      invariant Lists(res, parent, EntriesRel(t, at, es[..i]))
    {
      var full := at + [files[i]];
      assert files[i] in files && full in t.files + t.dirs && full[|at|] == files[i] && Real(files[i]);
      JoinedKey(parent, [files[i]]);
      ListsOne(parent, [files[i]]);
      WalkStep(t, at, parent, es, i, res, [PathJoin(prefix, files[i])]);
      res := res + [PathJoin(prefix, files[i])];
    }
    for i := 0 to |dirs|
      invariant Lists(res, parent, EntriesRel(t, at, es[..|files| + i]))
    {
      var full := at + [dirs[i]];
      assert dirs[i] in dirs && full in t.files + t.dirs && full[|at|] == dirs[i] && Real(dirs[i]);
      JoinedKey(parent, [dirs[i]]);
      var sub := Walk(t, full, parent + [dirs[i]], PathJoin(prefix, dirs[i]), height);
      ListsDeeper(sub, parent, dirs[i], t.Below(full));
      WalkStep(t, at, parent, es, |files| + i, res, sub);
      res := res + sub;
    }
    assert es[..|es|] == es;
  }

  lemma WalkStep(t: Tree, at: Path, parent: Path, es: seq<Entry>, i: nat, res: seq<string>, piece: seq<string>)
    requires t.Valid() && Plain(parent) && IsDirectory(t, at, es) && i < |es|
    requires Lists(res, parent, EntriesRel(t, at, es[..i])) && Lists(piece, parent, EntryRel(t, at, es[i]))
    ensures Lists(res + piece, parent, EntriesRel(t, at, es[..i + 1]))
  {
    EntriesAreBelow(t, at, es);
    BelowPlain(t, at);
    var e := es[i];
    assert e in es && es[..i + 1] == es[..i] + [e] && e !in es[..i];
    assert EntriesRel(t, at, es[..i + 1]) <= EntriesRel(t, at, es);
    ListsNext(t, at, parent, res, es[..i], piece, e);
  }
}
