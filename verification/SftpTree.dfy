/**
 * Deleting over SFTP (ssh/storage.go): removeAll empties a sub-tree from the leaves up,
 * Delete removes a list of objects or nothing. The filesystem backend's Delete
 * (internal/fsbackend/backend.go) runs the same two loops.
 */
module SftpTree {
  import opened Common
  import opened Paths
  import opened Trees

  datatype Kind = Absent | IsFile | IsDir

  datatype Outcome = Removed | Missing(paths: seq<Path>) | Failed

  /** The remote file tree. Any request to an unreliable server may fail, changing nothing. */
  class Server {
    var files: set<Path>
    var dirs: set<Path>
    const reliable: bool

    constructor (files: set<Path>, dirs: set<Path>, reliable: bool)
      ensures this.files == files && this.dirs == dirs && this.reliable == reliable
    {
      this.files, this.dirs, this.reliable := files, dirs, reliable;
    }

    /** Files and directories are apart, and whatever holds something is a directory. */
    ghost predicate Valid()
      reads this
    {
      files !! dirs && forall p, n :: p in files + dirs && 0 < n < |p| ==> p[..n] in dirs
    }

    /** Some request to the server fails on its own account. */
    method Fails() returns (fails: bool)
      ensures reliable ==> !fails
    {
      fails := *;
      if reliable {
        fails := false;
      }
    }

    method Stat(p: Path) returns (ok: bool, kind: Kind)
      ensures reliable ==> ok
      ensures ok ==> kind == if p in files then IsFile else if p in dirs then IsDir else Absent
    {
      var fails := Fails();
      ok, kind := !fails, if p in files then IsFile else if p in dirs then IsDir else Absent;
    }

    /** Removes a file; one that is not there counts as removed, as every caller here takes it. */
    method Remove(p: Path) returns (ok: bool)
      requires p !in dirs
      modifies this`files
      ensures reliable ==> ok
      ensures files == if ok then old(files) - {p} else old(files)
    {
      var fails := Fails();
      ok := !fails;
      if ok {
        files := files - {p};
      }
    }

    /** SFTP refuses a directory that still holds something. */
    method RemoveDirectory(p: Path) returns (ok: bool)
      requires p in dirs && forall q :: q in files + dirs ==> !(p < q)
      modifies this`dirs
      ensures reliable ==> ok
      ensures dirs == if ok then old(dirs) - {p} else old(dirs)
    {
      var fails := Fails();
      ok := !fails;
      if ok {
        dirs := dirs - {p};
      }
    }

    method ReadNames(p: Path) returns (ok: bool, names: seq<string>)
      ensures reliable ==> ok
      ensures ok ==> forall n :: n in names <==> p + [n] in files + dirs
    {
      var fails := Fails();
      ok, names := !fails, [];
      if ok {
        var fs, ds := ListDir(Tree(files, dirs), p);
        names := fs + ds;
      }
    }

    /** q is under an entry of p named in names. */
    ghost predicate UnderNames(p: Path, names: seq<string>, q: Path) { p < q && q[|p|] in names }

    /**
     * Removes p and everything below it, children before their directory. Whatever
     * fails, nothing outside p changes and the tree stays a tree; success leaves nothing
     * at or under p.
     */
    method RemoveAll(p: Path, ghost height: nat) returns (ok: bool)
      requires Valid() && p != [] && |p| <= height + 1 && forall q :: q in dirs ==> |q| <= height
      modifies this`files, this`dirs
      ensures Valid() && files <= old(files) && dirs <= old(dirs)
      ensures forall q :: q in old(files) && !(p <= q) ==> q in files
      ensures forall q :: q in old(dirs) && !(p <= q) ==> q in dirs
      ensures reliable ==> ok
      ensures ok ==> forall q :: q in files + dirs ==> !(p <= q)
      decreases height + 1 - |p|
    {
      var kind;
      ok, kind := Stat(p);
      if !ok { return; }
      match kind
      case Absent =>
        NothingUnder(p);
      case IsFile =>
        ok := Remove(p);
        NothingUnderFile(p, old(files), old(dirs));
      case IsDir =>
        ok := Empty(p, height);
        if ok {
          ok := RemoveDirectory(p);
          PrefixIsTake(p);
        }
    }

    /** removeAll's loop over a directory's entries. */
    method Empty(p: Path, ghost height: nat) returns (ok: bool)
      requires Valid() && p != [] && p in dirs && |p| <= height && forall q :: q in dirs ==> |q| <= height
      modifies this`files, this`dirs
      ensures Valid() && files <= old(files) && dirs <= old(dirs)
      ensures forall q :: q in old(files) && !(p < q) ==> q in files
      ensures forall q :: q in old(dirs) && !(p < q) ==> q in dirs
      ensures reliable ==> ok
      ensures ok ==> forall q :: q in files + dirs ==> !(p < q)
      decreases height + 1 - |p|, 0
    {
      var names;
      ok, names := ReadNames(p);
      if !ok { return; }
      for i := 0 to |names|
        invariant Valid() && files <= old(files) && dirs <= old(dirs)
        invariant forall q :: q in old(files) && !(p < q) ==> q in files
        invariant forall q :: q in old(dirs) && !(p < q) ==> q in dirs
        invariant forall q :: q in files + dirs ==> !UnderNames(p, names[..i], q)
      {
        var child := p + [names[i]];
        assert forall q :: q in files + dirs && child <= q ==> p < q;
        ok := RemoveAll(child, height);
        if !ok { return; }
        assert forall q :: UnderNames(p, [names[i]], q) ==> child <= q;
        assert names[..i + 1] == names[..i] + [names[i]];
      }
      assert names[..|names|] == names;
      forall q | q in files + dirs ensures !(p < q) {
        if p < q {
          ChildListed(p, q, names, old(files), old(dirs));
        }
      }
    }

    lemma PrefixIsTake(p: Path)
      ensures forall q: Path :: p <= q ==> q[..|p|] == p && (|q| == |p| ==> q == p)
    {
    }

    lemma NothingUnder(p: Path)
      requires Valid() && p != [] && p !in files + dirs
      ensures forall q :: q in files + dirs ==> !(p <= q)
    {
      PrefixIsTake(p);
    }

    lemma NothingUnderFile(p: Path, oldFiles: set<Path>, oldDirs: set<Path>)
      requires p != [] && p in oldFiles && oldFiles !! oldDirs
      requires forall q, n :: q in oldFiles + oldDirs && 0 < n < |q| ==> q[..n] in oldDirs
      ensures forall q :: q in oldFiles + oldDirs && p <= q ==> q == p
    {
      PrefixIsTake(p);
    }

    lemma ChildListed(p: Path, q: Path, names: seq<string>, oldFiles: set<Path>, oldDirs: set<Path>)
      requires p < q && q in oldFiles + oldDirs
      requires forall r, n :: r in oldFiles + oldDirs && 0 < n < |r| ==> r[..n] in oldDirs
      requires forall n :: n in names <==> p + [n] in oldFiles + oldDirs
      ensures UnderNames(p, names, q)
    {
      var child := q[..|p| + 1];
      assert child == p + [q[|p|]];
      assert child in oldFiles + oldDirs by {
        if |child| == |q| { assert child == q; }
      }
    }

    /**
     * DeleteAll: a missing prefix is reported; otherwise exactly the sub-tree at it goes.
     * Whatever fails, nothing outside it changes.
     */
    method DeleteAll(p: Path) returns (r: Outcome)
      requires Valid() && p != []
      modifies this`files, this`dirs
      ensures Valid() && (reliable ==> !r.Failed?)
      ensures r.Missing? ==> r.paths == [p] && p !in old(files + dirs) && files == old(files) && dirs == old(dirs)
      ensures files <= old(files) && forall q :: q in old(files) && !(p <= q) ==> q in files
      ensures dirs <= old(dirs) && forall q :: q in old(dirs) && !(p <= q) ==> q in dirs
      ensures r.Removed? ==> p in old(files + dirs)
      ensures r.Removed? ==> forall q :: q in files <==> q in old(files) && !(p <= q)
      ensures r.Removed? ==> forall q :: q in dirs <==> q in old(dirs) && !(p <= q)
    {
      var ok, kind := Stat(p);
      if !ok { return Failed; }
      if kind == Absent { return Missing([p]); }
      ok := RemoveAll(p, if Height(dirs) > |p| then Height(dirs) else |p|);
      r := if ok then Removed else Failed;
      if ok {
        assert forall q :: q in files ==> q in files + dirs;
        assert forall q :: q in dirs ==> q in files + dirs;
      }
    }

    /**
     * Delete: every path is checked before any is removed. Unless the server itself
     * fails, either all are objects and exactly they go, duplicates or not, or nothing
     * changes and the answer is, in the order given, the ones that are not: `at` are
     * their positions.
     */
    method Delete(cwd: Path, paths: seq<Path>) returns (r: Outcome, ghost at: seq<int>)
      requires Valid()
      modifies this`files
      ensures reliable ==> !r.Failed?
      ensures r.Missing? ==> files == old(files) && r.paths != [] && PicksAt(r.paths, paths, at)
      ensures r.Missing? ==> forall i :: 0 <= i < |paths| ==> (i in at <==> cwd + paths[i] !in old(files))
      ensures r.Removed? ==> (forall p :: p in paths ==> cwd + p in old(files))
      ensures r.Removed? ==> forall q :: q in files <==> q in old(files) && !(exists p :: p in paths && cwd + p == q)
      ensures files <= old(files) && forall q :: q in old(files) - files ==> exists p :: p in paths && cwd + p == q
    {
      var missing: seq<Path> := [];
      at := [];
      for i := 0 to |paths|
        invariant files == old(files) && PicksAt(missing, paths, at) && forall k :: 0 <= k < |at| ==> at[k] < i
        invariant forall j :: 0 <= j < i ==> (j in at <==> cwd + paths[j] !in files)
      {
        var ok, kind := Stat(cwd + paths[i]);
        if !ok { return Failed, at; }
        if kind != IsFile {
          missing := missing + [paths[i]];
          at := at + [i];
        }
      }
      if missing != [] {
        return Missing(missing), at;
      }
      assert at == [];
      for i := 0 to |paths|
        invariant files <= old(files)
        invariant forall q :: q in old(files) ==> (q in files <==> !(exists j :: 0 <= j < i && cwd + paths[j] == q))
      {
        var ok := Remove(cwd + paths[i]);
        if !ok { return Failed, at; }
      }
      r := Removed;
    }
  }
}
