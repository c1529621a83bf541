/**
 * Writing over SFTP (ssh/storage.go): a body goes into a temporary sibling that is then
 * renamed over the destination. Plain SFTP rename refuses an existing target, so without
 * posix-rename the old file is moved aside first. Any request may fail.
 */
module SftpReplace {
  import opened Common

  type Files = map<string, Bytes>

  datatype RenameError = NotExist | OtherFailure

  /** Success, an error, or an error that names where the previous file now is. */
  datatype Outcome = Written | NotWritten | MovedAside(aside: string)

  datatype CopyOutcome = StatFailed | SourceMissing | SameObject | Ended(outcome: Outcome, bytes: int)

  /**
   * Nothing but the old content and `visible` is ever at dst, and the old content can
   * still be read, at dst or aside, until `visible` is there.
   */
  ghost predicate NothingLost(before: Files, dst: string, visible: Option<Bytes>, now: Files)
  {
    if dst in now then
      (dst in before && now[dst] == before[dst]) || visible == Some(now[dst])
    else
      dst in before ==> exists aside :: aside !in before && aside in now && now[aside] == before[dst]
  }

  ghost predicate Untouched(before: Files, dst: string, now: Files)
  {
    (dst in now <==> dst in before) && (dst in before ==> now[dst] == before[dst])
  }

  /** Files other than dst that were there before are as they were. */
  ghost predicate OthersKept(before: Files, dst: string, now: Files)
  {
    forall p :: p in before && p != dst ==> p in now && now[p] == before[p]
  }

  /** The remote files. Any request to an unreliable server may fail; posix-rename is an extension it may lack. */
  class Remote {
    var files: Files
    const reliable: bool
    const posixRename: bool
    /** Every state the files pass through, the latest last. */
    ghost var history: seq<Files>
    /** Temporary names whose removal the server refused. */
    ghost var leftBehind: set<string>
    /** Renames the server refused, the latest last. */
    ghost var refused: seq<(string, string)>

    constructor (files: Files, reliable: bool, posixRename: bool)
      ensures this.files == files && history == [files] && leftBehind == {} && refused == []
      ensures this.reliable == reliable && this.posixRename == posixRename
    {
      this.files, history, leftBehind, refused := files, [files], {}, [];
      this.reliable, this.posixRename := reliable, posixRename;
    }

    method Fails() returns (fails: bool)
      ensures reliable ==> !fails
    {
      fails := *;
      if reliable {
        fails := false;
      }
    }

    /** A random sibling name, taken to be unused; generating it may fail. */
    method TempSibling(p: string) returns (name: Option<string>)
      ensures name.Some? ==> name.value !in files && name.value != p
      ensures reliable ==> name.Some?
    {
      name := None;
      var fails := Fails();
      if !fails {
        UnusedName(files.Keys + {p});
        var n: string :| n !in files.Keys + {p};
        name := Some(n);
      }
    }

    /** There is always an unused name: one longer than all that are used. */
    static lemma UnusedName(used: set<string>)
      ensures exists n: string :: n !in used
    {
      var n := LongerThan(used);
      assert n !in used;
    }

    static ghost function LongerThan(used: set<string>): (n: string)
      ensures forall u :: u in used ==> |u| < |n|
    {
      if used == {} then ""
      else
        var u :| u in used;
        LongerThan(used - {u}) + u + "."
    }

    method PosixRename(src: string, dst: string) returns (ok: bool)
      modifies this`files, this`history
      ensures ok ==> src in old(files) && files == (old(files) - {src})[dst := old(files)[src]] && history == old(history) + [files]
      ensures !ok ==> files == old(files) && history == old(history)
      ensures ok ==> posixRename
      ensures reliable && posixRename && src in old(files) ==> ok
    {
      var fails := Fails();
      ok := posixRename && !fails && src in files;
      if ok {
        files := (files - {src})[dst := files[src]];
        history := history + [files];
      }
    }

    /** Section 6.5 of draft-ietf-secsh-filexfer-02: renaming onto an existing file is an error. */
    method Rename(src: string, dst: string) returns (e: Option<RenameError>)
      modifies this`files, this`history, this`refused
      ensures refused == if e.Some? then old(refused) + [(src, dst)] else old(refused)
      ensures e.None? ==> src in old(files) && dst !in old(files)
      ensures e.None? ==> files == (old(files) - {src})[dst := old(files)[src]] && history == old(history) + [files]
      ensures e.Some? ==> files == old(files) && history == old(history)
      ensures reliable ==> (e.None? <==> src in old(files) && dst !in old(files)) && (e == Some(NotExist) <==> src !in old(files))
    {
      var fails := Fails();
      if fails || src !in files || dst in files {
        refused := refused + [(src, dst)];
        var why: RenameError := *;
        return Some(if !reliable then why else if src in files then OtherFailure else NotExist);
      }
      files := (files - {src})[dst := files[src]];
      history := history + [files];
      e := None;
    }

    method RemoveQuietly(p: string)
      modifies this
      ensures || (files == old(files) - {p} && leftBehind == old(leftBehind))
              || (!reliable && files == old(files) && leftBehind == old(leftBehind) + {p})
      ensures history == old(history) + [files] && refused == old(refused)
    {
      var fails := Fails();
      if fails {
        leftBehind := leftBehind + {p};
      } else {
        files := files - {p};
      }
      history := history + [files];
    }

    /** Create, or one Write appended to what is there. */
    method Append(p: string, piece: Bytes) returns (ok: bool)
      modifies this`files, this`history
      ensures files == (if ok then old(files)[p := (if p in old(files) then old(files)[p] else []) + piece] else old(files))
      ensures history == old(history) + [files] && (reliable ==> ok)
    {
      var fails := Fails();
      ok := !fails;
      if ok {
        files := files[p := (if p in files then files[p] else []) + piece];
      }
      history := history + [files];
    }

    /**
     * replaceFile: src over dst. An error leaves every file as it was, unless putting the
     * old one back failed too, and then the error says where it is. No state in between
     * loses the old content without holding the new one whole. On a reliable server it
     * succeeds, with posix-rename or without, and leaves nothing else behind; with it dst
     * is never absent.
     */
    method ReplaceFile(src: string, dst: string) returns (r: Outcome)
      requires src in files && src != dst
      modifies this
      ensures r == Written ==> dst in files && files[dst] == old(files)[src] && src !in files
      ensures reliable ==> r == Written && files == (old(files) - {src})[dst := old(files)[src]]
      ensures r == NotWritten ==> files == old(files)
      ensures r.MovedAside? ==>
        && dst in old(files) && dst !in files && r.aside !in old(files)
        && files == (old(files) - {dst})[r.aside := old(files)[dst]]
      ensures forall p :: p in old(files) && p != src && p != dst ==> p in files && files[p] == old(files)[p]
      ensures OnlyLeftovers(old(files), dst, r) && old(leftBehind) <= leftBehind
      ensures old(refused) <= refused && (r.MovedAside? ==> (r.aside, dst) in refused[|old(refused)|..])
      ensures reliable && posixRename && dst in old(files) ==> forall i :: |old(history)| <= i < |history| ==> dst in history[i]
      ensures old(history) <= history
      ensures forall i :: |old(history)| <= i < |history| ==>
        && NothingLost(old(files), dst, if r == Written then Some(old(files)[src]) else None, history[i])
        && (forall p :: p in old(files) && p != src && p != dst ==> p in history[i] && history[i][p] == old(files)[p])
    {
      var ok := PosixRename(src, dst);
      if ok {
        return Written;
      }
      var name := TempSibling(dst);
      if name.None? {
        return NotWritten;
      }
      var aside := name.value;
      var e := Rename(dst, aside);
      if e == Some(NotExist) {
        e := Rename(src, dst);
        return if e.None? then Written else NotWritten;
      }
      if e.Some? {
        return NotWritten;
      }
      r := FinishSwap(src, dst, aside, old(files));
    }

    /** The rest of replaceFile once dst is aside: src into its place, or dst back. */
    method FinishSwap(src: string, dst: string, aside: string, ghost before: Files) returns (r: Outcome)
      requires src in before && dst in before && src != dst && aside !in before
      requires files == (before - {dst})[aside := before[dst]]
      modifies this
      ensures r == Written ==> dst in files && files[dst] == before[src] && src !in files
      ensures reliable ==> r == Written && files == (before - {src})[dst := before[src]]
      ensures r == NotWritten ==> files == before
      ensures old(refused) <= refused
      ensures r.MovedAside? ==> r.aside == aside && files == old(files) && (aside, dst) in refused[|old(refused)|..]
      ensures forall p :: p in before && p != src && p != dst ==> p in files && files[p] == before[p]
      ensures OnlyLeftovers(before, dst, r) && old(leftBehind) <= leftBehind
      ensures old(history) <= history
      ensures forall i :: |old(history)| <= i < |history| ==>
        && NothingLost(before, dst, if r == Written then Some(before[src]) else None, history[i])
        && (forall p :: p in before && p != src && p != dst ==> p in history[i] && history[i][p] == before[p])
    {
      var e := Rename(src, dst);
      if e.Some? {
        e := Rename(aside, dst);
        if e.Some? {
          assert refused[|old(refused)|..] == [(src, dst), (aside, dst)];
          return MovedAside(aside);
        }
        return NotWritten;
      }
      RemoveQuietly(aside);
      r := Written;
    }

    /** No new file but dst, the named aside, and temporaries the server would not remove. */
    ghost predicate OnlyLeftovers(before: Files, dst: string, r: Outcome)
      reads this
    {
      forall p :: p in files && p !in before ==> p == dst || p in leftBehind || (r.MovedAside? && p == r.aside)
    }

    /** No state since `from` lost dst's content, showed any but `visible`, or changed another file. */
    ghost predicate SafeSince(from: nat, before: Files, dst: string, visible: Option<Bytes>)
      reads this
    {
      forall i :: from <= i < |history| ==> NothingLost(before, dst, visible, history[i]) && OthersKept(before, dst, history[i])
    }

    ghost predicate UntouchedSince(from: nat, before: Files, dst: string)
      reads this
    {
      forall i :: from <= i < |history| ==> Untouched(before, dst, history[i]) && OthersKept(before, dst, history[i])
    }

    /** io.Copy into the temporary file, piece by piece; ctx, a read or a write may end it. */
    method Fill(tmp: string, pieces: seq<Bytes>, bodyFails: bool, ghost dst: string) returns (ok: bool)
      requires tmp in files && files[tmp] == [] && tmp != dst
      modifies this`files, this`history
      ensures tmp in files && files - {tmp} == old(files) - {tmp}
      ensures ok ==> files[tmp] == Flatten(pieces) && !bodyFails
      ensures reliable ==> ok == !bodyFails
      ensures old(history) <= history && UntouchedSince(|old(history)|, old(files) - {tmp}, dst)
    {
      for i := 0 to |pieces|
        invariant tmp in files && files[tmp] == Flatten(pieces[..i]) && files - {tmp} == old(files) - {tmp}
        invariant old(history) <= history && UntouchedSince(|old(history)|, old(files) - {tmp}, dst)
      {
        assert pieces[..i + 1][..i] == pieces[..i];
        label Before:
        ok := Append(tmp, pieces[i]);
        assert files - {tmp} == old@Before(files) - {tmp};
        SameElsewhere(old(files) - {tmp}, tmp, dst, files);
        if !ok {
          return;
        }
      }
      assert pieces[..|pieces|] == pieces;
      var closeFails := Fails();
      ok := !bodyFails && !closeFails;
    }

    /**
     * fillAndReplace: the body into tmp, tmp over dst. `before` is the files without the
     * temporary, which an error may leave for its callers to remove.
     */
    method FillAndReplace(tmp: string, pieces: seq<Bytes>, bodyFails: bool, dst: string, ghost before: Files) returns (r: Outcome)
      requires tmp !in before && tmp != dst && tmp in files && files[tmp] == [] && files - {tmp} == before
      modifies this
      ensures Answered(r, before, dst, Flatten(pieces), files) && (r == Written ==> !bodyFails && tmp !in files)
      ensures OthersKept(before, dst, files) && (r == NotWritten ==> files - {tmp} == before)
      ensures forall p :: p in files && p !in before && p != tmp ==> p == dst || p in leftBehind || (r.MovedAside? && p == r.aside)
      ensures r.MovedAside? ==> r.aside != tmp
      ensures old(history) <= history && SafeSince(|old(history)|, before, dst, if r == Written then Some(Flatten(pieces)) else None)
      ensures bodyFails ==> r == NotWritten && UntouchedSince(|old(history)|, before, dst)
      ensures old(refused) <= refused && (r.MovedAside? ==> (r.aside, dst) in refused[|old(refused)|..])
      ensures reliable && posixRename && dst in before ==> forall i :: |old(history)| <= i < |history| ==> dst in history[i]
      ensures reliable ==> r == if bodyFails then NotWritten else Written
      ensures reliable && !bodyFails ==> files == before[dst := Flatten(pieces)]
    {
      var ok := Fill(tmp, pieces, bodyFails, dst);
      SameElsewhere(before, tmp, dst, files);
      if !ok {
        return NotWritten;
      }
      label Filled:
      r := ReplaceFile(tmp, dst);
      forall i | |old@Filled(history)| <= i < |history|
        ensures NothingLost(before, dst, if r == Written then Some(Flatten(pieces)) else None, history[i]) && OthersKept(before, dst, history[i])
      {
        ThroughTemporary(before, tmp, old@Filled(files), dst, if r == Written then Some(Flatten(pieces)) else None, history[i]);
      }
    }

    /** A whole write: the temporary created, filled and moved into place, and cleaned up after an error. */
    method WriteVia(tmp: string, pieces: seq<Bytes>, bodyFails: bool, dst: string) returns (r: Outcome)
      requires tmp !in files && tmp != dst
      modifies this
      ensures Answered(r, old(files), dst, Flatten(pieces), files) && (r == Written ==> !bodyFails)
      ensures OthersKept(old(files), dst, files) && OnlyLeftovers(old(files), dst, r)
      ensures old(history) <= history && SafeSince(|old(history)|, old(files), dst, if r == Written then Some(Flatten(pieces)) else None)
      ensures bodyFails ==> r == NotWritten && UntouchedSince(|old(history)|, old(files), dst)
      ensures old(refused) <= refused && (r.MovedAside? ==> (r.aside, dst) in refused[|old(refused)|..])
      ensures reliable && posixRename && dst in old(files) ==> forall i :: |old(history)| <= i < |history| ==> dst in history[i]
      ensures reliable ==> r == if bodyFails then NotWritten else Written
      ensures reliable ==> files == if bodyFails then old(files) else old(files)[dst := Flatten(pieces)]
    {
      ghost var before := files;
      var ok := Append(tmp, []);
      assert before == before - {tmp} == files - {tmp};
      SameElsewhere(before, tmp, dst, files);
      if !ok {
        return NotWritten;
      }
      r := FillAndReplace(tmp, pieces, bodyFails, dst, before);
      if r != Written {
        ghost var left := files;
        RemoveQuietly(tmp);
        WithoutTemporary(r, before, tmp, dst, Flatten(pieces), left, files);
      }
    }

    /**
     * PutObject: at every moment dst holds what it held before or, in a call that
     * succeeds, the whole body; a body that fails never touches it. No other file changes,
     * and on a reliable server every other body is written.
     */
    method PutObject(dst: string, pieces: seq<Bytes>, bodyFails: bool) returns (r: Outcome)
      modifies this
      ensures Answered(r, old(files), dst, Flatten(pieces), files) && (r == Written ==> !bodyFails)
      ensures OthersKept(old(files), dst, files) && OnlyLeftovers(old(files), dst, r)
      ensures old(history) <= history && SafeSince(|old(history)|, old(files), dst, if r == Written then Some(Flatten(pieces)) else None)
      ensures bodyFails ==> r == NotWritten && UntouchedSince(|old(history)|, old(files), dst)
      ensures old(refused) <= refused && (r.MovedAside? ==> (r.aside, dst) in refused[|old(refused)|..])
      ensures reliable && posixRename && dst in old(files) ==> forall i :: |old(history)| <= i < |history| ==> dst in history[i]
      ensures reliable ==> r == if bodyFails then NotWritten else Written
      ensures reliable ==> files == if bodyFails then old(files) else old(files)[dst := Flatten(pieces)]
      ensures forall i :: |old(history)| <= i < |history| && dst in history[i] ==>
        || (dst in old(files) && history[i][dst] == old(files)[dst])
        || (r == Written && history[i][dst] == Flatten(pieces))
      ensures forall i :: |old(history)| <= i < |history| && dst in old(files) && dst !in history[i] ==>
        exists aside :: aside !in old(files) && aside in history[i] && history[i][aside] == old(files)[dst]
    {
      var refused := Fails();
      if refused {
        return NotWritten;
      }
      var tmp := TempSibling(dst);
      if tmp.None? {
        return NotWritten;
      }
      r := WriteVia(tmp.value, pieces, bodyFails, dst);
    }

    /** Copy: the source's bytes, read in any pieces, written the same way; n is their number. */
    method Copy(src: string, dst: string) returns (r: CopyOutcome)
      modifies this
      ensures old(history) <= history
      ensures r == SourceMissing ==> src !in old(files)
      ensures r == SameObject ==> src == dst && src in old(files)
      ensures r.Ended? ==> src in old(files) && src != dst
      ensures !r.Ended? ==> files == old(files) && history == old(history)
      ensures r.Ended? ==>
        && Answered(r.outcome, old(files), dst, old(files)[src], files)
        && OthersKept(old(files), dst, files) && OnlyLeftovers(old(files), dst, r.outcome)
        && files[src] == old(files)[src]
        && SafeSince(|old(history)|, old(files), dst, if r.outcome == Written then Some(old(files)[src]) else None)
        && r.bytes == (if r.outcome == Written then |old(files)[src]| else 0)
      ensures old(refused) <= refused
      ensures r.Ended? && r.outcome.MovedAside? ==> (r.outcome.aside, dst) in refused[|old(refused)|..]
      ensures reliable && src in old(files) && src != dst ==>
        && r == Ended(Written, |old(files)[src]|) && files == old(files)[dst := old(files)[src]]
      ensures reliable ==> r != StatFailed
    {
      var statFails := Fails();
      if statFails {
        return StatFailed;
      }
      if src !in files {
        return SourceMissing;
      }
      if src == dst {
        return SameObject;
      }
      var pieces, readFails := ReadInPieces(files[src]);
      var outcome := PutObject(dst, pieces, readFails);
      r := Ended(outcome, if outcome == Written then |Flatten(pieces)| else 0);
    }

    /** Reads of any size; the file may fail to give the rest after any of them. */
    method ReadInPieces(content: Bytes) returns (pieces: seq<Bytes>, fails: bool)
      ensures Flatten(pieces) <= content && (!fails ==> Flatten(pieces) == content)
      ensures reliable ==> !fails
    {
      pieces, fails := [], false;
      var at := 0;
      while at < |content|
        invariant at <= |content| && Flatten(pieces) == content[..at] && !fails
      {
        fails := Fails();
        if fails {
          return;
        }
        var k: nat :| 1 <= k && at + k <= |content|;
        var piece := content[at..at + k];
        assert (pieces + [piece])[..|pieces|] == pieces && content[..at] + piece == content[..at + k];
        pieces := pieces + [piece];
        at := at + k;
      }
      fails := Fails();
    }

    /** Dropping or changing only the temporary file keeps everything else. */
    lemma SameElsewhere(before: Files, tmp: string, dst: string, now: Files)
      requires tmp !in before && tmp != dst && now - {tmp} == before
      ensures Untouched(before, dst, now) && OthersKept(before, dst, now)
    {
      forall p | p in before ensures p in now && now[p] == before[p] {
        assert p in now - {tmp};
      }
    }

    /** Removing the temporary after an error, or failing to, keeps what the error says. */
    lemma WithoutTemporary(r: Outcome, before: Files, tmp: string, dst: string, content: Bytes, left: Files, now: Files)
      requires r != Written && Answered(r, before, dst, content, left) && OthersKept(before, dst, left)
      requires tmp !in before && tmp != dst && (r.MovedAside? ==> r.aside != tmp) && (now == left || now == left - {tmp})
      ensures Answered(r, before, dst, content, now) && OthersKept(before, dst, now) && NothingLost(before, dst, None, now)
      ensures r == NotWritten ==> Untouched(before, dst, now)
    {
    }

    /** What replacing from a full temporary keeps is what the whole write keeps. */
    lemma ThroughTemporary(before: Files, tmp: string, full: Files, dst: string, visible: Option<Bytes>, now: Files)
      requires tmp !in before && tmp != dst && full - {tmp} == before && tmp in full
      requires NothingLost(full, dst, visible, now)
      requires forall p :: p in full && p != tmp && p != dst ==> p in now && now[p] == full[p]
      ensures NothingLost(before, dst, visible, now) && OthersKept(before, dst, now)
    {
      assert forall p :: p in before <==> p in full - {tmp};
    }
  }

  /** What an answer says of dst: the new content whole, the old as it was, or the old at the named path. */
  ghost predicate Answered(r: Outcome, before: Files, dst: string, content: Bytes, now: Files)
  {
    match r
    case Written => dst in now && now[dst] == content
    case NotWritten => Untouched(before, dst, now)
    case MovedAside(aside) => dst in before && dst !in now && aside !in before && aside in now && now[aside] == before[dst]
  }
}
