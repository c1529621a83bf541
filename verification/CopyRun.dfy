/**
 * A whole run of CopyListed (copy.go): the errgroup over the chosen objects, the totals
 * and the store, under every interleaving of dispatches, checks, finished and failed
 * copies, a caller's cancel and other writers.
 */
module CopyRun {
  import opened Common
  import opened ErrGroup
  import opened AtomicCopies
  import opened CopyAll
  import opened Paths

  datatype CopyStat = CopyStat(bytes: int, streamed: bool, objects: nat)

  /** `stats[i]` is what copy i reported, once it has succeeded. */
  datatype Run<V> = Run(g: Group, store: Store<V>, total: CopyStat, stats: seq<Option<CopyStat>>)

  /**
   * A copy that succeeds also adds its stat and, atomically, its object; other events of
   * the group do neither. Other writers may change the store at any moment.
   */
  datatype RunEvent<V> = Copied(i: int, stat: CopyStat) | Other(ev: Event) | Outside(now: Store<V>)

  function Begin<V>(store: Store<V>, moves: seq<Move>, limit: nat): Run<V>
  {
    Run(Start(|moves|, limit), store, CopyStat(0, false, 0), seq(|moves|, i => None))
  }

  ghost predicate NextRun<V>(moves: seq<Move>, r: Run<V>, ev: RunEvent<V>, r': Run<V>)
    requires |moves| == |r.stats| == |r.g.tasks|
  {
    match ev
    case Copied(i, stat) =>
      && Next(r.g, Succeed(i), r'.g)
      && moves[i].from in r.store && r'.store == Apply(r.store, moves[i])
      && r'.total == CopyStat(r.total.bytes + stat.bytes, r.total.streamed || stat.streamed, r.total.objects + 1)
      && r'.stats == r.stats[i := Some(stat)]
    case Other(e) =>
      && !e.Succeed? && Next(r.g, e, r'.g)
      && r'.store == r.store && r'.total == r.total && r'.stats == r.stats
    case Outside(now) => r' == r.(store := now)
  }

  /** The totals over exactly the copies that succeeded. */
  function Totals(stats: seq<Option<CopyStat>>): CopyStat
  {
    if stats == [] then CopyStat(0, false, 0)
    else
      var front := Totals(stats[..|stats| - 1]);
      match stats[|stats| - 1]
      case None => front
      case Some(s) => CopyStat(front.bytes + s.bytes, front.streamed || s.streamed, front.objects + 1)
  }

  lemma {:induction false} TotalsUpdate(stats: seq<Option<CopyStat>>, i: int, s: CopyStat)
    requires 0 <= i < |stats| && stats[i].None?
    ensures var t := Totals(stats);
      Totals(stats[i := Some(s)]) == CopyStat(t.bytes + s.bytes, t.streamed || s.streamed, t.objects + 1)
  {
    var n := |stats| - 1;
    if i == n {
      assert stats[i := Some(s)][..n] == stats[..n];
    } else {
      TotalsUpdate(stats[..n], i, s);
      assert stats[i := Some(s)][..n] == stats[..n][i := Some(s)];
    }
  }

  lemma {:induction false} NoTotals(n: nat)
    ensures Totals(seq(n, i => None)) == CopyStat(0, false, 0)
  {
    if n > 0 {
      NoTotals(n - 1);
      var all: seq<Option<CopyStat>> := seq(n, i => None);
      assert all[..n - 1] == seq(n - 1, i => None);
    }
  }

  lemma {:induction false} AllTotalled(stats: seq<Option<CopyStat>>)
    requires forall i :: 0 <= i < |stats| ==> stats[i].Some?
    ensures Totals(stats).objects == |stats|
  {
    if stats != [] {
      AllTotalled(stats[..|stats| - 1]);
    }
  }

  function DoneMoves(moves: seq<Move>, tasks: seq<Task>): set<Move>
    requires |moves| == |tasks|
  {
    set i | 0 <= i < |moves| && tasks[i].Done? :: moves[i]
  }

  /** The group's invariant, and totals over exactly the copies that are done. */
  ghost predicate Counted<V>(moves: seq<Move>, r: Run<V>)
  {
    && |moves| == |r.g.tasks| == |r.stats| && Inv(r.g)
    && (forall i :: 0 <= i < |moves| ==> (r.stats[i].Some? <==> r.g.tasks[i].Done?))
    && r.total == Totals(r.stats)
  }

  lemma BeginCounted<V>(before: Store<V>, moves: seq<Move>, limit: nat)
    ensures Counted(moves, Begin(before, moves, limit))
  {
    StartInv(|moves|, limit);
    NoTotals(|moves|);
  }

  lemma DoneGrows(moves: seq<Move>, tasks: seq<Task>, i: int)
    requires |moves| == |tasks| && 0 <= i < |tasks|
    ensures DoneMoves(moves, tasks[i := Done]) == DoneMoves(moves, tasks) + {moves[i]}
    ensures DoneMoves(moves, tasks) + {moves[i]} <= Moves(moves)
    ensures moves[i] in moves
  {
    var now, next := tasks, tasks[i := Done];
    forall m | m in DoneMoves(moves, now) + {moves[i]} ensures m in DoneMoves(moves, next) {
      if m != moves[i] {
        var j :| 0 <= j < |moves| && now[j].Done? && moves[j] == m;
        assert next[j].Done?;
      } else {
        assert next[i].Done?;
      }
    }
  }

  lemma StepKeepsCount<V>(moves: seq<Move>, r: Run<V>, ev: RunEvent<V>, r': Run<V>)
    requires Counted(moves, r) && NextRun(moves, r, ev, r')
    ensures Counted(moves, r') && r'.g.limit == r.g.limit
    ensures r.g.err.Some? ==> r'.g.err == r.g.err
  {
    match ev
    case Copied(i, stat) =>
      StepKeepsInv(r.g, Succeed(i), r'.g);
      TotalsUpdate(r.stats, i, stat);
    case Other(e) =>
      StepKeepsInv(r.g, e, r'.g);
    case Outside(_) =>
  }

  /** A run: the states an interleaving passes through. */
  ghost predicate IsRun<V>(before: Store<V>, moves: seq<Move>, limit: nat, rs: seq<Run<V>>, evs: seq<RunEvent<V>>)
  {
    && |rs| == |evs| + 1 && rs[0] == Begin(before, moves, limit)
    && (forall k :: 0 <= k < |rs| ==> |rs[k].stats| == |rs[k].g.tasks| == |moves|)
    && (forall k :: 0 <= k < |evs| ==> NextRun(moves, rs[k], evs[k], rs[k + 1]))
  }

  lemma {:induction false} EveryState<V>(before: Store<V>, moves: seq<Move>, limit: nat, rs: seq<Run<V>>, evs: seq<RunEvent<V>>, k: nat)
    requires IsRun(before, moves, limit, rs, evs) && k < |rs|
    ensures Counted(moves, rs[k]) && rs[k].g.limit == limit
  {
    if k == 0 {
      BeginCounted(before, moves, limit);
    } else {
      EveryState(before, moves, limit, rs, evs, k - 1);
      StepKeepsCount(moves, rs[k - 1], evs[k - 1], rs[k]);
    }
  }

  /** Once a failure or a cancel is in, the copies that have begun are the only ones that ever will. */
  lemma {:induction false} NoLateStart<V>(before: Store<V>, moves: seq<Move>, limit: nat, rs: seq<Run<V>>, evs: seq<RunEvent<V>>, j: nat, k: nat)
    requires IsRun(before, moves, limit, rs, evs) && j <= k < |rs| && rs[j].g.cancelled
    ensures rs[k].g.cancelled
    ensures forall i :: 0 <= i < |moves| ==>
      var was, now := rs[j].g.tasks[i], rs[k].g.tasks[i];
      now.Working? || now.Done? || now.Failed? <==> was.Working? || was.Done? || was.Failed?
    decreases k
  {
    if j < k {
      NoLateStart(before, moves, limit, rs, evs, j, k - 1);
      EveryState(before, moves, limit, rs, evs, k - 1);
      match evs[k - 1]
      case Copied(i, _) => NothingBeginsOnceCancelled(rs[k - 1].g, Succeed(i), rs[k].g);
      case Other(e) => NothingBeginsOnceCancelled(rs[k - 1].g, e, rs[k].g);
      case Outside(_) =>
    }
  }

  /** The error that is reported is the first one there was. */
  lemma {:induction false} FirstErrorStays<V>(before: Store<V>, moves: seq<Move>, limit: nat, rs: seq<Run<V>>, evs: seq<RunEvent<V>>, j: nat, k: nat)
    requires IsRun(before, moves, limit, rs, evs) && j <= k < |rs| && rs[j].g.err.Some?
    ensures rs[k].g.err == rs[j].g.err
    decreases k
  {
    if j < k {
      FirstErrorStays(before, moves, limit, rs, evs, j, k - 1);
      EveryState(before, moves, limit, rs, evs, k - 1);
      StepKeepsCount(moves, rs[k - 1], evs[k - 1], rs[k]);
    }
  }

  /** No copy fails and nobody cancels. */
  predicate Smooth<V>(ev: RunEvent<V>) { ev.Other? ==> !ev.ev.Fail? && !ev.ev.CallerCancel? }

  /** A run without a failure or a cancel has no error, so once it has returned it has copied everything. */
  lemma {:induction false} SmoothRunCopiesAll<V>(before: Store<V>, moves: seq<Move>, limit: nat, rs: seq<Run<V>>, evs: seq<RunEvent<V>>, k: nat)
    requires IsRun(before, moves, limit, rs, evs) && k < |rs| && forall i :: 0 <= i < k ==> Smooth(evs[i])
    ensures !rs[k].g.cancelled && rs[k].g.err.None?
    ensures Finished(rs[k].g) ==> forall i :: 0 <= i < |moves| ==> rs[k].stats[i].Some?
  {
    EveryState(before, moves, limit, rs, evs, k);
    if k > 0 {
      SmoothRunCopiesAll(before, moves, limit, rs, evs, k - 1);
      EveryState(before, moves, limit, rs, evs, k - 1);
      match evs[k - 1]
      case Copied(i, _) => SmoothStep(rs[k - 1].g, Succeed(i), rs[k].g);
      case Other(e) => SmoothStep(rs[k - 1].g, e, rs[k].g);
      case Outside(_) =>
    }
  }

  /**
   * A run that has not returned can go on without a failure or a cancel, as long as the
   * copies at work still have their sources; and a copy at work can succeed with any stat.
   */
  lemma RunGoesOn<V>(moves: seq<Move>, r: Run<V>, stat: CopyStat) returns (ev: RunEvent<V>, r': Run<V>)
    requires Counted(moves, r) && r.g.limit >= 1 && !Finished(r.g)
    requires forall i :: 0 <= i < |moves| && r.g.tasks[i].Working? ==> moves[i].from in r.store
    ensures NextRun(moves, r, ev, r') && Smooth(ev) && !ev.Outside?
    ensures ev.Copied? ==> r'.stats[ev.i] == Some(stat) && r'.total.bytes == r.total.bytes + stat.bytes && r'.total.objects == r.total.objects + 1
    ensures Sum(r'.g.tasks, StepsLeft) < Sum(r.g.tasks, StepsLeft)
  {
    var e, g' := ErrGroup.NeverStuck(r.g);
    StepsRunOut(r.g, e, g');
    if e.Succeed? {
      ev := Copied(e.i, stat);
      r' := Run(g', Apply(r.store, moves[e.i]),
                CopyStat(r.total.bytes + stat.bytes, r.total.streamed || stat.streamed, r.total.objects + 1),
                r.stats[e.i := Some(stat)]);
    } else {
      ev, r' := Other(e), r.(g := g');
    }
  }

  /**
   * What a call that has returned says: its totals are over exactly the copies that
   * succeeded, its error is nil exactly when all of them did, and without a caller's
   * cancel an error is a real copy's failure.
   */
  ghost predicate Accounted<V>(moves: seq<Move>, end: Run<V>)
  {
    && |end.stats| == |end.g.tasks| == |moves|
    && end.total == Totals(end.stats)
    && (forall i :: 0 <= i < |moves| ==> (end.stats[i].Some? <==> end.g.tasks[i].Done?))
    && (end.g.err.None? <==> forall i :: 0 <= i < |moves| ==> end.g.tasks[i].Done?)
    && (end.g.err.None? ==> end.total.objects == |moves|)
    && (end.g.err.Some? && !end.g.callerCancelled ==>
          exists i, code :: 0 <= i < |moves| && end.g.err == Some(WorkFailed(i, code)) && end.g.tasks[i] == Failed(code))
  }

  /** The copies that have been started and have not returned. */
  function InFlightNow(tasks: seq<Task>): (s: set<int>)
    ensures forall i :: i in s <==> 0 <= i < |tasks| && (tasks[i].Spawned? || tasks[i].Working?)
  {
    set i | 0 <= i < |tasks| && (tasks[i].Spawned? || tasks[i].Working?)
  }

  /**
   * Run safety, for every list of copies, every interleaving and whatever other writers
   * do: at most `limit` copies in flight, and an honest account at the end.
   */
  lemma RunOutcome<V>(before: Store<V>, moves: seq<Move>, limit: nat, rs: seq<Run<V>>, evs: seq<RunEvent<V>>)
    requires IsRun(before, moves, limit, rs, evs)
    ensures forall k :: 0 <= k < |rs| ==> |InFlightNow(rs[k].g.tasks)| <= limit
    ensures Finished(rs[|rs| - 1].g) ==> Accounted(moves, rs[|rs| - 1])
  {
    forall k | 0 <= k < |rs| ensures Counted(moves, rs[k]) && rs[k].g.limit == limit && |InFlightNow(rs[k].g.tasks)| <= limit {
      EveryState(before, moves, limit, rs, evs, k);
      SumIsCount(rs[k].g.tasks);
    }
    var end := rs[|rs| - 1];
    if Finished(end.g) {
      WaitOutcome(end.g);
      if end.g.err.None? {
        AllTotalled(end.stats);
      } else if !end.g.callerCancelled {
        var WorkFailed(i, code) := end.g.err.value;
        assert 0 <= i < |moves| && end.g.tasks[i] == Failed(code);
      }
    }
  }

  // ----- the store -----

  /** An independent copy that found its source found the one that was there at the start. */
  lemma StoreStep<V>(before: Store<V>, now: Store<V>, moves: seq<Move>, tasks: seq<Task>, i: int)
    requires |moves| == |tasks| && 0 <= i < |tasks| && Independent(Moves(moves))
    requires CopiedExactly(before, now, DoneMoves(moves, tasks)) && moves[i].from in now
    ensures CopiedExactly(before, Apply(now, moves[i]), DoneMoves(moves, tasks[i := Done]))
  {
    var done, m := DoneMoves(moves, tasks), moves[i];
    DoneGrows(moves, tasks, i);
    assert Independent(done + {m});
    assert m.from in before by {
      if exists a :: a in done && a.to == m.from {
        var a :| a in done && a.to == m.from;
        assert a in done + {m} && m in done + {m};
      }
    }
    CopyStep(before, now, done, m);
  }

  ghost predicate Undisturbed<V>(evs: seq<RunEvent<V>>) { forall k :: 0 <= k < |evs| ==> !evs[k].Outside? }

  /** Without other writers, the store is at every moment the first one with exactly the finished copies made. */
  lemma {:induction false} StoreFollows<V>(before: Store<V>, moves: seq<Move>, limit: nat, rs: seq<Run<V>>, evs: seq<RunEvent<V>>, k: nat)
    requires IsRun(before, moves, limit, rs, evs) && k < |rs|
    requires Independent(Moves(moves)) && Undisturbed(evs)
    ensures CopiedExactly(before, rs[k].store, DoneMoves(moves, rs[k].g.tasks))
  {
    if k == 0 {
      assert DoneMoves(moves, Start(|moves|, limit).tasks) == {};
    } else {
      StoreFollows(before, moves, limit, rs, evs, k - 1);
      var r, r' := rs[k - 1], rs[k];
      match evs[k - 1]
      case Copied(i, _) => StoreStep(before, r.store, moves, r.g.tasks, i);
      case Other(e) =>
        EveryState(before, moves, limit, rs, evs, k - 1);
        assert forall i :: 0 <= i < |moves| ==> (r'.g.tasks[i].Done? <==> r.g.tasks[i].Done?);
        assert DoneMoves(moves, r'.g.tasks) == DoneMoves(moves, r.g.tasks);
    }
  }

  // ----- from a listing to the end of the call -----

  /** The prefixes and names for which the copies do not depend on their order. */
  predicate OrderIrrelevant(src: string, dst: string, names: seq<string>)
  {
    Guarded(src) && Guarded(dst) && NestedPrefix(dst, src).None? && !DotClash(src, dst, names)
  }

  lemma SelectedAreKept(listed: seq<string>, src: string, dst: string, names: seq<string>)
    requires SelectedFrom(listed, src, dst, names)
    ensures forall x :: x in names ==> Kept(src, dst, x)
    ensures forall x :: x in listed && !FolderMarker(x) && !AlreadyThere(src, dst, x) ==> x in names
  {
    forall x | x in names ensures Kept(src, dst, x) {
      assert x in multiset(names);
      assert x in multiset(listed);
    }
    forall x | x in listed && !FolderMarker(x) && !AlreadyThere(src, dst, x) ensures x in names {
      assert x in multiset(listed);
      assert x in multiset(names);
    }
  }

  /**
   * CopyListed from its listing on: every run over the selected names is safe, and where
   * order does not matter a nil error means that each listed name, but for folder markers
   * and those already there, is at dst/name with what src/name held, and that nothing
   * else changed.
   */
  lemma CopyListedOutcome<V>(before: Store<V>, listed: seq<string>, src: string, dst: string, names: seq<string>,
                             limit: nat, rs: seq<Run<V>>, evs: seq<RunEvent<V>>)
    requires SelectedFrom(listed, src, dst, names)
    requires IsRun(before, MovesOf(src, dst, names), limit, rs, evs)
    ensures forall k :: 0 <= k < |rs| ==> |InFlightNow(rs[k].g.tasks)| <= limit
    ensures var moves, end := MovesOf(src, dst, names), rs[|rs| - 1];
      && (Finished(end.g) ==> Accounted(moves, end))
      && (OrderIrrelevant(src, dst, names) && Undisturbed(evs) ==>
            CopiedExactly(before, end.store, DoneMoves(moves, end.g.tasks)))
      && (OrderIrrelevant(src, dst, names) && Undisturbed(evs) && Finished(end.g) && end.g.err.None? ==>
            && CopiedExactly(before, end.store, Moves(moves))
            && forall x :: x in listed && !FolderMarker(x) && !AlreadyThere(src, dst, x) ==>
                 && PathJoin(src, x) in before && PathJoin(dst, x) in end.store
                 && end.store[PathJoin(dst, x)] == before[PathJoin(src, x)])
  {
    var moves, end := MovesOf(src, dst, names), rs[|rs| - 1];
    RunOutcome(before, moves, limit, rs, evs);
    SelectedAreKept(listed, src, dst, names);
    if OrderIrrelevant(src, dst, names) && Undisturbed(evs) {
      IndependentIff(src, dst, names);
      StoreFollows(before, moves, limit, rs, evs, |rs| - 1);
      if Finished(end.g) && end.g.err.None? {
        assert DoneMoves(moves, end.g.tasks) == Moves(moves);
        forall x | x in names
          ensures PathJoin(src, x) in before && PathJoin(dst, x) in end.store
               && end.store[PathJoin(dst, x)] == before[PathJoin(src, x)]
        {
          var i :| 0 <= i < |names| && names[i] == x;
          assert moves[i] in Moves(moves);
        }
      }
    }
  }
}
