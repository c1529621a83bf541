/**
 * The errgroup pattern that CopyListed and copyParts share: at most `limit` goroutines,
 * each checking the group's context before it starts its work, and the first failure
 * cancelling the rest. A step is one event; an interleaving is any sequence of them.
 */
module ErrGroup {
  import opened Common

  /** A goroutine: not yet passed to Go, started, past its check, or returned. */
  datatype Task = Waiting | Spawned | Working | Done | Failed(code: int) | Skipped

  /** The first error returned: a task's own failure, or the context error of a skipped one. */
  datatype Report = WorkFailed(task: int, code: int) | CtxEnded(task: int)

  datatype Group = Group(
    tasks: seq<Task>, limit: nat, dispatched: nat,
    cancelled: bool, callerCancelled: bool, err: Option<Report>)

  datatype Event = Dispatch | Check(i: int) | Succeed(i: int) | Fail(i: int, code: int) | CallerCancel

  function Start(n: nat, limit: nat): Group
  {
    Group(seq(n, i => Waiting), limit, 0, false, false, None)
  }

  function Sum(tasks: seq<Task>, w: Task -> int): int
  {
    if tasks == [] then 0 else Sum(tasks[..|tasks| - 1], w) + w(tasks[|tasks| - 1])
  }

  function InFlight(t: Task): int { if t.Spawned? || t.Working? then 1 else 0 }

  function StepsLeft(t: Task): int
  {
    match t case Waiting => 3 case Spawned => 2 case Working => 1 case _ => 0
  }

  predicate Returned(t: Task) { t.Done? || t.Failed? || t.Skipped? }

  /** Go's errOnce: only the first error is kept, and it cancels the context. */
  function Return(g: Group, i: int, t: Task, r: Report): Group
    requires 0 <= i < |g.tasks|
  {
    g.(tasks := g.tasks[i := t], cancelled := true, err := if g.err.None? then Some(r) else g.err)
  }

  ghost predicate Next(g: Group, ev: Event, g': Group)
  {
    match ev
    case Dispatch =>
      g.dispatched < |g.tasks| && Sum(g.tasks, InFlight) < g.limit
      && g' == g.(tasks := g.tasks[g.dispatched := Spawned], dispatched := g.dispatched + 1)
    case Check(i) =>
      0 <= i < |g.tasks| && g.tasks[i].Spawned?
      && g' == if g.cancelled then Return(g, i, Skipped, CtxEnded(i)) else g.(tasks := g.tasks[i := Working])
    case Succeed(i) =>
      0 <= i < |g.tasks| && g.tasks[i].Working? && g' == g.(tasks := g.tasks[i := Done])
    case Fail(i, code) =>
      0 <= i < |g.tasks| && g.tasks[i].Working? && g' == Return(g, i, Failed(code), WorkFailed(i, code))
    case CallerCancel =>
      g' == g.(cancelled := true, callerCancelled := true)
  }

  /** What holds in every reachable state. */
  ghost predicate Inv(g: Group)
  {
    && g.dispatched <= |g.tasks|
    && (forall i :: 0 <= i < |g.tasks| ==> (g.tasks[i].Waiting? <==> g.dispatched <= i))
    && Sum(g.tasks, InFlight) <= g.limit
    && (g.cancelled <==> g.callerCancelled || g.err.Some?)
    && (forall i :: 0 <= i < |g.tasks| && (g.tasks[i].Failed? || g.tasks[i].Skipped?) ==> g.err.Some?)
    && (match g.err
        case None => true
        case Some(WorkFailed(i, code)) => 0 <= i < |g.tasks| && g.tasks[i] == Failed(code)
        case Some(CtxEnded(i)) => 0 <= i < |g.tasks| && g.tasks[i] == Skipped && g.callerCancelled)
  }

  /** The work of task i has begun. */
  predicate Begun(t: Task) { t.Working? || t.Done? || t.Failed? }

  lemma {:induction false} SumUpdate(tasks: seq<Task>, w: Task -> int, i: int, t: Task)
    requires 0 <= i < |tasks|
    ensures Sum(tasks[i := t], w) == Sum(tasks, w) - w(tasks[i]) + w(t)
  {
    var n := |tasks| - 1;
    if i == n {
      assert tasks[i := t][..n] == tasks[..n];
    } else {
      SumUpdate(tasks[..n], w, i, t);
      assert tasks[i := t][..n] == tasks[..n][i := t];
    }
  }

  lemma {:induction false} StartSum(n: nat)
    ensures Sum(seq(n, i => Waiting), InFlight) == 0
  {
    if n > 0 {
      StartSum(n - 1);
      assert seq(n, i => Waiting)[..n - 1] == seq(n - 1, i => Waiting);
    }
  }

  lemma StartInv(n: nat, limit: nat)
    ensures Inv(Start(n, limit))
  {
    StartSum(n);
  }

  lemma StepKeepsInv(g: Group, ev: Event, g': Group)
    requires Inv(g) && Next(g, ev, g')
    ensures Inv(g') && g'.limit == g.limit && |g'.tasks| == |g.tasks|
    ensures g.err.Some? ==> g'.err == g.err
  {
    match ev
    case Dispatch => SumUpdate(g.tasks, InFlight, g.dispatched, Spawned);
    case Check(i) => SumUpdate(g.tasks, InFlight, i, if g.cancelled then Skipped else Working);
    case Succeed(i) => SumUpdate(g.tasks, InFlight, i, Done);
    case Fail(i, code) => SumUpdate(g.tasks, InFlight, i, Failed(code));
    case CallerCancel =>
  }

  /** Without a failure or a cancel every task that has its turn works, and none is skipped. */
  lemma SmoothStep(g: Group, ev: Event, g': Group)
    requires Inv(g) && Next(g, ev, g') && !g.cancelled && !ev.Fail? && !ev.CallerCancel?
    ensures !g'.cancelled && g'.err.None?
  {
  }

  /** Go blocks only at the limit: below it the next task can be started. */
  lemma RoomToDispatch(g: Group) returns (g': Group)
    requires Inv(g) && g.dispatched < |g.tasks|
    requires |set i | 0 <= i < |g.tasks| && (g.tasks[i].Spawned? || g.tasks[i].Working?)| < g.limit
    ensures Next(g, Dispatch, g') && g'.tasks == g.tasks[g.dispatched := Spawned]
  {
    SumIsCount(g.tasks);
    g' := g.(tasks := g.tasks[g.dispatched := Spawned], dispatched := g.dispatched + 1);
  }

  /** The goroutines in flight, counted. */
  lemma {:induction false} SumIsCount(tasks: seq<Task>)
    ensures Sum(tasks, InFlight) == |set i | 0 <= i < |tasks| && (tasks[i].Spawned? || tasks[i].Working?)|
  {
    var all := set i | 0 <= i < |tasks| && (tasks[i].Spawned? || tasks[i].Working?);
    if tasks == [] {
      assert all == {};
    } else {
      var n := |tasks| - 1;
      var front := tasks[..n];
      SumIsCount(front);
      var before := set i | 0 <= i < |front| && (front[i].Spawned? || front[i].Working?);
      assert all == if tasks[n].Spawned? || tasks[n].Working? then before + {n} else before;
    }
  }

  /** After a failure or a cancel no further work begins, and the group stays cancelled. */
  lemma NothingBeginsOnceCancelled(g: Group, ev: Event, g': Group)
    requires Inv(g) && Next(g, ev, g') && g.cancelled
    ensures g'.cancelled && |g'.tasks| == |g.tasks|
    ensures forall i :: 0 <= i < |g.tasks| ==> (Begun(g'.tasks[i]) <==> Begun(g.tasks[i]))
  {
  }

  /** Every event but a caller's cancel uses up one of finitely many steps. */
  lemma StepsRunOut(g: Group, ev: Event, g': Group)
    requires Next(g, ev, g') && ev != CallerCancel && Inv(g)
    ensures Sum(g'.tasks, StepsLeft) < Sum(g.tasks, StepsLeft)
  {
    match ev
    case Dispatch => SumUpdate(g.tasks, StepsLeft, g.dispatched, Spawned);
    case Check(i) => SumUpdate(g.tasks, StepsLeft, i, if g.cancelled then Skipped else Working);
    case Succeed(i) => SumUpdate(g.tasks, StepsLeft, i, Done);
    case Fail(i, code) => SumUpdate(g.tasks, StepsLeft, i, Failed(code));
  }

  lemma {:induction false} IdleIffReturned(tasks: seq<Task>)
    ensures Sum(tasks, InFlight) >= 0
    ensures Sum(tasks, InFlight) > 0 <==> exists i :: 0 <= i < |tasks| && InFlight(tasks[i]) == 1
  {
    if tasks != [] {
      var n := |tasks| - 1;
      IdleIffReturned(tasks[..n]);
      if InFlight(tasks[n]) == 1 {
        assert 0 <= n < |tasks|;
      } else if Sum(tasks[..n], InFlight) > 0 {
        var i :| 0 <= i < n && InFlight(tasks[..n][i]) == 1;
        assert InFlight(tasks[i]) == 1;
      } else {
        forall i | 0 <= i < |tasks| ensures InFlight(tasks[i]) != 1 {
          if i < n { assert tasks[..n][i] == tasks[i]; }
        }
      }
    }
  }

  ghost predicate Finished(g: Group) { forall i :: 0 <= i < |g.tasks| ==> Returned(g.tasks[i]) }

  /** Wait cannot block for ever: until every task has returned, some task can move. */
  lemma NeverStuck(g: Group) returns (ev: Event, g': Group)
    requires Inv(g) && g.limit >= 1 && !Finished(g)
    ensures Next(g, ev, g') && ev != CallerCancel && !ev.Fail?
  {
    IdleIffReturned(g.tasks);
    if Sum(g.tasks, InFlight) > 0 {
      var i :| 0 <= i < |g.tasks| && InFlight(g.tasks[i]) == 1;
      if g.tasks[i].Spawned? {
        ev := Check(i);
        g' := if g.cancelled then Return(g, i, Skipped, CtxEnded(i)) else g.(tasks := g.tasks[i := Working]);
      } else {
        ev, g' := Succeed(i), g.(tasks := g.tasks[i := Done]);
      }
    } else {
      var i :| 0 <= i < |g.tasks| && !Returned(g.tasks[i]);
      assert InFlight(g.tasks[i]) != 1;
      ev := Dispatch;
      g' := g.(tasks := g.tasks[g.dispatched := Spawned], dispatched := g.dispatched + 1);
    }
  }

  /** What Wait returns, once every task has: nil exactly when every task did its work. */
  lemma WaitOutcome(g: Group)
    requires Inv(g) && Finished(g)
    ensures g.err.None? <==> forall i :: 0 <= i < |g.tasks| ==> g.tasks[i].Done?
    ensures g.err.Some? && !g.callerCancelled ==> g.err.value.WorkFailed?
  {
  }
}
