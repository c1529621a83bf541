/**
 * The lazily opened, shared SFTP connection (ssh/sftp_lazy.go): any number of concurrent
 * Client and Close calls around one lock that a caller can stop waiting for.
 */
module SftpLazy {
  import opened Common

  type Id = int
  type Conn = int

  /** What Client returns. CutShort is a failed connect whose own caller's ctx had ended. */
  datatype Answer =
    | Connected(conn: Conn) | ConnectFailed(err: int) | CutShort(err: int) | GaveUp | StorageClosed

  /** Where a call is: waiting for the lock, holding it, connecting under it, or returned. */
  datatype Caller =
    | ClientWaiting | ClientHolding | Connecting | ClientDone(answer: Answer)
    | CloseWaiting | CloseHolding | CloseDone

  /**
   * sftpLazy's fields and its callers. `connsOpened` and `connsClosed` count connections, `log` holds
   * Client's answers in the order they were given, and `firstAt` and `closedAt` say how
   * long it was when an outcome was first kept and when Close ran.
   */
  datatype State = State(
    callers: map<Id, Caller>, ctxDone: set<Id>, lock: Option<Id>,
    sftp: Option<Conn>, ssh: Option<Conn>, connErr: Option<int>, attempted: bool, closed: bool,
    connsOpened: nat, connsClosed: nat, log: seq<Answer>, firstAt: Option<nat>, closedAt: Option<nat>)

  datatype Step =
    | CallClient(id: Id) | CallClose(id: Id) | Cancel(id: Id)
    | GiveUp(id: Id) | Acquire(id: Id) | Decide(id: Id)
    | ConnectOk(id: Id, conn: Conn) | ConnectFail(id: Id, err: int)
    | FinishClose(id: Id)

  const START := State(map[], {}, None, None, None, None, false, false, 0, 0, [], None, None)

  predicate Holds(c: Caller) { c.ClientHolding? || c.Connecting? || c.CloseHolding? }

  function Set(s: State, id: Id, c: Caller): State { s.(callers := s.callers[id := c]) }

  /** Returns an answer to a Client call, without touching the lock. */
  function Reply(s: State, id: Id, a: Answer): State
  {
    Set(s, id, ClientDone(a)).(log := s.log + [a])
  }

  /** Returns an answer from under the lock, releasing it. */
  function Release(s: State, id: Id, a: Answer): State { Reply(s, id, a).(lock := None) }

  /** Keeps an outcome for the later callers. */
  function Keep(s: State): State { s.(attempted := true, firstAt := Some(|s.log|)) }

  /** What a kept outcome answers. */
  function Kept(s: State): Answer
    requires s.sftp.Some? || s.connErr.Some?
  {
    if s.sftp.Some? then Connected(s.sftp.value) else ConnectFailed(s.connErr.value)
  }

  ghost predicate Next(s: State, step: Step, s': State)
  {
    if step.CallClient? then step.id !in s.callers && s' == Set(s, step.id, ClientWaiting)
    else if step.CallClose? then step.id !in s.callers && s' == Set(s, step.id, CloseWaiting)
    else if step.Cancel? then s' == s.(ctxDone := s.ctxDone + {step.id})
    else step.id in s.callers && NextOf(s, step, s.callers[step.id], s')
  }

  ghost predicate NextOf(s: State, step: Step, c: Caller, s': State)
  {
    match step
    case GiveUp(id) => c.ClientWaiting? && id in s.ctxDone && s' == Reply(s, id, GaveUp)
    case Acquire(id) =>
      s.lock.None? && (c.ClientWaiting? || c.CloseWaiting?)
      && s' == Set(s, id, if c.ClientWaiting? then ClientHolding else CloseHolding).(lock := Some(id))
    case Decide(id) =>
      c.ClientHolding?
      && (if s.closed then s' == Release(s, id, StorageClosed)
          else if s.attempted then (s.sftp.Some? || s.connErr.Some?) && s' == Release(s, id, Kept(s))
          else s' == Set(s, id, Connecting))
    case ConnectOk(id, conn) =>
      c.Connecting?
      && s' == Release(Keep(s).(sftp := Some(conn), ssh := Some(conn), connsOpened := s.connsOpened + 1), id, Connected(conn))
    case ConnectFail(id, err) =>
      c.Connecting?
      && s' == if id in s.ctxDone then Release(s, id, CutShort(err))
               else Release(Keep(s).(connErr := Some(err)), id, ConnectFailed(err))
    case FinishClose(id) =>
      c.CloseHolding?
      && s' == Set(CloseConn(s), id, CloseDone).(lock := None)
    case _ => false
  }

  function CloseConn(s: State): State
  {
    var t := s.(closed := true, closedAt := if s.closedAt.None? then Some(|s.log|) else s.closedAt);
    if s.ssh.None? then t else t.(ssh := None, sftp := None, connsClosed := s.connsClosed + 1)
  }

  // ----- what every reachable state satisfies -----

  /** The lock has exactly the holder it names, so at most one call connects at a time. */
  ghost predicate LockInv(s: State)
  {
    && (forall id :: id in s.callers && Holds(s.callers[id]) ==> s.lock == Some(id))
    && (s.lock.Some? ==> s.lock.value in s.callers && Holds(s.callers[s.lock.value]))
    && (forall id :: id in s.callers && s.callers[id].Connecting? ==> !s.attempted && !s.closed)
  }

  /** One connection at most is ever opened, and it is open exactly while `ssh` is set. */
  ghost predicate ConnInv(s: State)
  {
    && s.sftp == s.ssh
    && s.connsOpened <= 1 && s.connsOpened - s.connsClosed == (if s.ssh.Some? then 1 else 0)
    && (!s.attempted ==> s.connsOpened == 0 && s.connErr.None?)
    && (s.closed ==> s.ssh.None?)
    && (s.attempted && !s.closed ==> (s.sftp.Some? <==> s.connErr.None?))
    && (s.connErr.Some? ==> s.connsOpened == 0)
  }

  /** What position j of the log may hold. */
  ghost predicate LogEntryOk(s: State, j: int)
    requires 0 <= j < |s.log|
  {
    || s.log[j].GaveUp?
    || (if s.closedAt.Some? && s.closedAt.value <= j then s.log[j].StorageClosed?
        else if s.firstAt.Some? && s.firstAt.value <= j then s.log[j] == s.log[s.firstAt.value]
        else s.log[j].CutShort?)
  }

  /**
   * The answers: connects cut short, then the first outcome kept, given to everyone, then
   * from Close on only ErrStorageClosed; a caller that gave up waiting may be anywhere.
   */
  ghost predicate LogInv(s: State)
  {
    && (s.attempted <==> s.firstAt.Some?) && (s.closed <==> s.closedAt.Some?)
    && (s.closedAt.Some? ==> s.closedAt.value <= |s.log|)
    && (s.firstAt.Some? ==>
          && s.firstAt.value < |s.log|
          && (s.closedAt.Some? ==> s.firstAt.value < s.closedAt.value)
          && (s.log[s.firstAt.value].Connected? || s.log[s.firstAt.value].ConnectFailed?)
          && (!s.closed ==> (s.sftp.Some? || s.connErr.Some?) && Kept(s) == s.log[s.firstAt.value]))
    && (forall j :: 0 <= j < |s.log| ==> LogEntryOk(s, j))
  }

  /** Every answer is logged. */
  ghost predicate AnswersLogged(s: State)
  {
    forall id :: id in s.callers && s.callers[id].ClientDone? ==> s.callers[id].answer in s.log
  }

  /**
   * Only a caller whose own ctx has ended was cut short or gave up; once a Close has
   * returned the storage is closed.
   */
  ghost predicate CallerInv(s: State)
  {
    && (forall id :: id in s.callers && s.callers[id].ClientDone? && (s.callers[id].answer.CutShort? || s.callers[id].answer.GaveUp?) ==>
          id in s.ctxDone)
    && (forall id :: id in s.callers && s.callers[id].CloseDone? ==> s.closed)
  }

  ghost predicate Inv(s: State) { LockInv(s) && ConnInv(s) && LogInv(s) && CallerInv(s) && AnswersLogged(s) }

  lemma StartInv()
    ensures Inv(START)
  {
  }

  lemma StepKeepsLock(s: State, step: Step, s': State)
    requires LockInv(s) && Next(s, step, s')
    ensures LockInv(s')
  {
  }

  lemma StepKeepsConn(s: State, step: Step, s': State)
    requires LockInv(s) && ConnInv(s) && Next(s, step, s')
    ensures ConnInv(s')
  {
  }

  lemma StepKeepsEntry(s: State, step: Step, s': State, j: nat)
    requires Inv(s) && Next(s, step, s') && j < |s'.log|
    ensures LogEntryOk(s', j)
  {
    assert s.log <= s'.log && |s'.log| <= |s.log| + 1;
    if j < |s.log| {
      assert LogEntryOk(s, j) && s'.log[j] == s.log[j];
    }
  }

  lemma StepKeepsLog(s: State, step: Step, s': State)
    requires Inv(s) && Next(s, step, s')
    ensures LogInv(s')
  {
    forall j | 0 <= j < |s'.log| ensures LogEntryOk(s', j) {
      StepKeepsEntry(s, step, s', j);
    }
  }

  /** A step changes one caller, and logs the answer it gives that one. */
  lemma OneCallerMoves(s: State, step: Step, s': State)
    requires Next(s, step, s')
    ensures forall id :: id in s'.callers && id != step.id ==> id in s.callers && s'.callers[id] == s.callers[id]
    ensures s.log <= s'.log && s.ctxDone <= s'.ctxDone && (s.closed ==> s'.closed)
    ensures step.id in s'.callers && s'.callers[step.id].ClientDone? ==>
      || (step.id in s.callers && s'.callers[step.id] == s.callers[step.id])
      || s'.log == s.log + [s'.callers[step.id].answer]
  {
  }

  /** A caller is cut short or gives up only with its ctx ended, and Close closes. */
  lemma MoverIsHonest(s: State, step: Step, s': State)
    requires Next(s, step, s') && step.id in s'.callers && !(step.id in s.callers && s'.callers[step.id] == s.callers[step.id])
    ensures s'.callers[step.id].ClientDone? && (s'.callers[step.id].answer.CutShort? || s'.callers[step.id].answer.GaveUp?) ==>
      step.id in s.ctxDone
    ensures s'.callers[step.id].CloseDone? ==> s'.closed
  {
  }

  lemma StepKeepsCallers(s: State, step: Step, s': State)
    requires CallerInv(s) && Next(s, step, s')
    ensures CallerInv(s')
  {
    OneCallerMoves(s, step, s');
    if step.id in s'.callers && !(step.id in s.callers && s'.callers[step.id] == s.callers[step.id]) {
      MoverIsHonest(s, step, s');
    }
  }

  lemma StepLogsAnswers(s: State, step: Step, s': State)
    requires AnswersLogged(s) && Next(s, step, s')
    ensures AnswersLogged(s')
  {
    OneCallerMoves(s, step, s');
    forall id | id in s'.callers && s'.callers[id].ClientDone? ensures s'.callers[id].answer in s'.log {
      if id in s.callers && s'.callers[id] == s.callers[id] {
        assert s.callers[id].answer in s.log;
      }
    }
  }

  ghost predicate IsRun(ss: seq<State>, steps: seq<Step>)
  {
    && |ss| == |steps| + 1 && ss[0] == START
    && forall k :: 0 <= k < |steps| ==> Next(ss[k], steps[k], ss[k + 1])
  }

  lemma {:induction false} EveryState(ss: seq<State>, steps: seq<Step>, k: nat)
    requires IsRun(ss, steps) && k < |ss|
    ensures Inv(ss[k])
  {
    if k == 0 {
      StartInv();
    } else {
      EveryState(ss, steps, k - 1);
      StepKeepsLock(ss[k - 1], steps[k - 1], ss[k]);
      StepKeepsConn(ss[k - 1], steps[k - 1], ss[k]);
      StepKeepsLog(ss[k - 1], steps[k - 1], ss[k]);
      StepKeepsCallers(ss[k - 1], steps[k - 1], ss[k]);
      StepLogsAnswers(ss[k - 1], steps[k - 1], ss[k]);
    }
  }

  predicate Outcome(a: Answer) { a.Connected? || a.ConnectFailed? }

  /**
   * For any number of concurrent calls and any cancellations: one connect at a time, one
   * success ever, one open connection exactly while `ssh` is set; the first outcome that
   * was not cut short answers every later caller until Close, and nothing but
   * ErrStorageClosed answers after it, unless the caller gave up waiting. Only a caller
   * whose own ctx ended is cut short or gives up.
   */
  lemma ConnectOnce(ss: seq<State>, steps: seq<Step>, k: nat)
    requires IsRun(ss, steps) && k < |ss|
    ensures var s := ss[k];
      && (forall a, b :: a in s.callers && b in s.callers && s.callers[a].Connecting? && s.callers[b].Connecting? ==> a == b)
      && s.connsOpened <= 1 && s.connsOpened - s.connsClosed == (if s.ssh.Some? then 1 else 0)
      && (s.closed ==> s.ssh.None? && s.closedAt.Some?)
      && (forall id :: id in s.callers && s.callers[id].CloseDone? ==> s.closed)
      && (forall id :: id in s.callers && s.callers[id].ClientDone? ==> s.callers[id].answer in s.log)
      && (forall id :: id in s.callers && s.callers[id].ClientDone? && (s.callers[id].answer.CutShort? || s.callers[id].answer.GaveUp?) ==>
            id in s.ctxDone)
      && (forall i, j :: 0 <= i < j < |s.log| && Outcome(s.log[i]) && (s.closedAt.Some? ==> j < s.closedAt.value) ==>
            s.log[j] == s.log[i] || s.log[j].GaveUp?)
      && (forall j :: 0 <= j < |s.log| && s.closedAt.Some? && s.closedAt.value <= j ==>
            s.log[j].StorageClosed? || s.log[j].GaveUp?)
      && (forall j :: 0 <= j < |s.log| && s.log[j].StorageClosed? ==> s.closedAt.Some? && s.closedAt.value <= j)
  {
    EveryState(ss, steps, k);
    var s := ss[k];
    forall i, j | 0 <= i < j < |s.log| && Outcome(s.log[i]) && (s.closedAt.Some? ==> j < s.closedAt.value)
      ensures s.log[j] == s.log[i] || s.log[j].GaveUp?
    {
      assert LogEntryOk(s, i) && LogEntryOk(s, j);
    }
    forall j | 0 <= j < |s.log|
      ensures s.closedAt.Some? && s.closedAt.value <= j ==> s.log[j].StorageClosed? || s.log[j].GaveUp?
      ensures s.log[j].StorageClosed? ==> s.closedAt.Some? && s.closedAt.value <= j
    {
      assert LogEntryOk(s, j);
    }
  }

  lemma StepKeepsOutcome(s: State, step: Step, s': State)
    requires Inv(s) && Next(s, step, s') && s.attempted
    ensures s'.attempted && s'.firstAt == s.firstAt && s.log <= s'.log
  {
  }

  /** Once an outcome is kept it stays the one that was first. */
  lemma {:induction false} OutcomeStays(ss: seq<State>, steps: seq<Step>, j: nat, k: nat)
    requires IsRun(ss, steps) && j <= k < |ss| && ss[j].attempted
    ensures ss[k].attempted && ss[k].firstAt == ss[j].firstAt && ss[j].log <= ss[k].log
    decreases k
  {
    if j < k {
      OutcomeStays(ss, steps, j, k - 1);
      EveryState(ss, steps, k - 1);
      StepKeepsOutcome(ss[k - 1], steps[k - 1], ss[k]);
    }
  }

  lemma {:induction false} ClosedStays(ss: seq<State>, steps: seq<Step>, j: nat, k: nat)
    requires IsRun(ss, steps) && j <= k < |ss| && ss[j].closed
    ensures ss[k].closed
    decreases k
  {
    if j < k {
      ClosedStays(ss, steps, j, k - 1);
    }
  }

  /**
   * A connect that succeeds, or fails while its caller's ctx is alive, answers that caller
   * with its own result and every caller that acquires the lock later with the same one,
   * until Close.
   */
  lemma FirstOutcomeAnswersAll(ss: seq<State>, steps: seq<Step>, j: nat, k: nat)
    requires IsRun(ss, steps) && j < k < |steps| && steps[k].Decide?
    requires steps[j].ConnectOk? || (steps[j].ConnectFail? && steps[j].id !in ss[j].ctxDone)
    ensures var outcome := if steps[j].ConnectOk? then Connected(steps[j].conn) else ConnectFailed(steps[j].err);
      && ss[j + 1].callers[steps[j].id] == ClientDone(outcome)
      && ss[k + 1].callers[steps[k].id] == ClientDone(if ss[k].closed then StorageClosed else outcome)
  {
    var outcome := if steps[j].ConnectOk? then Connected(steps[j].conn) else ConnectFailed(steps[j].err);
    assert ss[j + 1].firstAt == Some(|ss[j].log|) && ss[j + 1].log == ss[j].log + [outcome];
    OutcomeStays(ss, steps, j + 1, k);
    EveryState(ss, steps, k);
    assert ss[k].log[|ss[j].log|] == outcome;
  }

  /** After a Close has run, every Client call that acquires the lock is told so. */
  lemma ClosedAnswersAll(ss: seq<State>, steps: seq<Step>, j: nat, k: nat)
    requires IsRun(ss, steps) && j < k < |steps| && steps[j].FinishClose? && steps[k].Decide?
    ensures ss[k + 1].callers[steps[k].id] == ClientDone(StorageClosed)
  {
    ClosedStays(ss, steps, j + 1, k);
  }

  /**
   * A connect may end either way, and answers its caller with what happened; only a
   * failure with the caller's ctx ended leaves the next caller to connect again.
   */
  lemma ConnectMayEnd(s: State, id: Id, conn: Conn, err: int) returns (up: State, down: State)
    requires Inv(s) && id in s.callers && s.callers[id].Connecting?
    ensures Next(s, ConnectOk(id, conn), up) && up.callers[id] == ClientDone(Connected(conn)) && up.attempted && up.ssh == Some(conn)
    ensures Next(s, ConnectFail(id, err), down)
    ensures down.callers[id] == ClientDone(if id in s.ctxDone then CutShort(err) else ConnectFailed(err))
    ensures down.attempted <==> id !in s.ctxDone
    ensures up.lock.None? && down.lock.None?
  {
    up := Release(Keep(s).(sftp := Some(conn), ssh := Some(conn), connsOpened := s.connsOpened + 1), id, Connected(conn));
    down := if id in s.ctxDone then Release(s, id, CutShort(err))
            else Release(Keep(s).(connErr := Some(err)), id, ConnectFailed(err));
  }

  /** A waiting caller whose ctx has ended may leave, and changes nothing but its own answer. */
  lemma WaiterMayLeave(s: State, id: Id) returns (s': State)
    requires id in s.callers && s.callers[id].ClientWaiting? && id in s.ctxDone
    ensures Next(s, GiveUp(id), s')
    ensures s' == s.(callers := s.callers[id := ClientDone(GaveUp)], log := s.log + [GaveUp])
  {
    s' := Reply(s, id, GaveUp);
  }

  predicate Returned(c: Caller) { c.ClientDone? || c.CloseDone? }

  /** No call can block the others for ever: while one has not returned, some call can move. */
  lemma NeverStuck(s: State, waiting: Id) returns (step: Step, s': State)
    requires Inv(s) && waiting in s.callers && !Returned(s.callers[waiting])
    ensures Next(s, step, s') && !step.CallClient? && !step.CallClose? && !step.Cancel?
  {
    if s.lock.None? {
      step := Acquire(waiting);
      s' := Set(s, waiting, if s.callers[waiting].ClientWaiting? then ClientHolding else CloseHolding).(lock := Some(waiting));
    } else {
      var id := s.lock.value;
      match s.callers[id]
      case ClientHolding =>
        step := Decide(id);
        s' := if s.closed then Release(s, id, StorageClosed)
              else if s.attempted then Release(s, id, Kept(s)) else Set(s, id, Connecting);
      case Connecting =>
        step, s' := ConnectFail(id, 0), if id in s.ctxDone then Release(s, id, CutShort(0))
                                        else Release(Keep(s).(connErr := Some(0)), id, ConnectFailed(0));
      case CloseHolding =>
        step, s' := FinishClose(id), Set(CloseConn(s), id, CloseDone).(lock := None);
    }
  }
}
