/** Waiting for an asynchronous blob copy (azure/storage.go, azure/config.go). */
module AzurePoll {
  import opened Common

  // Durations are int64 nanoseconds.
  const DEFAULT_INTERVAL: int := 50_000_000
  const DEFAULT_MAX_INTERVAL: int := 2_000_000_000

  /** The intervals a copy polls with: the call's option, then the configuration, then the default. */
  function CopyPollIntervals(optInterval: int, optMax: int, cfgInterval: int, cfgMax: int): (r: (int, int))
    ensures 0 < r.0 <= r.1
    ensures optInterval > 0 ==> r.0 == optInterval
    ensures optInterval <= 0 < cfgInterval ==> r.0 == cfgInterval
    ensures optInterval <= 0 && cfgInterval <= 0 ==> r.0 == DEFAULT_INTERVAL
    ensures optMax > 0 ==> r.1 == Max(optMax, r.0)
    ensures optMax <= 0 < cfgMax ==> r.1 == Max(cfgMax, r.0)
    ensures optMax <= 0 && cfgMax <= 0 ==> r.1 == Max(DEFAULT_MAX_INTERVAL, r.0)
  {
    var interval := if optInterval > 0 then optInterval else cfgInterval;
    var maxInterval := if optMax > 0 then optMax else cfgMax;
    var first := if interval <= 0 then DEFAULT_INTERVAL else interval;
    var most := if maxInterval <= 0 then DEFAULT_MAX_INTERVAL else maxInterval;
    (first, Max(most, first))
  }

  /** The interval after one wait, in int64. */
  function Doubled(interval: int, max: int): int { Min(Wrap64(interval * 2), max) }

  /** The k-th wait of the loop. */
  function WaitAt(first: int, max: int, k: nat): int
  {
    if k == 0 then first else Doubled(WaitAt(first, max, k - 1), max)
  }

  /** first * 2^k. */
  function Doubling(first: int, k: nat): (d: int)
    ensures first >= 1 ==> d >= k + 1
  {
    if k == 0 then first else 2 * Doubling(first, k - 1)
  }

  /** Within half of int64 every wait is the doubled first interval, capped. */
  lemma {:induction false} WaitIsCappedDoubling(first: int, max: int, k: nat)
    requires 0 < first <= max <= MAX_INT64 / 2
    ensures WaitAt(first, max, k) == Min(Doubling(first, k), max)
    ensures first <= WaitAt(first, max, k) <= max
    ensures WaitAt(first, max, k + 1) == if 2 * WaitAt(first, max, k) <= max then 2 * WaitAt(first, max, k) else max
  {
    if k > 0 {
      WaitIsCappedDoubling(first, max, k - 1);
    }
    WrapIsIdentity(WaitAt(first, max, k) * 2);
  }

  /** Above half of int64, doubling passes it before it reaches the cap. */
  lemma {:induction false} DoublingPassesHalf(first: int, max: int, k: nat)
    requires 0 < first <= max <= MAX_INT64 && MAX_INT64 / 2 < max
    requires forall j :: 0 <= j < k ==> WaitAt(first, max, j) <= MAX_INT64 / 2
    ensures WaitAt(first, max, k) == Min(Doubling(first, k), max)
  {
    if k > 0 {
      DoublingPassesHalf(first, max, k - 1);
      var w := WaitAt(first, max, k - 1);
      assert w <= MAX_INT64 / 2;
      assert w == Doubling(first, k - 1);
      WrapIsIdentity(w * 2);
    }
  }

  lemma {:induction false} FirstPastHalf(first: int, max: int, k: nat) returns (j: nat)
    requires WaitAt(first, max, k) > MAX_INT64 / 2
    ensures j <= k && WaitAt(first, max, j) > MAX_INT64 / 2
    ensures forall i :: 0 <= i < j ==> WaitAt(first, max, i) <= MAX_INT64 / 2
  {
    j := 0;
    while WaitAt(first, max, j) <= MAX_INT64 / 2
      invariant j <= k && forall i :: 0 <= i < j ==> WaitAt(first, max, i) <= MAX_INT64 / 2
      decreases k - j
    {
      j := j + 1;
    }
  }

  lemma SomeWaitPastHalf(first: int, max: int) returns (k: nat)
    requires 0 < first <= max <= MAX_INT64 && MAX_INT64 / 2 < max
    ensures WaitAt(first, max, k) > MAX_INT64 / 2
  {
    var big: nat := MAX_INT64;
    if exists j :: 0 <= j < big && WaitAt(first, max, j) > MAX_INT64 / 2 {
      k :| 0 <= k < big && WaitAt(first, max, k) > MAX_INT64 / 2;
    } else {
      k := big;
      DoublingPassesHalf(first, max, big);
    }
  }

  lemma DoubleWrapsNegative(w: int)
    requires MAX_INT64 / 2 < w <= MAX_INT64
    ensures Wrap64(w * 2) < 0
  {
    assert (w * 2) % TWO_64 == w * 2;
  }

  /** A cap above half of int64 is overrun: some wait comes out negative. */
  lemma WaitOverflows(first: int, max: int) returns (k: nat)
    requires 0 < first <= max <= MAX_INT64 && MAX_INT64 / 2 < max
    ensures WaitAt(first, max, k) < 0
  {
    var past := SomeWaitPastHalf(first, max);
    var j := FirstPastHalf(first, max, past);
    DoublingPassesHalf(first, max, j);
    DoubleWrapsNegative(WaitAt(first, max, j));
    k := j + 1;
  }

  /** The wait stays between the first interval and the cap for ever exactly when the cap is at most half of int64. */
  lemma WaitsStayInRangeIff(first: int, max: int)
    requires 0 < first <= max <= MAX_INT64
    ensures (forall k: nat :: first <= WaitAt(first, max, k) <= max) <==> max <= MAX_INT64 / 2
  {
    if max <= MAX_INT64 / 2 {
      forall k: nat ensures first <= WaitAt(first, max, k) <= max {
        WaitIsCappedDoubling(first, max, k);
      }
    } else {
      var k := WaitOverflows(first, max);
      assert WaitAt(first, max, k) < first;
    }
  }

  // ----- the polling loop -----

  datatype Status = Pending | Success | OtherStatus

  /** GetProperties: a failure, or the destination's copy id and status, either of which may be absent. */
  datatype Poll = PollFailed | Props(copyID: Option<int>, status: Option<Status>)

  /**
   * What the world does in one turn of the loop: whether ctx ends during the wait, what
   * the poll answers, and whether ctx has ended by the end of the poll and of an abort.
   */
  datatype Turn = Turn(endsWaiting: bool, poll: Poll, endedAfterPoll: bool, endedAfterAbort: bool)

  datatype Error = CtxEnded | CheckFailed | Superseded | NoStatus | CopyEnded | Both(first: Error, second: Error)

  /** The answer once there is one: properties and a nil error, or an error. */
  datatype Answer = StillPolling | Returned(props: Option<Poll>, err: Option<Error>)

  /** abortCopy: asks for the abort and returns ctx's error, which is nil while ctx is alive. */
  method AbortCopy(ctxEnded: bool, aborts: nat) returns (err: Option<Error>, aborts': nat)
    ensures aborts' == aborts + 1 && (err.Some? <==> ctxEnded) && (err.Some? ==> err == Some(CtxEnded))
  {
    aborts' := aborts + 1;
    err := if ctxEnded then Some(CtxEnded) else None;
  }

  /** errors.Join of a failure and an error that may be nil. */
  function Joined(first: Error, second: Option<Error>): Option<Error>
  {
    Some(match second case None => first case Some(e) => Both(first, e))
  }

  /** A poll that keeps the loop going. */
  predicate KeepsPolling(copyID: int, t: Turn) { !t.endsWaiting && t.poll == Props(Some(copyID), Some(Pending)) }

  /**
   * awaitCopy over any finite stretch of turns. It returns at the first turn that is not
   * pending; a nil error only for a success under its own copy id; an abort is asked for,
   * once, exactly when it leaves a copy that may still be running; and the waits are
   * those of WaitAt.
   */
  method AwaitCopy(copyID: int, first: int, max: int, turns: seq<Turn>)
    returns (r: Answer, waits: seq<int>, aborts: nat)
    ensures |waits| <= |turns| && forall i :: 0 <= i < |waits| ==> waits[i] == WaitAt(first, max, i)
    ensures r.StillPolling? <==>
      forall i :: 0 <= i < |turns| ==> !turns[i].endsWaiting && turns[i].poll == Props(Some(copyID), Some(Pending))
    ensures r.StillPolling? ==> aborts == 0 && |waits| == |turns|
    ensures r.Returned? ==>
      && |waits| > 0
      && (forall i :: 0 <= i < |waits| - 1 ==> !turns[i].endsWaiting && turns[i].poll == Props(Some(copyID), Some(Pending)))
      && var last := turns[|waits| - 1];
         && (last.endsWaiting || last.poll != Props(Some(copyID), Some(Pending)))
         && (r.err.None? <==> !last.endsWaiting && last.poll == Props(Some(copyID), Some(Success)))
         && r.props == (if r.err.None? then Some(last.poll) else None)
         && aborts == (if last.endsWaiting || last.poll.PollFailed? then 1 else 0)
         && Explains(copyID, last, r.err)
  {
    waits, aborts, r := [], 0, StillPolling;
    var interval := first;
    for i := 0 to |turns|
      invariant |waits| == i && aborts == 0 && interval == WaitAt(first, max, i) && r.StillPolling?
      invariant forall j :: 0 <= j < i ==> waits[j] == WaitAt(first, max, j) && KeepsPolling(copyID, turns[j])
    {
      waits := waits + [interval];
      interval := Doubled(interval, max);
      r, aborts := OneTurn(copyID, turns[i]);
      if r.Returned? {
        return;
      }
    }
  }

  /** Why awaitCopy leaves without success: the ended ctx, the failed poll, or what the poll showed. */
  ghost predicate Explains(copyID: int, t: Turn, err: Option<Error>)
  {
    && (t.endsWaiting ==> err == Some(CtxEnded))
    && (!t.endsWaiting && t.poll.PollFailed? ==>
          err == Some(if t.endedAfterPoll then CtxEnded else if t.endedAfterAbort then Both(CheckFailed, CtxEnded) else CheckFailed))
    && (!t.endsWaiting && t.poll.Props? ==>
          && (err == Some(Superseded) <==> t.poll.copyID != Some(copyID))
          && (err == Some(NoStatus) <==> t.poll == Props(Some(copyID), None))
          && (err == Some(CopyEnded) <==> t.poll == Props(Some(copyID), Some(OtherStatus))))
  }

  /** One turn of the loop: wait, poll, and go on or leave. */
  method OneTurn(copyID: int, t: Turn) returns (r: Answer, aborts: nat)
    ensures r.StillPolling? <==> KeepsPolling(copyID, t)
    ensures r.Returned? ==> (r.err.None? <==> !t.endsWaiting && t.poll == Props(Some(copyID), Some(Success)))
    ensures r.Returned? ==> r.props == if r.err.None? then Some(t.poll) else None
    ensures aborts == if t.endsWaiting || t.poll.PollFailed? then 1 else 0
    ensures r.Returned? ==> Explains(copyID, t, r.err)
  {
    aborts := 0;
    var err: Option<Error>;
    if t.endsWaiting {
      err, aborts := AbortCopy(true, aborts);
      return Returned(None, err), aborts;
    }
    match t.poll
    case PollFailed =>
      if t.endedAfterPoll {
        err, aborts := AbortCopy(true, aborts);
        return Returned(None, err), aborts;
      }
      err, aborts := AbortCopy(t.endedAfterAbort, aborts);
      return Returned(None, Joined(CheckFailed, err)), aborts;
    case Props(id, status) =>
      if id != Some(copyID) {
        return Returned(None, Some(Superseded)), aborts;
      }
      if status.None? {
        return Returned(None, Some(NoStatus)), aborts;
      }
      match status.value
      case Pending => return StillPolling, aborts;
      case Success => return Returned(Some(t.poll), None), aborts;
      case OtherStatus => return Returned(None, Some(CopyEnded)), aborts;
  }
}
