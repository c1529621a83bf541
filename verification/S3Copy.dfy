/**
 * S3's server-side Copy (s3/storage.go) against a source that other writers overwrite or
 * delete at any moment. Each API call is one step; writers and part copies interleave
 * freely with the copy.
 */
module S3Copy {
  import opened Common
  import opened ErrGroup
  import opened S3Parts

  const MAX_COPY_OBJECT_SIZE: int := 5 * 1024 * 1024 * 1024

  type ETag = int

  datatype CopyError = FileNotFound | SourceChanged | OtherError
  datatype Result = Copied(bytes: int) | Refused(error: CopyError)

  /** The fixed parameters of a call. An ETag names one version of the source, and so its bytes. */
  datatype Call = Call(bodyOf: ETag -> Bytes, sameKey: bool, requestedPartSize: int, concurrency: int)

  /** The part size multipartCopy cuts an object of that size with. */
  function Cut(call: Call, size: int): (partSize: int)
    ensures partSize > 0
  {
    PartSize(call.requestedPartSize, size)
  }

  /** A version of the source as HEAD or a listing reports it. */
  datatype Pin = Pin(etag: ETag, size: int)

  datatype Pc =
    | AtListed(pin: Pin) | AtHead | AtCopyObject(pin: Pin)
    | AtCreate(pin: Pin) | AtParts(pin: Pin, g: Group) | AtComplete(pin: Pin) | AtAbort(error: CopyError)
    | Returned(result: Result)

  /**
   * The bucket as this call sees it, and where the call is. `seen` is every version the
   * source has had since the call began; `parts` is the open upload, `aborts` counts
   * AbortMultipartUpload requests, and `pinned` is the version the call last pinned.
   */
  datatype State = State(
    src: Option<ETag>, seen: set<ETag>, dst: Option<Bytes>,
    upload: Option<seq<Option<Bytes>>>, aborts: nat, pinned: Option<ETag>, pc: Pc)

  datatype Step =
    | Write(version: Option<ETag>)
    | Succeeds
    | Fails(error: CopyError)
    | PartEvent(ev: Event)

  /** Copy begins at HEAD; copyListed, given a listing, with one CopyObject pinned to it. */
  ghost predicate Init(call: Call, s: State)
  {
    && s.seen == (if s.src.Some? then {s.src.value} else {}) && s.upload == None && s.aborts == 0 && s.pinned == None
    && (s.pc == AtHead
        || (s.pc.AtListed? && !call.sameKey && s.pc.pin.size == |call.bodyOf(s.pc.pin.etag)| <= MAX_COPY_OBJECT_SIZE))
  }

  /** How S3 can refuse a call pinned to etag: by what the source is now, or for reasons of its own. */
  predicate CanRefuse(s: State, etag: ETag, error: CopyError)
  {
    match error
    case FileNotFound => s.src.None?
    case SourceChanged => s.src.Some? && s.src != Some(etag)
    case OtherError => true
  }

  function ErrorCode(error: CopyError): int
  {
    match error case FileNotFound => 404 case SourceChanged => 412 case OtherError => 500
  }

  function ErrorOf(r: Report): CopyError
  {
    match r
    case WorkFailed(_, code) => if code == 404 then FileNotFound else if code == 412 then SourceChanged else OtherError
    case CtxEnded(_) => OtherError
  }

  ghost predicate Next(call: Call, s: State, step: Step, s': State)
  {
    if step.Write? then
      s' == s.(src := step.version, seen := s.seen + if step.version.Some? then {step.version.value} else {})
    else
      match s.pc
      case AtListed(pin) =>
        if step.Succeeds? then s.src == Some(pin.etag) && s' == CopyWhole(call, s, pin)
        else
          && step.Fails? && CanRefuse(s, pin.etag, step.error)
          && s' == s.(pc := if step.error == SourceChanged then AtHead else Returned(Refused(step.error)))
      case AtHead =>
        if step.Succeeds? then s.src.Some? && s' == AfterHead(call, s, Pin(s.src.value, |call.bodyOf(s.src.value)|))
        else
          && step.Fails? && step.error != SourceChanged && (step.error == FileNotFound ==> s.src.None?)
          && s' == s.(pc := Returned(Refused(step.error)))
      case AtCopyObject(pin) =>
        if step.Succeeds? then s.src == Some(pin.etag) && s' == CopyWhole(call, s, pin)
        else step.Fails? && CanRefuse(s, pin.etag, step.error) && s' == s.(pc := Returned(Refused(step.error)))
      case AtCreate(pin) =>
        var n := PartCount(pin.size, Cut(call, pin.size));
        if step.Succeeds? then
          n >= 0 && s' == s.(upload := Some(seq(n, i => None)), pc := AtParts(pin, Start(n, Max(call.concurrency, 1))))
        else
          && step.Fails? && step.error != SourceChanged && (step.error == FileNotFound ==> s.src.None?)
          && s' == s.(pc := Returned(Refused(step.error)))
      case AtParts(pin, g) =>
        if step.Succeeds? then
          && Finished(g)
          && s' == s.(pc := if g.err.None? then AtComplete(pin) else AtAbort(ErrorOf(g.err.value)))
        else step.PartEvent? && NextPart(call, s, pin, g, step.ev, s')
      case AtComplete(pin) =>
        if step.Succeeds? then
          && s.upload.Some? && (forall i :: 0 <= i < |s.upload.value| ==> s.upload.value[i].Some?)
          && s' == s.(dst := Some(Flatten(Values(s.upload.value))), pc := Returned(Copied(pin.size)))
        else step.Fails? && step.error != SourceChanged && s' == s.(pc := AtAbort(step.error))
      case AtAbort(error) =>
        (step.Succeeds? || step.Fails?) && s' == s.(aborts := s.aborts + 1, pc := Returned(Refused(error)))
      case Returned(_) => false
  }

  /** CopyObject copies what the source is now; the pin only lets it when that is the pinned version. */
  function CopyWhole(call: Call, s: State, pin: Pin): State
    requires s.src.Some?
  {
    s.(dst := Some(call.bodyOf(s.src.value)), pinned := Some(pin.etag), pc := Returned(Copied(pin.size)))
  }

  function AfterHead(call: Call, s: State, pin: Pin): State
  {
    var s1 := s.(pinned := Some(pin.etag));
    if call.sameKey then s1.(pc := Returned(Copied(0)))
    else if pin.size > MAX_COPY_OBJECT_SIZE then s1.(pc := AtCreate(pin))
    else s1.(pc := AtCopyObject(pin))
  }

  /** One event among the part copies; a part that succeeds was pinned and is stored, as the source is now, in the upload. */
  ghost predicate NextPart(call: Call, s: State, pin: Pin, g: Group, ev: Event, s': State)
  {
    match ev
    case Succeed(i) =>
      && s'.pc.AtParts? && ErrGroup.Next(g, ev, s'.pc.g)
      && s.src == Some(pin.etag) && s.upload.Some? && 0 <= i < |s.upload.value|
      && var body := call.bodyOf(s.src.value);
         && |body| > 0 && i < PartCount(|body|, Cut(call, pin.size))
         && s' == s.(upload := Some(s.upload.value[i := Some(Part(body, Cut(call, pin.size), i))]), pc := AtParts(pin, s'.pc.g))
    case Fail(i, code) =>
      && s'.pc.AtParts? && ErrGroup.Next(g, ev, s'.pc.g)
      && (exists error :: code == ErrorCode(error) && CanRefuse(s, pin.etag, error))
      && s' == s.(pc := AtParts(pin, s'.pc.g))
    case _ =>
      s'.pc.AtParts? && ErrGroup.Next(g, ev, s'.pc.g) && s' == s.(pc := AtParts(pin, s'.pc.g))
  }

  function Values(parts: seq<Option<Bytes>>): (vs: seq<Bytes>)
    requires forall i :: 0 <= i < |parts| ==> parts[i].Some?
    ensures |vs| == |parts| && forall i :: 0 <= i < |parts| ==> vs[i] == parts[i].value
  {
    seq(|parts|, i requires 0 <= i < |parts| => parts[i].value)
  }

  // ----- what every reachable state satisfies -----

  /** A pin the call holds is of a version the source really had, with its true size. */
  ghost predicate Pinned(call: Call, s: State, pin: Pin)
  {
    s.pinned == Some(pin.etag) && pin.etag in s.seen && pin.size == |call.bodyOf(pin.etag)|
  }

  /** The open upload holds a part exactly where a part copy is done, and always of the pinned version. */
  ghost predicate UploadMatches(call: Call, s: State, pin: Pin, tasks: seq<Task>)
  {
    && pin.size > 0 && s.upload.Some? && |s.upload.value| == |tasks| == PartCount(pin.size, Cut(call, pin.size))
    && pin.size == |call.bodyOf(pin.etag)|
    && forall i :: 0 <= i < |tasks| ==>
         s.upload.value[i] == if tasks[i].Done? then Some(Part(call.bodyOf(pin.etag), Cut(call, pin.size), i)) else None
  }

  /** The source has had two versions since the call began. */
  ghost predicate Overwritten(seen: set<ETag>) { exists a, b :: a in seen && b in seen && a != b }

  ghost predicate Inv(call: Call, before: Option<Bytes>, s: State)
  {
    && (s.src.Some? ==> s.src.value in s.seen)
    && match s.pc
       case AtListed(pin) =>
         s.dst == before && s.upload == None && !call.sameKey && pin.size == |call.bodyOf(pin.etag)|
       case AtHead => s.dst == before && s.upload == None
       case AtCopyObject(pin) => s.dst == before && s.upload == None && !call.sameKey && Pinned(call, s, pin)
       case AtCreate(pin) => s.dst == before && s.upload == None && !call.sameKey && Pinned(call, s, pin) && pin.size > 0
       case AtParts(pin, g) =>
         s.dst == before && !call.sameKey && Pinned(call, s, pin) && ErrGroup.Inv(g) && UploadMatches(call, s, pin, g.tasks)
         && g.limit == Max(call.concurrency, 1)
         && (Failed(ErrorCode(SourceChanged)) in g.tasks ==> Overwritten(s.seen))
       case AtComplete(pin) =>
         && s.dst == before && !call.sameKey && Pinned(call, s, pin)
         && UploadMatches(call, s, pin, seq(PartCount(pin.size, Cut(call, pin.size)), i => Done))
       case AtAbort(error) => s.dst == before && (error == SourceChanged ==> Overwritten(s.seen))
       case Returned(Refused(error)) =>
         s.dst == before && (s.upload.Some? ==> s.aborts >= 1) && (error == SourceChanged ==> Overwritten(s.seen))
       case Returned(Copied(bytes)) =>
         if call.sameKey then s.dst == before && bytes == 0
         else
           && s.pinned.Some? && s.pinned.value in s.seen
           && s.dst == Some(call.bodyOf(s.pinned.value)) && bytes == |call.bodyOf(s.pinned.value)|
  }

  lemma InitInv(call: Call, s: State)
    requires Init(call, s)
    ensures Inv(call, s.dst, s)
  {
  }

  lemma PartKeepsUpload(call: Call, before: Option<Bytes>, s: State, ev: Event, s': State)
    requires Inv(call, before, s) && s.pc.AtParts? && NextPart(call, s, s.pc.pin, s.pc.g, ev, s')
    ensures Inv(call, before, s')
  {
    var g, g' := s.pc.g, s'.pc.g;
    StepKeepsInv(g, ev, g');
    if Failed(412) in g'.tasks && Failed(412) !in g.tasks {
      assert ev.Fail? && ev.code == 412;
      TwoVersions(s, s.pc.pin.etag);
    }
  }

  lemma TwoVersions(s: State, etag: ETag)
    requires s.src.Some? && s.src != Some(etag) && s.src.value in s.seen && etag in s.seen
    ensures Overwritten(s.seen)
  {
    var a, b := s.src.value, etag;
    assert a in s.seen && b in s.seen && a != b;
  }

  lemma WriteKeepsInv(call: Call, before: Option<Bytes>, s: State, step: Step, s': State)
    requires Inv(call, before, s) && step.Write? && Next(call, s, step, s')
    ensures Inv(call, before, s')
  {
    if Overwritten(s.seen) {
      var a, b :| a in s.seen && b in s.seen && a != b;
      assert a in s'.seen && b in s'.seen;
    }
  }

  lemma CompleteIsWhole(call: Call, before: Option<Bytes>, s: State)
    requires Inv(call, before, s) && s.pc.AtComplete?
    ensures s.upload.Some? && forall i :: 0 <= i < |s.upload.value| ==> s.upload.value[i].Some?
    ensures Flatten(Values(s.upload.value)) == call.bodyOf(s.pc.pin.etag)
  {
    PartsConcatenate(call.bodyOf(s.pc.pin.etag), Cut(call, s.pc.pin.size), Values(s.upload.value));
  }

  lemma StepKeepsCopyInv(call: Call, before: Option<Bytes>, s: State, step: Step, s': State)
    requires Inv(call, before, s) && Next(call, s, step, s')
    ensures Inv(call, before, s')
  {
    if step.Write? {
      WriteKeepsInv(call, before, s, step, s');
    } else {
      match s.pc
      case AtCopyObject(pin) =>
        if step.Fails? && step.error == SourceChanged {
          TwoVersions(s, pin.etag);
        }
      case AtCreate(pin) =>
        if step.Succeeds? {
          CeilDiv(pin.size, Cut(call, pin.size));
          StartInv(PartCount(pin.size, Cut(call, pin.size)), Max(call.concurrency, 1));
        }
      case AtParts(pin, g) =>
        if step.PartEvent? {
          PartKeepsUpload(call, before, s, step.ev, s');
        } else {
          WaitOutcome(g);
        }
      case AtComplete(pin) =>
        if step.Succeeds? {
          CompleteIsWhole(call, before, s);
        }
      case _ =>
    }
  }

  ghost predicate IsRun(call: Call, ss: seq<State>, steps: seq<Step>)
  {
    && |ss| == |steps| + 1 && Init(call, ss[0])
    && forall k :: 0 <= k < |steps| ==> Next(call, ss[k], steps[k], ss[k + 1])
  }

  lemma {:induction false} EveryState(call: Call, ss: seq<State>, steps: seq<Step>, k: nat)
    requires IsRun(call, ss, steps) && k < |ss|
    ensures Inv(call, ss[0].dst, ss[k])
  {
    if k == 0 {
      InitInv(call, ss[0]);
    } else {
      EveryState(call, ss, steps, k - 1);
      StepKeepsCopyInv(call, ss[0].dst, ss[k - 1], steps[k - 1], ss[k]);
    }
  }

  /**
   * No torn copy: whatever writers do to the source and however the part copies
   * interleave, the destination is at every moment what it was before the call, unless
   * the call has returned success and it is, whole, the one version whose ETag the call
   * pinned, which the source had, of the reported size. A refused call that opened an upload has asked to abort it, and
   * only a source that really was overwritten is reported as changed. Parts are copied
   * as many at a time as was asked for, and no more.
   */
  lemma NoTornCopy(call: Call, ss: seq<State>, steps: seq<Step>, k: nat)
    requires IsRun(call, ss, steps) && k < |ss|
    ensures var before, s := ss[0].dst, ss[k];
      && (!(s.pc.Returned? && s.pc.result.Copied?) ==> s.dst == before)
      && (s.pc.Returned? && s.pc.result.Copied? ==>
            if call.sameKey then s.dst == before && s.pc.result.bytes == 0
            else exists e :: s.pinned == Some(e) && e in s.seen
                          && s.dst == Some(call.bodyOf(e)) && s.pc.result.bytes == |call.bodyOf(e)|)
      && (s.pc.Returned? && s.pc.result.Refused? && s.upload.Some? ==> s.aborts >= 1)
      && (s.pc == Returned(Refused(SourceChanged)) ==> Overwritten(s.seen))
      && (s.pc.AtParts? ==>
            var limit := if call.concurrency < 1 then 1 else call.concurrency;
            s.pc.g.limit == limit && Sum(s.pc.g.tasks, InFlight) <= limit)
  {
    EveryState(call, ss, steps, k);
    var s := ss[k];
    if s.pc.Returned? && s.pc.result.Copied? && !call.sameKey {
      var e := s.pinned.value;
      assert s.pinned == Some(e) && e in s.seen && s.dst == Some(call.bodyOf(e));
    }
  }

  /** The call answers with the error of the part that failed first. */
  lemma FirstRefusalIsReported(call: Call, s: State, i: int, error: CopyError, s': State)
    requires s.pc.AtParts? && s.pc.g.err == Some(WorkFailed(i, ErrorCode(error))) && Next(call, s, Succeeds, s')
    ensures s'.pc == AtAbort(error)
  {
  }

  // ----- what a call does when nothing stands in its way -----

  /** Nobody writes to the source or cancels, and S3 refuses only a source that is gone and a listing that is stale. */
  ghost predicate Calm(s: State, step: Step)
  {
    match step
    case Write(_) => false
    case Succeeds => true
    case Fails(error) => (s.pc.AtListed? || s.pc.AtHead?) && error == if s.src.None? then FileNotFound else SourceChanged
    case PartEvent(ev) => !ev.Fail? && !ev.CallerCancel?
  }

  /** The source stays as it is, and the pin is of it once HEAD has seen it. */
  ghost predicate CalmInv(call: Call, before: Option<Bytes>, src: Option<ETag>, s: State)
  {
    && s.src == src
    && match s.pc
       case AtListed(pin) => !call.sameKey && s.upload == None && pin.size == |call.bodyOf(pin.etag)| <= MAX_COPY_OBJECT_SIZE
       case AtHead => s.upload == None
       case AtCopyObject(pin) => src == Some(pin.etag) && s.upload == None && pin.size <= MAX_COPY_OBJECT_SIZE
       case AtCreate(pin) => src == Some(pin.etag) && s.upload == None && pin.size > MAX_COPY_OBJECT_SIZE
       case AtParts(pin, g) => src == Some(pin.etag) && pin.size > MAX_COPY_OBJECT_SIZE && !g.cancelled && g.limit >= 1
       case AtComplete(pin) => src == Some(pin.etag) && pin.size > MAX_COPY_OBJECT_SIZE
       case AtAbort(_) => false
       case Returned(result) => Served(call, before, src, s.dst, s.upload, result)
  }

  /** The source's version copied whole, in one request or by parts as its size demands; or no source to copy. */
  ghost predicate Served(call: Call, before: Option<Bytes>, src: Option<ETag>, dst: Option<Bytes>, upload: Option<seq<Option<Bytes>>>, result: Result)
  {
    if src.None? then result == Refused(FileNotFound) && dst == before
    else if call.sameKey then result == Copied(0) && dst == before
    else
      var body := call.bodyOf(src.value);
      result == Copied(|body|) && dst == Some(body) && (upload.Some? <==> |body| > MAX_COPY_OBJECT_SIZE)
  }

  function Stage(pc: Pc): nat
  {
    match pc
    case AtListed(_) => 5
    case AtHead => 4
    case AtCreate(_) => 3
    case AtParts(_, _) => 2
    case Returned(_) => 0
    case _ => 1
  }

  lemma CalmPart(call: Call, before: Option<Bytes>, src: Option<ETag>, s: State, ev: Event, s': State)
    requires Inv(call, before, s) && CalmInv(call, before, src, s) && s.pc.AtParts?
    requires NextPart(call, s, s.pc.pin, s.pc.g, ev, s') && !ev.Fail? && !ev.CallerCancel?
    ensures CalmInv(call, before, src, s') && s'.pc.AtParts?
    ensures Sum(s'.pc.g.tasks, StepsLeft) < Sum(s.pc.g.tasks, StepsLeft)
  {
    SmoothStep(s.pc.g, ev, s'.pc.g);
    StepKeepsInv(s.pc.g, ev, s'.pc.g);
    StepsRunOut(s.pc.g, ev, s'.pc.g);
  }

  /** Every calm step goes forward, one of finitely many. */
  lemma CalmStep(call: Call, before: Option<Bytes>, src: Option<ETag>, s: State, step: Step, s': State)
    requires Inv(call, before, s) && CalmInv(call, before, src, s) && Next(call, s, step, s') && Calm(s, step)
    ensures CalmInv(call, before, src, s')
    ensures Stage(s'.pc) < Stage(s.pc)
         || (s.pc.AtParts? && s'.pc.AtParts? && Sum(s'.pc.g.tasks, StepsLeft) < Sum(s.pc.g.tasks, StepsLeft))
  {
    StepKeepsCopyInv(call, before, s, step, s');
    if step.PartEvent? {
      CalmPart(call, before, src, s, step.ev, s');
    }
  }

  lemma {:induction false} CalmStates(call: Call, ss: seq<State>, steps: seq<Step>, k: nat)
    requires IsRun(call, ss, steps) && k < |ss| && forall i :: 0 <= i < k ==> Calm(ss[i], steps[i])
    ensures CalmInv(call, ss[0].dst, ss[0].src, ss[k])
  {
    if k > 0 {
      CalmStates(call, ss, steps, k - 1);
      EveryState(call, ss, steps, k - 1);
      CalmStep(call, ss[0].dst, ss[0].src, ss[k - 1], steps[k - 1], ss[k]);
    }
  }

  /**
   * With no other writer and no refusal of S3's own a call that returns has copied the
   * source, by parts exactly above 5 GiB, also from a stale listing; without a source
   * it is ErrFileNotFound.
   */
  lemma CalmCopySucceeds(call: Call, ss: seq<State>, steps: seq<Step>, k: nat)
    requires IsRun(call, ss, steps) && k < |ss| && forall i :: 0 <= i < k ==> Calm(ss[i], steps[i])
    ensures var src, s := ss[0].src, ss[k];
      s.pc.Returned? ==>
        && (src.None? ==> s.pc.result == Refused(FileNotFound) && s.dst == ss[0].dst)
        && (src.Some? && call.sameKey ==> s.pc.result == Copied(0) && s.dst == ss[0].dst)
        && (src.Some? && !call.sameKey ==>
              var body := call.bodyOf(src.value);
              && s.pc.result == Copied(|body|) && s.dst == Some(body)
              && (s.upload.Some? <==> |body| > MAX_COPY_OBJECT_SIZE))
  {
    CalmStates(call, ss, steps, k);
  }

  /** A call that has not returned can go on in this way, so with CalmStep every such call returns. */
  lemma CalmGoesOn(call: Call, before: Option<Bytes>, s: State) returns (step: Step, s': State)
    requires Inv(call, before, s) && CalmInv(call, before, s.src, s) && !s.pc.Returned?
    ensures Next(call, s, step, s') && Calm(s, step)
  {
    step := Succeeds;
    match s.pc
    case AtListed(pin) =>
      if s.src == Some(pin.etag) {
        s' := CopyWhole(call, s, pin);
      } else {
        step := Fails(if s.src.None? then FileNotFound else SourceChanged);
        s' := s.(pc := if s.src.Some? then AtHead else Returned(Refused(FileNotFound)));
      }
    case AtHead =>
      if s.src.Some? {
        s' := AfterHead(call, s, Pin(s.src.value, |call.bodyOf(s.src.value)|));
      } else {
        step, s' := Fails(FileNotFound), s.(pc := Returned(Refused(FileNotFound)));
      }
    case AtCopyObject(pin) => s' := CopyWhole(call, s, pin);
    case AtCreate(pin) =>
      var n := PartCount(pin.size, Cut(call, pin.size));
      CeilDiv(pin.size, Cut(call, pin.size));
      s' := s.(upload := Some(seq(n, i => None)), pc := AtParts(pin, Start(n, Max(call.concurrency, 1))));
    case AtParts(pin, g) => step, s' := PartsGoOn(call, before, s);
    case AtComplete(pin) =>
      CompleteIsWhole(call, before, s);
      s' := s.(dst := Some(Flatten(Values(s.upload.value))), pc := Returned(Copied(pin.size)));
  }

  lemma PartsGoOn(call: Call, before: Option<Bytes>, s: State) returns (step: Step, s': State)
    requires Inv(call, before, s) && CalmInv(call, before, s.src, s) && s.pc.AtParts?
    ensures Next(call, s, step, s') && Calm(s, step)
  {
    var pin, g := s.pc.pin, s.pc.g;
    if Finished(g) {
      step, s' := Succeeds, s.(pc := AtComplete(pin));
    } else {
      var ev, g' := NeverStuck(g);
      step := PartEvent(ev);
      if ev.Succeed? {
        var part := Part(call.bodyOf(pin.etag), Cut(call, pin.size), ev.i);
        s' := s.(upload := Some(s.upload.value[ev.i := Some(part)]), pc := AtParts(pin, g'));
      } else {
        s' := s.(pc := AtParts(pin, g'));
      }
    }
  }
}
