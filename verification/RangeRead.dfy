/**
 * encrypted.Storage.GetObjectRange: a plaintext range decrypted from the chunks that
 * hold it, against the simple form of decrypting everything and slicing.
 */
module RangeRead {
  import opened Common
  import opened Layout
  import opened AgeFile
  import opened RangeSource

  datatype Error =
    | InvalidRange | FileNotFound | CorruptObject | NoKey
    | StoreError(code: int) | OutOfOrder

  datatype Result<+T> = Ok(value: T) | Err(error: Error)

  /**
   * The wrapped store, holding one object that does not change. An unreliable one
   * may refuse any request, and may end or fail any body early.
   */
  datatype Store = Store(stored: Option<Bytes>, reliable: bool) {

    method Stat() returns (r: Result<Option<int>>)
      ensures r.Ok? ==> r.value == (if stored.Some? then Some(|stored.value|) else None)
      ensures r.Err? ==> !reliable && r.error.StoreError?
    {
      r := Ok(if stored.Some? then Some(|stored.value|) else None);
      var fails: bool := *;
      if fails && !reliable {
        var code: int := *;
        r := Err(StoreError(code));
      }
    }

    /** A body over stored[off..off+length], clamped to the object; length < 0 means to the end. */
    method GetObjectRange(off: int, length: int) returns (r: Result<RangeBody>)
      requires stored.Some?
      ensures r.Ok? ==>
        && fresh(r.value) && r.value.Valid() && r.value.at == 0 && 0 <= off < |stored.value|
        && off + |r.value.content| <= |stored.value|
        && (length >= 0 ==> |r.value.content| <= length)
        && r.value.content == stored.value[off..off + |r.value.content|]
      ensures reliable && 0 <= off < |stored.value| && length != 0 ==>
        && r.Ok? && r.value.ending == CleanEnd
        && off + |r.value.content| == if length < 0 then |stored.value| else Min(off + length, |stored.value|)
      ensures r.Err? ==> r.error == InvalidRange || (!reliable && (r.error.StoreError? || r.error == FileNotFound))
    {
      if off < 0 || length == 0 || off >= |stored.value| {
        return Err(InvalidRange);
      }
      var stop := if length < 0 then |stored.value| else Min(off + length, |stored.value|);
      var cut: int, failed: bool, code: int := *, *, *;
      if reliable {
        cut, failed := stop, false;
      } else {
        var refused: bool, why: Error := *, *;
        if refused && (why.StoreError? || why == InvalidRange || why == FileNotFound) {
          return Err(why);
        }
        if cut < off || cut > stop { cut := stop; }
      }
      var body := new RangeBody(stored.value[off..cut], if failed then Failure(code) else CleanEnd);
      r := Ok(body);
    }
  }

  /** io.ReadAll over a body. */
  method ReadAll(body: RangeBody) returns (data: Bytes, failed: Option<int>)
    requires body.Valid() && body.at == 0
    modifies body
    ensures data == body.content
    ensures failed == match body.ending case Failure(code) => Some(code) case CleanEnd => None
  {
    var p := new byte[|body.content| + 1];
    var n, ok := body.ReadFull(p, 0, p.Length);
    assert p[..n] == body.content;
    data := p[..n];
    failed := body.err;
  }

  /**
   * What fetch makes of the store's answer. Only the whole length, cleanly ended, will
   * do: a range the store does not have and a body that ends short are the object's
   * fault, a refusal or a failed body the store's.
   */
  method ReadAnswer(got: Result<RangeBody>, length: int) returns (r: Result<Bytes>)
    requires got.Ok? ==> got.value.Valid() && got.value.at == 0
    modifies if got.Ok? then {got.value} else {}
    ensures r.Ok? <==> got.Ok? && got.value.ending == CleanEnd && |got.value.content| == length
    ensures r.Ok? ==> r.value == got.value.content
    ensures r == Err(CorruptObject) <==>
      || got == Err(InvalidRange) || got == Err(CorruptObject)
      || (got.Ok? && got.value.ending == CleanEnd && |got.value.content| != length)
    ensures got.Err? && got.error != InvalidRange ==> r == Err(got.error)
    ensures got.Ok? && got.value.ending.Failure? ==> r == Err(StoreError(got.value.ending.code))
  {
    match got
    case Err(e) =>
      r := Err(if e == InvalidRange then CorruptObject else e);
    case Ok(body) =>
      var data, failed := ReadAll(body);
      match failed
      case Some(code) => r := Err(StoreError(code));
      case None => r := if |data| != length then Err(CorruptObject) else Ok(data);
  }

  /** fetch: ciphertext [off, off+length) in memory; a reliable store that cannot give it has a corrupt object. */
  method Fetch(store: Store, off: int, length: int) returns (r: Result<Bytes>)
    requires store.stored.Some? && 0 < length
    ensures r.Ok? ==> 0 <= off && off + length <= |store.stored.value| && r.value == store.stored.value[off..off + length]
    ensures store.reliable ==> (r.Ok? <==> 0 <= off && off + length <= |store.stored.value|)
    ensures store.reliable && r.Err? ==> r.error == CorruptObject
    ensures r.Err? ==> r.error == CorruptObject || r.error == FileNotFound || r.error.StoreError?
  {
    var got := store.GetObjectRange(off, length);
    r := ReadAnswer(got, length);
  }

  datatype Source = Whole(data: Bytes) | Chunked(chunks: ChunkSource)

  ghost predicate ValidSource(src: Source, stored: Bytes)
    reads if src.Chunked? then {src.chunks} else {}
    reads if src.Chunked? && src.chunks.stream != null then {src.chunks.stream} else {}
  {
    match src
    case Whole(data) => data <= stored
    case Chunked(c) => c.Valid() && c.stored == stored
  }

  /** Nothing has failed and nothing will: the source still has all it should hold. */
  ghost predicate IntactSource(src: Source, stored: Bytes)
    reads if src.Chunked? then {src.chunks} else {}
    reads if src.Chunked? && src.chunks.stream != null then {src.chunks.stream} else {}
  {
    match src
    case Whole(data) => data == stored
    case Chunked(c) => c.Intact()
  }

  /** A large object's source is at the first chunk of [off, end), and reaches to its last or to the tail. */
  ghost predicate OpenedFor(src: Source, payloadOffset: int, encrypted: int, off: int, end: int)
    reads if src.Chunked? then {src.chunks} else {}
  {
    src.Chunked? ==>
      SpanHeld(src.chunks, payloadOffset, encrypted, off, end) && src.chunks.pos == src.chunks.bodyStart && src.chunks.err == None
  }

  ghost predicate SpanHeld(c: ChunkSource, payloadOffset: int, encrypted: int, off: int, end: int)
  {
    var (start, stop) := ChunkSpan(payloadOffset, off, end, encrypted);
    && c.payloadOffset == payloadOffset && c.tailStart == FinalChunkOffset(payloadOffset, encrypted)
    && c.bodyStart == start && c.streamEnd == Min(stop, c.tailStart)
    && (c.stream == null <==> c.tailStart <= start)
  }

  /** What a source may change when it is read. */
  ghost function Footprint(src: Source): set<object>
  {
    match src
    case Whole(_) => {}
    case Chunked(c) => if c.stream == null then {c} else {c, c.stream}
  }

  method OpenChunkSource(store: Store, payloadOffset: int, encrypted: int, off: int, end: int)
    returns (r: Result<ChunkSource>)
    requires store.stored.Some? && |store.stored.value| == encrypted > WHOLE_OBJECT_SIZE
    requires 0 <= payloadOffset <= HEADER_READ_SIZE
    requires PlaintextSize(payloadOffset, encrypted).Some?
    requires 0 <= off < end <= PlaintextSize(payloadOffset, encrypted).value
    ensures r.Ok? ==>
      var c := r.value;
      && fresh(c) && (c.stream != null ==> fresh(c.stream)) && c.Valid() && !c.broken
      && c.stored == store.stored.value
      && OpenedFor(Chunked(c), payloadOffset, encrypted, off, end)
      && (store.reliable ==> c.Intact())
    ensures store.reliable ==> r.Ok?
    ensures r.Err? ==> r.error != OutOfOrder
  {
    SpanWithinChunks(payloadOffset, off, end, encrypted);
    var (bodyStart, bodyEnd) := ChunkSpan(payloadOffset, off, end, encrypted);
    var tailStart := FinalChunkOffset(payloadOffset, encrypted);
    var streamEnd := Min(bodyEnd, tailStart);
    var last, n := (end - 1) / CHUNK_SIZE, Chunks(encrypted - payloadOffset);
    assert last < n - 1 ==> (last + 1) * ENC_CHUNK_SIZE <= (n - 1) * ENC_CHUNK_SIZE;
    var head := Fetch(store, 0, HEADER_READ_SIZE);
    if head.Err? { return Err(head.error); }
    var tail := Fetch(store, tailStart, encrypted - tailStart);
    if tail.Err? { return Err(tail.error); }
    assert tail.value == store.stored.value[tailStart..];
    var stream: RangeBody? := null;
    if bodyStart < streamEnd {
      var body := store.GetObjectRange(bodyStart, streamEnd - bodyStart);
      if body.Err? { return Err(body.error); }
      stream := body.value;
    }
    var c := new ChunkSource(store.stored.value, payloadOffset, tailStart, streamEnd, head.value, tail.value, bodyStart, stream);
    r := Ok(c);
  }

  method ReadWholeSource(store: Store) returns (r: Result<Bytes>)
    requires store.stored.Some? && |store.stored.value| > 0
    ensures r.Ok? ==> r.value <= store.stored.value
    ensures store.reliable ==> r == Ok(store.stored.value)
    ensures r.Err? ==> r.error != OutOfOrder
  {
    var got := store.GetObjectRange(0, -1);
    match got
    case Err(e) => r := Err(e);
    case Ok(body) =>
      var data, failed := ReadAll(body);
      match failed
      case Some(code) => r := Err(StoreError(code));
      case None =>
        r := Ok(data);
        assert store.stored.value == store.stored.value[0..|store.stored.value|];
  }

  /** ReadAt on either source: bytes.Reader for a whole object, ChunkSource for a large one. */
  method ReadSource(src: Source, ghost stored: Bytes, p: array<byte>, off: int) returns (n: nat, full: bool)
    requires ValidSource(src, stored) && 0 <= off && off + p.Length <= |stored|
    requires p !in Footprint(src)
    modifies Footprint(src), p
    ensures ValidSource(src, stored)
    ensures n <= p.Length && p[..n] == stored[off..off + n] && (full <==> n == p.Length)
    ensures old(IntactSource(src, stored)) ==> IntactSource(src, stored)
    ensures src.Whole? ==> n == Min(p.Length, Max(|src.data| - off, 0))
    ensures src.Chunked? ==>
      var c := src.chunks;
      && old(c.pos) <= c.pos && (c.pos == old(c.pos) || c.pos <= off + p.Length)
      && (c.InMemory(off, p.Length) || (c.stream != null && old(c.pos) <= off && off + p.Length <= c.streamEnd) ==>
            && (full || ReadFailed(c))
            && (old(c.Intact()) ==> full)
            && (c.err == old(c.err) || (ReadFailed(c) && c.stream.ending.Failure?)))
      && (c.InMemory(off, p.Length) ==> c.pos == old(c.pos) && c.err == old(c.err))
  {
    match src
    case Whole(data) =>
      n := Min(p.Length, Max(|data| - off, 0));
      forall i | 0 <= i < n {
        p[i] := data[off + i];
      }
      full := n == p.Length;
    case Chunked(c) =>
      var e;
      n, e := c.ReadAt(p, off);
      full := n == p.Length;
  }

  /** A stream read failed: a store failure is remembered, an early end is not. */
  ghost predicate ReadFailed(c: ChunkSource)
    reads c
  {
    c.broken && c.stream != null
    && (c.stream.ending.Failure? ==> c.err == Some(StoreFailed(c.stream.ending.code)))
  }

  /** newDecryptError, for a source that failed in sourceErr or an object that did not decrypt. */
  function DecryptError(sourceErr: Option<ReadError>, noMatch: bool): Error
  {
    match sourceErr
    case Some(StoreFailed(code)) => StoreError(code)
    case Some(BackwardRead) => OutOfOrder
    case _ => if noMatch then NoKey else CorruptObject
  }

  method SourceErr(src: Source) returns (e: Option<ReadError>)
    ensures e == if src.Chunked? then src.chunks.err else None
  {
    e := if src.Chunked? then src.chunks.err else None;
  }

  /** GetObjectRange's result: age reading one section of the plaintext, chunk by chunk. */
  class RangeReader {
    ghost const stored: Bytes
    const age: Age
    const key: FileKey
    const payloadOffset: int
    const size: int
    const chunks: int
    const end: int
    const src: Source
    var cursor: int
    /** age's one-chunk cache: a chunk's index and plaintext. */
    var cached: Option<(int, Bytes)>
    /** A read has returned an error; the claims below run up to the first one. */
    ghost var failed: bool

    constructor (ghost stored: Bytes, age: Age, key: FileKey, payloadOffset: int, size: int, offset: int, end: int, src: Source)
      requires age.Lawful() && 0 <= payloadOffset <= HEADER_READ_SIZE && size == |stored|
      requires FitsLayout(payloadOffset, stored)
      requires 0 <= offset < end <= PlainSize(payloadOffset, stored)
      requires ValidSource(src, stored)
      requires OpenedFor(src, payloadOffset, size, offset, end)
      ensures Valid() && !failed && cursor == offset && cached == None
      ensures this.stored == stored && this.age == age && this.key == key && this.src == src && this.end == end
      ensures this.payloadOffset == payloadOffset
    {
      this.stored, this.age, this.key, this.payloadOffset := stored, age, key, payloadOffset;
      this.size, this.chunks, this.end, this.src := size, Chunks(size - payloadOffset), end, src;
      this.cursor, this.cached, this.failed := offset, None, false;
      new;
      FitsIffAccepted(payloadOffset, stored);
      SpanWithinChunks(payloadOffset, offset, end, size);
      var last := (end - 1) / CHUNK_SIZE;
      assert last < chunks - 1 ==> (last + 1) * ENC_CHUNK_SIZE <= (chunks - 1) * ENC_CHUNK_SIZE;
    }

    /** What never changes: the layout fits the stored object and the range lies in its plaintext. */
    ghost predicate Fits()
    {
      && age.Lawful() && 0 <= payloadOffset <= HEADER_READ_SIZE && size == |stored|
      && FitsLayout(payloadOffset, stored) && chunks == ChunkCount(payloadOffset, stored)
      && 0 <= end <= PlainSize(payloadOffset, stored)
    }

    ghost predicate Plaintext(offset: int, data: Bytes)
      requires Fits()
    {
      0 <= offset && Run(PlainText(age, key, payloadOffset, stored), offset, data)
    }

    /** Every chunk touched by [off, to) authenticates. */
    ghost predicate TouchedOpen(off: int, to: int)
      requires Fits()
    {
      forall i :: 0 <= i < chunks && Touches(i, off, to) ==> Opened(i).Some?
    }

    ghost predicate Valid()
      reads this, Footprint(src)
    {
      && this !in Footprint(src) && Fits()
      && 0 <= cursor <= end
      && ValidSource(src, stored)
      && (cached.Some? ==>
            && 0 <= cached.value.0 < chunks
            && OpenChunk(age, key, payloadOffset, stored, cached.value.0) == Some(cached.value.1))
      && (src.Chunked? && !failed ==> Ordered(src.chunks, NextChunk()))
    }

    /** The lowest chunk that age may still ask the source for. */
    function NextChunk(): int
      reads this
    {
      var at := cursor / CHUNK_SIZE;
      if cached.Some? && cached.value.0 == at then at + 1 else at
    }

    /** The stream is not past any chunk still to be read, and reaches to the range's last one. */
    ghost predicate Ordered(c: ChunkSource, next: int)
      reads c
    {
      && Reaches(c)
      && (c.err.Some? ==> c.stream != null && c.stream.ending.Failure? && c.err == Some(StoreFailed(c.stream.ending.code)))
      && (next < chunks - 1 && next * CHUNK_SIZE < end ==>
            c.stream != null && c.pos <= ChunkStart(payloadOffset, next))
    }

    /** The stream, if there is one, holds every chunk up to the range's last or the final one. */
    ghost predicate Reaches(c: ChunkSource)
    {
      && c.payloadOffset == payloadOffset && c.tailStart == ChunkStart(payloadOffset, chunks - 1)
      && (c.stream != null ==> ChunkStart(payloadOffset, Min((end - 1) / CHUNK_SIZE, chunks - 2) + 1) <= c.streamEnd)
    }

    ghost function Opened(i: int): Option<Bytes>
      requires Fits() && 0 <= i < chunks
    {
      OpenChunk(age, key, payloadOffset, stored, i)
    }

    /** Why the object is called corrupt: chunk i does not authenticate, or its bytes ended early. */
    ghost predicate ObjectToBlame(i: int)
      requires Fits() && 0 <= i < chunks
      reads this, Footprint(src)
    {
      || Opened(i).None?
      || (src.Whole? && src.data != stored)
      || (src.Chunked? && src.chunks.broken && src.chunks.stream != null && src.chunks.stream.ending == CleanEnd)
    }

    /** An error is the store's exactly as its body reported it, or the object's with cause. */
    ghost predicate Blamed(e: Error, i: int)
      requires Fits() && 0 <= i < chunks
      reads this, Footprint(src)
    {
      match e
      case StoreError(code) => src.Chunked? && src.chunks.stream != null && src.chunks.stream.ending == Failure(code)
      case CorruptObject => ObjectToBlame(i)
      case _ => false
    }

    /** The encrypted bytes of chunk i: the next one in order, or the final one. */
    method FetchChunk(i: int) returns (full: bool, enc: Bytes)
      requires Valid() && !failed && 0 <= i < chunks
      requires i == chunks - 1 || (i == NextChunk() && i * CHUNK_SIZE < end)
      modifies Footprint(src)
      ensures ValidSource(src, stored)
      ensures src.Chunked? ==> Ordered(src.chunks, if i == chunks - 1 then NextChunk() else i + 1)
      ensures old(IntactSource(src, stored)) ==> IntactSource(src, stored) && full
      ensures full ==> enc == EncChunk(payloadOffset, stored, i)
      ensures !full ==> if src.Whole? then src.data != stored else ReadFailed(src.chunks)
    {
      var start := ChunkStart(payloadOffset, i);
      ghost var c := EncChunk(payloadOffset, stored, i);
      assert i < chunks - 1 ==> (i + 1) * ENC_CHUNK_SIZE <= (chunks - 1) * ENC_CHUNK_SIZE;
      var p := new byte[ChunkStop(payloadOffset, size, i) - start];
      var n;
      n, full := ReadSource(src, stored, p, start);
      assert full ==> p[..] == p[..n];
      enc := p[..];
    }

    /** Reads and authenticates one chunk. */
    method LoadChunk(i: int) returns (r: Result<Bytes>)
      requires Valid() && !failed && 0 <= i < chunks
      requires i == chunks - 1 || (i == NextChunk() && i * CHUNK_SIZE < end)
      modifies Footprint(src)
      ensures ValidSource(src, stored)
      ensures src.Chunked? ==> Ordered(src.chunks, if i == chunks - 1 then NextChunk() else i + 1)
      ensures old(IntactSource(src, stored)) ==> IntactSource(src, stored)
      ensures r.Ok? ==> Opened(i) == Some(r.value)
      ensures old(IntactSource(src, stored)) && Opened(i).Some? ==> r.Ok?
      ensures r.Err? ==> Blamed(r.error, i)
    {
      var full, enc := FetchChunk(i);
      if full {
        match age.open(key, i, i == chunks - 1, enc)
        case Some(plain) => return Ok(plain);
        case None =>
      }
      var e := SourceErr(src);
      r := Err(DecryptError(e, false));
    }

    /** Authenticates the final chunk at open; age may keep it as the cached one or read it again. */
    method CheckFinalChunk() returns (e: Option<Error>)
      requires Valid() && !failed && cached == None
      modifies this`cached, Footprint(src)
      ensures e.None? ==> Valid() && Opened(chunks - 1).Some?
      ensures e.Some? ==> Blamed(e.value, chunks - 1)
      ensures old(IntactSource(src, stored)) ==>
        IntactSource(src, stored) && e == if Opened(chunks - 1).Some? then None else Some(CorruptObject)
    {
      var r := LoadChunk(chunks - 1);
      match r
      case Err(error) => e := Some(error);
      case Ok(plain) =>
        e := None;
        var keep: bool := *;
        if keep {
          cached := Some((chunks - 1, plain));
        }
    }

    /**
     * One Read of up to max bytes, across as many chunks as it takes. The bytes are the
     * plaintext at the cursor whatever fails; no error means the buffer was filled or
     * the range ended; the source is never asked for a chunk it has passed.
     */
    method Read(max: nat) returns (data: Bytes, e: Option<Error>)
      requires Valid() && !failed
      modifies this`cursor, this`cached, this`failed, Footprint(src)
      ensures Valid() && failed == e.Some?
      ensures cursor == old(cursor) + |data|
      ensures Plaintext(old(cursor), data)
      ensures e.None? ==> |data| == Min(max, end - old(cursor))
      ensures e.Some? ==> cursor < end && cursor / CHUNK_SIZE < chunks && Blamed(e.value, cursor / CHUNK_SIZE)
      ensures old(IntactSource(src, stored)) ==> IntactSource(src, stored)
      ensures old(IntactSource(src, stored)) && e.Some? ==> Opened(cursor / CHUNK_SIZE).None?
    {
      data, e := [], None;
      var want := Min(max, end - cursor);
      while |data| < want
        invariant e.None? && Valid() && !failed && |data| <= want && cursor == old(cursor) + |data|
        invariant Plaintext(old(cursor), data)
        invariant old(IntactSource(src, stored)) ==> IntactSource(src, stored)
      {
        var piece;
        piece, e := ReadChunk(want - |data|);
        if e.Some? {
          return;
        }
        RunAppend(PlainText(age, key, payloadOffset, stored), old(cursor), data, piece);
        data := data + piece;
      }
    }

    /** The part of one chunk that a read needs, loading the chunk unless it is cached. */
    method ReadChunk(max: nat) returns (piece: Bytes, e: Option<Error>)
      requires Valid() && !failed && 0 < max <= end - cursor
      modifies this`cursor, this`cached, this`failed, Footprint(src)
      ensures Valid() && failed == e.Some?
      ensures cursor == old(cursor) + |piece| && |piece| <= max && (e.None? <==> piece != [])
      ensures Plaintext(old(cursor), piece)
      ensures e.Some? ==> cursor / CHUNK_SIZE < chunks && Blamed(e.value, cursor / CHUNK_SIZE)
      ensures old(IntactSource(src, stored)) ==> IntactSource(src, stored)
      ensures old(IntactSource(src, stored)) && e.Some? ==> Opened(cursor / CHUNK_SIZE).None?
    {
      piece := [];
      var i := cursor / CHUNK_SIZE;
      e := CacheChunk(i);
      if e.None? {
        piece := TakeCached(max);
      }
    }

    /** Serves from the cached chunk and moves the cursor past what was served. */
    method TakeCached(max: nat) returns (piece: Bytes)
      requires Valid() && 0 < max <= end - cursor
      requires cached.Some? && cached.value.0 == cursor / CHUNK_SIZE
      modifies this`cursor
      ensures Valid() && cursor == old(cursor) + |piece| && 0 < |piece| <= max
      ensures Plaintext(old(cursor), piece)
    {
      piece := CachedPiece(max);
      ghost var next := NextChunk();
      cursor := cursor + |piece|;
      assert NextChunk() == next;
    }

    /** What the cached chunk holds from the cursor on. */
    method CachedPiece(max: nat) returns (piece: Bytes)
      requires Fits() && 0 <= cursor && 0 < max <= end - cursor
      requires cached.Some? && 0 <= cached.value.0 == cursor / CHUNK_SIZE < chunks && Opened(cached.value.0) == Some(cached.value.1)
      ensures 0 < |piece| <= max && cursor + |piece| <= (cached.value.0 + 1) * CHUNK_SIZE
      ensures Plaintext(cursor, piece)
    {
      var (i, plain) := cached.value;
      OpenedLength(age, key, payloadOffset, stored, i);
      var from := cursor - i * CHUNK_SIZE;
      var n := Min(max, |plain| - from);
      piece := plain[from..from + n];
      RunInChunk(age, key, payloadOffset, stored, i, from, n);
    }

    /** Makes the chunk under the cursor the cached one. */
    method CacheChunk(i: int) returns (e: Option<Error>)
      requires Valid() && !failed && cursor < end && i == cursor / CHUNK_SIZE
      modifies this`cached, this`failed, Footprint(src)
      ensures Valid() && i < chunks && failed == e.Some?
      ensures e.None? ==> cached.Some? && cached.value.0 == i
      ensures e.Some? ==> Blamed(e.value, i)
      ensures old(IntactSource(src, stored)) ==> IntactSource(src, stored) && (e.Some? ==> Opened(i).None?)
    {
      e := None;
      if cached.None? || cached.value.0 != i {
        var r := LoadChunk(i);
        match r
        case Ok(plain) => cached := Some((i, plain));
        case Err(error) => e, failed := Some(error), true;
      }
    }
  }
}
