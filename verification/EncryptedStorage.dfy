/**
 * GetObjectRange of encrypted/storage.go end to end, and the refinement: whatever the
 * sizes of the reads and of the pieces the store sends, a range is the slice of the
 * fully decrypted object.
 */
module EncryptedStorage {
  import opened Common
  import opened Layout
  import opened AgeFile
  import opened RangeSource
  import opened RangeRead

  /** Where a range ends: clamped to the plaintext, to the end for a negative length. */
  function RangeEnd(plain: int, offset: int, length: int): int
  {
    if length < 0 then plain else Min(offset + length, plain)
  }

  /** Why a range is refused before anything is read, as a fact about the stored bytes alone. */
  ghost function BadRange(payloadOffset: int, stored: Option<Bytes>, offset: int, length: int): Option<Error>
    requires 0 <= payloadOffset
  {
    if offset < 0 || length == 0 then Some(InvalidRange)
    else if stored.None? then Some(FileNotFound)
    else if !FitsLayout(payloadOffset, stored.value) then Some(CorruptObject)
    else if offset >= PlainSize(payloadOffset, stored.value) then Some(InvalidRange)
    else None
  }

  /** Why a range cannot be opened. */
  ghost function Refusal(age: Age, payloadOffset: int, stored: Option<Bytes>, offset: int, length: int): Option<Error>
    requires 0 <= payloadOffset
  {
    var bad := BadRange(payloadOffset, stored, offset, length);
    if bad.Some? then bad else Unreadable(age, payloadOffset, stored.value)
  }

  method OpenRangeSource(store: Store, payloadOffset: int, encrypted: int, off: int, end: int)
    returns (r: Result<Source>)
    requires store.stored.Some? && |store.stored.value| == encrypted
    requires 16 <= payloadOffset <= HEADER_READ_SIZE
    requires FitsLayout(payloadOffset, store.stored.value)
    requires 0 <= off < end <= PlainSize(payloadOffset, store.stored.value)
    ensures r.Ok? ==> fresh(Footprint(r.value)) && ValidSource(r.value, store.stored.value)
    ensures r.Ok? ==> OpenedFor(r.value, payloadOffset, encrypted, off, end)
    ensures r.Ok? ==> (r.value.Whole? <==> encrypted <= WHOLE_OBJECT_SIZE)
    ensures r.Err? ==> r.error != OutOfOrder
    ensures store.reliable ==> r.Ok? && IntactSource(r.value, store.stored.value)
  {
    FitsIffAccepted(payloadOffset, store.stored.value);
    if encrypted <= WHOLE_OBJECT_SIZE {
      var whole := ReadWholeSource(store);
      match whole
      case Ok(data) => r := Ok(Whole(data));
      case Err(e) => r := Err(e);
    } else {
      var got := OpenChunkSource(store, payloadOffset, encrypted, off, end);
      match got
      case Ok(c) => r := Ok(Chunked(c));
      case Err(e) => r := Err(e);
    }
  }

  /** age's read of the header: one buffer of 4 KiB at offset 0, the nonce in the same buffer. */
  method ReadHeader(src: Source, ghost stored: Bytes, age: Age, payloadOffset: int, size: int)
    returns (r: Result<FileKey>)
    requires ValidSource(src, stored) && size == |stored| && 16 <= payloadOffset <= Min(HEADER_READ_SIZE, size)
    requires src.Chunked? ==> src.chunks.payloadOffset == payloadOffset && src.chunks.err == None
    modifies Footprint(src)
    ensures ValidSource(src, stored)
    ensures src.Chunked? ==> src.chunks.pos == old(src.chunks.pos) && src.chunks.err == old(src.chunks.err)
    ensures old(IntactSource(src, stored)) ==> IntactSource(src, stored)
    ensures r.Ok? ==> age.unwrap(stored[..payloadOffset]) == Unwrapped(r.value)
    ensures r.Err? ==> r.error != OutOfOrder
    ensures old(IntactSource(src, stored)) && r.Err? ==>
              match age.unwrap(stored[..payloadOffset])
              case NoMatch => r.error == NoKey
              case Malformed => r.error == CorruptObject
              case Unwrapped(_) => false
  {
    var p := new byte[Min(HEADER_READ_SIZE, size)];
    var n, full := ReadSource(src, stored, p, 0);
    if n < payloadOffset {
      var e := SourceErr(src);
      return Err(DecryptError(e, false));
    }
    assert p[..payloadOffset] == p[..n][..payloadOffset] == stored[..payloadOffset];
    match age.unwrap(p[..payloadOffset])
    case Unwrapped(key) => r := Ok(key);
    case NoMatch => r := Err(DecryptError(None, true));
    case Malformed => r := Err(DecryptError(None, false));
  }

  /** The reader over an unwrapped file key, once its final chunk has authenticated. */
  method OpenReader(src: Source, ghost stored: Bytes, age: Age, key: FileKey, payloadOffset: int, encrypted: int, offset: int, end: int)
    returns (r: Result<RangeReader>)
    requires age.Lawful() && 16 <= payloadOffset <= HEADER_READ_SIZE && encrypted == |stored|
    requires FitsLayout(payloadOffset, stored)
    requires 0 <= offset < end <= PlainSize(payloadOffset, stored)
    requires ValidSource(src, stored) && OpenedFor(src, payloadOffset, encrypted, offset, end)
    modifies Footprint(src)
    ensures r.Ok? ==>
      && fresh(r.value) && r.value.src == src && r.value.Valid() && !r.value.failed
      && r.value.stored == stored && r.value.age == age && r.value.payloadOffset == payloadOffset && r.value.key == key
      && r.value.cursor == offset && r.value.end == end
      && r.value.Opened(r.value.chunks - 1).Some?
    ensures r.Err? ==> r.error != OutOfOrder
    ensures old(IntactSource(src, stored)) ==>
      && IntactSource(src, stored) && (r.Err? ==> r.error == CorruptObject)
      && (r.Ok? <==> OpenChunk(age, key, payloadOffset, stored, ChunkCount(payloadOffset, stored) - 1).Some?)
  {
    var reader := new RangeReader(stored, age, key, payloadOffset, encrypted, offset, end, src);
    var e := reader.CheckFinalChunk();
    r := if e.Some? then Err(e.value) else Ok(reader);
  }

  lemma HeaderFits(payloadOffset: int, stored: Bytes)
    requires FitsLayout(payloadOffset, stored)
    ensures payloadOffset <= |stored|
  {
  }

  /** age.DecryptReaderAt over [offset, end): the header first, then the final chunk. */
  method DecryptReaderAt(src: Source, ghost stored: Bytes, age: Age, payloadOffset: int, encrypted: int, offset: int, end: int)
    returns (r: Result<RangeReader>)
    requires age.Lawful() && 16 <= payloadOffset <= HEADER_READ_SIZE && encrypted == |stored|
    requires FitsLayout(payloadOffset, stored)
    requires 0 <= offset < end <= PlainSize(payloadOffset, stored)
    requires ValidSource(src, stored) && OpenedFor(src, payloadOffset, encrypted, offset, end)
    modifies Footprint(src)
    ensures r.Ok? ==>
      && fresh(r.value) && r.value.src == src && r.value.Valid() && !r.value.failed
      && r.value.stored == stored && r.value.age == age && r.value.payloadOffset == payloadOffset
      && age.unwrap(stored[..payloadOffset]) == Unwrapped(r.value.key)
      && r.value.cursor == offset && r.value.end == end
      && r.value.Opened(r.value.chunks - 1).Some?
      && (old(IntactSource(src, stored)) ==> IntactSource(src, stored))
    ensures r.Err? ==> r.error != OutOfOrder
    ensures old(IntactSource(src, stored)) ==>
      (if r.Ok? then None else Some(r.error)) == Unreadable(age, payloadOffset, stored)
  {
    HeaderFits(payloadOffset, stored);
    var key := ReadHeader(src, stored, age, payloadOffset, encrypted);
    if key.Err? { return Err(key.error); }
    r := OpenReader(src, stored, age, key.value, payloadOffset, encrypted, offset, end);
  }

  /** Why age cannot open an object for random access, whatever the range. */
  ghost function Unreadable(age: Age, payloadOffset: int, stored: Bytes): Option<Error>
    requires FitsLayout(payloadOffset, stored)
  {
    match age.unwrap(stored[..payloadOffset])
    case NoMatch => Some(NoKey)
    case Malformed => Some(CorruptObject)
    case Unwrapped(key) => if OpenChunk(age, key, payloadOffset, stored, ChunkCount(payloadOffset, stored) - 1).None? then Some(CorruptObject) else None
  }

  /** GetObjectRange: check, clamp, open the source, open age over it. */
  method GetObjectRange(store: Store, age: Age, payloadOffset: int, offset: int, length: int)
    returns (r: Result<RangeReader>)
    requires age.Lawful() && 16 <= payloadOffset <= HEADER_READ_SIZE
    ensures r.Ok? ==>
      && fresh(r.value) && fresh(Footprint(r.value.src)) && r.value.Valid() && !r.value.failed
      && Opens(r.value, store, age, payloadOffset, offset, length)
      && (store.reliable ==> IntactSource(r.value.src, store.stored.value))
    ensures r.Err? ==> r.error != OutOfOrder
    ensures store.reliable ==>
      (if r.Ok? then None else Some(r.error)) == Refusal(age, payloadOffset, store.stored, offset, length)
  {
    var plan := PlanRange(store, payloadOffset, offset, length);
    if plan.Err? { return Err(plan.error); }
    var (encrypted, end) := plan.value;
    var src := OpenRangeSource(store, payloadOffset, encrypted, offset, end);
    if src.Err? { return Err(src.error); }
    r := DecryptReaderAt(src.value, store.stored.value, age, payloadOffset, encrypted, offset, end);
  }

  /** The checks and the clamping: the object's size and the end of the plaintext range. */
  method PlanRange(store: Store, payloadOffset: int, offset: int, length: int) returns (r: Result<(int, int)>)
    requires 0 <= payloadOffset
    ensures r.Ok? ==>
      && store.stored.Some? && FitsLayout(payloadOffset, store.stored.value) && r.value.0 == |store.stored.value|
      && var plain := PlainSize(payloadOffset, store.stored.value);
         && length != 0 && 0 <= offset < r.value.1 <= plain
         && r.value.1 - offset == if 0 < length < plain - offset then length else plain - offset
    ensures offset < 0 || length == 0 ==> r == Err(InvalidRange)
    ensures store.reliable && 0 <= offset && length != 0 && store.stored.None? ==> r == Err(FileNotFound)
    ensures store.reliable && 0 <= offset && length != 0 && store.stored.Some? ==>
      var size := |store.stored.value|;
      && ((forall plain: nat :: size != EncryptedSize(payloadOffset, plain)) ==> r == Err(CorruptObject))
      && (forall plain: nat :: size == EncryptedSize(payloadOffset, plain) ==>
            r == if plain <= offset then Err(InvalidRange)
                 else Ok((size, if 0 < length < plain - offset then offset + length else plain)))
    ensures r.Err? ==> r.error != OutOfOrder
    ensures store.reliable ==> (if r.Ok? then None else Some(r.error)) == BadRange(payloadOffset, store.stored, offset, length)
  {
    if offset < 0 || length == 0 {
      return Err(InvalidRange);
    }
    var stat := store.Stat();
    if stat.Err? { return Err(stat.error); }
    if stat.value.None? { return Err(FileNotFound); }
    var encrypted := stat.value.value;
    FitsIffAccepted(payloadOffset, store.stored.value);
    SizeDecides(payloadOffset, encrypted);
    var plainSize := PlaintextSize(payloadOffset, encrypted);
    if plainSize.None? { return Err(CorruptObject); }
    if offset >= plainSize.value { return Err(InvalidRange); }
    var end := plainSize.value;
    if length > 0 && length < plainSize.value - offset {
      end := offset + length;
    }
    r := Ok((encrypted, end));
  }

  /** A stored size is the encryption of one plaintext size, which plaintextSize answers, or of none. */
  lemma SizeDecides(payloadOffset: int, encrypted: int)
    ensures PlaintextSize(payloadOffset, encrypted).None? <==> forall plain: nat :: encrypted != EncryptedSize(payloadOffset, plain)
    ensures forall plain: nat :: encrypted == EncryptedSize(payloadOffset, plain) ==> PlaintextSize(payloadOffset, encrypted) == Some(plain)
  {
    RefusedIffUnreachable(payloadOffset, encrypted);
    forall plain: nat | encrypted == EncryptedSize(payloadOffset, plain)
      ensures PlaintextSize(payloadOffset, encrypted) == Some(plain)
    {
      PlaintextSizeInverts(payloadOffset, encrypted, plain);
    }
  }

  /** What an opened reader is over: this object, this range, and a final chunk that authenticated. */
  ghost predicate Opens(r: RangeReader, store: Store, age: Age, payloadOffset: int, offset: int, length: int)
    requires r.Valid()
    reads r, Footprint(r.src)
  {
    && store.stored == Some(r.stored) && r.age == age && r.payloadOffset == payloadOffset
    && age.unwrap(r.stored[..payloadOffset]) == Unwrapped(r.key)
    && length != 0 && 0 <= r.cursor == offset < r.end
    && r.end == RangeEnd(PlainSize(payloadOffset, r.stored), offset, length)
    && r.Opened(r.chunks - 1).Some?
  }

  /** The bytes are the object's plaintext from offset on, each found in its own chunk. */
  ghost predicate PlaintextFrom(age: Age, payloadOffset: int, stored: Bytes, offset: int, data: Bytes)
  {
    data != [] ==>
      && 0 <= offset && FitsLayout(payloadOffset, stored)
      && var header := age.unwrap(stored[..payloadOffset]);
         header.Unwrapped? && Run(PlainText(age, header.key, payloadOffset, stored), offset, data)
  }

  /** Every chunk the range touches authenticates. */
  ghost predicate RangeOpens(age: Age, payloadOffset: int, stored: Bytes, offset: int, end: int)
    requires FitsLayout(payloadOffset, stored) && age.unwrap(stored[..payloadOffset]).Unwrapped?
  {
    forall i :: 0 <= i < ChunkCount(payloadOffset, stored) && Touches(i, offset, end) ==>
      OpenChunk(age, age.unwrap(stored[..payloadOffset]).key, payloadOffset, stored, i).Some?
  }

  /**
   * Opens a range and reads it to its end through buffers of any size. The bytes are
   * always a prefix of the range's plaintext; on a reliable store the read succeeds
   * exactly when the range is good and its chunks and the final one authenticate.
   */
  method ReadRange(store: Store, age: Age, payloadOffset: int, offset: int, length: int)
    returns (data: Bytes, e: Option<Error>)
    requires age.Lawful() && 16 <= payloadOffset <= HEADER_READ_SIZE
    ensures data != [] ==> store.stored.Some?
    ensures store.stored.Some? ==> PlaintextFrom(age, payloadOffset, store.stored.value, offset, data)
    ensures e.None? ==>
      && store.stored.Some? && FitsLayout(payloadOffset, store.stored.value) && 0 <= offset
      && |data| == RangeEnd(PlainSize(payloadOffset, store.stored.value), offset, length) - offset > 0
    ensures e != Some(OutOfOrder)
    ensures store.reliable ==>
      var refusal := Refusal(age, payloadOffset, store.stored, offset, length);
      if refusal.Some? then e == refusal && data == []
      else
        var plain := PlainSize(payloadOffset, store.stored.value);
        e == if RangeOpens(age, payloadOffset, store.stored.value, offset, RangeEnd(plain, offset, length))
             then None else Some(CorruptObject)
  {
    var r := GetObjectRange(store, age, payloadOffset, offset, length);
    if r.Err? { return [], Some(r.error); }
    data, e := Drain(r.value);
  }

  /** io.ReadAll over a range reader: all of it, or up to a chunk that cannot be had. */
  method Drain(reader: RangeReader) returns (data: Bytes, e: Option<Error>)
    requires reader.Valid() && !reader.failed && reader.cursor < reader.end
    modifies reader, Footprint(reader.src)
    ensures reader.Fits() && reader.Plaintext(old(reader.cursor), data)
    ensures e.None? ==> |data| == reader.end - old(reader.cursor)
    ensures e != Some(OutOfOrder)
    ensures old(IntactSource(reader.src, reader.stored)) ==>
      e == if reader.TouchedOpen(old(reader.cursor), reader.end) then None else Some(CorruptObject)
  {
    ghost var offset := reader.cursor;
    data, e := ReadToEnd(reader);
    if e.None? {
      AllTouchedOpen(reader, offset, data);
    } else {
      TouchedChunks(reader.cursor / CHUNK_SIZE, offset, reader.end);
    }
  }

  /** The read loop, through buffers of any size. */
  method ReadToEnd(reader: RangeReader) returns (data: Bytes, e: Option<Error>)
    requires reader.Valid() && !reader.failed && reader.cursor < reader.end
    modifies reader, Footprint(reader.src)
    ensures reader.Valid() && reader.cursor == old(reader.cursor) + |data|
    ensures reader.Plaintext(old(reader.cursor), data)
    ensures e.None? ==> reader.cursor == reader.end
    ensures e.Some? ==> e.value != OutOfOrder && reader.cursor < reader.end
    ensures e.Some? && old(IntactSource(reader.src, reader.stored)) ==>
      e.value == CorruptObject && reader.Opened(reader.cursor / CHUNK_SIZE).None?
  {
    data, e := [], None;
    ghost var offset, intact := reader.cursor, IntactSource(reader.src, reader.stored);
    while reader.cursor < reader.end && e.None?
      invariant reader.Valid() && reader.failed == e.Some?
      invariant reader.cursor == offset + |data| && reader.Plaintext(offset, data)
      invariant intact ==> IntactSource(reader.src, reader.stored)
      invariant e.Some? ==> e.value != OutOfOrder && reader.cursor < reader.end
      invariant e.Some? && intact ==> e.value == CorruptObject && reader.Opened(reader.cursor / CHUNK_SIZE).None?
      decreases reader.end - reader.cursor, e.None?
    {
      var max: nat :| max >= 1;
      var piece;
      piece, e := reader.Read(max);
      RunAppend(PlainText(reader.age, reader.key, reader.payloadOffset, reader.stored), offset, data, piece);
      data := data + piece;
    }
  }

  lemma AllTouchedOpen(reader: RangeReader, offset: int, data: Bytes)
    requires reader.Fits() && reader.Plaintext(offset, data)
    ensures reader.TouchedOpen(offset, offset + |data|)
  {
    forall i | 0 <= i < reader.chunks && Touches(i, offset, offset + |data|)
      ensures reader.Opened(i).Some?
    {
      var x := Max(offset, i * CHUNK_SIZE);
      assert x / CHUNK_SIZE == i;
      RunAt(PlainText(reader.age, reader.key, reader.payloadOffset, reader.stored), offset, data, x - offset);
    }
  }

  /** A read of any part of an object that decrypts is that part of the decrypted whole. */
  lemma PlaintextIsSlice(age: Age, payloadOffset: int, stored: Bytes, offset: int, data: Bytes)
    requires age.Lawful() && 0 <= payloadOffset && DecryptAll(age, payloadOffset, stored).Some?
    requires PlaintextFrom(age, payloadOffset, stored, offset, data) && data != []
    ensures var plain := DecryptAll(age, payloadOffset, stored).value;
            offset + |data| <= |plain| && data == plain[offset..offset + |data|]
  {
    var key := age.unwrap(stored[..payloadOffset]).key;
    var n := ChunkCount(payloadOffset, stored);
    PrefixIsChunks(age, key, payloadOffset, stored, n);
    var plain := DecryptAll(age, payloadOffset, stored).value;
    forall k | 0 <= k < |data|
      ensures offset + k < |plain| && data[k] == plain[offset + k]
    {
      var x := offset + k;
      RunAt(PlainText(age, key, payloadOffset, stored), offset, data, k);
      OpenedLength(age, key, payloadOffset, stored, x / CHUNK_SIZE);
    }
    var k := |data| - 1;
    assert data[k] == plain[offset + k];
  }

  /**
   * Range read refines full decryption: on a reliable store, every range of every
   * object that decrypts is exactly its slice, and ErrInvalidRange exactly past the end.
   */
  method RangeReadRefinesFullRead(store: Store, age: Age, payloadOffset: int, offset: int, length: int)
    returns (data: Bytes, e: Option<Error>)
    requires age.Lawful() && 16 <= payloadOffset <= HEADER_READ_SIZE && store.reliable
    requires store.stored.Some? && DecryptAll(age, payloadOffset, store.stored.value).Some?
    ensures var plain := DecryptAll(age, payloadOffset, store.stored.value).value;
      if offset < 0 || length == 0 || offset >= |plain| then e == Some(InvalidRange) && data == []
      else
        && e == None && |data| == (if 0 < length < |plain| - offset then length else |plain| - offset)
        && data == plain[offset..offset + |data|]
  {
    ghost var stored := store.stored.value;
    ghost var key := age.unwrap(stored[..payloadOffset]).key;
    PrefixIsChunks(age, key, payloadOffset, stored, ChunkCount(payloadOffset, stored));
    data, e := ReadRange(store, age, payloadOffset, offset, length);
    if e.None? {
      PlaintextIsSlice(age, payloadOffset, stored, offset, data);
    }
  }
}
