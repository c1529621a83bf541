/**
 * The arithmetic of an age payload (encrypted/layout.go): a header and nonce of
 * `payloadOffset` bytes, then 64 KiB chunks that each carry a 16-byte tag.
 */
module Layout {
  import opened Common

  const CHUNK_SIZE: int := 65536
  const TAG_SIZE: int := 16
  const ENC_CHUNK_SIZE: int := 65552

  /** Number of chunks a payload of that many encrypted bytes is cut into. */
  function Chunks(payload: int): int { Quo(payload + ENC_CHUNK_SIZE - 1, ENC_CHUNK_SIZE) }

  function PlaintextSize(payloadOffset: int, encrypted: int): Option<int>
  {
    var payload := encrypted - payloadOffset;
    if payload < TAG_SIZE then None
    else
      var chunks := Chunks(payload);
      var plain := payload - chunks * TAG_SIZE;
      var want := Max(Quo(plain + CHUNK_SIZE - 1, CHUNK_SIZE), 1);
      if want != chunks then None else Some(plain)
  }

  function ReportedSize(payloadOffset: int, encrypted: int): int
  {
    match PlaintextSize(payloadOffset, encrypted)
    case Some(plain) => plain
    case None => encrypted
  }

  function ChunkSpan(payloadOffset: int, off: int, end: int, encrypted: int): (int, int)
  {
    var first := Quo(off, CHUNK_SIZE);
    var last := Quo(end - 1, CHUNK_SIZE);
    (payloadOffset + first * ENC_CHUNK_SIZE,
     Min(payloadOffset + (last + 1) * ENC_CHUNK_SIZE, encrypted))
  }

  function FinalChunkOffset(payloadOffset: int, encrypted: int): int
  {
    payloadOffset + (Chunks(encrypted - payloadOffset) - 1) * ENC_CHUNK_SIZE
  }

  // ----- the size formula and its inverse -----

  /** How many chunks the age specification cuts a plaintext into: one for the empty one. */
  function PlainChunks(plain: nat): (n: nat)
    ensures n >= 1
    ensures (n - 1) * CHUNK_SIZE < plain <= n * CHUNK_SIZE || (plain == 0 && n == 1)
  {
    if plain == 0 then 1 else (plain - 1) / CHUNK_SIZE + 1
  }

  /** The size of an age file over a plaintext of `plain` bytes. */
  function EncryptedSize(payloadOffset: int, plain: nat): int
  {
    payloadOffset + plain + TAG_SIZE * PlainChunks(plain)
  }

  /** The encrypted length of the last chunk of a payload. */
  function LastChunkLength(payload: int): int
  {
    payload - (Chunks(payload) - 1) * ENC_CHUNK_SIZE
  }

  lemma ChunksBounds(payload: int)
    requires payload >= 1
    ensures Chunks(payload) >= 1
    ensures (Chunks(payload) - 1) * ENC_CHUNK_SIZE < payload <= Chunks(payload) * ENC_CHUNK_SIZE
  {
  }

  lemma ChunksUnique(payload: int, n: int)
    requires payload >= 1 && (n - 1) * ENC_CHUNK_SIZE < payload <= n * ENC_CHUNK_SIZE
    ensures Chunks(payload) == n
  {
  }

  lemma CeilIsPlainChunks(plain: nat)
    ensures Max(Quo(plain + CHUNK_SIZE - 1, CHUNK_SIZE), 1) == PlainChunks(plain)
  {
  }

  /** What PlaintextSize computes, said by the last chunk's length alone. */
  lemma AcceptedExactly(payloadOffset: int, encrypted: int)
    ensures var payload := encrypted - payloadOffset;
      PlaintextSize(payloadOffset, encrypted) ==
        if payload < TAG_SIZE || (payload > ENC_CHUNK_SIZE && LastChunkLength(payload) <= TAG_SIZE) then None
        else Some(payload - TAG_SIZE * Chunks(payload))
  {
    var payload := encrypted - payloadOffset;
    if payload >= TAG_SIZE {
      var chunks := Chunks(payload);
      ChunksBounds(payload);
      var plain := payload - chunks * TAG_SIZE;
      assert plain == (chunks - 1) * CHUNK_SIZE + LastChunkLength(payload) - TAG_SIZE;
      CeilIsPlainChunks(plain);
    }
  }

  /** plaintextSize inverts the size formula exactly, on every stored size. */
  lemma PlaintextSizeInverts(payloadOffset: int, encrypted: int, plain: nat)
    ensures PlaintextSize(payloadOffset, encrypted) == Some(plain)
       <==> encrypted == EncryptedSize(payloadOffset, plain)
  {
    var payload := encrypted - payloadOffset;
    AcceptedExactly(payloadOffset, encrypted);
    if encrypted == EncryptedSize(payloadOffset, plain) {
      var n := PlainChunks(plain);
      assert payload == plain + TAG_SIZE * n;
      ChunksUnique(payload, n);
    }
    if PlaintextSize(payloadOffset, encrypted) == Some(plain) {
      var chunks := Chunks(payload);
      ChunksBounds(payload);
      assert plain == (chunks - 1) * CHUNK_SIZE + LastChunkLength(payload) - TAG_SIZE;
      assert PlainChunks(plain) == chunks;
    }
  }

  /** The refused sizes are exactly those no plaintext encrypts to. */
  lemma RefusedIffUnreachable(payloadOffset: int, encrypted: int)
    ensures PlaintextSize(payloadOffset, encrypted).None?
       <==> forall plain: nat :: EncryptedSize(payloadOffset, plain) != encrypted
  {
    if PlaintextSize(payloadOffset, encrypted).None? {
      forall plain: nat ensures EncryptedSize(payloadOffset, plain) != encrypted {
        PlaintextSizeInverts(payloadOffset, encrypted, plain);
      }
    } else {
      var plain := PlaintextSize(payloadOffset, encrypted).value;
      AcceptedExactly(payloadOffset, encrypted);
      ChunksBounds(encrypted - payloadOffset);
      PlaintextSizeInverts(payloadOffset, encrypted, plain);
    }
  }

  /** Stat, List and Copy report the plaintext size of an encrypted object, and any other size as stored. */
  lemma ReportedSizeExactly(payloadOffset: int, encrypted: int)
    ensures forall plain: nat :: encrypted == EncryptedSize(payloadOffset, plain) ==>
              ReportedSize(payloadOffset, encrypted) == plain
    ensures (forall plain: nat :: encrypted != EncryptedSize(payloadOffset, plain)) ==>
              ReportedSize(payloadOffset, encrypted) == encrypted
  {
    RefusedIffUnreachable(payloadOffset, encrypted);
    forall plain: nat | encrypted == EncryptedSize(payloadOffset, plain)
      ensures ReportedSize(payloadOffset, encrypted) == plain
    {
      PlaintextSizeInverts(payloadOffset, encrypted, plain);
    }
  }

  // ----- the same arithmetic on int64 -----

  /** plaintextSize as the machine runs it: every operation wraps to 64 bits. */
  function MachinePlaintextSize(payloadOffset: int, encrypted: int): Option<int>
  {
    var payload := Wrap64(encrypted - payloadOffset);
    if payload < TAG_SIZE then None
    else
      var chunks := MachineChunks(payload);
      var plain := Wrap64(payload - Wrap64(chunks * TAG_SIZE));
      var want := Max(Quo(Wrap64(Wrap64(plain + CHUNK_SIZE) - 1), CHUNK_SIZE), 1);
      if want != chunks then None else Some(plain)
  }

  function MachineChunks(payload: int): int
  {
    Quo(Wrap64(Wrap64(payload + ENC_CHUNK_SIZE) - 1), ENC_CHUNK_SIZE)
  }

  function MachineChunkSpan(payloadOffset: int, off: int, end: int, encrypted: int): (int, int)
  {
    var first := Quo(off, CHUNK_SIZE);
    var last := Quo(Wrap64(end - 1), CHUNK_SIZE);
    (Wrap64(payloadOffset + Wrap64(first * ENC_CHUNK_SIZE)),
     Min(Wrap64(payloadOffset + Wrap64(Wrap64(last + 1) * ENC_CHUNK_SIZE)), encrypted))
  }

  lemma MachineChunksExact(payload: int)
    requires 0 <= payload <= MAX_INT64 - ENC_CHUNK_SIZE + 1
    ensures MachineChunks(payload) == Chunks(payload)
  {
    var sum := payload + ENC_CHUNK_SIZE;
    WrapIsIdentity(sum - 1);
    if sum <= MAX_INT64 {
      WrapIsIdentity(sum);
    } else {
      assert sum % TWO_64 == sum && (sum - TWO_64 - 1) % TWO_64 == sum - 1;
    }
  }

  /** A payload above that comes out with fewer than no chunks. */
  lemma MachineChunksOverflow(payload: int)
    requires MAX_INT64 - ENC_CHUNK_SIZE + 1 < payload <= MAX_INT64 - 16
    ensures MachineChunks(payload) < 0
  {
    var sum := payload + ENC_CHUNK_SIZE;
    assert sum % TWO_64 == sum;
    WrapIsIdentity(sum - TWO_64 - 1);
  }

  /** The machine computes the mathematical answer exactly as long as payload + 65551 is an int64, or there is none. */
  lemma MachineSizeExactIff(payloadOffset: int, encrypted: int)
    requires 16 <= payloadOffset <= 4096 && 0 <= encrypted <= MAX_INT64
    ensures MachinePlaintextSize(payloadOffset, encrypted) == PlaintextSize(payloadOffset, encrypted)
       <==> InInt64(encrypted - payloadOffset + ENC_CHUNK_SIZE - 1) || PlaintextSize(payloadOffset, encrypted).None?
  {
    var payload := encrypted - payloadOffset;
    if payload <= MAX_INT64 - ENC_CHUNK_SIZE + 1 {
      MachineSizeIsExact(payloadOffset, encrypted);
    } else {
      WrapIsIdentity(payload);
      MachineChunksOverflow(payload);
    }
  }

  /** No intermediate value leaves int64, so the machine computes the mathematical answer. */
  lemma MachineSizeIsExact(payloadOffset: int, encrypted: int)
    requires 16 <= payloadOffset <= 4096
    requires 0 <= encrypted && encrypted - payloadOffset <= MAX_INT64 - 65551
    ensures MachinePlaintextSize(payloadOffset, encrypted) == PlaintextSize(payloadOffset, encrypted)
  {
    var payload := encrypted - payloadOffset;
    WrapIsIdentity(payload);
    if payload >= TAG_SIZE {
      MachineChunksExact(payload);
      TagsFit(payload);
      var plain := payload - Chunks(payload) * TAG_SIZE;
      WrapIsIdentity(Chunks(payload) * TAG_SIZE);
      WrapIsIdentity(plain);
      MachineCeilExact(plain);
    }
  }

  lemma TagsFit(payload: int)
    requires payload >= TAG_SIZE
    ensures 0 <= Chunks(payload) * TAG_SIZE <= payload
  {
    ChunksBounds(payload);
  }

  lemma MachineCeilExact(plain: int)
    requires 0 <= plain <= MAX_INT64 - CHUNK_SIZE
    ensures Quo(Wrap64(Wrap64(plain + CHUNK_SIZE) - 1), CHUNK_SIZE) == Quo(plain + CHUNK_SIZE - 1, CHUNK_SIZE)
  {
    WrapIsIdentity(plain + CHUNK_SIZE);
    WrapIsIdentity(plain + CHUNK_SIZE - 1);
  }

  lemma MachineSpanIsExact(payloadOffset: int, off: int, end: int, encrypted: int)
    requires 16 <= payloadOffset <= 4096
    requires 0 <= encrypted <= MAX_INT64 - 65551
    requires PlaintextSize(payloadOffset, encrypted).Some?
    requires 0 <= off < end <= PlaintextSize(payloadOffset, encrypted).value
    ensures MachineChunkSpan(payloadOffset, off, end, encrypted) == ChunkSpan(payloadOffset, off, end, encrypted)
  {
    var first, last := off / CHUNK_SIZE, (end - 1) / CHUNK_SIZE;
    SpanWithinChunks(payloadOffset, off, end, encrypted);
    WrapIsIdentity(end - 1);
    WrapIsIdentity(last + 1);
    WrapIsIdentity(first * ENC_CHUNK_SIZE);
    WrapIsIdentity(payloadOffset + first * ENC_CHUNK_SIZE);
    WrapIsIdentity((last + 1) * ENC_CHUNK_SIZE);
    WrapIsIdentity(payloadOffset + (last + 1) * ENC_CHUNK_SIZE);
  }

  // ----- which ciphertext a range needs -----

  /** The encrypted bytes of chunk i, as a half-open interval of ciphertext offsets. */
  function ChunkStart(payloadOffset: int, i: int): int { payloadOffset + i * ENC_CHUNK_SIZE }

  function ChunkStop(payloadOffset: int, encrypted: int, i: int): int
  {
    Min(ChunkStart(payloadOffset, i + 1), encrypted)
  }

  /** Some plaintext byte of [off, end) lies in chunk i. */
  predicate Touches(i: int, off: int, end: int)
  {
    Max(off, i * CHUNK_SIZE) < Min(end, (i + 1) * CHUNK_SIZE)
  }

  lemma TouchedChunks(i: int, off: int, end: int)
    requires 0 <= off < end
    ensures Touches(i, off, end) <==> off / CHUNK_SIZE <= i <= (end - 1) / CHUNK_SIZE
  {
  }

  lemma SpanWithinChunks(payloadOffset: int, off: int, end: int, encrypted: int)
    requires PlaintextSize(payloadOffset, encrypted).Some?
    requires 0 <= off < end <= PlaintextSize(payloadOffset, encrypted).value
    ensures 0 <= off / CHUNK_SIZE <= (end - 1) / CHUNK_SIZE < Chunks(encrypted - payloadOffset)
    ensures (Chunks(encrypted - payloadOffset) - 1) * ENC_CHUNK_SIZE < encrypted - payloadOffset
              <= Chunks(encrypted - payloadOffset) * ENC_CHUNK_SIZE
  {
    var payload := encrypted - payloadOffset;
    AcceptedExactly(payloadOffset, encrypted);
    ChunksBounds(payload);
  }

  /**
   * The stream opened for [off, end) and the final chunk are disjoint, and between
   * them they hold exactly the chunks the range touches plus the final one; the
   * stream is empty exactly when the range lies in the final chunk.
   */
  lemma StreamAndTailAreTheNeededChunks(payloadOffset: int, off: int, end: int, encrypted: int, i: int)
    requires PlaintextSize(payloadOffset, encrypted).Some?
    requires 0 <= off < end <= PlaintextSize(payloadOffset, encrypted).value
    requires 0 <= i < Chunks(encrypted - payloadOffset)
    ensures var (start, stop) := ChunkSpan(payloadOffset, off, end, encrypted);
            var tailStart := FinalChunkOffset(payloadOffset, encrypted);
            var streamEnd := Min(stop, tailStart);
            var inStream := start <= ChunkStart(payloadOffset, i) && ChunkStop(payloadOffset, encrypted, i) <= streamEnd;
            var inTail := tailStart <= ChunkStart(payloadOffset, i);
            && streamEnd <= tailStart
            && (inStream || inTail <==> Touches(i, off, end) || i == Chunks(encrypted - payloadOffset) - 1)
            && !(inStream && inTail)
            && (!inStream && !inTail ==>
                  ChunkStop(payloadOffset, encrypted, i) <= start || streamEnd <= ChunkStart(payloadOffset, i))
            && (start < streamEnd <==> off < (Chunks(encrypted - payloadOffset) - 1) * CHUNK_SIZE)
  {
    SpanWithinChunks(payloadOffset, off, end, encrypted);
    TouchedChunks(i, off, end);
    var first, last, n := off / CHUNK_SIZE, (end - 1) / CHUNK_SIZE, Chunks(encrypted - payloadOffset);
    assert last < n - 1 ==> (last + 1) * ENC_CHUNK_SIZE <= (n - 1) * ENC_CHUNK_SIZE;
  }
}
