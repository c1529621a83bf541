/**
 * An age file and the simple way to read it: open every chunk, concatenate.
 * The cryptography is a parameter, of which only lengths and inversion are assumed.
 */
module AgeFile {
  import opened Common
  import opened Layout

  type FileKey = int

  datatype HeaderOutcome = Unwrapped(key: FileKey) | NoMatch | Malformed

  /**
   * What age does for one identity. `unwrap` reads the header and nonce; `open`
   * authenticates one encrypted chunk, given its index and the last-chunk flag.
   */
  datatype Age = Age(
    unwrap: Bytes -> HeaderOutcome,
    open: (FileKey, int, bool, Bytes) -> Option<Bytes>,
    seal: (FileKey, int, bool, Bytes) -> Bytes)
  {
    ghost predicate Lawful()
    {
      && (forall k, i, last, c {:trigger open(k, i, last, c)} ::
            open(k, i, last, c).Some? ==> |c| == |open(k, i, last, c).value| + TAG_SIZE)
      && (forall k, i, last, p {:trigger seal(k, i, last, p)} ::
            |seal(k, i, last, p)| == |p| + TAG_SIZE && open(k, i, last, seal(k, i, last, p)) == Some(p))
    }
  }

  /** How many chunks a payload is cut into, counted off one full chunk at a time. */
  ghost function CountChunks(payload: nat): (n: nat)
    requires payload > 0
    ensures n >= 1 && (n - 1) * ENC_CHUNK_SIZE < payload <= n * ENC_CHUNK_SIZE
  {
    if payload <= ENC_CHUNK_SIZE then 1 else 1 + CountChunks(payload - ENC_CHUNK_SIZE)
  }

  /** A stored object with room for a header and chunks: no final chunk is empty but a sole one. */
  ghost predicate FitsLayout(payloadOffset: int, stored: Bytes)
  {
    && 0 <= payloadOffset && payloadOffset + TAG_SIZE <= |stored|
    && var n := CountChunks(|stored| - payloadOffset);
       n >= 2 ==> ChunkStart(payloadOffset, n - 1) + TAG_SIZE < |stored|
  }

  ghost function ChunkCount(payloadOffset: int, stored: Bytes): (n: int)
    requires FitsLayout(payloadOffset, stored)
    ensures n >= 1
    ensures ChunkStart(payloadOffset, n - 1) + TAG_SIZE <= |stored| <= ChunkStart(payloadOffset, n)
    ensures n >= 2 ==> ChunkStart(payloadOffset, n - 1) + TAG_SIZE < |stored|
  {
    CountChunks(|stored| - payloadOffset)
  }

  ghost function PlainSize(payloadOffset: int, stored: Bytes): nat
    requires FitsLayout(payloadOffset, stored)
  {
    |stored| - payloadOffset - TAG_SIZE * ChunkCount(payloadOffset, stored)
  }

  /** plaintextSize accepts exactly the sizes that fit, and answers with their plaintext size. */
  lemma FitsIffAccepted(payloadOffset: int, stored: Bytes)
    requires 0 <= payloadOffset
    ensures FitsLayout(payloadOffset, stored) <==> PlaintextSize(payloadOffset, |stored|).Some?
    ensures FitsLayout(payloadOffset, stored) ==>
      && PlaintextSize(payloadOffset, |stored|) == Some(PlainSize(payloadOffset, stored))
      && Chunks(|stored| - payloadOffset) == ChunkCount(payloadOffset, stored)
  {
    var payload := |stored| - payloadOffset;
    AcceptedExactly(payloadOffset, |stored|);
    if payload >= TAG_SIZE {
      ChunksUnique(payload, CountChunks(payload));
    }
  }

  ghost function EncChunk(payloadOffset: int, stored: Bytes, i: int): (c: Bytes)
    requires FitsLayout(payloadOffset, stored)
    requires 0 <= i < ChunkCount(payloadOffset, stored)
    ensures |c| == if i < ChunkCount(payloadOffset, stored) - 1 then ENC_CHUNK_SIZE
                   else |stored| - ChunkStart(payloadOffset, i)
  {
    var n := ChunkCount(payloadOffset, stored);
    assert ChunkStart(payloadOffset, i + 1) == ChunkStart(payloadOffset, i) + ENC_CHUNK_SIZE;
    assert i < n - 1 ==> (i + 1) * ENC_CHUNK_SIZE <= (n - 1) * ENC_CHUNK_SIZE;
    stored[ChunkStart(payloadOffset, i)..ChunkStop(payloadOffset, |stored|, i)]
  }

  ghost function OpenChunk(age: Age, key: FileKey, payloadOffset: int, stored: Bytes, i: int): Option<Bytes>
    requires FitsLayout(payloadOffset, stored)
    requires 0 <= i < ChunkCount(payloadOffset, stored)
  {
    age.open(key, i, i == ChunkCount(payloadOffset, stored) - 1, EncChunk(payloadOffset, stored, i))
  }

  lemma OpenedLength(age: Age, key: FileKey, payloadOffset: int, stored: Bytes, i: int)
    requires age.Lawful() && FitsLayout(payloadOffset, stored)
    requires 0 <= i < ChunkCount(payloadOffset, stored)
    requires OpenChunk(age, key, payloadOffset, stored, i).Some?
    ensures |OpenChunk(age, key, payloadOffset, stored, i).value| ==
            Min(CHUNK_SIZE, PlainSize(payloadOffset, stored) - i * CHUNK_SIZE)
  {
    var n := ChunkCount(payloadOffset, stored);
    if i < n - 1 {
      assert (i + 1) * CHUNK_SIZE <= (n - 1) * CHUNK_SIZE;
    }
  }

  /** The plaintext of the first k chunks, or None if one of them does not authenticate. */
  ghost function DecryptPrefix(age: Age, key: FileKey, payloadOffset: int, stored: Bytes, k: nat): Option<Bytes>
    requires FitsLayout(payloadOffset, stored) && k <= ChunkCount(payloadOffset, stored)
  {
    if k == 0 then Some([])
    else
      match (DecryptPrefix(age, key, payloadOffset, stored, k - 1), OpenChunk(age, key, payloadOffset, stored, k - 1))
      case (Some(front), Some(chunk)) => Some(front + chunk)
      case _ => None
  }

  /** The simple form of a read: decrypt everything. */
  ghost function DecryptAll(age: Age, payloadOffset: int, stored: Bytes): Option<Bytes>
    requires 0 <= payloadOffset
  {
    if !FitsLayout(payloadOffset, stored) then None
    else
      match age.unwrap(stored[..payloadOffset])
      case Unwrapped(key) => DecryptPrefix(age, key, payloadOffset, stored, ChunkCount(payloadOffset, stored))
      case _ => None
  }

  /** The plaintext byte at x, found by opening only the chunk that holds it. */
  ghost function PlainAt(age: Age, key: FileKey, payloadOffset: int, stored: Bytes, x: int): Option<byte>
    requires FitsLayout(payloadOffset, stored)
    requires 0 <= x
  {
    if x / CHUNK_SIZE >= ChunkCount(payloadOffset, stored) then None
    else
      match OpenChunk(age, key, payloadOffset, stored, x / CHUNK_SIZE)
      case None => None
      case Some(chunk) => if x % CHUNK_SIZE < |chunk| then Some(chunk[x % CHUNK_SIZE]) else None
  }

  /** The plaintext of an object, byte by byte. */
  ghost function PlainText(age: Age, key: FileKey, payloadOffset: int, stored: Bytes): int -> Option<byte>
    requires FitsLayout(payloadOffset, stored)
  {
    (x: int) => if x < 0 then None else PlainAt(age, key, payloadOffset, stored, x)
  }

  /** data is what text has from x on. */
  ghost predicate Run(text: int -> Option<byte>, x: int, data: Bytes)
  {
    data == [] || (Run(text, x, data[..|data| - 1]) && text(x + |data| - 1) == Some(data[|data| - 1]))
  }

  lemma {:induction false} RunAt(text: int -> Option<byte>, x: int, data: Bytes, k: nat)
    requires Run(text, x, data) && k < |data|
    ensures text(x + k) == Some(data[k])
  {
    if k < |data| - 1 {
      RunAt(text, x, data[..|data| - 1], k);
    }
  }

  lemma {:induction false} RunOf(text: int -> Option<byte>, x: int, data: Bytes)
    requires forall y {:trigger text(y)} :: x <= y < x + |data| ==> text(y) == Some(data[y - x])
    ensures Run(text, x, data)
  {
    if data != [] {
      RunOf(text, x, data[..|data| - 1]);
    }
  }

  lemma {:induction false} RunAppend(text: int -> Option<byte>, x: int, a: Bytes, b: Bytes)
    requires Run(text, x, a) && Run(text, x + |a|, b)
    ensures Run(text, x, a + b)
  {
    if b == [] {
      assert a + b == a;
    } else {
      var n := |b| - 1;
      RunAppend(text, x, a, b[..n]);
      assert (a + b)[..|a + b| - 1] == a + b[..n];
    }
  }

  /** A piece of an opened chunk is the plaintext at its place. */
  lemma RunInChunk(age: Age, key: FileKey, payloadOffset: int, stored: Bytes, i: int, from: nat, n: nat)
    requires age.Lawful() && FitsLayout(payloadOffset, stored)
    requires 0 <= i < ChunkCount(payloadOffset, stored)
    requires OpenChunk(age, key, payloadOffset, stored, i).Some?
    requires from + n <= |OpenChunk(age, key, payloadOffset, stored, i).value|
    ensures Run(PlainText(age, key, payloadOffset, stored), i * CHUNK_SIZE + from,
                OpenChunk(age, key, payloadOffset, stored, i).value[from..from + n])
  {
    OpenedLength(age, key, payloadOffset, stored, i);
    var chunk := OpenChunk(age, key, payloadOffset, stored, i).value;
    var text, x := PlainText(age, key, payloadOffset, stored), i * CHUNK_SIZE + from;
    forall y | x <= y < x + n ensures text(y) == Some(chunk[from..from + n][y - x]) {
      assert y / CHUNK_SIZE == i && y % CHUNK_SIZE == y - i * CHUNK_SIZE;
    }
    RunOf(text, x, chunk[from..from + n]);
  }

  /** Full decryption succeeds iff every chunk opens, and is then the chunks laid end to end. */
  lemma {:induction false} PrefixIsChunks(age: Age, key: FileKey, payloadOffset: int, stored: Bytes, k: nat)
    requires age.Lawful() && FitsLayout(payloadOffset, stored) && k <= ChunkCount(payloadOffset, stored)
    ensures var r := DecryptPrefix(age, key, payloadOffset, stored, k);
      && (r.Some? <==> forall i :: 0 <= i < k ==> OpenChunk(age, key, payloadOffset, stored, i).Some?)
      && (r.Some? ==>
            && |r.value| == Min(k * CHUNK_SIZE, PlainSize(payloadOffset, stored))
            && forall x :: 0 <= x < |r.value| ==> PlainAt(age, key, payloadOffset, stored, x) == Some(r.value[x]))
  {
    if k > 0 {
      PrefixIsChunks(age, key, payloadOffset, stored, k - 1);
      var r := DecryptPrefix(age, key, payloadOffset, stored, k);
      if r.Some? {
        OpenedLength(age, key, payloadOffset, stored, k - 1);
        var front := DecryptPrefix(age, key, payloadOffset, stored, k - 1).value;
        var n := ChunkCount(payloadOffset, stored);
        assert (k - 1) * CHUNK_SIZE <= (n - 1) * CHUNK_SIZE;
        assert |front| == (k - 1) * CHUNK_SIZE;
        forall x | 0 <= x < |r.value|
          ensures PlainAt(age, key, payloadOffset, stored, x) == Some(r.value[x])
        {
          if x >= |front| {
            assert x / CHUNK_SIZE == k - 1 && x % CHUNK_SIZE == x - |front|;
          }
        }
      }
    }
  }

  // ----- encryption, to show that the reference reads back what was written -----

  function PlainChunk(plain: Bytes, i: int): Bytes
    requires 0 <= i < PlainChunks(|plain|)
  {
    plain[i * CHUNK_SIZE..Min((i + 1) * CHUNK_SIZE, |plain|)]
  }

  function SealPrefix(age: Age, key: FileKey, plain: Bytes, k: nat): Bytes
    requires k <= PlainChunks(|plain|)
  {
    if k == 0 then []
    else SealPrefix(age, key, plain, k - 1)
         + age.seal(key, k - 1, k == PlainChunks(|plain|), PlainChunk(plain, k - 1))
  }

  /** An age file: the header with its nonce, then every sealed chunk. */
  function Encrypt(age: Age, header: Bytes, key: FileKey, plain: Bytes): Bytes
  {
    header + SealPrefix(age, key, plain, PlainChunks(|plain|))
  }

  lemma {:induction false} SealedLength(age: Age, key: FileKey, plain: Bytes, k: nat)
    requires age.Lawful() && k <= PlainChunks(|plain|)
    ensures |SealPrefix(age, key, plain, k)| == Min(k * CHUNK_SIZE, |plain|) + TAG_SIZE * k
  {
    if k > 0 {
      SealedLength(age, key, plain, k - 1);
    }
  }

  lemma {:induction false} SealedGrows(age: Age, key: FileKey, plain: Bytes, k: nat, n: nat)
    requires k <= n <= PlainChunks(|plain|)
    ensures SealPrefix(age, key, plain, k) <= SealPrefix(age, key, plain, n)
  {
    if k < n {
      SealedGrows(age, key, plain, k, n - 1);
    }
  }

  /** Chunk i of the sealed payload is the i-th sealed piece of the plaintext. */
  lemma SealedChunk(age: Age, key: FileKey, plain: Bytes, i: nat)
    requires age.Lawful() && i < PlainChunks(|plain|)
    ensures var n := PlainChunks(|plain|); var s := SealPrefix(age, key, plain, n);
            var stop := Min((i + 1) * ENC_CHUNK_SIZE, |s|);
      && i * ENC_CHUNK_SIZE <= stop
      && s[i * ENC_CHUNK_SIZE..stop] == age.seal(key, i, i == n - 1, PlainChunk(plain, i))
  {
    var n := PlainChunks(|plain|);
    SealedLength(age, key, plain, i);
    SealedLength(age, key, plain, i + 1);
    SealedLength(age, key, plain, n);
    SealedGrows(age, key, plain, i + 1, n);
    var s, upto := SealPrefix(age, key, plain, n), SealPrefix(age, key, plain, i + 1);
    assert Min((i + 1) * ENC_CHUNK_SIZE, |s|) == |upto|;
    assert s[..|upto|] == upto;
    assert s[i * ENC_CHUNK_SIZE..|upto|] == upto[i * ENC_CHUNK_SIZE..];
  }

  lemma EncryptedShape(age: Age, header: Bytes, key: FileKey, plain: Bytes)
    requires age.Lawful()
    ensures var stored := Encrypt(age, header, key, plain);
      && |stored| == EncryptedSize(|header|, |plain|)
      && stored[..|header|] == header
      && FitsLayout(|header|, stored)
      && PlainSize(|header|, stored) == |plain|
      && ChunkCount(|header|, stored) == PlainChunks(|plain|)
  {
    SealedLength(age, key, plain, PlainChunks(|plain|));
    var stored := Encrypt(age, header, key, plain);
    PlaintextSizeInverts(|header|, |stored|, |plain|);
    FitsIffAccepted(|header|, stored);
    assert ChunkCount(|header|, stored) == PlainChunks(|plain|);
  }

  lemma ChunkOfPayload(header: Bytes, payload: Bytes, i: int)
    requires FitsLayout(|header|, header + payload)
    requires 0 <= i < ChunkCount(|header|, header + payload)
    ensures 0 <= i * ENC_CHUNK_SIZE <= Min((i + 1) * ENC_CHUNK_SIZE, |payload|)
    ensures EncChunk(|header|, header + payload, i)
              == payload[i * ENC_CHUNK_SIZE..Min((i + 1) * ENC_CHUNK_SIZE, |payload|)]
  {
    var c := EncChunk(|header|, header + payload, i);
    assert ChunkStart(|header|, i + 1) == |header| + (i + 1) * ENC_CHUNK_SIZE;
  }

  lemma SealedChunkOpens(age: Age, header: Bytes, key: FileKey, plain: Bytes, i: int)
    requires age.Lawful()
    requires FitsLayout(|header|, Encrypt(age, header, key, plain))
    requires ChunkCount(|header|, Encrypt(age, header, key, plain)) == PlainChunks(|plain|)
    requires 0 <= i < PlainChunks(|plain|)
    ensures OpenChunk(age, key, |header|, Encrypt(age, header, key, plain), i) == Some(PlainChunk(plain, i))
  {
    var sealed := SealPrefix(age, key, plain, PlainChunks(|plain|));
    ChunkOfPayload(header, sealed, i);
    SealedChunk(age, key, plain, i);
  }

  /** Decrypting an encrypted plaintext gives it back, for every plaintext including the empty one. */
  lemma EncryptRoundTrip(age: Age, header: Bytes, key: FileKey, plain: Bytes)
    requires age.Lawful() && age.unwrap(header) == Unwrapped(key)
    ensures |Encrypt(age, header, key, plain)| == EncryptedSize(|header|, |plain|)
    ensures DecryptAll(age, |header|, Encrypt(age, header, key, plain)) == Some(plain)
  {
    var po, n := |header|, PlainChunks(|plain|);
    var stored := Encrypt(age, header, key, plain);
    EncryptedShape(age, header, key, plain);
    forall i | 0 <= i < n
      ensures OpenChunk(age, key, po, stored, i).Some?
    {
      SealedChunkOpens(age, header, key, plain, i);
    }
    PrefixIsChunks(age, key, po, stored, n);
    var r := DecryptPrefix(age, key, po, stored, n).value;
    forall x | 0 <= x < |plain| ensures r[x] == plain[x] {
      EncryptedByte(age, header, key, plain, x);
    }
    assert r == plain;
  }

  lemma EncryptedByte(age: Age, header: Bytes, key: FileKey, plain: Bytes, x: int)
    requires age.Lawful() && 0 <= x < |plain|
    requires FitsLayout(|header|, Encrypt(age, header, key, plain))
    requires ChunkCount(|header|, Encrypt(age, header, key, plain)) == PlainChunks(|plain|)
    ensures PlainAt(age, key, |header|, Encrypt(age, header, key, plain), x) == Some(plain[x])
  {
    SealedChunkOpens(age, header, key, plain, x / CHUNK_SIZE);
  }
}
