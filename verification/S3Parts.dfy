/** How a multipart copy cuts an object into ranges (s3/storage.go). */
module S3Parts {
  import opened Common

  const MIN_PART_SIZE: int := 5 * 1024 * 1024
  const MAX_PART_SIZE: int := 5 * 1024 * 1024 * 1024
  const DEFAULT_PART_SIZE: int := 512 * 1024 * 1024
  const MAX_PARTS: int := 10000

  function ResolveCopyPartSize(requested: int): int
  {
    if requested <= 0 then DEFAULT_PART_SIZE else Min(Max(requested, MIN_PART_SIZE), MAX_PART_SIZE)
  }

  /** The part size multipartCopy uses: raised so that MAX_PARTS parts are enough. */
  function PartSize(requested: int, size: int): int
  {
    Max(ResolveCopyPartSize(requested), Quo(size + MAX_PARTS - 1, MAX_PARTS))
  }

  function PartCount(size: int, partSize: int): int
    requires partSize > 0
  {
    Quo(size + partSize - 1, partSize)
  }

  /** Part i covers [PartStart(i), PartStop(i)). */
  function PartStart(partSize: int, i: int): int { i * partSize }

  function PartStop(size: int, partSize: int, i: int): int { Min(i * partSize + partSize, size) }

  lemma CeilDiv(x: int, d: int)
    requires x > 0 && d > 0
    ensures var n := (x + d - 1) / d; n >= 1 && (n - 1) * d < x <= n * d
  {
    var y := x + d - 1;
    var n := y / d;
    assert y == d * n + y % d;
    assert (n - 1) * d == n * d - d;
  }

  lemma MulMonotone(a: int, b: int, d: int)
    requires a <= b && d >= 0
    ensures a * d <= b * d
  {
  }

  /** Every part is a non-empty range that begins where the one before it ends. */
  lemma PartsTile(size: int, partSize: int, i: int)
    requires size > 0 && partSize > 0 && 0 <= i < PartCount(size, partSize)
    ensures 0 <= PartStart(partSize, i) < PartStop(size, partSize, i) <= size
    ensures PartStart(partSize, 0) == 0 && PartStop(size, partSize, PartCount(size, partSize) - 1) == size
    ensures i + 1 < PartCount(size, partSize) ==>
              PartStop(size, partSize, i) == PartStart(partSize, i + 1) == PartStart(partSize, i) + partSize
  {
    var n := PartCount(size, partSize);
    CeilDiv(size, partSize);
    MulMonotone(0, i, partSize);
    MulMonotone(i, n - 1, partSize);
    assert (n - 1) * partSize + partSize == n * partSize;
    assert (i + 1) * partSize == i * partSize + partSize;
    if i + 1 < n {
      MulMonotone(i + 1, n - 1, partSize);
    }
  }

  /** At most MAX_PARTS parts, of S3's sizes whenever the object fits MAX_PARTS parts at all. */
  lemma PartsWithinLimits(size: int, requested: int)
    requires size > 0
    ensures PartSize(requested, size) >= MIN_PART_SIZE
    ensures 1 <= PartCount(size, PartSize(requested, size)) <= MAX_PARTS
    ensures size <= MAX_PARTS * MAX_PART_SIZE ==> PartSize(requested, size) <= MAX_PART_SIZE
    ensures MIN_PART_SIZE <= requested <= MAX_PART_SIZE && size <= MAX_PARTS * requested ==> PartSize(requested, size) == requested
    ensures requested <= 0 && size <= MAX_PARTS * DEFAULT_PART_SIZE ==> PartSize(requested, size) == DEFAULT_PART_SIZE
  {
    var partSize := PartSize(requested, size);
    CeilDiv(size, MAX_PARTS);
    var least := (size + MAX_PARTS - 1) / MAX_PARTS;
    assert forall p :: size <= MAX_PARTS * p ==> least <= p;
    CeilDiv(size, partSize);
    var n := PartCount(size, partSize);
    if n > MAX_PARTS {
      MulMonotone(MAX_PARTS, n - 1, partSize);
    }
  }

  /** The bytes a part copy takes from the source. */
  function Part(body: Bytes, partSize: int, i: int): Bytes
    requires |body| > 0 && partSize > 0 && 0 <= i < PartCount(|body|, partSize)
  {
    PartsTile(|body|, partSize, i);
    body[PartStart(partSize, i)..PartStop(|body|, partSize, i)]
  }

  /** The parts so far are the object up to where the last of them stops; all of them, the object. */
  lemma {:induction false} PartsConcatenate(body: Bytes, partSize: int, parts: seq<Bytes>)
    requires |body| > 0 && partSize > 0 && |parts| <= PartCount(|body|, partSize)
    requires forall i :: 0 <= i < |parts| ==> parts[i] == Part(body, partSize, i)
    ensures parts != [] ==> PartStop(|body|, partSize, |parts| - 1) <= |body|
    ensures parts != [] ==> Flatten(parts) == body[..PartStop(|body|, partSize, |parts| - 1)]
    ensures |parts| == PartCount(|body|, partSize) ==> Flatten(parts) == body
  {
    if parts == [] {
      CeilDiv(|body|, partSize);
    } else {
      var k := |parts| - 1;
      PartsConcatenate(body, partSize, parts[..k]);
      PartsTile(|body|, partSize, k);
      var mid, end := PartStart(partSize, k), PartStop(|body|, partSize, k);
      if k > 0 {
        PartsTile(|body|, partSize, k - 1);
        assert body[..mid] + body[mid..end] == body[..end];
      }
      assert end == |body| ==> body[..end] == body;
    }
  }

  /** byteRangeHeader: the first and, unless open-ended, the last byte of an HTTP range. */
  function ByteRangeHeader(offset: int, length: int): (int, Option<int>)
  {
    if length < 0 || offset > Wrap64(MAX_INT64 - length) then (offset, None)
    else (offset, Some(Wrap64(Wrap64(offset + length) - 1)))
  }

  /** What a server sends for a range of an object, clamped to its last byte. */
  function Sent(size: int, range: (int, Option<int>)): (int, int)
  {
    (range.0, if range.1.None? then size else Min(range.1.value + 1, size))
  }

  /** For every int64 range and object the header asks for exactly the clamped bytes, without overflow. */
  lemma HeaderAsksExactly(offset: int, length: int, size: int)
    requires 0 <= offset < size <= MAX_INT64 && InInt64(length) && length != 0
    ensures Sent(size, ByteRangeHeader(offset, length)) == (offset, if length < 0 then size else Min(offset + length, size))
    ensures length > 0 && offset + length <= MAX_INT64 ==> ByteRangeHeader(offset, length) == (offset, Some(offset + length - 1))
    ensures length < 0 ==> ByteRangeHeader(offset, length) == (offset, None)
  {
    if length > 0 {
      WrapIsIdentity(MAX_INT64 - length);
      if offset <= MAX_INT64 - length {
        WrapIsIdentity(offset + length);
        WrapIsIdentity(offset + length - 1);
      }
    }
  }
}
