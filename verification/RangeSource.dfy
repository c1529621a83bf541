/**
 * The ciphertext a range read decrypts from (encrypted/range.go): the head and the
 * final chunk in memory, the chunks between them from one forward-only body.
 */
module RangeSource {
  import opened Common
  import opened Layout

  const HEADER_READ_SIZE: int := 4096
  const WHOLE_OBJECT_SIZE: int := 1048576

  /** How a body stops: at a clean end, or with a failure of the store's own. */
  datatype Ending = CleanEnd | Failure(code: int)

  datatype ReadError = Eof | UnexpectedEof | StoreFailed(code: int) | BackwardRead

  /**
   * A response body. It delivers `content` in pieces of any size, then ends as
   * `ending` says and stays ended; `err` is what rangeBody remembers.
   */
  class RangeBody {
    const content: Bytes
    const ending: Ending
    var at: nat
    var err: Option<int>

    constructor (content: Bytes, ending: Ending)
      ensures Valid() && at == 0 && this.content == content && this.ending == ending
    {
      this.content, this.ending := content, ending;
      at, err := 0, None;
    }

    predicate Valid()
      reads this
    {
      at <= |content| && (err.Some? ==> ending == Failure(err.value))
    }

    /** One read into p[lo..hi]; the ending may arrive with the last bytes or after them. */
    method Read(p: array<byte>, lo: nat, hi: nat) returns (n: nat, ended: bool)
      requires Valid() && lo < hi <= p.Length
      modifies this`at, this`err, p
      ensures Valid()
      ensures n <= hi - lo && at == old(at) + n && (n == 0 ==> ended)
      ensures ended ==> at == |content| && (ending.Failure? ==> err == Some(ending.code))
      ensures forall i :: 0 <= i < p.Length ==>
                p[i] == if lo <= i < lo + n then content[old(at) + i - lo] else old(p[i])
    {
      n, ended := 0, true;
      if at < |content| {
        var k: nat :| 1 <= k && k <= hi - lo && k <= |content| - at;
        n := k;
        forall i | 0 <= i < n {
          p[lo + i] := content[at + i];
        }
        at := at + n;
        if at < |content| {
          ended := false;
        } else {
          ended := *;
        }
      }
      if ended && ending.Failure? {
        err := Some(ending.code);
      }
    }

    /** io.ReadFull: all of p[lo..hi], unless the body ends first. */
    method ReadFull(p: array<byte>, lo: nat, hi: nat) returns (n: nat, ok: bool)
      requires Valid() && lo <= hi <= p.Length
      modifies this`at, this`err, p
      ensures Valid()
      ensures n == Min(hi - lo, |content| - old(at)) && at == old(at) + n
      ensures ok <==> n == hi - lo
      ensures !ok && ending.Failure? ==> err == Some(ending.code)
      ensures forall i :: 0 <= i < p.Length ==>
                p[i] == if lo <= i < lo + n then content[old(at) + i - lo] else old(p[i])
    {
      n := 0;
      var ended := false;
      while lo + n < hi && !ended
        invariant n <= hi - lo && at == old(at) + n && Valid()
        invariant ended ==> at == |content| && (ending.Failure? ==> err == Some(ending.code))
        invariant forall i :: 0 <= i < p.Length ==>
                    p[i] == if lo <= i < lo + n then content[old(at) + i - lo] else old(p[i])
        decreases hi - lo - n, !ended
      {
        var k;
        k, ended := Read(p, lo + n, hi);
        n := n + k;
      }
      ok := lo + n == hi;
    }

    /** io.CopyN into io.Discard: drop exactly k bytes, unless the body ends first. */
    method Skip(k: nat) returns (ok: bool)
      requires Valid()
      modifies this`at, this`err
      ensures Valid()
      ensures at == old(at) + Min(k, |content| - old(at))
      ensures ok <==> k <= |content| - old(at)
      ensures !ok && ending.Failure? ==> err == Some(ending.code)
    {
      var scratch := new byte[k];
      var n;
      n, ok := ReadFull(scratch, 0, k);
    }
  }

  class ChunkSource {
    ghost const stored: Bytes
    ghost const bodyStart: int
    const size: int
    const payloadOffset: int
    const tailStart: int
    const streamEnd: int
    const head: Bytes
    const tail: Bytes
    const stream: RangeBody?
    var pos: int
    var err: Option<ReadError>
    /** A stream read has failed; from then on `pos` may lag behind the stream. */
    ghost var broken: bool

    constructor (ghost stored: Bytes, payloadOffset: int, tailStart: int, streamEnd: int,
                 head: Bytes, tail: Bytes, bodyStart: int, stream: RangeBody?)
      requires 0 <= payloadOffset <= HEADER_READ_SIZE <= tailStart < |stored|
      requires head == stored[..HEADER_READ_SIZE] && tail == stored[tailStart..]
      requires payloadOffset <= bodyStart && streamEnd <= tailStart
      requires stream != null ==>
        stream.Valid() && stream.at == 0 && bodyStart + |stream.content| <= streamEnd
        && stream.content == stored[bodyStart..bodyStart + |stream.content|]
      ensures Valid() && !broken && pos == bodyStart && err == None
      ensures this.stored == stored && this.payloadOffset == payloadOffset && this.tailStart == tailStart
      ensures this.streamEnd == streamEnd && this.stream == stream && this.bodyStart == bodyStart
    {
      this.stored, this.size, this.payloadOffset := stored, tailStart + |tail|, payloadOffset;
      this.tailStart, this.streamEnd, this.bodyStart := tailStart, streamEnd, bodyStart;
      this.head, this.tail, this.stream, this.pos, this.err := head, tail, stream, bodyStart, None;
      broken := false;
    }

    /** What never changes: the head, the tail and the body are slices of the stored object. */
    ghost predicate Stitched()
    {
      && size == |stored|
      && 0 <= payloadOffset <= HEADER_READ_SIZE <= tailStart < size
      && head == stored[..HEADER_READ_SIZE] && tail == stored[tailStart..]
      && payloadOffset <= bodyStart && streamEnd <= tailStart
      && (stream != null ==>
            && bodyStart + |stream.content| <= streamEnd
            && stream.content == stored[bodyStart..bodyStart + |stream.content|])
    }

    /** `pos` is the stream's true offset, until a read of it has failed. */
    ghost predicate Valid()
      reads this, stream
    {
      && Stitched() && bodyStart <= pos
      && (stream != null ==>
            && stream.Valid()
            && (if broken then stream.at == |stream.content| else pos == bodyStart + stream.at))
    }

    /** The body holds the whole stream and does not fail. */
    ghost predicate Intact()
      reads this, stream
    {
      !broken && (stream != null ==> bodyStart + |stream.content| == streamEnd && stream.ending == CleanEnd)
    }

    /**
     * Who is to blame for e: a body that failed is the store's failure and one that
     * ended early is the object's; either breaks the source. A read out of order is
     * remembered as the source's own and changes nothing else.
     */
    ghost predicate Explained(e: Option<ReadError>, oldErr: Option<ReadError>, oldBroken: bool)
      reads this
    {
      match e
      case Some(StoreFailed(code)) => stream != null && stream.ending == Failure(code) && err == e && broken
      case Some(UnexpectedEof) => stream != null && stream.ending == CleanEnd && err == oldErr && broken
      case Some(BackwardRead) => err == e && broken == oldBroken
      case _ => err == oldErr && broken == oldBroken
    }

    /** A read that stays within the head, or starts in the tail. */
    predicate InMemory(off: int, len: int)
    {
      tailStart <= off || (off < payloadOffset && off + len <= HEADER_READ_SIZE)
    }

    /** `at` is held by neither the head nor the tail, and the stream is past it or never reaches it. */
    predicate OutOfReach(pos: int, at: int)
    {
      payloadOffset <= at < tailStart && (stream == null || at < pos || streamEnd <= at)
    }

    /**
     * Fills p with ciphertext at off. Whatever fails, the n bytes it returns are the
     * object's own; no error means p is full; only a read behind or past the stream
     * is refused, and only a failed body breaks the source.
     */
    method ReadAt(p: array<byte>, off: int) returns (n: nat, e: Option<ReadError>)
      requires Valid() && 0 <= off
      modifies this`pos, this`err, this`broken, stream, p
      ensures Valid()
      ensures n <= p.Length && (n > 0 ==> off + n <= size)
      ensures forall i :: 0 <= i < p.Length ==> p[i] == if i < n then stored[off + i] else old(p[i])
      ensures e.None? ==> n == p.Length
      ensures e == Some(Eof) ==> n < p.Length && size <= off + n
      ensures old(pos) <= pos && (pos == old(pos) || pos <= off + n)
      ensures InMemory(off, p.Length) ==> pos == old(pos) && (e.None? || e == Some(Eof))
      ensures e == Some(BackwardRead) ==> n < p.Length && OutOfReach(pos, off + n)
      ensures old(Intact()) ==> Intact() && (e.None? || e == Some(Eof) || e == Some(BackwardRead))
      ensures Explained(e, old(err), old(broken))
    {
      n, e := 0, None;
      ghost var intact := Intact();
      while n < p.Length
        invariant Valid() && n <= p.Length && (n > 0 ==> off + n <= size)
        invariant forall i :: 0 <= i < p.Length ==> p[i] == if i < n then stored[off + i] else old(p[i])
        invariant old(pos) <= pos && (pos == old(pos) || pos <= off + n)
        invariant InMemory(off, p.Length) ==> pos == old(pos) && (tailStart <= off || n == 0 || n == p.Length)
        invariant e.None? && err == old(err) && broken == old(broken) && (intact ==> Intact())
      {
        if off + n >= size {
          return n, Some(Eof);
        }
        var read;
        read, e := ReadPiece(p, n, off + n);
        n := n + read;
        if e.Some? {
          return;
        }
      }
    }

    /** One turn of ReadAt's loop: as much as the region holding `at` can give. */
    method ReadPiece(p: array<byte>, n: nat, at: int) returns (read: nat, e: Option<ReadError>)
      requires Valid() && n < p.Length && 0 <= at < size
      modifies this`pos, this`err, this`broken, stream, p
      ensures Valid()
      ensures read <= p.Length - n && at + read <= size && (e.None? ==> read > 0)
      ensures forall i :: 0 <= i < p.Length ==>
                p[i] == if n <= i < n + read then stored[at + i - n] else old(p[i])
      ensures old(pos) <= pos && (pos == old(pos) || pos <= at + read)
      ensures e == Some(BackwardRead) ==> read == 0 && OutOfReach(pos, at)
      ensures tailStart <= at || at < payloadOffset ==> pos == old(pos) && e.None?
      ensures at < payloadOffset ==> read == Min(p.Length - n, HEADER_READ_SIZE - at)
      ensures old(Intact()) ==> Intact() && (e.None? || e == Some(BackwardRead))
      ensures e != Some(Eof) && Explained(e, old(err), old(broken))
    {
      e := None;
      if at >= tailStart {
        read := Copy(p, n, tail[at - tailStart..]);
      } else if at < payloadOffset {
        read := Copy(p, n, head[at..]);
      } else {
        read, e := ReadStream(p, n, at);
      }
    }

    /** Go's copy into p[n:]. */
    static method Copy(p: array<byte>, n: nat, from: Bytes) returns (read: nat)
      requires n < p.Length && |from| > 0
      modifies p
      ensures read == Min(p.Length - n, |from|)
      ensures forall i :: 0 <= i < p.Length ==> p[i] == if n <= i < n + read then from[i - n] else old(p[i])
    {
      read := Min(p.Length - n, |from|);
      forall i | 0 <= i < read {
        p[n + i] := from[i];
      }
    }

    method ReadStream(p: array<byte>, n: nat, at: int) returns (read: nat, e: Option<ReadError>)
      requires Valid() && n < p.Length && payloadOffset <= at < tailStart
      modifies this`pos, this`err, this`broken, stream, p
      ensures Valid()
      ensures read <= p.Length - n && at + read <= tailStart
      ensures forall i :: 0 <= i < p.Length ==>
                p[i] == if n <= i < n + read then stored[at + i - n] else old(p[i])
      ensures e.None? ==> read == Min(p.Length - n, streamEnd - at) && pos == at + read && at + read <= streamEnd
      ensures old(pos) <= pos && (pos == old(pos) || pos <= at + read)
      ensures e == Some(BackwardRead) <==> OutOfReach(old(pos), at)
      ensures e == Some(BackwardRead) ==> read == 0 && pos == old(pos)
      ensures old(Intact()) ==> Intact() && (e.None? || e == Some(BackwardRead))
      ensures e != Some(Eof) && Explained(e, old(err), old(broken))
    {
      read := 0;
      if stream == null || at < pos || at >= streamEnd {
        err := Some(BackwardRead);
        return 0, err;
      }
      var skip := at - pos;
      if skip > 0 {
        var ok := stream.Skip(skip);
        if !ok {
          e := FailRead();
          return;
        }
        pos := at;
      }
      var ok;
      read, ok := stream.ReadFull(p, n, n + Min(p.Length - n, streamEnd - at));
      pos := pos + read;
      e := None;
      if !ok {
        e := FailRead();
      }
    }

    /** A failure the body returned itself is the store's; a clean early end is the object's. */
    method FailRead() returns (e: Option<ReadError>)
      requires stream != null
      modifies this`err, this`broken
      ensures broken
      ensures e == Some(match stream.err case Some(code) => StoreFailed(code) case None => UnexpectedEof)
      ensures err == if stream.err.Some? then e else old(err)
    {
      broken := true;
      match stream.err {
        case Some(code) => err := Some(StoreFailed(code)); e := err;
        case None => e := Some(UnexpectedEof);
      }
    }
  }
}
