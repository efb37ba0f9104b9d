/** Reading bodies of known length, up to the end of the stream, and the prefix a streamed body starts with. */
module Body {
  import opened Bytes
  import opened Streams
  import opened Words

  const TWO31: int := 0x8000_0000
  const TWO30: int := 0x4000_0000

  /**
   * A slice is an array and a length. Throughout, `t` is what the slice held followed by all that
   * the reader had to deliver, so that what was read so far is a prefix of it.
   */
  ghost predicate Reading(r: BufReader, buf: array<byte>, len: nat, t: bytes)
    reads r, buf
  {
    r.Valid() && len <= |t| && r.rest == t[len..] && Holds(buf, 0, t[..len])
  }

  /** A new array of the given size with the slice copied into it, as far as it fits. */
  method Regrow(buf: array<byte>, len: nat, size: nat) returns (b: array<byte>)
    requires len <= buf.Length
    ensures fresh(b) && b.Length == size
    ensures forall k {:trigger b[k]} :: 0 <= k < len && k < size ==> b[k] == buf[k]
  {
    b := new byte[size];
    var i := 0;
    while i < len && i < size
      invariant 0 <= i <= len && i <= size
      invariant forall k {:trigger b[k]} :: 0 <= k < i ==> b[k] == buf[k]
    {
      b[i] := buf[i];
      i := i + 1;
    }
  }

  /** The next read is to bring a given part of what is left, and there is room for it. */
  predicate Arrives(arrivals: seq<nat>, left: int, room: int) {
    arrivals != [] && 0 < arrivals[0] <= room && arrivals[0] <= left
  }

  /** One read into the free part of the slice. */
  method ReadMore(r: BufReader, buf: array<byte>, offset: nat, hi: nat, ghost t: bytes) returns (n: nat, err: Error)
    requires Reading(r, buf, offset, t) && offset < hi <= buf.Length
    modifies r, buf
    ensures offset + n <= hi && Reading(r, buf, offset + n, t)
    ensures n == 0 <==> offset == |t|
    ensures err == NoError || (err == r.fail && offset + n == |t|)
    ensures n == 0 ==> err == r.fail
    ensures Arrives(old(r.arrivals), |t| - offset, hi - offset) ==> n == old(r.arrivals)[0]
  {
    n, err := r.Read(buf, offset, hi);
    assert t[offset..][n..] == t[offset + n..];
    assert forall k {:trigger buf[k]} :: offset <= k < offset + n ==> buf[k] == t[k];
  }

  /** Reads until buf[..hi] is full. */
  method Fill(r: BufReader, buf: array<byte>, len: nat, hi: nat, ghost t: bytes) returns (m: nat, err: Error)
    requires Reading(r, buf, len, t) && len < hi <= buf.Length
    modifies r, buf
    ensures m <= hi && Reading(r, buf, m, t)
    ensures hi <= |t| ==> err == NoError && m == hi
    ensures hi > |t| ==> err == Truncated(r.fail) && m == |t|
  {
    m := len;
    while true
      invariant len <= m < hi && Reading(r, buf, m, t)
      decreases hi - m
    {
      var nn, e := ReadMore(r, buf, m, hi, t);
      if nn == 0 {
        return m, if e == EOF then UnexpectedEOF else e;
      }
      m := m + nn;
      if m == hi {
        return m, NoError;
      }
    }
  }

  /**
   * appendBodyFixedSize: exactly n more bytes behind buf[..len], or an error. A length that round2
   * cannot round up leaves the new slice too short and the reslicing panics.
   */
  method AppendBodyFixedSize(r: BufReader, buf: array<byte>, len: nat, n: nat, ghost t: bytes)
    returns (out: array<byte>, m: nat, err: Error)
    requires Reading(r, buf, len, t)
    modifies r, buf
    ensures r.Valid() && (out == buf || fresh(out)) && (buf.Length <= TWO31 ==> out.Length <= TWO31)
    ensures err == Panicked <==> n > 0 && buf.Length < len + n && len + n > TWO31
    ensures err != Panicked ==> Reading(r, out, m, t)
    ensures err != Panicked && len + n <= |t| ==> err == NoError && m == len + n
    ensures err != Panicked && len + n > |t| ==> err == Truncated(r.fail) && m == |t|
  {
    if n == 0 {
      return buf, len, NoError;
    }
    var dstLen := len + n;
    out := buf;
    if buf.Length < dstLen {
      Round2Enough(dstLen);
      out := Regrow(buf, len, Round2(dstLen));
      if out.Length < dstLen {
        return out, 0, Panicked;
      }
    }
    m, err := Fill(r, out, len, dstLen, t);
  }

  /** May the unbounded reader run into a slice it cannot grow? Not below these sizes. */
  predicate Growable(size: nat, max: int) {
    size <= TWO30 || 0 < max <= TWO30
  }

  /** The length of the slice that readBodyIdentity starts with. */
  function Slice(size: nat): nat {
    if size == 0 then 1024 else size
  }

  lemma LessIsGrowable(size: nat, size1: nat, max: int)
    requires size <= size1
    ensures Growable(size1, max) ==> Growable(size, max)
  {
  }

  /** A full slice is doubled, but not beyond what shows that the limit is exceeded. */
  method Grow(buf: array<byte>, max: int, ghost s: bytes) returns (b: array<byte>)
    requires |s| == buf.Length > 0 && Holds(buf, 0, s) && (max > 0 ==> buf.Length <= max)
    ensures fresh(b) && (max > 0 ==> b.Length <= max + 1)
    ensures if b.Length > buf.Length then Holds(b, 0, s) else !Growable(buf.Length, max)
  {
    var n := Round2(2 * buf.Length);
    Round2Enough(2 * buf.Length);
    if max > 0 && n > max {
      n := max + 1;
    }
    b := Regrow(buf, buf.Length, n);
  }

  /**
   * readBodyIdentity: everything up to the end of the stream, or ErrBodyTooLarge once there is more
   * than the limit. Every read is offered room. How much beyond the limit is read before that is
   * noticed depends on the slice: one byte if it had to grow, and otherwise all that a read brings.
   */
  method ReadBodyIdentity(r: BufReader, max: int, buf: array<byte>)
    returns (out: array<byte>, m: nat, err: Error)
    requires r.Valid()
    modifies r, buf
    ensures out == buf || fresh(out)
    ensures err == Panicked ==> !Growable(|old(r.rest)|, max)
    ensures err != Panicked ==> Reading(r, out, m, old(r.rest))
    ensures err != Panicked && 0 < max < |old(r.rest)| ==>
              err == BodyTooLarge && max < m && (m <= (if buf.Length == 0 then 1024 else buf.Length) || m == max + 1)
    ensures err != Panicked && Arrives(old(r.arrivals), |old(r.rest)|, Slice(buf.Length)) ==>
              0 < max < old(r.arrivals)[0] ==> m == old(r.arrivals)[0]
    ensures err != Panicked && (max <= 0 || |old(r.rest)| <= max) ==>
              m == |old(r.rest)| && err == if r.fail == EOF then NoError else r.fail
  {
    assert forall b: array<byte> :: Holds(b, 0, r.rest[..0]);
    hide Growable, Holds;
    ghost var t := r.rest;
    ghost var first := if Arrives(r.arrivals, |t|, Slice(buf.Length)) && 0 < max < r.arrivals[0] then r.arrivals[0] else 0;
    out := buf;
    if out.Length == 0 {
      out := new byte[1024];
    }
    var offset := 0;
    while true
      invariant (out == buf || fresh(out)) && offset < out.Length && Reading(r, out, offset, t)
      invariant max > 0 ==> offset <= max && (out.Length <= Slice(buf.Length) || out.Length <= max + 1)
      invariant first > 0 ==> offset == 0 && r.arrivals == old(r.arrivals) && out.Length == Slice(buf.Length)
      decreases |t| - offset
    {
      var nn, e := ReadMore(r, out, offset, out.Length, t);
      if nn == 0 {
        return out, offset, if e == EOF then NoError else e;
      }
      offset := offset + nn;
      if max > 0 && offset > max {
        return out, offset, BodyTooLarge;
      }
      if out.Length == offset {
        out := Grow(out, max, t[..offset]);
        if out.Length <= offset {
          LessIsGrowable(offset, |t|, max);
          return out, 0, Panicked;
        }
      }
    }
  }

  const PREFETCH: int := 8 * 1024

  function PrefetchLimit(contentLength: int, max: int): int {
    var n := if max > contentLength then contentLength else max;
    if n > PREFETCH then PREFETCH else n
  }

  /**
   * readBodyWithStreaming for a body that is not chunked: what a streamed body starts with. A body
   * within the limit gets exactly its first 8 KiB. A longer one is reported as too large, with
   * whatever the reads brought up to then; it is streamed all the same.
   */
  method ReadBodyWithStreaming(r: BufReader, contentLength: int, max: int, buf: array<byte>)
    returns (out: array<byte>, m: nat, err: Error)
    requires r.Valid()
    modifies r, buf
    ensures out == buf || fresh(out)
    ensures contentLength == -1 ==> err == ChunkedStream && m == 0 && r.rest == old(r.rest)
    ensures contentLength != -1 && err != Panicked ==> Reading(r, out, m, old(r.rest))
    ensures err == Panicked ==>
              |old(r.rest)| > TWO30 && !(0 <= contentLength <= max) && PrefetchLimit(contentLength, max) <= 0
    ensures 0 <= contentLength <= max ==>
              var n := if contentLength < 8192 then contentLength else 8192;
              if n <= |old(r.rest)| then err == NoError && m == n
              else err == Truncated(r.fail) && m == |old(r.rest)|
    ensures contentLength != -1 && !(0 <= contentLength <= max) && err != Panicked ==>
              var limit := if contentLength < 0 then contentLength else if max > 8192 then 8192 else max;
              if 0 < limit < |old(r.rest)| then
                err == BodyTooLarge && limit < m && (m <= Slice(buf.Length) || m == limit + 1)
              else
                && m == |old(r.rest)|
                && err == if r.fail != EOF then r.fail else if contentLength > max then BodyTooLarge else NoError
    ensures contentLength > max > 0 && Arrives(old(r.arrivals), |old(r.rest)|, Slice(buf.Length)) ==>
              old(r.arrivals)[0] > (if max > 8192 then 8192 else max) ==> m == old(r.arrivals)[0]
  {
    if contentLength == -1 {
      return buf, 0, ChunkedStream;
    }
    ghost var t := r.rest;
    var readN := max;
    if readN > contentLength {
      readN := contentLength;
    }
    if readN > PREFETCH {
      readN := PREFETCH;
    }
    if contentLength >= 0 && max >= contentLength {
      assert t[..0] == [];
      out, m, err := AppendBodyFixedSize(r, buf, 0, readN, t);
    } else {
      out, m, err := ReadBodyIdentity(r, readN, buf);
    }
    if err != NoError {
      return;
    }
    if contentLength > max {
      err := BodyTooLarge;
    }
  }
}
