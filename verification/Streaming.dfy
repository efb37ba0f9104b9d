/** streaming.go: a request body handed out read by read. */
module Streaming {
  import opened Bytes
  import opened Streams
  import opened Numbers
  import opened Body
  import opened Chunked
  import opened ChunkedRoundTrip

  // ---- Chunked bodies ---------------------------------------------------------------------

  /** The decoding of a stream that stands inside a chunk with `left` bytes to go. */
  function InChunk(left: nat, s: bytes, fail: Error, sofar: nat): Decoded {
    if |s| < left then Decoded(s, Broken(Truncated(fail)))
    else if |s| < left + 2 then Decoded(s[..left], Broken(Truncated(fail)))
    else if !StartsWithCRLF(s[left..]) then Decoded(s[..left], Broken(BrokenChunk))
    else Prepend(s[..left], Chunks(s[left + 2..], fail, UNBOUNDED, sofar + left))
  }

  /** What is still to come of a chunked body. */
  function Future(left: nat, s: bytes, fail: Error, sofar: nat): Decoded {
    if left == 0 then Chunks(s, fail, UNBOUNDED, sofar) else InChunk(left, s, fail, sofar)
  }

  /** After a size line. */
  lemma FutureAfterHead(s: bytes, fail: Error, sofar: nat)
    ensures match ChunkHead(s, fail)
            case Unparsed(e) => Future(0, s, fail, sofar) == Decoded([], Broken(e))
            case Parsed(n, t) =>
              if n > 0 then Future(0, s, fail, sofar) == InChunk(n, t, fail, sofar)
              else if StartsWithCRLF(t) then Future(0, s, fail, sofar) == Decoded([], Complete(t[2..]))
              else Future(0, s, fail, sofar).end.Broken? && Future(0, s, fail, sofar).end != Broken(EOF)
  {
    hide ChunkHead;
  }

  /** After k bytes of the data of a chunk. */
  lemma FutureAfterData(left: nat, s: bytes, fail: Error, sofar: nat, k: nat)
    requires left > 0 && k <= left && k <= |s|
    ensures k < left ==> InChunk(left, s, fail, sofar) == Prepend(s[..k], InChunk(left - k, s[k..], fail, sofar + k))
    ensures k == left ==>
              if StartsWithCRLF(s[left..])
              then InChunk(left, s, fail, sofar) == Prepend(s[..k], Chunks(s[left + 2..], fail, UNBOUNDED, sofar + left))
              else && InChunk(left, s, fail, sofar).end.Broken? && InChunk(left, s, fail, sofar).end != Broken(EOF)
                   && s[..k] <= InChunk(left, s, fail, sofar).data
  {
    hide Chunks;
    if k < left && |s| >= left {
      var u := s[k..];
      assert u[..left - k] == s[k..left] && s[..left] == s[..k] + s[k..left];
      if |s| >= left + 2 {
        assert u[left - k..] == s[left..] && u[left - k + 2..] == s[left + 2..];
        PrependTwice(s[..k], s[k..left], Chunks(s[left + 2..], fail, UNBOUNDED, sofar + left));
      }
    }
  }

  /** A stream that breaks off inside a chunk never looks finished. */
  lemma InChunkNotCut(left: nat, s: bytes, fail: Error, sofar: nat)
    requires left > 0
    ensures |s| < left + 2 ==> InChunk(left, s, fail, sofar).end.Broken? && InChunk(left, s, fail, sofar).end != Broken(EOF)
    ensures (if |s| < left then s else s[..left]) <= InChunk(left, s, fail, sofar).data
  {
    hide Chunks;
    if |s| >= left + 2 {
      assert |Prepend(s[..left], Chunks(s[left + 2..], fail, UNBOUNDED, sofar + left)).data| >= left;
    }
  }

  // ---- Bodies of known length -------------------------------------------------------------

  /** The rest of the prefetched part and then of the connection, `total` bytes having been handed out. */
  function Ahead(prefetched: bytes, s: bytes, total: nat): bytes {
    (if total < |prefetched| then prefetched[total..] else []) + s
  }

  /** Reading in the prefetched part. */
  lemma AheadPrefetched(prefetched: bytes, s: bytes, total: nat, n: nat)
    requires total + n <= |prefetched|
    ensures var all := Ahead(prefetched, s, total);
            n <= |all| && all[..n] == prefetched[total..total + n] && all[n..] == Ahead(prefetched, s, total + n)
  {
  }

  /** Reading beyond it. */
  lemma AheadBeyond(prefetched: bytes, s: bytes, total: nat, n: nat)
    requires |prefetched| <= total && n <= |s|
    ensures Ahead(prefetched, s, total) == s && Ahead(prefetched, s[n..], total + n) == s[n..]
  {
  }

  // ---- The stream -------------------------------------------------------------------------

  class RequestStream {
    const prefetched: bytes
    var prefetchedPos: nat       // the cursor of the reader over the prefetched bytes
    const reader: BufReader
    var totalBytesRead: nat
    const contentLength: int     // -1 for a chunked body
    var chunkLeft: nat

    ghost predicate Valid()
      reads this, reader
    {
      && reader.Valid()
      && contentLength >= -1
      && (contentLength >= 0 ==>
            && (totalBytesRead <= contentLength || totalBytesRead <= |prefetched|)
            && prefetchedPos == if totalBytesRead < |prefetched| then totalBytesRead else |prefetched|)
    }

    /** acquireRequestStream */
    constructor (prefetched: bytes, reader: BufReader, contentLength: int)
      requires reader.Valid() && contentLength >= -1
      ensures Valid() && this.prefetched == prefetched && this.reader == reader && this.contentLength == contentLength
      ensures totalBytesRead == 0 && chunkLeft == 0
    {
      this.prefetched, this.prefetchedPos, this.reader := prefetched, 0, reader;
      this.totalBytesRead, this.contentLength, this.chunkLeft := 0, contentLength, 0;
    }

    /** What a chunked body still holds. */
    ghost function ToCome(): Decoded
      reads this, reader
    {
      Future(chunkLeft, reader.rest, reader.fail, totalBytesRead)
    }

    /** The bytes that a body of known length may still be cut from. */
    ghost function Unread(): bytes
      reads this, reader
    {
      Ahead(prefetched, reader.rest, totalBytesRead)
    }

    /** The data part of Read on a chunked body, inside a chunk. */
    method ReadInChunk(p: array<byte>) returns (n: nat, err: Error)
      requires Valid() && contentLength == -1 && chunkLeft > 0
      modifies this, reader, p
      ensures Valid() && n <= p.Length
      ensures err == NoError ==>
                && n <= |old(reader.rest)| && old(ToCome()) == Prepend(old(reader.rest)[..n], ToCome())
                && Holds(p, 0, old(reader.rest)[..n])
                && (p.Length > 0 ==> n > 0)
      ensures err != NoError ==>
                && err != EOF && old(ToCome()).end.Broken? && old(ToCome()).end != Broken(EOF)
                && n <= |old(ToCome()).data| && Holds(p, 0, old(ToCome()).data[..n])
    {
      hide Chunks, InChunk;
      ghost var s, left, sofar := reader.rest, chunkLeft, totalBytesRead;
      var bytesToRead := p.Length;
      if chunkLeft < p.Length {
        bytesToRead := chunkLeft;
      }
      n, err := reader.Read(p, 0, bytesToRead);
      totalBytesRead := totalBytesRead + n;
      chunkLeft := chunkLeft - n;
      FutureAfterData(left, s, reader.fail, sofar, n);
      InChunkNotCut(left, s, reader.fail, sofar);
      if err == EOF {
        err := UnexpectedEOF;
      }
      if err == NoError && chunkLeft == 0 {
        assert |s| >= n + 2 ==> s[n..][2..] == s[n + 2..];
        err := ReadCrLf(reader);
      }
    }

    /** Read on a chunked body. */
    method ReadChunked(p: array<byte>) returns (n: nat, err: Error)
      requires Valid() && contentLength == -1
      modifies this, reader, p
      ensures Valid() && n <= p.Length
      ensures err == NoError ==>
                && n <= |old(reader.rest)| && (p.Length > 0 ==> n > 0)
                && exists data: bytes :: |data| == n && Holds(p, 0, data) && old(ToCome()) == Prepend(data, ToCome())
      ensures err == EOF ==> n == 0 && (old(ToCome()) == Decoded([], Complete(reader.rest))
                                     || old(ToCome()) == Decoded([], Broken(EOF)))
      ensures err != NoError && err != EOF ==>
                && old(ToCome()).end.Broken? && old(ToCome()).end != Broken(EOF)
                && n <= |old(ToCome()).data| && Holds(p, 0, old(ToCome()).data[..n])
    {
      hide Chunks, ChunkHead, InChunk;
      ghost var start := ToCome();
      if chunkLeft == 0 {
        FutureAfterHead(reader.rest, reader.fail, totalBytesRead);
        var chunkSize, e := ParseChunkSize(reader);
        if e != NoError {
          return 0, e;
        }
        if chunkSize == 0 {
          e := ReadCrLf(reader);
          return 0, if e == NoError then EOF else e;
        }
        chunkLeft := chunkSize;
        assert ToCome() == start;
      }
      ghost var s := reader.rest;
      n, err := ReadInChunk(p);
      if err == NoError {
        ghost var data := s[..n];
        assert start == Prepend(data, ToCome());
      }
    }

    /** Read on a body of known length, in its prefetched part. */
    method ReadPrefetched(p: array<byte>) returns (n: nat, err: Error)
      requires Valid() && contentLength >= 0 && totalBytesRead < |prefetched| && totalBytesRead != contentLength
      modifies this, p
      ensures Valid() && totalBytesRead == old(totalBytesRead) + n <= |prefetched|
      ensures n == if p.Length < |prefetched| - old(totalBytesRead) then p.Length else |prefetched| - old(totalBytesRead)
      ensures n <= |old(Unread())| && Holds(p, 0, old(Unread())[..n]) && Unread() == old(Unread())[n..]
      ensures err == if n == contentLength then EOF else NoError
    {
      hide Ahead;
      ghost var total := totalBytesRead;
      var hi := p.Length;
      var left := |prefetched| - totalBytesRead;
      if hi > left {
        hi := left;
      }
      forall k | 0 <= k < hi {
        p[k] := prefetched[prefetchedPos + k];
      }
      n, err := hi, NoError;
      prefetchedPos := prefetchedPos + n;
      totalBytesRead := totalBytesRead + n;
      AheadPrefetched(prefetched, reader.rest, total, n);
      if n == contentLength {
        err := EOF;
      }
    }

    /** Read on a body of known length, beyond its prefetched part. */
    method ReadBeyond(p: array<byte>) returns (n: nat, err: Error)
      requires Valid() && contentLength >= 0 && totalBytesRead >= |prefetched| && totalBytesRead != contentLength
      modifies this, reader, p
      ensures Valid() && totalBytesRead == old(totalBytesRead) + n && n <= p.Length
      ensures err == Panicked <==> old(totalBytesRead) > contentLength
      ensures err != Panicked ==> totalBytesRead <= contentLength
      ensures n <= |old(Unread())| && Holds(p, 0, old(Unread())[..n]) && Unread() == old(Unread())[n..]
      ensures err == NoError && p.Length > 0 ==> n > 0
      ensures err != NoError && err != Panicked ==>
                (err == EOF && totalBytesRead == contentLength) || (err == reader.fail && Unread() == [])
    {
      hide Ahead;
      ghost var s, total := reader.rest, totalBytesRead;
      AheadBeyond(prefetched, s, total, 0);
      var hi: int := p.Length;
      var left := contentLength - totalBytesRead;
      if hi > left {
        hi := left;
      }
      if hi < 0 {
        return 0, Panicked;
      }
      n, err := reader.Read(p, 0, hi);
      totalBytesRead := totalBytesRead + n;
      AheadBeyond(prefetched, s, total, n);
      if err != NoError {
        return;
      }
      if totalBytesRead == contentLength {
        err := EOF;
      }
    }

    /**
     * Read on a body of known length. When the prefetched part does not exceed that length, reads
     * deliver the prefetched bytes and then those of the connection, and never more than the length;
     * end of file is the end of the body or of a connection that is too short. A longer prefetched
     * part is handed out beyond the length.
     */
    method ReadFixed(p: array<byte>) returns (n: nat, err: Error)
      requires Valid() && contentLength >= 0
      modifies this, reader, p
      ensures Valid() && n <= p.Length && totalBytesRead == old(totalBytesRead) + n
      ensures n <= |old(Unread())| && Holds(p, 0, old(Unread())[..n]) && Unread() == old(Unread())[n..]
      ensures |prefetched| <= contentLength ==>
                && totalBytesRead <= contentLength && err != Panicked
                && (err == NoError && p.Length > 0 ==> n > 0)
                && (err == EOF ==> totalBytesRead == contentLength || (reader.fail == EOF && Unread() == []))
                && (err != NoError && err != EOF ==> err == reader.fail && Unread() == [])
      ensures old(totalBytesRead) == 0 < contentLength < |prefetched| <= p.Length ==>
                totalBytesRead == |prefetched| && err == NoError
    {
      if totalBytesRead == contentLength {
        assert Unread()[0..] == Unread();
        return 0, EOF;
      }
      if |prefetched| > totalBytesRead {
        n, err := ReadPrefetched(p);
      } else {
        n, err := ReadBeyond(p);
      }
    }
  }
}
