/** Writing a chunked body, and reading it back. */
module ChunkedRoundTrip {
  import opened Bytes
  import opened Streams
  import opened Numbers
  import opened Body
  import opened Chunked

  /** A chunk on the wire; the empty one ends the body. */
  function EncodeChunk(c: bytes): bytes {
    HexDigits(|c|) + (CRLF + (c + CRLF))
  }

  function EncodeAll(chunks: seq<bytes>): bytes {
    if chunks == [] then [] else EncodeAll(chunks[..|chunks| - 1]) + EncodeChunk(chunks[|chunks| - 1])
  }

  function Flatten(chunks: seq<bytes>): bytes {
    if chunks == [] then [] else Flatten(chunks[..|chunks| - 1]) + chunks[|chunks| - 1]
  }

  // ---- The writer -------------------------------------------------------------------------

  method WriteChunk(w: BufWriter, b: bytes) returns (err: Error)
    requires |b| <= MAXINT
    modifies w
    ensures err == NoError || err.Failure?
    ensures err == NoError ==> w.out == old(w.out) + EncodeChunk(b)
    ensures old(w.out) <= w.out
  {
    err := WriteHexInt(w, |b|);
    if err != NoError {
      return;
    }
    err := w.Write(CRLF);
    if err != NoError {
      return;
    }
    err := w.Write(b);
    if err != NoError {
      return;
    }
    err := w.Write(CRLF);
    var err1 := w.Flush();
    if err == NoError {
      err := err1;
    }
    ghost var h := old(w.out) + HexDigits(|b|);
    Regroup(h + CRLF, b, CRLF);
    Regroup(h, CRLF, b + CRLF);
    Regroup(old(w.out), HexDigits(|b|), CRLF + (b + CRLF));
  }

  const COPYBUFSIZE: nat := 4096

  /**
   * writeBodyChunked: the source is cut into chunks as its reads happen to bring it. When the
   * source ends without an error, they are all its bytes, and the empty chunk follows.
   */
  method WriteBodyChunked(w: BufWriter, r: BufReader) returns (err: Error, ghost chunks: seq<bytes>)
    requires r.Valid()
    modifies w, r
    ensures forall i :: 0 <= i < |chunks| ==> 1 <= |chunks[i]| <= COPYBUFSIZE
    ensures Flatten(chunks) <= old(r.rest)
    ensures err == NoError ==> r.fail == EOF && r.rest == [] && Flatten(chunks) == old(r.rest)
    ensures err == NoError ==> w.out == old(w.out) + EncodeAll(chunks + [[]])
    ensures err != NoError ==> err.Failure?
    ensures old(w.out) <= w.out
  {
    hide Flatten, EncodeAll, EncodeChunk;
    NoChunks();
    var buf := new byte[COPYBUFSIZE];
    ghost var s, o := r.rest, w.out;
    ghost var k := 0;
    chunks := [];
    while true
      invariant r.Valid() && k <= |s| && r.rest == s[k..] && Flatten(chunks) == s[..k]
      invariant forall i :: 0 <= i < |chunks| ==> 1 <= |chunks[i]| <= COPYBUFSIZE
      invariant w.out == o + EncodeAll(chunks)
      decreases |s| - k
    {
      var n, e := r.Read(buf, 0, buf.Length);
      err := e;
      if n == 0 {
        if err == EOF {
          err := WriteChunk(w, buf[..0]);
          if err != NoError {
            break;
          }
          FinishChunks(o, chunks);
          err := NoError;
        }
        break;
      }
      ghost var c := s[k..k + n];
      HoldsSlice(buf, 0, c);
      err := WriteChunk(w, buf[..n]);
      if err != NoError {
        break;
      }
      AddChunk(o, s, k, chunks, c);
      chunks, k := chunks + [c], k + n;
    }
  }

  lemma NoChunks()
    ensures Flatten([]) == [] && EncodeAll([]) == []
  {
  }

  lemma AddChunk(o: bytes, s: bytes, k: nat, chunks: seq<bytes>, c: bytes)
    requires k + |c| <= |s| && c == s[k..k + |c|] && Flatten(chunks) == s[..k]
    ensures Flatten(chunks + [c]) == s[..k + |c|]
    ensures (o + EncodeAll(chunks)) + EncodeChunk(c) == o + EncodeAll(chunks + [c])
  {
    assert (chunks + [c])[..|chunks|] == chunks;
    Regroup(o, EncodeAll(chunks), EncodeChunk(c));
  }

  lemma FinishChunks(o: bytes, chunks: seq<bytes>)
    ensures (o + EncodeAll(chunks)) + EncodeChunk([]) == o + EncodeAll(chunks + [[]])
  {
    var last: bytes := [];
    assert (chunks + [last])[..|chunks|] == chunks;
    Regroup(o, EncodeAll(chunks), EncodeChunk(last));
  }

  // ---- Reading back -----------------------------------------------------------------------

  lemma HeadOfChunk(n: nat, t: bytes, fail: Error)
    requires n < Pow(16, MAXHEXINTCHARS)
    ensures ChunkHead(HexDigits(n) + (CRLF + t), fail) == Parsed(n, t)
  {
    HexRoundTrip(n, CRLF + t, fail);
    assert SkipSpaces(CRLF + t) == CRLF + t;
    assert (CRLF + t)[2..] == t;
  }

  /** A chunk that was written is found again, whatever follows it. */
  lemma TurnOfChunk(c: bytes, tail: bytes, fail: Error, b: Bounds, sofar: nat)
    requires |c| < Pow(16, MAXHEXINTCHARS) && Fits(b, sofar + |c|)
    ensures NextTurn(EncodeChunk(c) + tail, fail, b, sofar) == if c == [] then Last(tail) else More(c, tail)
  {
    var t := c + CRLF + tail;
    assert EncodeChunk(c) + tail == HexDigits(|c|) + (CRLF + t);
    HeadOfChunk(|c|, t, fail);
    assert t[|c|] == CR && t[|c| + 1] == LF;
    assert t[..|c|] == c && t[|c| + 2..] == tail;
  }

  lemma {:induction false} SplitFirst(chunks: seq<bytes>)
    requires chunks != []
    ensures EncodeAll(chunks) == EncodeChunk(chunks[0]) + EncodeAll(chunks[1..])
    ensures Flatten(chunks) == chunks[0] + Flatten(chunks[1..])
  {
    var n := |chunks| - 1;
    if n == 0 {
      assert chunks[..0] == [] && chunks[1..] == [];
    } else {
      SplitFirst(chunks[..n]);
      assert chunks[..n][1..] == chunks[1..][..n - 1];
      Regroup(EncodeChunk(chunks[0]), EncodeAll(chunks[1..][..n - 1]), EncodeChunk(chunks[n]));
      Regroup(chunks[0], Flatten(chunks[1..][..n - 1]), chunks[n]);
    }
  }

  /** The first of the chunks of an encoded body, with what follows it. */
  lemma FirstOfAll(chunks: seq<bytes>, tail: bytes)
    requires chunks != []
    ensures EncodeAll(chunks + [[]]) + tail == EncodeChunk(chunks[0]) + (EncodeAll(chunks[1..] + [[]]) + tail)
  {
    hide EncodeAll, EncodeChunk;
    SplitFirst(chunks + [[]]);
    assert (chunks + [[]])[1..] == chunks[1..] + [[]];
    Regroup(EncodeChunk(chunks[0]), EncodeAll(chunks[1..] + [[]]), tail);
  }

  lemma ChunksMore(s: bytes, fail: Error, b: Bounds, sofar: nat, c: bytes, t: bytes)
    requires NextTurn(s, fail, b, sofar) == More(c, t)
    ensures Chunks(s, fail, b, sofar) == Prepend(c, Chunks(t, fail, b, sofar + |c|))
  {
    hide NextTurn;
  }

  lemma ChunksLast(tail: bytes, fail: Error, b: Bounds, sofar: nat)
    requires Fits(b, sofar)
    ensures Chunks(EncodeAll([[]]) + tail, fail, b, sofar) == Decoded([], Complete(tail))
  {
    var last: seq<bytes> := [[]];
    assert last[..0] == [] && EncodeAll(last) == EncodeChunk([]);
    PowMonotone(16, 0, MAXHEXINTCHARS);
    TurnOfChunk([], tail, fail, b, sofar);
  }

  /**
   * Any non-empty chunks, followed by the empty one, are read back as their concatenation, and the
   * bytes behind them stay unread.
   */
  lemma {:induction false} ChunkedRoundTrip(chunks: seq<bytes>, tail: bytes, fail: Error, b: Bounds, sofar: nat)
    requires forall i :: 0 <= i < |chunks| ==> 0 < |chunks[i]| < Pow(16, MAXHEXINTCHARS)
    requires Fits(b, sofar + |Flatten(chunks)|)
    ensures Chunks(EncodeAll(chunks + [[]]) + tail, fail, b, sofar) == Decoded(Flatten(chunks), Complete(tail))
    decreases |chunks|
  {
    hide NextTurn, Chunks;
    if chunks == [] {
      assert chunks + [[]] == [[]];
      ChunksLast(tail, fail, b, sofar);
    } else {
      SplitFirst(chunks);
      FirstOfAll(chunks, tail);
      var c, rest := chunks[0], EncodeAll(chunks[1..] + [[]]) + tail;
      TurnOfChunk(c, rest, fail, b, sofar);
      ChunksMore(EncodeChunk(c) + rest, fail, b, sofar, c, rest);
      ChunkedRoundTrip(chunks[1..], tail, fail, b, sofar + |c|);
    }
  }
}
