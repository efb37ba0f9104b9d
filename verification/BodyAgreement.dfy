/** The streaming reader and the collecting reader of one body, compared over whole runs. */
module BodyAgreement {
  import opened Bytes
  import opened Streams
  import opened Numbers
  import opened Body
  import opened Chunked
  import opened ChunkedRoundTrip
  import opened Streaming

  /** Reads with room for at least one byte. */
  predicate Positive(sizes: seq<nat>) {
    forall i :: 0 <= i < |sizes| ==> sizes[i] > 0
  }

  // ---- Chunked bodies ---------------------------------------------------------------------

  /** One read, with the bytes it delivered. */
  method ReadOnce(rs: RequestStream, p: array<byte>) returns (d: bytes, err: Error)
    requires rs.Valid() && rs.contentLength == -1
    modifies rs, rs.reader, p
    ensures rs.Valid()
    ensures err == NoError ==> old(rs.ToCome()) == Prepend(d, rs.ToCome()) && (p.Length > 0 ==> d != [])
    ensures err == EOF ==> d == [] && (old(rs.ToCome()) == Decoded([], Complete(rs.reader.rest))
                                    || old(rs.ToCome()) == Decoded([], Broken(EOF)))
    ensures err != NoError && err != EOF ==>
              && d <= old(rs.ToCome()).data
              && old(rs.ToCome()).end.Broken? && old(rs.ToCome()).end != Broken(EOF)
  {
    hide Future, InChunk, Chunks, Prepend;
    ghost var before := rs.ToCome();
    var n;
    n, err := rs.ReadChunked(p);
    d := p[..n];
    if err == NoError {
      ghost var d' :| |d'| == n && Holds(p, 0, d') && before == Prepend(d', rs.ToCome());
      HoldsSlice(p, 0, d');
    } else if err != EOF {
      HoldsSlice(p, 0, before.data[..n]);
    }
  }

  /**
   * Reads of the given sizes, one after the other, up to the first error; end of file is one. Every
   * read with room brings at least one byte, so that enough of them get there.
   */
  method DrainChunked(rs: RequestStream, sizes: seq<nat>) returns (data: bytes, err: Error)
    requires rs.Valid() && rs.contentLength == -1
    modifies rs, rs.reader
    ensures rs.Valid()
    ensures err == NoError ==> old(rs.ToCome()) == Prepend(data, rs.ToCome())
    ensures err == EOF ==>
              || old(rs.ToCome()) == Decoded(data, Complete(rs.reader.rest))
              || old(rs.ToCome()) == Decoded(data, Broken(EOF))
    ensures err != NoError && err != EOF ==>
              && data <= old(rs.ToCome()).data
              && old(rs.ToCome()).end.Broken? && old(rs.ToCome()).end != Broken(EOF)
    ensures Positive(sizes) && |sizes| > |old(rs.ToCome()).data| ==> err != NoError
  {
    hide Future, InChunk, Chunks;
    data, err := [], NoError;
    ghost var start := rs.ToCome();
    for i := 0 to |sizes|
      invariant rs.Valid() && rs.contentLength == -1
      invariant Positive(sizes) ==> |data| >= i
      invariant start == Prepend(data, rs.ToCome())
    {
      var p := new byte[sizes[i]];
      var d;
      d, err := ReadOnce(rs, p);
      ghost var d0 := data;
      data := data + d;
      if err != NoError {
        assert err == EOF ==> data == d0;
        return;
      }
      PrependTwice(d0, d, rs.ToCome());
    }
    err := NoError;
  }

  /**
   * One chunked body read both ways. A streamed body that reaches end of file is the collected one
   * and leaves the same bytes unread, unless the collecting reader reports that the stream broke off
   * between two chunks, which the streaming reader cannot tell from the end of the body.
   */
  method ReadBothWays(input: bytes, fail: Error, sizes: seq<nat>, max: int)
    returns (streamed: bytes, es: Error, tail: bytes, collected: bytes, ec: Error, tail': bytes)
    requires fail == EOF || fail.Failure?
    ensures es == EOF && ec == NoError ==> streamed == collected && tail == tail'
    ensures ec == NoError ==> es == NoError || es == EOF
    ensures ec == NoError && Positive(sizes) && |sizes| > |collected| ==> es == EOF
    ensures es == EOF ==> ec in {NoError, EOF} || !Fits(Bounds(max, TWO31), |streamed|)
    ensures es == NoError && ec == NoError ==> streamed <= collected
    ensures ec == EOF ==> es == NoError || es == EOF
  {
    hide Future, InChunk, NextTurn;
    var r := new BufReader(input, fail, []);
    var rs := new RequestStream([], r, -1);
    ghost var free := Chunks(input, fail, UNBOUNDED, 0);
    assert rs.ToCome() == free by { ToComeAtStart(input, fail); }
    streamed, es := DrainChunked(rs, sizes);
    tail := r.rest;
    var r' := new BufReader(input, fail, []);
    var buf := new byte[0];
    ChunksBounds(input, fail, Bounds(max, TWO31), 0, 0);
    BrokenAlike(input, fail, Bounds(max, TWO31), 0, 0);
    var out, m;
    out, m, ec := ReadBodyChunked(r', max, buf);
    collected := if ec == NoError then out[..m] else [];
    tail' := r'.rest;
    if ec == NoError {
      HoldsSlice(out, 0, free.data);
    }
  }

  lemma ToComeAtStart(s: bytes, fail: Error)
    ensures Future(0, s, fail, 0) == Chunks(s, fail, UNBOUNDED, 0)
  {
  }

  /** A bounded reader that breaks off does so for its bounds or as the unbounded one does. */
  lemma {:induction false} BrokenAlike(s: bytes, fail: Error, b: Bounds, sofar: nat, any: nat)
    ensures var d, free := Chunks(s, fail, b, sofar), Chunks(s, fail, UNBOUNDED, any);
            && (d.end == Broken(EOF) ==> free.end == Broken(EOF))
            && (free.end == Broken(EOF) && Fits(b, sofar + |free.data|) ==> d.end == Broken(EOF))
    decreases |s|
  {
    hide NextTurn;
    TurnBounds(s, fail, b, sofar, any);
    TurnEOF(s, fail, b, sofar);
    TurnEOF(s, fail, UNBOUNDED, any);
    var w := NextTurn(s, fail, UNBOUNDED, any);
    if w.More? {
      BrokenAlike(w.rest, fail, b, sofar + |w.chunk|, any + |w.chunk|);
    }
  }

  /** Only an empty stream makes a turn stop with end of file. */
  lemma TurnEOF(s: bytes, fail: Error, b: Bounds, sofar: nat)
    ensures var w := NextTurn(s, fail, b, sofar);
            && (w.Stop? && w.err == EOF <==> s == [] && fail == EOF)
            && (s == [] ==> w == Stop([], fail))
  {
    hide SkipSpaces;
  }

  /** The stream is a run of whole chunks, without the last one. */
  predicate WholeChunksOnly(s: bytes, any: nat)
    decreases |s|
  {
    s == [] || var w := NextTurn(s, EOF, UNBOUNDED, any); w.More? && WholeChunksOnly(w.rest, any + |w.chunk|)
  }

  /** Decoding stops with end of file exactly when the stream is cut between two chunks. */
  lemma {:induction false} CutBetweenChunks(s: bytes, any: nat)
    ensures Chunks(s, EOF, UNBOUNDED, any).end == Broken(EOF) <==> WholeChunksOnly(s, any)
    decreases |s|
  {
    hide NextTurn;
    TurnEOF(s, EOF, UNBOUNDED, any);
    var w := NextTurn(s, EOF, UNBOUNDED, any);
    if w.More? {
      CutBetweenChunks(w.rest, any + |w.chunk|);
    }
  }

  /** So any body whose last chunk is missing streams as if it were complete. */
  lemma {:induction false} LastChunkMissing(chunks: seq<bytes>, any: nat)
    requires forall i :: 0 <= i < |chunks| ==> 0 < |chunks[i]| < Pow(16, MAXHEXINTCHARS)
    ensures Chunks(EncodeAll(chunks), EOF, UNBOUNDED, any) == Decoded(Flatten(chunks), Broken(EOF))
    decreases |chunks|
  {
    hide NextTurn, EncodeChunk;
    if chunks == [] {
      TurnEOF([], EOF, UNBOUNDED, any);
    } else {
      SplitFirst(chunks);
      var c, rest := chunks[0], EncodeAll(chunks[1..]);
      TurnOfChunk(c, rest, EOF, UNBOUNDED, any);
      ChunksMore(EncodeChunk(c) + rest, EOF, UNBOUNDED, any, c, rest);
      LastChunkMissing(chunks[1..], any + |c|);
    }
  }

  // ---- Bodies of known length -------------------------------------------------------------

  /** One read, with the bytes it delivered. */
  method ReadFixedOnce(rs: RequestStream, p: array<byte>) returns (d: bytes, err: Error)
    requires rs.Valid() && rs.contentLength >= |rs.prefetched|
    modifies rs, rs.reader, p
    ensures rs.Valid() && rs.totalBytesRead == old(rs.totalBytesRead) + |d| <= rs.contentLength
    ensures old(rs.Unread()) == d + rs.Unread()
    ensures err == NoError && p.Length > 0 ==> d != []
    ensures err == EOF ==> rs.totalBytesRead == rs.contentLength || (rs.reader.fail == EOF && rs.Unread() == [])
    ensures err != NoError && err != EOF ==> err == rs.reader.fail && rs.Unread() == []
  {
    hide Ahead;
    ghost var before := rs.Unread();
    var n;
    n, err := rs.ReadFixed(p);
    d := p[..n];
    HoldsSlice(p, 0, before[..n]);
  }

  /** Reads of the given sizes from a body of known length, up to the first error, which enough of them get to. */
  method DrainFixed(rs: RequestStream, sizes: seq<nat>) returns (data: bytes, err: Error)
    requires rs.Valid() && rs.contentLength >= |rs.prefetched| && rs.totalBytesRead <= rs.contentLength
    modifies rs, rs.reader
    ensures rs.Valid() && rs.totalBytesRead == old(rs.totalBytesRead) + |data| <= rs.contentLength
    ensures old(rs.Unread()) == data + rs.Unread()
    ensures err == EOF ==> rs.totalBytesRead == rs.contentLength || (rs.reader.fail == EOF && rs.Unread() == [])
    ensures err != NoError && err != EOF ==> err == rs.reader.fail && rs.Unread() == []
    ensures Positive(sizes) && |sizes| > |old(rs.Unread())| ==> err != NoError
  {
    hide Ahead;
    data, err := [], NoError;
    for i := 0 to |sizes|
      invariant Positive(sizes) ==> |data| >= i
      invariant rs.Valid() && rs.totalBytesRead == old(rs.totalBytesRead) + |data| <= rs.contentLength
      invariant old(rs.Unread()) == data + rs.Unread()
    {
      var p := new byte[sizes[i]];
      var d;
      d, err := ReadFixedOnce(rs, p);
      Regroup(data, d, rs.Unread());
      data := data + d;
      if err != NoError {
        return;
      }
    }
    err := NoError;
  }

  /** Lengths for which no way the reads fall makes the prefetched part longer than the body. */
  predicate NeverOverruns(contentLength: nat, max: int, size: nat) {
    contentLength <= max || (0 < max && Slice(size) <= contentLength)
  }

  /** The start of a streamed body is there: enough was prefetched, or the length is above the limit. */
  predicate Starts(contentLength: nat, max: int, available: nat) {
    contentLength > max || contentLength <= available || PREFETCH <= available
  }

  /** ContinueReadBodyStream: the stream starts with what was prefetched, also when that is too large. */
  method OpenStream(r: BufReader, contentLength: nat, max: int, size: nat) returns (rs: RequestStream?, err: Error)
    requires r.Valid() && (contentLength <= max || 0 < max)
    modifies r
    ensures err == NoError ==>
              && rs != null && fresh(rs) && rs.Valid() && rs.reader == r && rs.contentLength == contentLength
              && rs.totalBytesRead == 0 && rs.Unread() == old(r.rest)
              && (NeverOverruns(contentLength, max, size) ==> |rs.prefetched| <= contentLength)
    ensures contentLength <= max ==>
              err == if Starts(contentLength, max, |old(r.rest)|) then NoError else Truncated(r.fail)
    ensures contentLength > max ==>
              err == if r.fail == EOF || PrefetchLimit(contentLength, max) < |old(r.rest)| then NoError else r.fail
    ensures contentLength > max && Arrives(old(r.arrivals), |old(r.rest)|, Slice(size)) ==>
              old(r.arrivals)[0] > contentLength ==> err == NoError && |rs.prefetched| == old(r.arrivals)[0]
  {
    ghost var t := r.rest;
    var buf := new byte[size];
    var out, m;
    out, m, err := ReadBodyWithStreaming(r, contentLength, max, buf);
    if err != NoError && err != BodyTooLarge {
      return null, err;
    }
    HoldsSlice(out, 0, t[..m]);
    rs := new RequestStream(out[..m], r, contentLength);
    err := NoError;
    assert t == t[..m] + t[m..];
    AheadFromStart(out[..m], t[m..]);
  }

  lemma AheadFromStart(prefetched: bytes, s: bytes)
    ensures Ahead(prefetched, s, 0) == prefetched + s
  {
  }

  /**
   * A body of known length, from the wire to the end of the stream: whatever the reads, it is the
   * first contentLength bytes, and what follows them stays unread. A connection that is closed too
   * early ends like a complete body, unless already the prefetched part is cut off.
   */
  method StreamFixed(input: bytes, fail: Error, arrivals: seq<nat>, contentLength: nat, max: int, size: nat,
                     sizes: seq<nat>)
    returns (streamed: bytes, err: Error, tail: bytes)
    requires fail == EOF || fail.Failure?
    requires NeverOverruns(contentLength, max, size)
    ensures err == EOF && contentLength <= |input| ==>
              streamed == input[..contentLength] && tail == input[contentLength..]
    ensures err == EOF && contentLength > |input| ==>
              streamed == input && tail == [] && fail == EOF && Starts(contentLength, max, |input|)
    ensures err == NoError ==> streamed <= input && |streamed| <= contentLength
    ensures err in {NoError, EOF, fail, UnexpectedEOF}
    ensures err == UnexpectedEOF ==> fail == EOF && streamed == [] && !Starts(contentLength, max, |input|)
    ensures Positive(sizes) && |sizes| > |input| && fail == EOF ==>
              err == if Starts(contentLength, max, |input|) then EOF else UnexpectedEOF
  {
    var r := new BufReader(input, fail, arrivals);
    var rs;
    rs, err := OpenStream(r, contentLength, max, size);
    if err != NoError {
      return [], err, [];
    }
    streamed, err := DrainFixed(rs, sizes);
    tail := r.rest;
    assert input == streamed + rs.Unread();
  }

  /**
   * For every other length there is a way: when the first read brings more than the body, all of
   * that is prefetched, and one large enough read of the stream returns more than the body.
   */
  method Overrun(input: bytes, fail: Error, contentLength: nat, max: int, size: nat, first: nat)
    returns (streamed: bytes, err: Error)
    requires fail == EOF || fail.Failure?
    requires 0 < max && !NeverOverruns(contentLength, max, size)
    requires contentLength < first <= Slice(size) && first <= |input|
    ensures err == NoError && streamed == input[..first]
  {
    var r := new BufReader(input, fail, [first]);
    var rs;
    rs, err := OpenStream(r, contentLength, max, size);
    var p := new byte[first];
    var n;
    n, err := rs.ReadFixed(p);
    HoldsSlice(p, 0, input[..n]);
    streamed := p[..n];
  }
}
