/** Chunked transfer coding (section 4.1 of RFC 7230): the writer and the reader that collects the body. */
module Chunked {
  import opened Bytes
  import opened Escape
  import opened Streams
  import opened Numbers
  import opened Words
  import opened Body

  // ---- What a chunked body means ----------------------------------------------------------

  function SkipSpaces(s: bytes): (t: bytes)
    ensures |t| <= |s|
  {
    if s != [] && s[0] == SPACE then SkipSpaces(s[1..]) else s
  }

  predicate StartsWithCRLF(s: bytes) {
    |s| >= 2 && s[0] == CR && s[1] == LF
  }

  /** The size line of a chunk. */
  function ChunkHead(s: bytes, fail: Error): (r: Parsed)
    ensures r.Parsed? ==> |r.rest| < |s|
  {
    match HexHead(s, fail)
    case Unparsed(e) => Unparsed(e)
    case Parsed(n, t) =>
      var u := SkipSpaces(t);
      if StartsWithCRLF(u) then Parsed(n, u[2..]) else Unparsed(BrokenChunk)
  }

  /** The bounds of a reader: a limit on the body and one on the slices it can make; 0 for none. */
  datatype Bounds = Bounds(max: int, slice: int)

  const UNBOUNDED := Bounds(0, 0)

  /** What stands at the front of the stream: a whole chunk, the last one, or a break with the data before it. */
  datatype Turn = More(chunk: bytes, rest: bytes) | Last(rest: bytes) | Stop(data: bytes, err: Error)

  function NextTurn(s: bytes, fail: Error, b: Bounds, sofar: nat): (w: Turn)
    ensures w.More? ==> |w.rest| < |s| && w.chunk != []
  {
    match ChunkHead(s, fail)
    case Unparsed(e) => Stop([], e)
    case Parsed(n, t) =>
      if b.max > 0 && sofar + n > b.max then Stop([], BodyTooLarge)
      else if b.slice > 0 && sofar + n + |CRLF| > b.slice then Stop([], Panicked)
      else if |t| < n then Stop(t, Truncated(fail))
      else if |t| < n + |CRLF| then Stop(t[..n], Truncated(fail))
      else if !StartsWithCRLF(t[n..]) then Stop(t[..n], BrokenChunk)
      else if n == 0 then Last(t[2..])
      else More(t[..n], t[n + 2..])
  }

  /** How decoding ends: after the last chunk, with bytes left over, or with an error. */
  datatype End = Complete(rest: bytes) | Broken(err: Error)

  datatype Decoded = Decoded(data: bytes, end: End)

  function Prepend(x: bytes, d: Decoded): Decoded {
    Decoded(x + d.data, d.end)
  }

  /** The decoding of a stream, `sofar` bytes of the body having come before. */
  function Chunks(s: bytes, fail: Error, b: Bounds, sofar: nat): Decoded
    decreases |s|
  {
    match NextTurn(s, fail, b, sofar)
    case Stop(data, e) => Decoded(data, Broken(e))
    case Last(t) => Decoded([], Complete(t))
    case More(c, t) => Prepend(c, Chunks(t, fail, b, sofar + |c|))
  }

  /** A body of this length, after `sofar` bytes, stays within the bounds of the reader. */
  predicate Fits(b: Bounds, length: nat) {
    (b.max > 0 ==> length <= b.max) && (b.slice > 0 ==> length + 2 <= b.slice)
  }

  /** A turn within the bounds is the turn without them; outside them it stops. */
  lemma TurnBounds(s: bytes, fail: Error, b: Bounds, sofar: nat, any: nat)
    ensures var w, free := NextTurn(s, fail, b, sofar), NextTurn(s, fail, UNBOUNDED, any);
            var n := if free.More? then |free.chunk| else 0;
            if free.Stop? then w.Stop? else if Fits(b, sofar + n) then w == free else w.Stop?
  {
    hide ChunkHead;
  }

  /** Bounds change nothing but whether a body is accepted, and it is accepted exactly when it fits. */
  lemma {:induction false} ChunksBounds(s: bytes, fail: Error, b: Bounds, sofar: nat, any: nat)
    ensures var d, free := Chunks(s, fail, b, sofar), Chunks(s, fail, UNBOUNDED, any);
            && (d.end.Complete? <==> free.end.Complete? && Fits(b, sofar + |free.data|))
            && (d.end.Complete? ==> d == free)
    decreases |s|
  {
    hide NextTurn;
    TurnBounds(s, fail, b, sofar, any);
    var w := NextTurn(s, fail, UNBOUNDED, any);
    if w.More? {
      ChunksBounds(w.rest, fail, b, sofar + |w.chunk|, any + |w.chunk|);
    }
  }

  lemma PrependTwice(x: bytes, y: bytes, d: Decoded)
    ensures Prepend(x, Prepend(y, d)) == Prepend(x + y, d)
  {
    Regroup(x, y, d.data);
  }

  // ---- Chunk by chunk ---------------------------------------------------------------------

  ghost predicate AreSpaces(s: bytes) {
    forall i :: 0 <= i < |s| ==> s[i] == 32
  }

  lemma {:induction false} SpacesSkipped(sp: bytes, u: bytes)
    requires AreSpaces(sp) && (u == [] || u[0] != 32)
    ensures SkipSpaces(sp + u) == u
  {
    if sp == [] {
      assert sp + u == u;
    } else {
      assert (sp + u)[1..] == sp[1..] + u;
      SpacesSkipped(sp[1..], u);
    }
  }

  /** A size line is hex digits of either case, spaces and CR LF; anything else breaks the body. */
  lemma SizeLine(d: bytes, sp: bytes, u: bytes, fail: Error)
    requires 0 < |d| <= 15 && forall c :: c in d ==> 48 <= c <= 57 || 65 <= c <= 70 || 97 <= c <= 102
    requires AreSpaces(sp) && u != [] && u[0] != 32
    requires sp == [] ==> !(48 <= u[0] <= 57 || 65 <= u[0] <= 70 || 97 <= u[0] <= 102)
    ensures ChunkHead(d + (sp + u), fail) ==
      if |u| >= 2 && u[0] == 13 && u[1] == 10 then Parsed(HexValue(d), u[2..]) else Unparsed(BrokenChunk)
  {
    HexFront(d, sp + u, fail);
    SpacesSkipped(sp, u);
  }

  /** Behind a size line come the data and CR LF, and then the next chunk, or the end after an empty one. */
  lemma WholeChunk(s: bytes, data: bytes, rest: bytes, fail: Error, b: Bounds, sofar: nat)
    requires ChunkHead(s, fail) == Parsed(|data|, data + [13, 10] + rest) && b.slice <= 0
    ensures var d := Chunks(s, fail, b, sofar);
      if b.max > 0 && sofar + |data| > b.max then d == Decoded([], Broken(BodyTooLarge))
      else if data == [] then d == Decoded([], Complete(rest))
      else var more := Chunks(rest, fail, b, sofar + |data|); d == Decoded(data + more.data, more.end)
  {
    hide NextTurn, ChunkHead;
    WholeTurn(s, data, rest, fail, b, sofar);
    TurnOfChunks(s, fail, b, sofar);
    hide Chunks;
  }

  lemma TurnOfChunks(s: bytes, fail: Error, b: Bounds, sofar: nat)
    ensures Chunks(s, fail, b, sofar) ==
      match NextTurn(s, fail, b, sofar)
      case Stop(data, e) => Decoded(data, Broken(e))
      case Last(t) => Decoded([], Complete(t))
      case More(c, t) => Prepend(c, Chunks(t, fail, b, sofar + |c|))
  {
    hide NextTurn;
  }

  lemma WholeTurn(s: bytes, data: bytes, rest: bytes, fail: Error, b: Bounds, sofar: nat)
    requires ChunkHead(s, fail) == Parsed(|data|, data + [13, 10] + rest) && b.slice <= 0
    ensures NextTurn(s, fail, b, sofar) ==
      if b.max > 0 && sofar + |data| > b.max then Stop([], BodyTooLarge)
      else if data == [] then Last(rest) else More(data, rest)
  {
    hide ChunkHead;
    var t := data + [13, 10] + rest;
    assert t[..|data|] == data && t[|data|..] == [13, 10] + rest && t[|data| + 2..] == rest;
  }

  /** Anything else breaks the body: other bytes than CR LF behind the data, or an end of the stream before them. */
  lemma BrokenOff(s: bytes, n: nat, data: bytes, rest: bytes, fail: Error, b: Bounds, sofar: nat)
    requires ChunkHead(s, fail) == Parsed(n, data + rest) && b.slice <= 0 && (b.max > 0 ==> sofar + n <= b.max)
    requires if |data| < n then rest == [] else |data| == n && !(|rest| >= 2 && rest[0] == 13 && rest[1] == 10)
    ensures Chunks(s, fail, b, sofar) == Decoded(data, Broken(
      if |data| == n && |rest| >= 2 then BrokenChunk else if fail == EOF then UnexpectedEOF else fail))
  {
    hide ChunkHead;
    var t := data + rest;
    assert t[..|data|] == data && t[|data|..] == rest;
    assert NextTurn(s, fail, b, sofar) ==
      Stop(data, if |data| == n && |rest| >= 2 then BrokenChunk else if fail == EOF then UnexpectedEOF else fail);
    hide NextTurn;
  }

  // ---- The reader -------------------------------------------------------------------------

  method ReadCrLf(r: BufReader) returns (err: Error)
    requires r.Valid()
    modifies r
    ensures r.Valid()
    ensures err == if StartsWithCRLF(old(r.rest)) then NoError else BrokenChunk
    ensures err == NoError ==> r.rest == old(r.rest)[2..]
  {
    var c, e := r.ReadByte();
    if e != NoError || c != CR {
      return BrokenChunk;
    }
    c, e := r.ReadByte();
    if e != NoError || c != LF {
      return BrokenChunk;
    }
    err := NoError;
  }

  /** The whitespace after a chunk size. */
  method ReadSpaces(r: BufReader) returns (err: Error)
    requires r.Valid()
    modifies r
    ensures r.Valid() && r.rest == SkipSpaces(old(r.rest))
    ensures err == if r.rest == [] then BrokenChunk else NoError
  {
    while true
      invariant r.Valid() && SkipSpaces(r.rest) == SkipSpaces(old(r.rest))
      decreases |r.rest|
    {
      ghost var u := r.rest;
      var c, e := r.ReadByte();
      if e != NoError {
        return BrokenChunk;
      }
      if c == SPACE {
        continue;
      }
      e := r.UnreadByte();
      assert r.rest == u;
      return if e != NoError then BrokenChunk else NoError;
    }
  }

  method ParseChunkSize(r: BufReader) returns (n: int, err: Error)
    requires r.Valid()
    modifies r
    ensures r.Valid()
    ensures match ChunkHead(old(r.rest), r.fail)
            case Parsed(v, t) => err == NoError && n == v && r.rest == t
            case Unparsed(e) => err == e && n == -1
    ensures err == NoError ==> n >= 0
  {
    n, err := ReadHexInt(r);
    if err != NoError {
      return -1, err;
    }
    err := ReadSpaces(r);
    if err != NoError {
      return -1, err;
    }
    err := ReadCrLf(r);
    if err != NoError {
      n := -1;
    }
  }

  /** The data of a chunk of n bytes and the line end behind it, read behind buf[..len]. */
  method ReadChunkData(r: BufReader, buf: array<byte>, len: nat, n: nat, ghost dst: bytes)
    returns (out: array<byte>, m: nat, err: Error)
    requires r.Valid() && |dst| == len && Holds(buf, 0, dst) && buf.Length <= TWO31
    modifies r, buf
    ensures r.Valid() && (out == buf || fresh(out)) && out.Length <= TWO31
    ensures err == Panicked <==> len + n + 2 > TWO31
    ensures err != Panicked ==>
              var t := old(r.rest);
              err == if |t| < n + 2 then Truncated(r.fail)
                     else if StartsWithCRLF(t[n..]) then NoError else BrokenChunk
    ensures err == NoError ==> r.rest == old(r.rest)[n + 2..] && m == len + n && Holds(out, 0, dst + old(r.rest)[..n])
  {
    ghost var t := r.rest;
    ghost var whole := dst + t;
    assert whole[len..] == t && whole[..len] == dst;
    out, m, err := AppendBodyFixedSize(r, buf, len, n + |CRLF|, whole);
    if err != NoError {
      return;
    }
    assert out[m - 2] == whole[m - 2] == t[n] && out[m - 1] == whole[m - 1] == t[n + 1];
    if out[m - 2] != CR || out[m - 1] != LF {
      err := BrokenChunk;
      return;
    }
    m := m - |CRLF|;
    assert whole[..m] == dst + t[..n];
    assert whole[m + 2..] == t[n + 2..];
  }

  /** One turn of readBodyChunked: buf[..len] holds the body so far, which is dst. */
  method ReadChunk(r: BufReader, buf: array<byte>, len: nat, max: int, ghost dst: bytes)
    returns (out: array<byte>, m: nat, n: int, err: Error)
    requires r.Valid() && |dst| == len && Holds(buf, 0, dst) && buf.Length <= TWO31
    modifies r, buf
    ensures r.Valid() && (out == buf || fresh(out)) && out.Length <= TWO31
    ensures match NextTurn(old(r.rest), r.fail, Bounds(max, TWO31), len)
            case Stop(_, e) => err == e && e != NoError
            case Last(t) => err == NoError && n == 0 && r.rest == t && m == len && Holds(out, 0, dst)
            case More(c, t) => err == NoError && n == |c| && r.rest == t && m == len + n && Holds(out, 0, dst + c)
  {
    out, m := buf, len;
    n, err := ParseChunkSize(r);
    if err != NoError {
      return;
    }
    if max > 0 && len + n > max {
      err := BodyTooLarge;
      return;
    }
    ghost var t := r.rest;
    out, m, err := ReadChunkData(r, buf, len, n, dst);
    assert n == 0 ==> dst + t[..n] == dst;
  }

  /** What decoding the rest of the stream adds to dst is the whole body. */
  ghost predicate Sofar(whole: Decoded, dst: bytes, s: bytes, fail: Error, b: Bounds) {
    whole == Prepend(dst, Chunks(s, fail, b, |dst|))
  }

  lemma TurnTaken(whole: Decoded, dst: bytes, s: bytes, fail: Error, b: Bounds)
    requires Sofar(whole, dst, s, fail, b)
    ensures match NextTurn(s, fail, b, |dst|)
            case Stop(_, e) => whole.end == Broken(e)
            case Last(t) => whole == Decoded(dst, Complete(t))
            case More(c, t) => Sofar(whole, dst + c, t, fail, b)
  {
    hide NextTurn;
    var w := NextTurn(s, fail, b, |dst|);
    if w.Last? {
      assert dst + [] == dst;
    } else if w.More? {
      assert |dst + w.chunk| == |dst| + |w.chunk|;
      PrependTwice(dst, w.chunk, Chunks(w.rest, fail, b, |dst| + |w.chunk|));
    }
  }

  /** That turn seen from the whole body. */
  method ReadNextChunk(r: BufReader, buf: array<byte>, len: nat, max: int, ghost dst: bytes, ghost whole: Decoded)
    returns (out: array<byte>, m: nat, n: int, err: Error, ghost dst': bytes)
    requires r.Valid() && |dst| == len && Holds(buf, 0, dst) && buf.Length <= TWO31
    requires Sofar(whole, dst, r.rest, r.fail, Bounds(max, TWO31))
    modifies r, buf
    ensures r.Valid() && (out == buf || fresh(out)) && out.Length <= TWO31
    ensures err != NoError ==> whole.end == Broken(err)
    ensures err == NoError ==> |dst'| == m && Holds(out, 0, dst')
    ensures err == NoError && n == 0 ==> whole == Decoded(dst', Complete(r.rest))
    ensures err == NoError && n != 0 ==>
              Sofar(whole, dst', r.rest, r.fail, Bounds(max, TWO31)) && |r.rest| < |old(r.rest)|
  {
    hide NextTurn, Chunks;
    TurnTaken(whole, dst, r.rest, r.fail, Bounds(max, TWO31));
    ghost var w := NextTurn(r.rest, r.fail, Bounds(max, TWO31), len);
    out, m, n, err := ReadChunk(r, buf, len, max, dst);
    dst' := if w.More? then dst + w.chunk else dst;
  }

  /** readBodyChunked, into a slice of length zero. */
  method ReadBodyChunked(r: BufReader, max: int, buf: array<byte>) returns (out: array<byte>, m: nat, err: Error)
    requires r.Valid() && buf.Length <= TWO31
    modifies r, buf
    ensures r.Valid() && (out == buf || fresh(out))
    ensures match Chunks(old(r.rest), r.fail, Bounds(max, TWO31), 0)
            case Decoded(data, Complete(rest)) =>
              err == NoError && m == |data| && Holds(out, 0, data) && r.rest == rest
            case Decoded(_, Broken(e)) => err == e && e != NoError
  {
    hide NextTurn, Chunks;
    out, m := buf, 0;
    ghost var dst: bytes := [];
    ghost var whole := Chunks(r.rest, r.fail, Bounds(max, TWO31), 0);
    while true
      invariant r.Valid() && (out == buf || fresh(out)) && out.Length <= TWO31
      invariant |dst| == m && Holds(out, 0, dst)
      invariant Sofar(whole, dst, r.rest, r.fail, Bounds(max, TWO31))
      decreases |r.rest|
    {
      var chunkSize;
      out, m, chunkSize, err, dst := ReadNextChunk(r, out, m, max, dst, whole);
      if err != NoError {
        return;
      }
      if chunkSize == 0 {
        return;
      }
    }
  }
}
