/** The buffered reader and writer that bodies go through, as far as their callers can see them. */
module Streams {
  import opened Bytes

  datatype Error =
    | NoError
    | EOF
    | UnexpectedEOF
    | Failure(code: nat)      // any other error of the connection
    | NoUnread
    | EmptyHexNum
    | TooLargeHexNum
    | BrokenChunk
    | BodyTooLarge
    | ChunkedStream           // not a failure: the body is left to the stream
    | Panicked                // a slice bound out of range

  /** What a read makes of an error: a body that ends too early is an error even at end of file. */
  function Truncated(fail: Error): Error {
    if fail == EOF then UnexpectedEOF else fail
  }

  /**
   * A bufio.Reader: the bytes it will still deliver and the error it reports after them. A read
   * with room gets at least one byte while there is one. How many there are to get is known for the
   * reads listed in arrivals and not determined for later ones, nor is whether the error already
   * comes with the last bytes.
   */
  class BufReader {
    var rest: bytes
    var lastByte: int         // the byte that UnreadByte would put back, or -1
    var arrivals: seq<nat>
    const fail: Error

    ghost predicate Valid() reads this {
      -1 <= lastByte < 256 && (fail == EOF || fail.Failure?)
    }

    constructor (data: bytes, fail: Error, arrivals: seq<nat>)
      requires fail == EOF || fail.Failure?
      ensures Valid() && rest == data && this.fail == fail && this.arrivals == arrivals
    {
      this.rest, this.lastByte, this.fail, this.arrivals := data, -1, fail, arrivals;
    }

    method ReadByte() returns (c: byte, err: Error)
      requires Valid()
      modifies this
      ensures Valid()
      ensures old(rest) != [] ==> err == NoError && c == old(rest)[0] == lastByte && rest == old(rest)[1..]
      ensures old(rest) == [] ==> err == fail && rest == [] && lastByte == -1
    {
      if rest == [] {
        lastByte := -1;
        return 0, fail;
      }
      c, err, lastByte := rest[0], NoError, rest[0];
      rest := rest[1..];
    }

    method UnreadByte() returns (err: Error)
      requires Valid()
      modifies this
      ensures Valid() && lastByte == -1
      ensures old(lastByte) >= 0 ==> err == NoError && rest == [old(lastByte)] + old(rest)
      ensures old(lastByte) < 0 ==> err == NoUnread && rest == old(rest)
    {
      if lastByte < 0 {
        return NoUnread;
      }
      rest := [lastByte] + rest;
      lastByte := -1;
      err := NoError;
    }

    /** Read into p[lo..hi]. */
    method Read(p: array<byte>, lo: nat, hi: nat) returns (n: nat, err: Error)
      requires Valid() && lo <= hi <= p.Length
      modifies this, p
      ensures Valid()
      ensures n <= hi - lo && n <= |old(rest)| && rest == old(rest)[n..]
      ensures Holds(p, lo, old(rest)[..n])
      ensures forall k :: 0 <= k < lo || lo + n <= k < p.Length ==> p[k] == old(p[k])
      ensures lo < hi && old(rest) != [] ==> n > 0
      ensures err == NoError || (err == fail && rest == [])
      ensures lo < hi && old(rest) == [] ==> err == fail
      ensures lo < hi && old(arrivals) != [] && 0 < old(arrivals)[0] <= hi - lo && old(arrivals)[0] <= |old(rest)| ==>
                n == old(arrivals)[0]
    {
      lastByte := -1;
      if lo == hi || rest == [] {
        n := 0;
        if rest == [] {
          // Without room a pending error may or may not be reported.
          var pending: bool := *;
          err := if lo < hi || pending then fail else NoError;
        } else {
          err := NoError;
        }
        return;
      }
      var most := if hi - lo < |rest| then hi - lo else |rest|;
      if arrivals != [] {
        n := if arrivals[0] == 0 then 1 else if arrivals[0] < most then arrivals[0] else most;
        arrivals := arrivals[1..];
      } else {
        n :| 1 <= n <= most;
      }
      forall k | 0 <= k < n {
        p[lo + k] := rest[k];
      }
      if n > 0 {
        lastByte := rest[n - 1];
      }
      rest := rest[n..];
      var together: bool := *;
      err := if rest == [] && together then fail else NoError;
    }
  }

  /** A bufio.Writer: the bytes accepted so far. A write that fails accepts a prefix at most. */
  class BufWriter {
    var out: bytes

    constructor ()
      ensures out == []
    {
      out := [];
    }

    method Write(b: bytes) returns (err: Error)
      modifies this
      ensures err == NoError || err.Failure?
      ensures err == NoError ==> out == old(out) + b
      ensures old(out) <= out
    {
      var broken: bool := *;
      if broken {
        return Failure(0);
      }
      out := out + b;
      err := NoError;
    }

    method Flush() returns (err: Error)
      ensures err == NoError || err.Failure?
    {
      var broken: bool := *;
      err := if broken then Failure(0) else NoError;
    }
  }
}
