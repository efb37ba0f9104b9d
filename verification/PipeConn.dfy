/**
 * Read and Write of an in-memory connection (fasthttputil/pipeconns.go), on the fields that they
 * change, when nobody interferes. Pipe.dfy interleaves them and looks after the buffers.
 */
module PipeConn {
  import opened Bytes

  const QUEUE_SIZE := 4

  datatype Error = NoError | Eof | Timeout | ConnectionClosed

  datatype Next = Fetched | WouldBlock | Failed(err: Error)

  function Concat(q: seq<seq<byte>>): seq<byte> {
    if q == [] then [] else q[0] + Concat(q[1..])
  }

  lemma {:induction false} ConcatPlus(q: seq<seq<byte>>, p: seq<byte>)
    ensures Concat(q + [p]) == Concat(q) + p
  {
    if q == [] {
      assert Concat([p]) == p + Concat([]);
    } else {
      ConcatPlus(q[1..], p);
      assert (q + [p])[1..] == q[1..] + [p];
    }
  }

  /** copy(p[at:], src) */
  method Copy(p: array<byte>, at: nat, src: seq<byte>) returns (n: nat)
    requires at <= p.Length
    modifies p
    ensures n == if |src| < p.Length - at then |src| else p.Length - at
    ensures p[..at] == old(p[..at]) && p[at..at + n] == src[..n] && p[at + n..] == old(p[at + n..])
  {
    n := if |src| < p.Length - at then |src| else p.Length - at;
    forall i | 0 <= i < n {
      p[at + i] := src[i];
    }
  }

  /** One direction: the channel and the reading end. A deadline expires when nothing else happens. */
  class Direction {
    var queue: seq<seq<byte>>            // c.rCh, and the other end's c.wCh
    var stopped: bool                    // stopCh is closed
    var bb: seq<byte>                    // what is left of the buffer that was fetched last

    constructor ()
      ensures queue == [] && !stopped && bb == []
    {
      queue, stopped, bb := [], false, [];
    }

    /** Everything that Read is going to return. */
    ghost function Pending(): seq<byte>
      reads this
    {
      bb + Concat(queue)
    }

    /** All or nothing: the bytes are queued behind the others, or there is an error and nothing changes. */
    method Write(p: seq<byte>) returns (n: nat, err: Error)
      modifies this`queue
      ensures err == if stopped then ConnectionClosed else if |old(queue)| >= QUEUE_SIZE then Timeout else NoError
      ensures err.NoError? ==> n == |p| && Pending() == old(Pending()) + p && |queue| == |old(queue)| + 1
      ensures !err.NoError? ==> n == 0 && queue == old(queue)
    {
      if stopped {
        return 0, ConnectionClosed;
      }
      if |queue| < QUEUE_SIZE {
        ConcatPlus(queue, p);
        queue := queue + [p];
        return |p|, NoError;
      }
      return 0, Timeout;
    }

    method Close()
      modifies this`stopped
      ensures stopped
    {
      stopped := true;
    }

    method ReadNextByteBuffer(mayBlock: bool) returns (r: Next)
      requires bb == []
      modifies this`queue, this`bb
      ensures Pending() == old(Pending())
      ensures r.Fetched? <==> old(queue) != []
      ensures r.Fetched? ==> queue == old(queue)[1..]
      ensures !r.Fetched? ==> queue == [] && bb == []
      ensures old(queue) == [] ==> r == if !mayBlock then WouldBlock else Failed(if stopped then Eof else Timeout)
    {
      if queue != [] {
        bb := queue[0];
        queue := queue[1..];
        return Fetched;
      }
      if !mayBlock {
        return WouldBlock;
      }
      r := Failed(if stopped then Eof else Timeout);
    }

    /** read: at least one byte when there is one, and no more than one buffer's. */
    method ReadSome(p: array<byte>, at: nat, mayBlock: bool) returns (n: nat, r: Next)
      requires at < p.Length
      modifies this`queue, this`bb, p
      ensures n <= p.Length - at && p[..at] == old(p[..at]) && p[at + n..] == old(p[at + n..])
      ensures r.Fetched? ==> p[at..at + n] + Pending() == old(Pending())
      ensures r.Fetched? && n == 0 ==> |queue| < |old(queue)|
      ensures |queue| <= |old(queue)|
      ensures !r.Fetched? ==> n == 0 && bb == [] && queue == [] && old(bb) == [] && old(queue) == []
      ensures !r.Fetched? ==> r == if !mayBlock then WouldBlock else Failed(if stopped then Eof else Timeout)
      ensures r.Fetched? <==> old(bb) != [] || old(queue) != []
    {
      r := Fetched;
      if |bb| == 0 {
        r := ReadNextByteBuffer(mayBlock);
        if !r.Fetched? {
          return 0, r;
        }
      }
      n := Copy(p, at, bb);
      assert bb == bb[..n] + bb[n..];
      hide Concat;
      bb := bb[n..];
    }

    /**
     * Read returns as much of what is pending as there is room for. It fails only when nothing at all
     * is pending: with io.EOF when the pipe is closed, else when the deadline is reached.
     */
    method Read(p: array<byte>) returns (nn: nat, err: Error)
      modifies this`queue, this`bb, p
      ensures nn == if p.Length < |old(Pending())| then p.Length else |old(Pending())|
      ensures p[..nn] + Pending() == old(Pending()) && p[nn..] == old(p[nn..])
      ensures !err.NoError? <==> p.Length > 0 && old(bb) == [] && old(queue) == []
      ensures !err.NoError? ==> err == if stopped then Eof else Timeout
    {
      var mayBlock := true;
      nn := 0;
      while nn < p.Length
        invariant nn <= p.Length
        invariant p[..nn] + Pending() == old(Pending()) && p[nn..] == old(p[nn..])
        invariant mayBlock ==> nn == 0 && bb == old(bb) && queue == old(queue)
        invariant !mayBlock ==> old(bb) != [] || old(queue) != []
        decreases p.Length - nn, |queue|
      {
        ghost var before := p[..nn];
        var n, r := ReadSome(p, nn, mayBlock);
        match r {
          case Failed(e) => return nn, e;
          case WouldBlock => return nn, NoError;
          case Fetched =>
        }
        assert p[..nn + n] == before + p[nn..nn + n];
        nn := nn + n;
        mayBlock := false;
      }
      err := NoError;
    }
  }
}
