/**
 * The sections of a host client that run under connsLock (client.go): what each does to the idle
 * list, the counter and the queue when nobody interferes. ConnPool.dfy interleaves them.
 */
module HostClient {
  import opened WantQueue

  const DEFAULT_MAX_CONNS_PER_HOST := 512

  /** An idle connection and when it was put back. */
  datatype Idle = Idle(conn: Conn, lastUse: int)

  datatype Acquired = Reused(conn: Conn) | MayDial(startCleaner: bool) | NoneFree

  datatype BodyRead = BodyRead | BodyTooLarge | BodyFailed

  /** What happens to a request on its connection. */
  datatype Exchange = Exchange(
    writeDeadlineSet: bool,
    tooOld: bool,                      // MaxConnDuration is over
    requestClose: bool,                // Connection: close in the request
    written: bool,
    flushed: bool,
    readDeadlineSet: bool,
    body: BodyRead,
    responseClose: bool)               // and in the response

  class Client {
    var maxConns: int
    const waits: bool
    var connsCount: int
    var conns: seq<Idle>
    const connsWait: WantConnQueue
    var cleanerRun: bool

    constructor (maxConns: int, waits: bool)
      ensures this.maxConns == maxConns && this.waits == waits && connsCount == 0 && conns == [] && !cleanerRun
      ensures fresh(connsWait) && Valid() && connsWait.contents == []
    {
      this.maxConns, this.waits := maxConns, waits;
      connsCount, conns, cleanerRun := 0, [], false;
      connsWait := new WantConnQueue();
    }

    ghost predicate Valid()
      reads this, connsWait, connsWait.head, connsWait.tail, connsWait.contents
    {
      connsWait.Valid() && forall w :: w in connsWait.contents ==> w.Valid()
    }

    /** acquireConn: the connection used last, or a slot below the limit, or nothing. */
    method Acquire(connectionClose: bool) returns (r: Acquired)
      modifies this
      ensures maxConns == old(maxConns)
      ensures r.Reused? <==> old(conns) != []
      ensures r.Reused? ==> exists c :: old(conns) == conns + [c] && r.conn == c.conn
      ensures !r.Reused? ==> conns == old(conns)
      ensures r.MayDial? <==> old(conns) == [] && old(connsCount) < if maxConns <= 0 then 512 else maxConns
      ensures connsCount == old(connsCount) + if r.MayDial? then 1 else 0
      ensures connsCount <= (if maxConns <= 0 then 512 else maxConns) || connsCount == old(connsCount)
      ensures r.MayDial? && r.startCleaner <==> cleanerRun && !old(cleanerRun)
      ensures r.MayDial? && !connectionClose ==> cleanerRun
    {
      var n := |conns|;
      if n == 0 {
        var limit := maxConns;
        if limit <= 0 {
          limit := DEFAULT_MAX_CONNS_PER_HOST;
        }
        if connsCount < limit {
          connsCount := connsCount + 1;
          var startCleaner := !cleanerRun && !connectionClose;
          if startCleaner {
            cleanerRun := true;
          }
          return MayDial(startCleaner);
        }
        return NoneFree;
      }
      n := n - 1;
      r := Reused(conns[n].conn);
      assert conns == conns[..n] + [conns[n]];
      conns := conns[..n];
    }

    /** queueForIdle: answered waiters leave the front, the new one comes in at the end. */
    method QueueForIdle(w: WantConn) returns (ghost k: nat)
      requires Valid() && w.Valid()
      modifies connsWait, connsWait.head, connsWait.tail
      ensures Valid()
      ensures k <= |old(connsWait.contents)| && connsWait.contents == old(connsWait.contents)[k..] + [w]
      ensures forall i :: 0 <= i < k ==> !old(connsWait.contents)[i].Waiting()
      ensures k < |old(connsWait.contents)| ==> old(connsWait.contents)[k].Waiting()
    {
      ghost var q := connsWait.contents;
      var _, gone := connsWait.ClearFront();
      k := gone;
      assert k < |q| ==> connsWait.contents[0] == q[k];
      connsWait.PushBack(w);
    }

    /** The loop of releaseConn and decConnsCount: waiters are taken off until one still waits. */
    method PopWaiting() returns (w: WantConn?, ghost k: nat)
      requires connsWait.Valid()
      modifies connsWait, connsWait.head, connsWait.tail
      ensures connsWait.Valid() && connsWait.SameArrays(old(connsWait.head), old(connsWait.tail))
      ensures k <= |old(connsWait.contents)|
      ensures forall i :: 0 <= i < k ==> !old(connsWait.contents)[i].Waiting()
      ensures w == null ==> k == |old(connsWait.contents)| && connsWait.contents == []
      ensures w != null ==>
        && k < |old(connsWait.contents)| && w == old(connsWait.contents)[k] && w.Waiting()
        && connsWait.contents == old(connsWait.contents)[k + 1..]
    {
      k := 0;
      ghost var q := connsWait.contents;
      var n := connsWait.Len();
      while n > 0
        invariant connsWait.Valid()
        invariant k <= |q| && connsWait.contents == q[k..] && n == |q| - k
        invariant connsWait.SameArrays(old(connsWait.head), old(connsWait.tail))
        invariant forall i :: 0 <= i < k ==> !q[i].Waiting()
      {
        w := connsWait.PopFront();
        if w.Waiting() {
          return;
        }
        k := k + 1;
        n := connsWait.Len();
      }
      w := null;
    }

    /**
     * releaseConn: the first waiter that still waits gets the connection and those before it are
     * dropped; without such a waiter the connection becomes the most recently used idle one.
     */
    method ReleaseConn(c: Conn, now: int) returns (ghost k: nat)
      requires Valid() && c != 0
      modifies this`conns, connsWait, connsWait.head, connsWait.tail, connsWait.contents
      ensures Valid() && k <= |old(connsWait.contents)|
      ensures forall i :: 0 <= i < k ==> !old(connsWait.contents[i].Waiting())
      ensures
        if !waits then conns == old(conns) + [Idle(c, now)] && connsWait.contents == old(connsWait.contents)
        else if k == |old(connsWait.contents)| then conns == old(conns) + [Idle(c, now)] && connsWait.contents == []
        else
          var w := old(connsWait.contents)[k];
          && old(w.Waiting()) && w.conn == c && w.err == 0
          && conns == old(conns) && connsWait.contents == old(connsWait.contents)[k + 1..]
      ensures forall w :: w in old(connsWait.contents) && old(!w.Waiting()) ==> w.conn == old(w.conn) && w.err == old(w.err)
    {
      k := 0;
      if !waits {
        conns := conns + [Idle(c, now)];
        return;
      }
      var delivered := false;
      var w;
      w, k := PopWaiting();
      if w != null {
        delivered := w.TryDeliver(c, 0);
      }
      if !delivered {
        conns := conns + [Idle(c, now)];
      }
    }

    /**
     * decConnsCount: the slot goes to the first waiter that still waits, for whom a dial is started,
     * and only without one the counter goes down.
     */
    method DecConnsCount() returns (dialFor: WantConn?, ghost k: nat)
      requires Valid()
      modifies this`connsCount, connsWait, connsWait.head, connsWait.tail
      ensures Valid() && k <= |old(connsWait.contents)|
      ensures connsCount == old(connsCount) - if dialFor == null then 1 else 0
      ensures !waits ==> dialFor == null && connsWait.contents == old(connsWait.contents)
      ensures forall i :: 0 <= i < k ==> !old(connsWait.contents)[i].Waiting()
      ensures waits && dialFor == null ==> k == |old(connsWait.contents)| && connsWait.contents == []
      ensures dialFor != null ==>
        && k < |old(connsWait.contents)| && dialFor == old(connsWait.contents)[k] && dialFor.Waiting()
        && connsWait.contents == old(connsWait.contents)[k + 1..]
    {
      k, dialFor := 0, null;
      if !waits {
        connsCount := connsCount - 1;
        return;
      }
      dialFor, k := PopWaiting();
      if dialFor == null {
        connsCount := connsCount - 1;
      }
    }

    /**
     * doNonNilReqResp, from the connection it acquired to its return: the connection is put back or
     * closed, one of the two on every path, and put back only when another request may use it. A
     * slot that is freed may be dialed again for a waiter.
     */
    method UseConn(c: Conn, e: Exchange, now: int) returns (retry: bool, ok: bool, kept: bool, dialFor: WantConn?)
      requires Valid() && c != 0
      modifies this`conns, this`connsCount, connsWait, connsWait.head, connsWait.tail, connsWait.contents
      ensures Valid()
      ensures ok <==> e.writeDeadlineSet && e.written && e.flushed && e.readDeadlineSet && e.body.BodyRead?
      ensures kept <==> ok && !e.tooOld && !e.requestClose && !e.responseClose
      ensures kept ==> connsCount == old(connsCount) && dialFor == null
      ensures kept ==> conns == old(conns) || conns == old(conns) + [Idle(c, now)]
      ensures !kept ==> conns == old(conns) && connsCount == old(connsCount) - if dialFor == null then 1 else 0
      ensures retry <==> !ok && !(e.writeDeadlineSet && e.written && e.flushed && e.readDeadlineSet && e.body.BodyTooLarge?)
    {
      retry, ok, kept, dialFor := true, false, false, null;
      ghost var k: nat;
      if !e.writeDeadlineSet {
        dialFor, k := DecConnsCount();
        return;
      }
      var resetConnection := e.tooOld && !e.requestClose;
      if !(e.written && e.flushed) {
        dialFor, k := DecConnsCount();
        return;
      }
      if !e.readDeadlineSet {
        dialFor, k := DecConnsCount();
        return;
      }
      if !e.body.BodyRead? {
        dialFor, k := DecConnsCount();
        retry := !e.body.BodyTooLarge?;
        return;
      }
      retry, ok := false, true;
      if resetConnection || e.requestClose || e.responseClose {
        dialFor, k := DecConnsCount();
      } else {
        kept := true;
        k := ReleaseConn(c, now);
      }
    }

    /** CloseIdleConnections: every idle connection is handed out to be closed, oldest first. */
    method TakeIdle() returns (scratch: seq<Idle>)
      modifies this`conns
      ensures scratch == old(conns) && conns == []
    {
      scratch := conns;
      conns := [];
    }

    /**
     * A round of connsCleaner: the longest run of expired connections at the front is handed out to
     * be closed; the cleaner sleeps until the first one left is about to expire.
     */
    method TakeExpired(now: int, maxIdle: int) returns (scratch: seq<Idle>, sleepFor: int)
      requires maxIdle > 0
      modifies this`conns
      ensures old(conns) == scratch + conns
      ensures forall c :: c in scratch ==> now - c.lastUse > maxIdle
      ensures conns != [] ==> now - conns[0].lastUse <= maxIdle
      ensures conns != [] ==> now + sleepFor - conns[0].lastUse == maxIdle + 1
      ensures conns == [] ==> sleepFor == maxIdle
      ensures sleepFor > 0
    {
      var n := |conns|;
      var i := 0;
      while i < n && now - conns[i].lastUse > maxIdle
        invariant 0 <= i <= n
        invariant forall j :: 0 <= j < i ==> now - conns[j].lastUse > maxIdle
      {
        i := i + 1;
      }
      sleepFor := maxIdle;
      if i < n {
        sleepFor := maxIdle - (now - conns[i].lastUse) + 1;
      }
      scratch := conns[..i];
      if i > 0 {
        conns := conns[i..];
      }
    }

    /** The cleaner stops when there is nothing left that it could ever close. */
    method CleanerStops() returns (mustStop: bool)
      modifies this`cleanerRun
      ensures mustStop == (connsCount == 0)
      ensures cleanerRun == (old(cleanerRun) && !mustStop)
    {
      mustStop := connsCount == 0;
      if mustStop {
        cleanerRun := false;
      }
    }
  }

  ghost predicate Ordered(conns: seq<Idle>) {
    forall i, j :: 0 <= i < j < |conns| ==> conns[i].lastUse <= conns[j].lastUse
  }

  /** In the order of last use, the front run that a round closes is exactly what has expired. */
  lemma RoundIsExact(before: seq<Idle>, scratch: seq<Idle>, after: seq<Idle>, now: int, maxIdle: int)
    requires Ordered(before) && before == scratch + after
    requires forall c :: c in scratch ==> now - c.lastUse > maxIdle
    requires after != [] ==> now - after[0].lastUse <= maxIdle
    ensures forall c :: c in before ==> (c in scratch <==> now - c.lastUse > maxIdle)
    ensures Ordered(after)
  {
    forall c | c in after ensures now - c.lastUse <= maxIdle {
      var j :| 0 <= j < |after| && after[j] == c;
      assert before[|scratch|] == after[0] && before[|scratch| + j] == c;
    }
    forall i, j | 0 <= i < j < |after| ensures after[i].lastUse <= after[j].lastUse {
      assert before[|scratch| + i] == after[i] && before[|scratch| + j] == after[j];
    }
  }
}
