/**
 * The sections of the worker pool that run under its lock, on the slice of ready workers that they
 * change in place (workerpool.go). WorkerPool.dfy interleaves them.
 */
module Workers {

  datatype Msg = Job(conn: nat) | Quit

  class WorkerChan {
    var lastUseTime: int
    var sent: seq<Msg>

    constructor ()
      ensures sent == []
    {
      lastUseTime, sent := 0, [];
    }
  }

  class Pool {
    const maxWorkersCount: nat
    var workersCount: nat
    var mustStop: bool
    ghost var contents: seq<WorkerChan>    // wp.ready, the worker that was released last at the end
    var ready: array<WorkerChan?>
    var readyLen: nat

    ghost predicate Valid()
      reads this, ready
    {
      && readyLen == |contents| <= ready.Length
      && forall i {:trigger ready[i]} :: 0 <= i < readyLen ==> ready[i] == contents[i]
    }

    constructor (maxWorkersCount: nat)
      ensures Valid() && contents == [] && workersCount == 0 && !mustStop && fresh(ready)
      ensures this.maxWorkersCount == maxWorkersCount
    {
      this.maxWorkersCount := maxWorkersCount;
      workersCount, mustStop, contents := 0, false, [];
      ready, readyLen := new WorkerChan?[0](_ => null), 0;
    }

    /** The worker that was released last, or a slot for a new one, or neither. */
    method GetCh() returns (ch: WorkerChan?, createWorker: bool)
      requires Valid()
      modifies this`workersCount, this`contents, this`readyLen, ready
      ensures Valid()
      ensures old(contents) != [] ==>
        ch != null && old(contents) == contents + [ch] && !createWorker && workersCount == old(workersCount)
      ensures old(contents) == [] ==>
        && ch == null && contents == []
        && createWorker == (old(workersCount) < maxWorkersCount)
        && workersCount == old(workersCount) + if createWorker then 1 else 0
    {
      ch, createWorker := null, false;
      if readyLen == 0 {
        if workersCount < maxWorkersCount {
          createWorker := true;
          workersCount := workersCount + 1;
        }
      } else {
        var n := readyLen - 1;
        ch := ready[n];
        ready[n] := null;
        readyLen := n;
        contents := contents[..n];
      }
    }

    /** The worker goes to the end of the ready ones, unless the pool was stopped. */
    method Release(ch: WorkerChan, now: int) returns (kept: bool)
      requires Valid()
      modifies this`contents, this`ready, this`readyLen, ready, ch`lastUseTime
      ensures Valid() && kept == !mustStop && ch.lastUseTime == now
      ensures contents == if kept then old(contents) + [ch] else old(contents)
      ensures ready == old(ready) || fresh(ready)
    {
      ch.lastUseTime := now;
      if mustStop {
        return false;
      }
      if readyLen == ready.Length {
        var size :| size > readyLen;
        var grown := new WorkerChan?[size](_ => null);
        forall i | 0 <= i < readyLen {
          grown[i] := ready[i];
        }
        ready := grown;
      }
      ready[readyLen] := ch;
      readyLen := readyLen + 1;
      contents := contents + [ch];
      kept := true;
    }

    ghost predicate Ordered()
      reads this, contents
    {
      forall i, j :: 0 <= i < j < |contents| ==> contents[i].lastUseTime <= contents[j].lastUseTime
    }

    /**
     * The binary search of clean. It ends at a border between an expired worker and one that is
     * not, whatever the order; in the order of last use there is only one.
     */
    method LastExpired(criticalTime: int) returns (r: int)
      requires Valid()
      ensures -1 <= r < |contents|
      ensures 0 <= r ==> contents[r].lastUseTime < criticalTime
      ensures r + 1 < |contents| ==> contents[r + 1].lastUseTime >= criticalTime
      ensures Ordered() ==> forall i :: 0 <= i < |contents| ==> (i <= r <==> contents[i].lastUseTime < criticalTime)
    {
      var l, mid := 0, 0;
      r := readyLen - 1;
      while l <= r
        invariant 0 <= l <= r + 1 <= |contents|
        invariant 0 < l ==> contents[l - 1].lastUseTime < criticalTime
        invariant r + 1 < |contents| ==> contents[r + 1].lastUseTime >= criticalTime
        invariant Ordered() ==> forall i :: 0 <= i < l ==> contents[i].lastUseTime < criticalTime
        invariant Ordered() ==> forall i :: r < i < |contents| ==> contents[i].lastUseTime >= criticalTime
      {
        mid := (l + r) / 2;
        if criticalTime > ready[mid].lastUseTime {
          l := mid + 1;
        } else {
          r := mid - 1;
        }
      }
    }

    /** The first k workers are taken out, and the others move up in place. */
    method TakeFront(k: nat) returns (scratch: seq<WorkerChan>)
      requires Valid() && k <= |contents|
      modifies this`contents, this`readyLen, ready
      ensures Valid() && old(contents) == scratch + contents && |scratch| == k
    {
      ghost var was := contents;
      var n, m := readyLen, readyLen - k;
      scratch := [];
      for i := 0 to k
        invariant scratch == was[..i]
      {
        scratch := scratch + [ready[i]];
      }
      for i := 0 to m
        invariant forall j {:trigger ready[j]} :: 0 <= j < i ==> ready[j] == was[j + k]
        invariant forall j {:trigger ready[j]} :: i <= j < n ==> ready[j] == was[j]
      {
        ready[i] := ready[i + k];
      }
      for i := m to n
        invariant forall j {:trigger ready[j]} :: 0 <= j < m ==> ready[j] == was[j + k]
      {
        ready[i] := null;
      }
      readyLen := m;
      contents := was[k..];
    }

    method TellToQuit(chans: seq<WorkerChan>)
      requires forall i, j :: 0 <= i < j < |chans| ==> chans[i] != chans[j]
      modifies chans`sent
      ensures forall i :: 0 <= i < |chans| ==> chans[i].sent == old(chans[i].sent) + [Quit]
    {
      for i := 0 to |chans|
        invariant forall j :: 0 <= j < |chans| ==> chans[j].sent == old(chans[j].sent) + if j < i then [Quit] else []
      {
        chans[i].sent := chans[i].sent + [Quit];
      }
    }

    /** The part of clean under the lock. */
    method TakeExpired(criticalTime: int) returns (scratch: seq<WorkerChan>)
      requires Valid()
      modifies this`contents, this`readyLen, ready
      ensures Valid() && old(contents) == scratch + contents
      ensures scratch != [] ==> scratch[|scratch| - 1].lastUseTime < criticalTime
      ensures contents != [] ==> contents[0].lastUseTime >= criticalTime
      ensures old(Ordered()) ==>
        forall i :: 0 <= i < |old(contents)| ==> (i < |scratch| <==> old(contents)[i].lastUseTime < criticalTime)
    {
      var r := LastExpired(criticalTime);
      if r == -1 {
        scratch := [];
        return;
      }
      scratch := TakeFront(r + 1);
    }

    /** clean: the expired workers are taken out under the lock, and told to quit outside it. */
    method Clean(criticalTime: int) returns (scratch: seq<WorkerChan>)
      requires Valid()
      requires forall i, j :: 0 <= i < j < |contents| ==> contents[i] != contents[j]
      modifies this`contents, this`readyLen, ready, contents`sent
      ensures Valid() && old(contents) == scratch + contents
      ensures old(Ordered()) ==>
        forall i :: 0 <= i < |old(contents)| ==> (i < |scratch| <==> old(contents)[i].lastUseTime < criticalTime)
      ensures forall i :: 0 <= i < |old(contents)| ==>
        old(contents)[i].sent == old(contents[i].sent) + (if i < |scratch| then [Quit] else [])
    {
      scratch := TakeExpired(criticalTime);
      assert forall i :: 0 <= i < |scratch| ==> scratch[i] == old(contents)[i];
      TellToQuit(scratch);
    }

    /** Stop: every ready worker is told to quit, and no worker is kept from now on. */
    method Stop()
      requires Valid()
      requires forall i, j :: 0 <= i < j < |contents| ==> contents[i] != contents[j]
      modifies this`contents, this`readyLen, this`mustStop, ready, contents`sent
      ensures Valid() && contents == [] && mustStop
      ensures forall ch :: ch in old(contents) ==> ch.sent == old(ch.sent) + [Quit]
    {
      ghost var was := contents;
      var i := 0;
      while i < readyLen
        invariant 0 <= i <= readyLen == |was| <= ready.Length
        invariant forall j {:trigger ready[j]} :: i <= j < readyLen ==> ready[j] == was[j]
        invariant forall j :: 0 <= j < |was| ==> was[j].sent == old(was[j].sent) + if j < i then [Quit] else []
      {
        ready[i].sent := ready[i].sent + [Quit];
        ready[i] := null;
        i := i + 1;
      }
      readyLen, contents := 0, [];
      mustStop := true;
    }
  }
}
