/**
 * The pool of workers that serves accepted connections, as a protocol (workerpool.go): every step
 * is one critical section of the pool's lock, one channel operation, or one turn of a worker.
 */
module WorkerPool {
  import opened Counting

  type Conn = nat
  type Chan = nat
  type Id = nat

  datatype Msg = Job(conn: Conn) | Quit

  /** What a worker is at. */
  datatype Phase =
    | Waiting                 // receiving from its channel
    | Serving(conn: Conn)
    | Finished                // before release
    | Leaving                 // out of the loop, before workersCount--
    | Ended                   // before its channel is recycled

  datatype Worker = Worker(ch: Chan, phase: Phase)

  datatype Lock = Free | Stopping

  /** Where an offered connection is. */
  datatype Place = Spawning | Handed(ch: Chan) | Buffered(ch: Chan) | With(worker: Id) | Done

  /** Who may send to a channel, and what was sent. */
  datatype Chans = Chans(
    ready: seq<Chan>,                 // wp.ready
    scratch: seq<Chan>,               // taken out by clean, to be told to quit
    handed: map<Chan, Conn>,          // Serve, between getCh and its send
    buf: map<Chan, seq<Msg>>)         // sent and not received

  datatype State = State(
    maxWorkers: nat,
    workersCount: int,
    lock: Lock,
    mustStop: bool,
    cs: Chans,
    made: set<Chan>,                  // every channel that was ever made
    pooled: set<Chan>,                // workerChanPool
    spawning: set<Conn>,              // Serve, with a slot but no worker yet
    workers: map<Id, Worker>,
    served: seq<Conn>,                // closed or hijacked, in this order
    place: map<Conn, Place>)          // every connection that getCh accepted

  function Buf(cs: Chans, ch: Chan): seq<Msg> {
    if ch in cs.buf then cs.buf[ch] else []
  }

  function Put(cs: Chans, ch: Chan, m: Msg): Chans {
    cs.(buf := cs.buf[ch := Buf(cs, ch) + [m]])
  }

  datatype Step =
    | OfferReady(c: Conn)             // getCh takes the worker that stopped last
    | OfferNew(c: Conn)               // getCh takes a slot for a new worker
    | Spawn(c: Conn, ch: Chan, w: Id) // on a recycled channel or a new one
    | Send(ch: Chan)                  // Serve sends the connection
    | Receive(w: Id)
    | Finish(w: Id)                   // the connection is closed, or was hijacked
    | Release(w: Id)
    | Leave(w: Id)
    | Recycle(w: Id)
    | Clean(k: nat)                   // the k workers that were released first
    | CleanSend
    | StopBegin
    | StopSend
    | StopEnd

  predicate At(s: State, w: Id, p: Phase) {
    w in s.workers && s.workers[w].phase == p
  }

  predicate Enabled(s: State, step: Step) {
    match step
    case OfferReady(c) => s.lock.Free? && s.cs.ready != [] && c !in s.place
    case OfferNew(c) => s.lock.Free? && s.cs.ready == [] && s.workersCount < s.maxWorkers && c !in s.place
    case Spawn(c, ch, w) => c in s.spawning && w !in s.workers && (ch in s.pooled || ch !in s.made)
    case Send(ch) => ch in s.cs.handed
    case Receive(w) => At(s, w, Waiting) && Buf(s.cs, s.workers[w].ch) != []
    case Finish(w) => w in s.workers && s.workers[w].phase.Serving?
    case Release(w) => s.lock.Free? && At(s, w, Finished)
    case Leave(w) => s.lock.Free? && At(s, w, Leaving)
    case Recycle(w) => At(s, w, Ended)
    case Clean(k) => s.lock.Free? && s.cs.scratch == [] && k <= |s.cs.ready|
    case CleanSend => s.cs.scratch != []
    case StopBegin => s.lock.Free?
    case StopSend => s.lock.Stopping? && s.cs.ready != []
    case StopEnd => s.lock.Stopping? && s.cs.ready == []
  }

  function Become(s: State, w: Id, p: Phase): State
    requires w in s.workers
  {
    s.(workers := s.workers[w := s.workers[w].(phase := p)])
  }

  function Next(s: State, step: Step): State
    requires Enabled(s, step)
  {
    var cs := s.cs;
    match step
    case OfferReady(c) =>
      var n := |cs.ready| - 1;
      s.(cs := cs.(ready := cs.ready[..n], handed := cs.handed[cs.ready[n] := c]),
         place := s.place[c := Handed(cs.ready[n])])
    case OfferNew(c) =>
      s.(workersCount := s.workersCount + 1, spawning := s.spawning + {c}, place := s.place[c := Spawning])
    case Spawn(c, ch, w) =>
      s.(spawning := s.spawning - {c}, made := s.made + {ch}, pooled := s.pooled - {ch},
         workers := s.workers[w := Worker(ch, Waiting)], cs := cs.(handed := cs.handed[ch := c]),
         place := s.place[c := Handed(ch)])
    case Send(ch) =>
      var c := cs.handed[ch];
      s.(cs := Put(cs, ch, Job(c)).(handed := cs.handed - {ch}), place := s.place[c := Buffered(ch)])
    case Receive(w) =>
      var ch := s.workers[w].ch;
      var t := s.(cs := cs.(buf := cs.buf[ch := Buf(cs, ch)[1..]]));
      (match Buf(cs, ch)[0]
       case Quit => Become(t, w, Leaving)
       case Job(c) => Become(t.(place := s.place[c := With(w)]), w, Serving(c)))
    case Finish(w) =>
      var c := s.workers[w].phase.conn;
      Become(s.(served := s.served + [c], place := s.place[c := Done]), w, Finished)
    case Release(w) =>
      if s.mustStop then Become(s, w, Leaving)
      else Become(s.(cs := cs.(ready := cs.ready + [s.workers[w].ch])), w, Waiting)
    case Leave(w) => Become(s.(workersCount := s.workersCount - 1), w, Ended)
    case Recycle(w) => s.(workers := s.workers - {w}, pooled := s.pooled + {s.workers[w].ch})
    case Clean(k) => s.(cs := cs.(scratch := cs.ready[..k], ready := cs.ready[k..]))
    case CleanSend => s.(cs := Put(cs, cs.scratch[0], Quit).(scratch := cs.scratch[1..]))
    case StopBegin => s.(lock := Stopping)
    case StopSend => s.(cs := Put(cs, cs.ready[0], Quit).(ready := cs.ready[1..]))
    case StopEnd => s.(lock := Free, mustStop := true)
  }

  function Init(maxWorkers: nat): State {
    State(maxWorkers, 0, Free, false, Chans([], [], map[], map[]), {}, {}, {}, map[], [], map[])
  }

  // ---- The invariant ----------------------------------------------------------------------

  /** How many messages are in a channel or are going to be sent to it. */
  function Tokens(cs: Chans, ch: Chan): nat {
    Count(ch in cs.ready) + Count(ch in cs.scratch) + Count(ch in cs.handed) + |Buf(cs, ch)|
  }

  function InUse(workers: map<Id, Worker>): set<Chan> {
    set w | w in workers :: workers[w].ch
  }

  function WaitedOn(workers: map<Id, Worker>): set<Chan> {
    set w | w in workers && workers[w].phase.Waiting? :: workers[w].ch
  }

  /** There is one message to come, or in the channel, exactly while a worker waits for it. */
  ghost predicate OneToken(cs: Chans, waited: set<Chan>) {
    && Distinct(cs.ready) && Distinct(cs.scratch)
    && (forall ch :: Tokens(cs, ch) == Count(ch in waited))
  }

  /** No two workers share a channel. */
  ghost predicate OneOwner(workers: map<Id, Worker>) {
    forall v, w :: v in workers && w in workers && v != w ==> workers[v].ch != workers[w].ch
  }

  ghost predicate PoolApart(made: set<Chan>, pooled: set<Chan>, workers: map<Id, Worker>) {
    && pooled <= made && InUse(workers) <= made && pooled !! InUse(workers)
  }

  /** The workers that workersCount still counts. */
  function Counted(workers: map<Id, Worker>): set<Id> {
    set w | w in workers && !workers[w].phase.Ended?
  }

  // The place that is recorded for a connection is the one where it is, and it is nowhere else.

  ghost predicate SpawningAt(spawning: set<Conn>, place: map<Conn, Place>) {
    forall c :: c in spawning <==> c in place && place[c] == Spawning
  }

  ghost predicate HandedAt(handed: map<Chan, Conn>, place: map<Conn, Place>) {
    && (forall ch :: ch in handed ==> handed[ch] in place && place[handed[ch]] == Handed(ch))
    && (forall c :: c in place && place[c].Handed? ==> place[c].ch in handed && handed[place[c].ch] == c)
  }

  ghost predicate BufferedAt(cs: Chans, place: map<Conn, Place>) {
    && (forall ch, m :: m in Buf(cs, ch) && m.Job? ==> m.conn in place && place[m.conn] == Buffered(ch))
    && (forall c :: c in place && place[c].Buffered? ==> Job(c) in Buf(cs, place[c].ch))
  }

  ghost predicate WithAt(workers: map<Id, Worker>, place: map<Conn, Place>) {
    && (forall w :: w in workers && workers[w].phase.Serving? ==>
      workers[w].phase.conn in place && place[workers[w].phase.conn] == With(w))
    && (forall c :: c in place && place[c].With? ==>
      place[c].worker in workers && workers[place[c].worker].phase == Serving(c))
  }

  ghost predicate DoneAt(served: seq<Conn>, place: map<Conn, Place>) {
    Distinct(served) && forall c :: c in served <==> c in place && place[c] == Done
  }

  ghost predicate Located(s: State) {
    && SpawningAt(s.spawning, s.place)
    && HandedAt(s.cs.handed, s.place)
    && BufferedAt(s.cs, s.place)
    && WithAt(s.workers, s.place)
    && DoneAt(s.served, s.place)
  }

  ghost predicate Inv(s: State) {
    && OneToken(s.cs, WaitedOn(s.workers))
    && OneOwner(s.workers)
    && PoolApart(s.made, s.pooled, s.workers)
    && Located(s)
    && s.workersCount == Size(s.spawning) + Size(Counted(s.workers)) && s.workersCount <= s.maxWorkers
    && (s.mustStop ==> s.cs.ready == [])
  }

  lemma InitInv(maxWorkers: nat)
    ensures Inv(Init(maxWorkers))
  {
    assert WaitedOn(map[]) == {};
    assert Counted(map[]) == {};
  }

  // ---- Every step keeps it ----------------------------------------------------------------

  lemma HandLast(cs: Chans, waited: set<Chan>, n: nat, c: Conn)
    requires OneToken(cs, waited) && |cs.ready| == n + 1
    ensures OneToken(cs.(ready := cs.ready[..n], handed := cs.handed[cs.ready[n] := c]), waited)
  {
    var t := cs.(ready := cs.ready[..n], handed := cs.handed[cs.ready[n] := c]);
    assert cs.ready == cs.ready[..n] + [cs.ready[n]];
    forall ch ensures Tokens(t, ch) == Count(ch in waited) {
      assert Tokens(cs, ch) == Count(ch in waited);
    }
  }

  lemma HandNew(cs: Chans, waited: set<Chan>, ch: Chan, c: Conn)
    requires OneToken(cs, waited) && ch !in waited
    ensures OneToken(cs.(handed := cs.handed[ch := c]), waited + {ch})
  {
    forall x ensures Tokens(cs.(handed := cs.handed[ch := c]), x) == Count(x in waited + {ch}) {
      assert Tokens(cs, x) == Count(x in waited);
    }
  }

  lemma SendHanded(cs: Chans, waited: set<Chan>, ch: Chan, m: Msg)
    requires OneToken(cs, waited) && ch in cs.handed
    ensures OneToken(Put(cs, ch, m).(handed := cs.handed - {ch}), waited)
  {
    forall x ensures Tokens(Put(cs, ch, m).(handed := cs.handed - {ch}), x) == Count(x in waited) {
      assert Tokens(cs, x) == Count(x in waited);
    }
  }

  lemma SendQuit(cs: Chans, waited: set<Chan>)
    requires OneToken(cs, waited)
    ensures cs.scratch != [] ==> OneToken(Put(cs, cs.scratch[0], Quit).(scratch := cs.scratch[1..]), waited)
    ensures cs.ready != [] ==> OneToken(Put(cs, cs.ready[0], Quit).(ready := cs.ready[1..]), waited)
  {
    if cs.scratch != [] {
      assert cs.scratch == [cs.scratch[0]] + cs.scratch[1..];
      forall x ensures Tokens(Put(cs, cs.scratch[0], Quit).(scratch := cs.scratch[1..]), x) == Count(x in waited) {
        assert Tokens(cs, x) == Count(x in waited);
      }
    }
    if cs.ready != [] {
      assert cs.ready == [cs.ready[0]] + cs.ready[1..];
      forall x ensures Tokens(Put(cs, cs.ready[0], Quit).(ready := cs.ready[1..]), x) == Count(x in waited) {
        assert Tokens(cs, x) == Count(x in waited);
      }
    }
  }

  lemma CleanPrefix(cs: Chans, waited: set<Chan>, k: nat)
    requires OneToken(cs, waited) && cs.scratch == [] && k <= |cs.ready|
    ensures OneToken(cs.(scratch := cs.ready[..k], ready := cs.ready[k..]), waited)
  {
    assert cs.ready == cs.ready[..k] + cs.ready[k..];
    forall x ensures Tokens(cs.(scratch := cs.ready[..k], ready := cs.ready[k..]), x) == Count(x in waited) {
      assert Tokens(cs, x) == Count(x in waited);
      assert !(x in cs.ready[..k] && x in cs.ready[k..]);
    }
  }

  lemma ReceiveOne(cs: Chans, waited: set<Chan>, ch: Chan)
    requires OneToken(cs, waited) && Buf(cs, ch) != []
    ensures OneToken(cs.(buf := cs.buf[ch := Buf(cs, ch)[1..]]), waited - {ch})
  {
    forall x ensures Tokens(cs.(buf := cs.buf[ch := Buf(cs, ch)[1..]]), x) == Count(x in waited - {ch}) {
      assert Tokens(cs, x) == Count(x in waited);
    }
  }

  lemma PutReady(cs: Chans, waited: set<Chan>, ch: Chan)
    requires OneToken(cs, waited) && ch !in waited
    ensures OneToken(cs.(ready := cs.ready + [ch]), waited + {ch})
  {
    assert Tokens(cs, ch) == 0;
    forall x ensures Tokens(cs.(ready := cs.ready + [ch]), x) == Count(x in waited + {ch}) {
      assert Tokens(cs, x) == Count(x in waited);
    }
  }

  /** What a change of one worker's phase does to the channels that are waited on. */
  lemma Turn(workers: map<Id, Worker>, w: Id, p: Phase)
    requires w in workers && OneOwner(workers)
    ensures var t := workers[w := workers[w].(phase := p)];
      && OneOwner(t) && InUse(t) == InUse(workers)
      && WaitedOn(t) ==
        if p.Waiting? then WaitedOn(workers) + {workers[w].ch}
        else if workers[w].phase.Waiting? then WaitedOn(workers) - {workers[w].ch}
        else WaitedOn(workers)
    ensures workers[w].ch in WaitedOn(workers) <==> workers[w].phase.Waiting?
  {
    var t := workers[w := workers[w].(phase := p)];
    forall ch | ch in InUse(workers) ensures ch in InUse(t) {
      var v :| v in workers && workers[v].ch == ch;
      assert v in t && t[v].ch == ch;
    }
    forall ch | ch in WaitedOn(workers) && ch != workers[w].ch ensures ch in WaitedOn(t) {
      var v :| v in workers && workers[v].phase.Waiting? && workers[v].ch == ch;
      assert v in t && t[v].phase.Waiting? && t[v].ch == ch;
    }
    if p.Waiting? {
      assert w in t && t[w].phase.Waiting? && t[w].ch == workers[w].ch;
    }
  }

  lemma OneTokenKept(s: State, step: Step)
    requires OneToken(s.cs, WaitedOn(s.workers)) && OneOwner(s.workers) && Enabled(s, step)
    requires PoolApart(s.made, s.pooled, s.workers)
    ensures var t := Next(s, step); OneToken(t.cs, WaitedOn(t.workers)) && OneOwner(t.workers)
  {
    hide Located, Inv, OneToken, OneOwner, Tokens, Buf, Put;
    var cs, waited := s.cs, WaitedOn(s.workers);
    match step {
      case OfferReady(c) => HandLast(cs, waited, |cs.ready| - 1, c);
      case Spawn(c, ch, w) => Start(s.workers, ch, w); HandNew(cs, waited, ch, c);
      case Send(ch) => SendHanded(cs, waited, ch, Job(cs.handed[ch]));
      case Receive(w) =>
        Turn(s.workers, w, Next(s, step).workers[w].phase);
        ReceiveOne(cs, waited, s.workers[w].ch);
      case Finish(w) => Turn(s.workers, w, Finished);
      case Release(w) =>
        Turn(s.workers, w, if s.mustStop then Leaving else Waiting);
        if !s.mustStop { PutReady(cs, waited, s.workers[w].ch); }
      case Leave(w) => Turn(s.workers, w, Ended);
      case Recycle(w) => Turn(s.workers, w, Ended); Drop(s.workers, w);
      case Clean(k) => CleanPrefix(cs, waited, k);
      case CleanSend => SendQuit(cs, waited);
      case StopSend => SendQuit(cs, waited);
      case _ =>
    }
  }

  lemma Start(workers: map<Id, Worker>, ch: Chan, w: Id)
    requires w !in workers && OneOwner(workers) && ch !in InUse(workers)
    ensures var t := workers[w := Worker(ch, Waiting)];
      && OneOwner(t) && InUse(t) == InUse(workers) + {ch} && WaitedOn(t) == WaitedOn(workers) + {ch}
    ensures ch !in WaitedOn(workers)
  {
    var t := workers[w := Worker(ch, Waiting)];
    assert w in t && t[w].ch == ch;
    forall x | x in InUse(workers) ensures x in InUse(t) {
      var v :| v in workers && workers[v].ch == x;
      assert v in t && t[v].ch == x;
    }
    forall x | x in WaitedOn(workers) ensures x in WaitedOn(t) {
      var v :| v in workers && workers[v].phase.Waiting? && workers[v].ch == x;
      assert v in t && t[v] == workers[v];
    }
  }

  lemma Drop(workers: map<Id, Worker>, w: Id)
    requires w in workers && OneOwner(workers) && workers[w].phase.Ended?
    ensures var t := workers - {w};
      && OneOwner(t) && InUse(t) == InUse(workers) - {workers[w].ch} && WaitedOn(t) == WaitedOn(workers)
  {
    var t := workers - {w};
    forall x | x in InUse(workers) && x != workers[w].ch ensures x in InUse(t) {
      var v :| v in workers && workers[v].ch == x;
      assert v in t && t[v].ch == x;
    }
    forall x | x in WaitedOn(workers) ensures x in WaitedOn(t) {
      var v :| v in workers && workers[v].phase.Waiting? && workers[v].ch == x;
      assert v in t && t[v] == workers[v];
    }
  }

  lemma PoolApartKept(s: State, step: Step)
    requires PoolApart(s.made, s.pooled, s.workers) && OneOwner(s.workers) && Enabled(s, step)
    ensures var t := Next(s, step); PoolApart(t.made, t.pooled, t.workers)
  {
    hide Located, Inv, OneToken, OneOwner, WaitedOn, InUse;
    match step {
      case Spawn(c, ch, w) => Start(s.workers, ch, w);
      case Receive(w) => Turn(s.workers, w, Next(s, step).workers[w].phase);
      case Finish(w) => Turn(s.workers, w, Finished);
      case Release(w) => Turn(s.workers, w, Next(s, step).workers[w].phase);
      case Leave(w) => Turn(s.workers, w, Ended);
      case Recycle(w) => Drop(s.workers, w); assert s.workers[w].ch in InUse(s.workers) by { Uses(s.workers, w); }
      case _ =>
    }
  }

  lemma Uses(workers: map<Id, Worker>, w: Id)
    requires w in workers
    ensures workers[w].ch in InUse(workers)
  {
  }

  lemma TokenHere(cs: Chans, waited: set<Chan>, ch: Chan)
    requires OneToken(cs, waited)
    ensures ch in cs.ready ==> ch !in cs.handed && Buf(cs, ch) == []
    ensures ch in cs.handed ==> Buf(cs, ch) == []
    ensures ch !in waited ==> ch !in cs.handed && ch !in cs.ready && ch !in cs.scratch && Buf(cs, ch) == []
    ensures |Buf(cs, ch)| <= 1
  {
    assert Tokens(cs, ch) == Count(ch in waited);
  }

  /** A connection that moves between two other places does not matter to a place. */
  lemma Elsewhere(s: State, c: Conn, p: Place)
    requires c in s.place ==> s.place[c] != p
    ensures SpawningAt(s.spawning, s.place) && (c in s.place ==> !s.place[c].Spawning?) && !p.Spawning? ==>
      SpawningAt(s.spawning, s.place[c := p])
    ensures HandedAt(s.cs.handed, s.place) && (c in s.place ==> !s.place[c].Handed?) && !p.Handed? ==>
      HandedAt(s.cs.handed, s.place[c := p])
    ensures BufferedAt(s.cs, s.place) && (c in s.place ==> !s.place[c].Buffered?) && !p.Buffered? ==>
      BufferedAt(s.cs, s.place[c := p])
    ensures WithAt(s.workers, s.place) && (c in s.place ==> !s.place[c].With?) && !p.With? ==>
      WithAt(s.workers, s.place[c := p])
    ensures DoneAt(s.served, s.place) && (c in s.place ==> !s.place[c].Done?) && !p.Done? ==>
      DoneAt(s.served, s.place[c := p])
  {
  }

  /** Where the connection of a step comes from. */
  lemma From(s: State, step: Step)
    requires Located(s) && Enabled(s, step)
    ensures step.Spawn? ==> step.c in s.place && s.place[step.c] == Spawning
    ensures step.Send? ==> s.cs.handed[step.ch] in s.place && s.place[s.cs.handed[step.ch]] == Handed(step.ch)
    ensures step.Receive? ==>
      var m := Buf(s.cs, s.workers[step.w].ch)[0];
      m.Job? ==> m.conn in s.place && s.place[m.conn] == Buffered(s.workers[step.w].ch)
    ensures step.Finish? ==>
      var c := s.workers[step.w].phase.conn;
      c in s.place && s.place[c] == With(step.w)
  {
    if step.Receive? {
      assert Buf(s.cs, s.workers[step.w].ch)[0] in Buf(s.cs, s.workers[step.w].ch);
    }
  }

  lemma SpawningKept(s: State, step: Step)
    requires Located(s) && Enabled(s, step)
    ensures var t := Next(s, step); SpawningAt(t.spawning, t.place)
  {
    From(s, step);
    hide HandedAt, BufferedAt, WithAt, DoneAt, Located, Put, Buf;
  }

  lemma HandOver(handed: map<Chan, Conn>, place: map<Conn, Place>, ch: Chan, c: Conn)
    requires HandedAt(handed, place) && ch !in handed && (c in place ==> !place[c].Handed?)
    ensures HandedAt(handed[ch := c], place[c := Handed(ch)])
  {
  }

  lemma HandAway(handed: map<Chan, Conn>, place: map<Conn, Place>, ch: Chan, p: Place)
    requires HandedAt(handed, place) && ch in handed && !p.Handed?
    ensures HandedAt(handed - {ch}, place[handed[ch] := p])
  {
  }

  lemma HandedKept(s: State, step: Step)
    requires Located(s) && Enabled(s, step)
    requires OneToken(s.cs, WaitedOn(s.workers)) && OneOwner(s.workers) && PoolApart(s.made, s.pooled, s.workers)
    ensures var t := Next(s, step); HandedAt(t.cs.handed, t.place)
  {
    From(s, step);
    assert HandedAt(s.cs.handed, s.place);
    hide SpawningAt, HandedAt, BufferedAt, WithAt, DoneAt, Located, Put, Buf, OneToken, OneOwner;
    var cs, waited, place := s.cs, WaitedOn(s.workers), s.place;
    match step {
      case OfferReady(c) =>
        TokenHere(cs, waited, cs.ready[|cs.ready| - 1]);
        HandOver(cs.handed, place, cs.ready[|cs.ready| - 1], c);
      case OfferNew(c) => Elsewhere(s, c, Spawning);
      case Spawn(c, ch, w) =>
        Start(s.workers, ch, w);
        TokenHere(cs, waited, ch);
        HandOver(cs.handed, place, ch, c);
      case Send(ch) => HandAway(cs.handed, place, ch, Buffered(ch));
      case Receive(w) =>
        var m := Buf(cs, s.workers[w].ch)[0];
        if m.Job? { Elsewhere(s, m.conn, With(w)); }
      case Finish(w) => Elsewhere(s, s.workers[w].phase.conn, Done);
      case _ =>
    }
  }

  lemma SendAt(cs: Chans, place: map<Conn, Place>, ch: Chan, c: Conn)
    requires BufferedAt(cs, place) && Buf(cs, ch) == [] && (c in place ==> !place[c].Buffered?)
    ensures BufferedAt(Put(cs, ch, Job(c)), place[c := Buffered(ch)])
  {
    var t := Put(cs, ch, Job(c));
    assert Buf(t, ch) == [Job(c)];
    assert forall x :: x != ch ==> Buf(t, x) == Buf(cs, x);
  }

  lemma QuitAt(cs: Chans, place: map<Conn, Place>, ch: Chan)
    requires BufferedAt(cs, place)
    ensures BufferedAt(Put(cs, ch, Quit), place)
  {
    var t := Put(cs, ch, Quit);
    assert Buf(t, ch) == Buf(cs, ch) + [Quit];
    assert forall x :: x != ch ==> Buf(t, x) == Buf(cs, x);
  }

  lemma ReceiveAt(cs: Chans, place: map<Conn, Place>, ch: Chan, p: Place)
    requires BufferedAt(cs, place) && |Buf(cs, ch)| == 1 && !p.Buffered?
    ensures var t := cs.(buf := cs.buf[ch := Buf(cs, ch)[1..]]);
      match Buf(cs, ch)[0]
      case Job(c) => BufferedAt(t, place[c := p])
      case Quit => BufferedAt(t, place)
  {
    var t := cs.(buf := cs.buf[ch := Buf(cs, ch)[1..]]);
    assert Buf(t, ch) == [] && Buf(cs, ch) == [Buf(cs, ch)[0]];
    assert Buf(cs, ch)[0] in Buf(cs, ch);
    assert forall x :: x != ch ==> Buf(t, x) == Buf(cs, x);
  }

  /** Whether a buffer or the way there is all that counts. */
  lemma SameBuffers(cs: Chans, t: Chans, place: map<Conn, Place>)
    requires BufferedAt(cs, place) && t.buf == cs.buf
    ensures BufferedAt(t, place)
  {
    assert forall ch :: Buf(t, ch) == Buf(cs, ch);
  }

  lemma BufferedKept(s: State, step: Step)
    requires Located(s) && Enabled(s, step) && OneToken(s.cs, WaitedOn(s.workers))
    ensures var t := Next(s, step); BufferedAt(t.cs, t.place)
  {
    From(s, step);
    assert BufferedAt(s.cs, s.place);
    hide SpawningAt, HandedAt, BufferedAt, WithAt, DoneAt, Located, Put, Buf, OneToken;
    var cs, waited, place, t := s.cs, WaitedOn(s.workers), s.place, Next(s, step);
    match step {
      case OfferReady(c) =>
        Elsewhere(s, c, Handed(cs.ready[|cs.ready| - 1]));
        SameBuffers(cs, t.cs, t.place);
      case OfferNew(c) => Elsewhere(s, c, Spawning);
      case Spawn(c, ch, w) =>
        Elsewhere(s, c, Handed(ch));
        SameBuffers(cs, t.cs, t.place);
      case Send(ch) =>
        TokenHere(cs, waited, ch);
        SendAt(cs, place, ch, cs.handed[ch]);
        SameBuffers(Put(cs, ch, Job(cs.handed[ch])), t.cs, t.place);
      case Receive(w) =>
        TokenHere(cs, waited, s.workers[w].ch);
        ReceiveAt(cs, place, s.workers[w].ch, With(w));
      case Finish(w) => Elsewhere(s, s.workers[w].phase.conn, Done);
      case Release(w) => SameBuffers(cs, t.cs, place);
      case Clean(k) => SameBuffers(cs, t.cs, place);
      case CleanSend =>
        QuitAt(cs, place, cs.scratch[0]);
        SameBuffers(Put(cs, cs.scratch[0], Quit), t.cs, place);
      case StopSend =>
        QuitAt(cs, place, cs.ready[0]);
        SameBuffers(Put(cs, cs.ready[0], Quit), t.cs, place);
      case _ =>
    }
  }

  lemma BeginAt(workers: map<Id, Worker>, place: map<Conn, Place>, w: Id, c: Conn)
    requires WithAt(workers, place) && w in workers && !workers[w].phase.Serving? && (c in place ==> !place[c].With?)
    ensures WithAt(workers[w := workers[w].(phase := Serving(c))], place[c := With(w)])
  {
  }

  lemma EndAt(workers: map<Id, Worker>, place: map<Conn, Place>, w: Id, p: Place)
    requires WithAt(workers, place) && w in workers && workers[w].phase.Serving? && !p.With?
    ensures WithAt(workers[w := workers[w].(phase := Finished)], place[workers[w].phase.conn := p])
  {
  }

  lemma IdlyAt(workers: map<Id, Worker>, place: map<Conn, Place>, w: Id, v: Worker)
    requires WithAt(workers, place) && (w in workers ==> !workers[w].phase.Serving?)
    ensures WithAt(workers - {w}, place)
    ensures !v.phase.Serving? ==> WithAt(workers[w := v], place)
  {
  }

  lemma WithKept(s: State, step: Step)
    requires Located(s) && Enabled(s, step)
    ensures var t := Next(s, step); WithAt(t.workers, t.place)
  {
    From(s, step);
    assert WithAt(s.workers, s.place);
    hide SpawningAt, HandedAt, BufferedAt, WithAt, DoneAt, Located, Put, Buf;
    var cs, place, workers := s.cs, s.place, s.workers;
    match step {
      case OfferReady(c) => Elsewhere(s, c, Handed(cs.ready[|cs.ready| - 1]));
      case OfferNew(c) => Elsewhere(s, c, Spawning);
      case Spawn(c, ch, w) =>
        Elsewhere(s, c, Handed(ch));
        IdlyAt(workers, place[c := Handed(ch)], w, Worker(ch, Waiting));
      case Send(ch) => Elsewhere(s, cs.handed[ch], Buffered(ch));
      case Receive(w) =>
        var m := Buf(cs, workers[w].ch)[0];
        if m.Job? {
          BeginAt(workers, place, w, m.conn);
        } else {
          IdlyAt(workers, place, w, workers[w].(phase := Leaving));
        }
      case Finish(w) => EndAt(workers, place, w, Done);
      case Release(w) => IdlyAt(workers, place, w, Next(s, step).workers[w]);
      case Leave(w) => IdlyAt(workers, place, w, workers[w].(phase := Ended));
      case Recycle(w) => IdlyAt(workers, place, w, workers[w]);
      case _ =>
    }
  }

  lemma DoneKept(s: State, step: Step)
    requires Located(s) && Enabled(s, step)
    ensures var t := Next(s, step); DoneAt(t.served, t.place)
  {
    From(s, step);
    hide SpawningAt, HandedAt, BufferedAt, WithAt, Located, Put, Buf;
  }

  // ---- Counting ---------------------------------------------------------------------------

  lemma CountedAfter(workers: map<Id, Worker>, w: Id, v: Worker)
    ensures Counted(workers[w := v]) == if v.phase.Ended? then Counted(workers) - {w} else Counted(workers) + {w}
    ensures Counted(workers - {w}) == Counted(workers) - {w}
    ensures w !in Counted(workers) ==> Counted(workers) - {w} == Counted(workers)
    ensures w in Counted(workers) ==> Counted(workers) + {w} == Counted(workers)
    ensures w in Counted(workers) <==> w in workers && !workers[w].phase.Ended?
  {
  }

  lemma CountKept(s: State, step: Step)
    requires SpawningAt(s.spawning, s.place) && Enabled(s, step)
    requires s.workersCount == Size(s.spawning) + Size(Counted(s.workers)) && s.workersCount <= s.maxWorkers
    ensures var t := Next(s, step);
      t.workersCount == Size(t.spawning) + Size(Counted(t.workers)) && t.workersCount <= t.maxWorkers
  {
    hide Size, Counted, Put, Buf;
    var workers := s.workers;
    match step {
      case OfferNew(c) => Plus(s.spawning, c);
      case Spawn(c, ch, w) =>
        Minus(s.spawning, c);
        CountedAfter(workers, w, Worker(ch, Waiting));
        Plus(Counted(workers), w);
      case Receive(w) => CountedAfter(workers, w, Next(s, step).workers[w]);
      case Finish(w) => CountedAfter(workers, w, Next(s, step).workers[w]);
      case Release(w) => CountedAfter(workers, w, Next(s, step).workers[w]);
      case Leave(w) => CountedAfter(workers, w, workers[w].(phase := Ended)); Minus(Counted(workers), w);
      case Recycle(w) => CountedAfter(workers, w, workers[w]);
      case _ =>
    }
  }

  lemma StoppedKept(s: State, step: Step)
    requires (s.mustStop ==> s.cs.ready == []) && Enabled(s, step)
    ensures var t := Next(s, step); t.mustStop ==> t.cs.ready == []
    ensures s.mustStop ==> Next(s, step).mustStop
  {
  }

  lemma StepKeeps(s: State, step: Step)
    requires Inv(s) && Enabled(s, step)
    ensures Inv(Next(s, step))
  {
    OneTokenKept(s, step);
    PoolApartKept(s, step);
    SpawningKept(s, step);
    HandedKept(s, step);
    BufferedKept(s, step);
    WithKept(s, step);
    DoneKept(s, step);
    CountKept(s, step);
    StoppedKept(s, step);
    hide Next, Enabled, OneToken, OneOwner, PoolApart, SpawningAt, HandedAt, BufferedAt, WithAt, DoneAt;
  }

  // ---- What holds of every run ------------------------------------------------------------

  /** The steps lead from one state to the other, each one enabled where it is taken. */
  ghost predicate Run(s: State, steps: seq<Step>, t: State)
    decreases |steps|
  {
    if steps == [] then s == t
    else Enabled(s, steps[0]) && Run(Next(s, steps[0]), steps[1..], t)
  }

  lemma {:induction false} RunKeeps(s: State, steps: seq<Step>, t: State)
    requires Inv(s) && Run(s, steps, t)
    ensures Inv(t) && t.maxWorkers == s.maxWorkers
    decreases |steps|
  {
    hide Inv, Enabled;
    if steps != [] {
      StepKeeps(s, steps[0]);
      RunKeeps(Next(s, steps[0]), steps[1..], t);
    }
  }

  /** workersCount counts the workers, those about to start and those about to end, and stays within its limit. */
  lemma WorkersCounted(maxWorkers: nat, steps: seq<Step>, t: State)
    requires Run(Init(maxWorkers), steps, t)
    ensures t.workersCount == |t.spawning| + |Counted(t.workers)|
    ensures 0 <= t.workersCount <= maxWorkers
  {
    InitInv(maxWorkers);
    RunKeeps(Init(maxWorkers), steps, t);
    hide Run, OneToken, OneOwner, PoolApart, Located;
  }

  /** Every ready entry is the channel of a worker of its own that waits, with nothing sent to it and no other sender. */
  lemma ReadyIsIdle(maxWorkers: nat, steps: seq<Step>, t: State, i: nat)
    requires Run(Init(maxWorkers), steps, t) && i < |t.cs.ready|
    ensures var ch := t.cs.ready[i];
      && (exists w :: w in t.workers && t.workers[w] == Worker(ch, Waiting))
      && (forall v, w :: v in t.workers && w in t.workers && t.workers[v].ch == ch == t.workers[w].ch ==> v == w)
      && Buf(t.cs, ch) == [] && ch !in t.cs.handed && ch !in t.cs.scratch && ch !in t.pooled
      && (forall j :: 0 <= j < |t.cs.ready| && j != i ==> t.cs.ready[j] != ch)
  {
    InitInv(maxWorkers);
    RunKeeps(Init(maxWorkers), steps, t);
    hide Run, Located;
    var ch := t.cs.ready[i];
    assert ch in t.cs.ready && Tokens(t.cs, ch) == Count(ch in WaitedOn(t.workers));
    var w :| w in t.workers && t.workers[w].phase.Waiting? && t.workers[w].ch == ch;
    assert t.workers[w] == Worker(ch, Waiting);
    assert ch in InUse(t.workers);
  }

  /** A send never finds its channel full, and a recycled channel is empty and nobody's. */
  lemma ChannelsFit(maxWorkers: nat, steps: seq<Step>, t: State, ch: Chan)
    requires Run(Init(maxWorkers), steps, t)
    ensures |Buf(t.cs, ch)| <= 1
    ensures ch in t.cs.handed || ch in t.cs.scratch || ch in t.cs.ready ==> Buf(t.cs, ch) == []
    ensures ch in t.pooled ==>
      Buf(t.cs, ch) == [] && ch !in t.cs.handed && ch !in t.cs.scratch && ch !in t.cs.ready && ch !in InUse(t.workers)
  {
    InitInv(maxWorkers);
    RunKeeps(Init(maxWorkers), steps, t);
    hide Run, Located;
    assert Tokens(t.cs, ch) == Count(ch in WaitedOn(t.workers));
    assert WaitedOn(t.workers) <= InUse(t.workers);
  }

  /** The steps that bring connection c on its way. */
  predicate Forwards(s: State, step: Step, c: Conn) {
    match step
    case Spawn(d, _, _) => d == c
    case Send(ch) => ch in s.cs.handed && s.cs.handed[ch] == c
    case Receive(w) => w in s.workers && Buf(s.cs, s.workers[w].ch) != [] && Buf(s.cs, s.workers[w].ch)[0] == Job(c)
    case Finish(w) => At(s, w, Serving(c))
    case _ => false
  }

  /** How many of them connection c still needs. */
  function StepsLeft(p: Place): nat {
    match p
    case Spawning => 4
    case Handed(_) => 3
    case Buffered(_) => 2
    case With(_) => 1
    case Done => 0
  }

  /**
   * A connection is in one place: with a worker or on its way to one, or served, and then once. It is
   * never stuck: as long as it is not served there is a step that brings it on its way.
   */
  lemma ServedOnce(maxWorkers: nat, steps: seq<Step>, t: State, c: Conn)
    requires Run(Init(maxWorkers), steps, t)
    ensures forall i, j :: 0 <= i < j < |t.served| && t.served[i] == c ==> t.served[j] != c
    ensures forall ch :: Job(c) in Buf(t.cs, ch) ==> c !in t.served
    ensures forall v, w :: At(t, v, Serving(c)) && At(t, w, Serving(c)) ==> v == w && c !in t.served
    ensures c in t.served ==> c in t.place
    ensures c in t.place ==> c in t.served || exists step :: Enabled(t, step) && Forwards(t, step, c)
  {
    InitInv(maxWorkers);
    RunKeeps(Init(maxWorkers), steps, t);
    InOnePlace(t, c);
    if c in t.place && c !in t.served {
      var step := NotStuck(t, c);
    }
    hide Run, Inv, Located, Enabled, Forwards;
  }

  /** Each such step leaves it one fewer to go, at most four in all, and no other step gives it more. */
  lemma ServedInFour(s: State, step: Step, c: Conn)
    requires Inv(s) && Enabled(s, step) && c in s.place
    ensures c in Next(s, step).place
    ensures StepsLeft(Next(s, step).place[c]) ==
              StepsLeft(s.place[c]) - if Forwards(s, step, c) then 1 else 0
    ensures StepsLeft(s.place[c]) == 0 <==> c in s.served
  {
    hide OneToken, OneOwner, PoolApart, Size, Counted, WaitedOn;
    if step.Receive? {
      ReceivedFrom(s, step.w);
    }
    hide Buf;
  }

  lemma ReceivedFrom(s: State, w: Id)
    requires Inv(s) && Enabled(s, Receive(w))
    ensures var m := Buf(s.cs, s.workers[w].ch)[0];
      m.Job? ==> m.conn in s.place && s.place[m.conn].Buffered?
  {
    hide OneToken, OneOwner, PoolApart, Size, Counted, WaitedOn;
    assert Buf(s.cs, s.workers[w].ch)[0] in Buf(s.cs, s.workers[w].ch);
  }

  lemma InOnePlace(s: State, c: Conn)
    requires Inv(s)
    ensures forall i, j :: 0 <= i < j < |s.served| && s.served[i] == c ==> s.served[j] != c
    ensures forall ch :: Job(c) in Buf(s.cs, ch) ==> c !in s.served
    ensures forall v, w :: At(s, v, Serving(c)) && At(s, w, Serving(c)) ==> v == w && c !in s.served
    ensures c in s.served ==> c in s.place
  {
    hide OneToken, OneOwner, PoolApart, SpawningAt, HandedAt;
    forall ch | Job(c) in Buf(s.cs, ch) ensures c !in s.served {
      assert s.place[Job(c).conn] == Buffered(ch);
    }
    forall v, w | At(s, v, Serving(c)) && At(s, w, Serving(c)) ensures v == w && c !in s.served {
      assert s.place[s.workers[v].phase.conn] == With(v);
      assert s.place[s.workers[w].phase.conn] == With(w);
    }
  }

  lemma NotStuck(s: State, c: Conn) returns (step: Step)
    requires Inv(s) && c in s.place && c !in s.served
    ensures Enabled(s, step) && Forwards(s, step, c)
  {
    assert s.place[c] != Done;
    match s.place[c] {
      case Spawning =>
        var ch := Unused(s.made);
        var w := Unused(s.workers.Keys);
        step := Spawn(c, ch, w);
      case Handed(ch) => step := Send(ch);
      case Buffered(ch) =>
        assert Buf(s.cs, ch) != [];
        assert Tokens(s.cs, ch) == Count(ch in WaitedOn(s.workers));
        var w :| w in s.workers && s.workers[w].phase.Waiting? && s.workers[w].ch == ch;
        step := Receive(w);
      case With(w) => step := Finish(w);
    }
  }

  lemma {:induction false} Unused(a: set<nat>) returns (n: nat)
    ensures forall x :: x in a ==> x < n
    decreases a
  {
    n := 0;
    if a != {} {
      var x :| x in a;
      var m := Unused(a - {x});
      n := if m <= x then x + 1 else m;
      assert forall y :: y in a ==> y == x || y in a - {x};
    }
  }

  /** Once stopped, the pool keeps no worker for later, whatever happens afterwards. */
  lemma {:induction false} StoppedForGood(s: State, steps: seq<Step>, t: State)
    requires Inv(s) && s.mustStop && Run(s, steps, t)
    ensures t.mustStop && t.cs.ready == []
    decreases |steps|
  {
    hide Enabled, Next, OneToken, OneOwner, PoolApart, Located, Size;
    if steps != [] {
      StepKeeps(s, steps[0]);
      StoppedKept(s, steps[0]);
      StoppedForGood(Next(s, steps[0]), steps[1..], t);
    }
  }

  /** When Stop is through, in any run, no worker is ready then or later. */
  lemma {:induction false} StopStops(s: State, steps: seq<Step>, t: State)
    requires Inv(s) && Run(s, steps, t) && StopEnd in steps
    ensures t.mustStop && t.cs.ready == []
    decreases |steps|
  {
    var u := Next(s, steps[0]);
    StepKeeps(s, steps[0]);
    assert steps[0] == StopEnd ==> u.mustStop;
    hide Enabled, Next, Inv;
    if steps[0] == StopEnd {
      StoppedForGood(u, steps[1..], t);
    } else {
      StopStops(u, steps[1..], t);
    }
  }

  /** Nor does any worker wait for ever: each one that waits has a message, or somebody is about to send it one. */
  lemma NobodyLeftWaiting(maxWorkers: nat, steps: seq<Step>, t: State, w: Id)
    requires Run(Init(maxWorkers), steps, t) && StopEnd in steps && At(t, w, Waiting)
    ensures var ch := t.workers[w].ch;
      ch in t.cs.handed || ch in t.cs.scratch || Buf(t.cs, ch) != []
  {
    InitInv(maxWorkers);
    RunKeeps(Init(maxWorkers), steps, t);
    StopStops(Init(maxWorkers), steps, t);
    hide Run, Located;
    var ch := t.workers[w].ch;
    assert ch in WaitedOn(t.workers);
    assert Tokens(t.cs, ch) == Count(ch in WaitedOn(t.workers));
  }

  /** Whom getCh turns away: a connection that comes when no worker is ready and all slots are taken, and no other. */
  lemma OfferDecides(s: State, c: Conn)
    requires s.lock.Free? && c !in s.place
    ensures Enabled(s, OfferReady(c)) <==> s.cs.ready != []
    ensures Enabled(s, OfferNew(c)) <==> s.cs.ready == [] && s.workersCount < s.maxWorkers
  {
  }

  /** The connection goes to the worker that was released last, which has been idle for the shortest time. */
  lemma LastReleasedFirst(s: State, w: Id, c: Conn)
    requires Enabled(s, Release(w)) && !s.mustStop && c !in s.place
    ensures var t := Next(s, Release(w));
      && At(t, w, Waiting) && Enabled(t, OfferReady(c))
      && var u := Next(t, OfferReady(c));
        && s.workers[w].ch in u.cs.handed && u.cs.handed[s.workers[w].ch] == c
        && u.cs.ready == s.cs.ready && u.place[c] == Handed(s.workers[w].ch)
  {
  }

  // ---- Telling workers to quit ------------------------------------------------------------

  lemma {:induction false} RunOn(s: State, a: seq<Step>, t: State, b: seq<Step>, u: State)
    requires Run(s, a, t) && Run(t, b, u)
    ensures Run(s, a + b, u)
    decreases |a|
  {
    hide Enabled, Next;
    if a == [] {
      assert a + b == b;
    } else {
      RunOn(Next(s, a[0]), a[1..], t, b, u);
      assert (a + b)[1..] == a[1..] + b;
    }
  }

  lemma OneStep(s: State, step: Step)
    requires Enabled(s, step)
    ensures Run(s, [step], Next(s, step))
  {
    hide Enabled, Next;
    assert [step][1..] == [];
  }

  /** These channels, and no others, got one more message that says to quit. */
  ghost predicate Told(q: seq<Chan>, cs: Chans, ds: Chans) {
    && ds.handed == cs.handed
    && forall ch :: Buf(ds, ch) == Buf(cs, ch) + if ch in q then [Quit] else []
  }

  lemma {:induction false} StopSends(s: State) returns (steps: seq<Step>, t: State)
    requires s.lock.Stopping? && Distinct(s.cs.ready)
    ensures Run(s, steps, t) && Told(s.cs.ready, s.cs, t.cs) && t == s.(cs := t.cs)
    ensures t.cs.ready == [] && t.cs.scratch == s.cs.scratch
    decreases |s.cs.ready|
  {
    if s.cs.ready == [] {
      steps, t := [], s;
    } else {
      var u := Next(s, StopSend);
      OneStep(s, StopSend);
      assert s.cs.ready == [s.cs.ready[0]] + u.cs.ready;
      var rest;
      rest, t := StopSends(u);
      RunOn(s, [StopSend], u, rest, t);
      steps := [StopSend] + rest;
      hide Run;
    }
  }

  lemma {:induction false} CleanSends(s: State) returns (steps: seq<Step>, t: State)
    requires Distinct(s.cs.scratch)
    ensures Run(s, steps, t) && Told(s.cs.scratch, s.cs, t.cs) && t == s.(cs := t.cs)
    ensures t.cs.scratch == [] && t.cs.ready == s.cs.ready
    decreases |s.cs.scratch|
  {
    if s.cs.scratch == [] {
      steps, t := [], s;
    } else {
      var u := Next(s, CleanSend);
      OneStep(s, CleanSend);
      assert s.cs.scratch == [s.cs.scratch[0]] + u.cs.scratch;
      var rest;
      rest, t := CleanSends(u);
      RunOn(s, [CleanSend], u, rest, t);
      steps := [CleanSend] + rest;
      hide Run;
    }
  }

  /** Stop without interference tells every ready worker to quit, and no other. */
  lemma StopSection(s: State) returns (steps: seq<Step>, t: State)
    requires s.lock.Free? && Distinct(s.cs.ready)
    ensures Run(s, steps, t) && t.lock.Free? && t.mustStop && t.cs.ready == [] && t.workers == s.workers
    ensures forall ch :: Buf(t.cs, ch) == Buf(s.cs, ch) + if ch in s.cs.ready then [Quit] else []
  {
    var a := Next(s, StopBegin);
    OneStep(s, StopBegin);
    var sends, b := StopSends(a);
    RunOn(s, [StopBegin], a, sends, b);
    OneStep(b, StopEnd);
    RunOn(s, [StopBegin] + sends, b, [StopEnd], Next(b, StopEnd));
    steps, t := [StopBegin] + sends + [StopEnd], Next(b, StopEnd);
    hide Run;
  }

  /** clean without interference tells the k workers that were released first to quit, and no other. */
  lemma CleanSection(s: State, k: nat) returns (steps: seq<Step>, t: State)
    requires s.lock.Free? && s.cs.scratch == [] && k <= |s.cs.ready| && Distinct(s.cs.ready)
    ensures Run(s, steps, t) && t.cs.scratch == [] && t.cs.ready == s.cs.ready[k..] && t.workers == s.workers
    ensures forall ch :: Buf(t.cs, ch) == Buf(s.cs, ch) + if ch in s.cs.ready[..k] then [Quit] else []
  {
    var a := Next(s, Clean(k));
    OneStep(s, Clean(k));
    var sends, b := CleanSends(a);
    RunOn(s, [Clean(k)], a, sends, b);
    steps, t := [Clean(k)] + sends, b;
    hide Run;
  }

  /** While Stop goes through the ready workers nobody else touches them, or workersCount. */
  lemma StopIsAlone(s: State, step: Step)
    requires s.lock.Stopping? && Enabled(s, step)
    ensures step.StopSend? || (step.StopEnd? && s.cs.ready == []) || Next(s, step).cs.ready == s.cs.ready
    ensures step.StopEnd? || (Next(s, step).lock.Stopping? && Next(s, step).mustStop == s.mustStop)
    ensures Next(s, step).workersCount == s.workersCount
  {
  }

  /** Nobody is told to quit but by clean and Stop, and the pool is stopped by Stop alone. */
  lemma ToldOnlyThen(s: State, step: Step, ch: Chan)
    requires s.lock.Free? && s.cs.scratch == [] && Enabled(s, step)
    ensures Quit in Buf(Next(s, step).cs, ch) ==> Quit in Buf(s.cs, ch)
    ensures Next(s, step).mustStop == s.mustStop
    ensures ch in s.cs.ready && !step.OfferReady? && !step.Clean? ==> ch in Next(s, step).cs.ready
  {
  }

  /** A worker that is told to quit leaves: it gives up its slot, and its channel can be used again. */
  lemma QuitLeaves(s: State, w: Id)
    requires At(s, w, Waiting) && Buf(s.cs, s.workers[w].ch) != [] && Buf(s.cs, s.workers[w].ch)[0] == Quit
    ensures var t := Next(s, Receive(w));
      && At(t, w, Leaving) && t.served == s.served
      && (t.lock.Free? ==>
            var u := Next(t, Leave(w));
            && u.workersCount == s.workersCount - 1 && Enabled(u, Recycle(w))
            && var v := Next(u, Recycle(w)); w !in v.workers && s.workers[w].ch in v.pooled)
  {
  }

  /** No channel is lost: each one that was made is a worker's, or can be used again. */
  ghost predicate AllKept(s: State) {
    s.made <= s.pooled + InUse(s.workers)
  }

  lemma {:induction false} NoChannelLost(s: State, steps: seq<Step>, t: State)
    requires AllKept(s) && Run(s, steps, t)
    ensures forall ch :: ch in t.made ==> ch in t.pooled || exists w :: w in t.workers && t.workers[w].ch == ch
    decreases |steps|
  {
    if steps != [] {
      KeptStep(s, steps[0]);
      hide Next, Enabled, AllKept;
      NoChannelLost(Next(s, steps[0]), steps[1..], t);
    }
  }

  lemma StaysInUse(a: map<Id, Worker>, b: map<Id, Worker>, ch: Chan)
    requires ch in InUse(a) && forall w :: w in a && a[w].ch == ch ==> w in b && b[w].ch == ch
    ensures ch in InUse(b)
  {
    var w :| w in a && a[w].ch == ch;
    assert w in b;
  }

  lemma KeptStep(s: State, step: Step)
    requires AllKept(s) && Enabled(s, step)
    ensures AllKept(Next(s, step))
  {
    var t := Next(s, step);
    forall ch | ch in t.made ensures ch in t.pooled + InUse(t.workers) {
      if step.Spawn? && ch == step.ch {
        assert t.workers[step.w].ch == ch;
      } else if ch in InUse(s.workers) && ch !in t.pooled {
        StaysInUse(s.workers, t.workers, ch);
      }
    }
  }

  // ---- When no more connections come ------------------------------------------------------

  /** A new connection, or a call of clean or Stop. */
  predicate Outside(step: Step) {
    step.OfferReady? || step.OfferNew? || step.Clean? || step.StopBegin?
  }

  lemma {:induction false} Fresh(a: set<nat>) returns (x: nat)
    ensures forall y :: y in a ==> y < x
    decreases |a|
  {
    if a == {} {
      x := 0;
    } else {
      var y :| y in a;
      x := Fresh(a - {y});
      x := if y < x then x else y + 1;
      assert forall z :: z in a ==> z == y || z in a - {y};
    }
  }

  /** Nobody is between two steps where nobody can take one. */
  lemma NobodyMoves(s: State)
    requires forall step :: Enabled(s, step) ==> Outside(step)
    ensures s.lock.Free? && s.cs.scratch == [] && s.cs.handed == map[] && s.spawning == {}
    ensures forall w :: w in s.workers ==> s.workers[w].phase.Waiting? && Buf(s.cs, s.workers[w].ch) == []
  {
    hide Buf;
    assert !Enabled(s, StopSend) && !Enabled(s, StopEnd) && !Enabled(s, CleanSend);
    forall ch ensures ch !in s.cs.handed { assert !Enabled(s, Send(ch)); }
    assert s.cs.handed == map[];
    forall w | w in s.workers ensures s.workers[w].phase.Waiting? && Buf(s.cs, s.workers[w].ch) == [] {
      assert !Enabled(s, Receive(w)) && !Enabled(s, Finish(w)) && !Enabled(s, Release(w));
      assert !Enabled(s, Leave(w)) && !Enabled(s, Recycle(w));
    }
    var ch := Fresh(s.made);
    var w := Fresh(s.workers.Keys);
    forall c ensures c !in s.spawning { assert !Enabled(s, Spawn(c, ch, w)); }
  }

  /**
   * Nothing is stuck on the way: where no step is left to take, every connection was served, every worker
   * waits and can be found by the next connection, and after Stop there is no worker.
   */
  lemma AtRest(s: State)
    requires Inv(s) && forall step :: Enabled(s, step) ==> Outside(step)
    ensures forall c :: c in s.place ==> c in s.served
    ensures forall w :: w in s.workers ==> s.workers[w].phase.Waiting? && s.workers[w].ch in s.cs.ready
    ensures s.mustStop ==> s.workers == map[] && s.workersCount == 0
  {
    NobodyMoves(s);
    hide Enabled, Outside;
    forall w | w in s.workers ensures s.workers[w].ch in s.cs.ready {
      assert s.workers[w].ch in WaitedOn(s.workers);
      assert Tokens(s.cs, s.workers[w].ch) == 1;
    }
    forall ch ensures Buf(s.cs, ch) == [] {
      assert Tokens(s.cs, ch) == Count(ch in WaitedOn(s.workers));
    }
    if s.mustStop {
      assert s.workers.Keys == {};
      assert Counted(s.workers) == {};
    }
  }
}
