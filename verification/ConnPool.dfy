/**
 * The bounded connection pool of a client host as a protocol: every step is one critical section of
 * the pool's lock, one turn of a loop under that lock, or one critical section of a waiter.
 */
module ConnPool {
  import opened Counting

  type Conn = nat
  type Waiter = nat

  /** Who holds the pool's lock across several steps, and with what in hand. */
  datatype Lock =
    | Free
    | Releasing(conn: Conn)                    // releaseConn, looking for a waiter
    | Offering(conn: Conn, to: Waiter)         // releaseConn, before tryDeliver
    | Decrementing                             // decConnsCount, looking for a waiter

  /** Where the connections are. */
  datatype Conns = Conns(
    idle: seq<Conn>,                           // c.conns, the most recently used last
    held: set<Conn>,                           // with a request, between acquireConn and its end
    returning: set<Conn>,                      // on the way into releaseConn
    closing: set<Conn>,                        // on the way into closeConn
    closed: set<Conn>,                         // gone
    everOpen: set<Conn>)                       // every connection there ever was

  /** The waiters and their answers. */
  datatype Waiters = Waiters(
    all: set<Waiter>,                          // all that were ever created
    arriving: set<Waiter>,                     // before queueForIdle
    selecting: set<Waiter>,                    // acquireConn not yet returned
    delivered: map<Waiter, Conn>,              // w.conn, not yet taken over
    refused: set<Waiter>,                      // w.err
    claimed: set<Waiter>,                      // w.conn was returned to the caller
    closes: map<Waiter, nat>)                  // how often w.ready was closed

  datatype State = State(
    maxConns: nat,
    waits: bool,                               // MaxConnWaitTimeout > 0
    connsCount: int,
    lock: Lock,
    dials: nat,                                // acquireConn dialing in a slot of its own
    dialsFor: set<Waiter>,                     // dialConnFor dialing in a slot that was freed
    failed: nat,                               // dials that failed, before decConnsCount
    queue: seq<Waiter>,                        // c.connsWait
    cs: Conns,
    ws: Waiters)

  predicate Answered(ws: Waiters, w: Waiter) {
    w in ws.delivered || w in ws.refused || w in ws.claimed
  }

  datatype Step =
    | AcquireIdle                              // acquireConn takes the last idle connection
    | AcquireSlot                              // acquireConn takes a slot and dials
    | AcquireWait(w: Waiter)                   // acquireConn finds neither and makes a waiter
    | Enqueue(w: Waiter)                       // queueForIdle
    | DialDone(c: Conn)
    | DialFailed
    | DialForDone(w: Waiter, c: Conn)          // dialConnFor, up to tryDeliver
    | DialForFailed(w: Waiter)
    | Claim(w: Waiter)                         // acquireConn sees ready and returns
    | GiveUp(w: Waiter)                        // the timer fired: cancel
    | Finish(c: Conn, keep: bool)              // the request is over: releaseConn or closeConn
    | EnterRelease(c: Conn)
    | ReleaseTurn                              // one turn of the loop, or its end
    | Offer                                    // tryDeliver inside releaseConn
    | EnterDecrement(c: Conn)                  // closeConn
    | EnterDecrementFailed                     // a failed dial
    | DecrementTurn
    | CloseIdle                                // CloseIdleConnections
    | CleanIdle(k: nat)                        // connsCleaner, k expired connections
    | SetMaxConns(n: nat)

  predicate Enabled(s: State, step: Step) {
    match step
    case AcquireIdle => s.lock.Free? && s.cs.idle != []
    case AcquireSlot => s.lock.Free? && s.cs.idle == [] && s.connsCount < s.maxConns
    case AcquireWait(w) =>
      s.lock.Free? && s.cs.idle == [] && s.connsCount >= s.maxConns && s.waits && w !in s.ws.all
    case Enqueue(w) => s.lock.Free? && w in s.ws.arriving
    case DialDone(c) => s.dials > 0 && c !in s.cs.everOpen
    case DialFailed => s.dials > 0
    case DialForDone(w, c) => w in s.dialsFor && c !in s.cs.everOpen
    case DialForFailed(w) => w in s.dialsFor
    case Claim(w) => w in s.ws.selecting && w !in s.ws.arriving && Answered(s.ws, w)
    case GiveUp(w) => w in s.ws.selecting && w !in s.ws.arriving
    case Finish(c, _) => c in s.cs.held
    case EnterRelease(c) => s.lock.Free? && c in s.cs.returning
    case ReleaseTurn => s.lock.Releasing?
    case Offer => s.lock.Offering?
    case EnterDecrement(c) => s.lock.Free? && c in s.cs.closing
    case EnterDecrementFailed => s.lock.Free? && s.failed > 0
    case DecrementTurn => s.lock.Decrementing?
    case CloseIdle => s.lock.Free?
    case CleanIdle(k) => s.lock.Free? && k <= |s.cs.idle|
    case SetMaxConns(_) => s.lock.Free?
  }

  /** clearFront: the longest prefix of answered waiters goes. */
  function ClearFront(ws: Waiters, q: seq<Waiter>): seq<Waiter> {
    if q != [] && Answered(ws, q[0]) then ClearFront(ws, q[1..]) else q
  }

  lemma {:induction false} FrontCleared(ws: Waiters, q: seq<Waiter>)
    ensures var r := ClearFront(ws, q);
      && |r| <= |q| && r == q[|q| - |r|..]
      && (forall i :: 0 <= i < |q| - |r| ==> Answered(ws, q[i]))
      && (r != [] ==> !Answered(ws, r[0]))
  {
    hide Answered;
    if q != [] && Answered(ws, q[0]) {
      FrontCleared(ws, q[1..]);
    }
  }

  /** How often w.ready was closed. */
  function Closes(ws: Waiters, w: Waiter): nat {
    if w in ws.closes then ws.closes[w] else 0
  }

  /** w.conn is set and ready closed, for a waiter without an answer. */
  function Deliver(ws: Waiters, w: Waiter, c: Conn): (r: Waiters)
    ensures r.all == ws.all && r.arriving == ws.arriving
  {
    ws.(delivered := ws.delivered[w := c], closes := ws.closes[w := Closes(ws, w) + 1])
  }

  /** w.err is set; ready is closed if that was the first answer. */
  function Refuse(ws: Waiters, w: Waiter): (r: Waiters)
    ensures r.all == ws.all && r.arriving == ws.arriving
  {
    if Answered(ws, w) then ws
    else ws.(refused := ws.refused + {w}, closes := ws.closes[w := Closes(ws, w) + 1])
  }

  /** cancel: w.conn is taken out, and w.err takes its place. */
  function Cancel(ws: Waiters, w: Waiter): (r: Waiters)
    ensures r.all == ws.all && r.arriving == ws.arriving
  {
    var t := Refuse(ws, w).(selecting := ws.selecting - {w});
    if w in ws.delivered then t.(delivered := ws.delivered - {w}, refused := ws.refused + {w}) else t
  }

  /** acquireConn returns what ready announced. */
  function TakeAnswer(ws: Waiters, w: Waiter): (r: Waiters)
    ensures r.all == ws.all && r.arriving == ws.arriving
  {
    var t := ws.(selecting := ws.selecting - {w});
    if w in ws.delivered then t.(delivered := ws.delivered - {w}, claimed := ws.claimed + {w}) else t
  }

  function Elements(q: seq<Conn>): set<Conn> {
    set c | c in q
  }

  function PutIdle(cs: Conns, c: Conn): Conns {
    cs.(idle := cs.idle + [c])
  }

  function Next(s: State, step: Step): State
    requires Enabled(s, step)
  {
    var cs, ws := s.cs, s.ws;
    match step
    case AcquireIdle =>
      var n := |cs.idle| - 1;
      s.(cs := cs.(idle := cs.idle[..n], held := cs.held + {cs.idle[n]}))
    case AcquireSlot => s.(connsCount := s.connsCount + 1, dials := s.dials + 1)
    case AcquireWait(w) =>
      s.(ws := ws.(all := ws.all + {w}, arriving := ws.arriving + {w}, selecting := ws.selecting + {w},
                   closes := ws.closes[w := 0]))
    case Enqueue(w) => s.(queue := ClearFront(ws, s.queue) + [w], ws := ws.(arriving := ws.arriving - {w}))
    case DialDone(c) => s.(dials := s.dials - 1, cs := cs.(held := cs.held + {c}, everOpen := cs.everOpen + {c}))
    case DialFailed => s.(dials := s.dials - 1, failed := s.failed + 1)
    case DialForDone(w, c) =>
      var grown := cs.(everOpen := cs.everOpen + {c});
      if Answered(ws, w) then s.(dialsFor := s.dialsFor - {w}, cs := grown.(returning := cs.returning + {c}))
      else s.(dialsFor := s.dialsFor - {w}, cs := grown, ws := Deliver(ws, w, c))
    case DialForFailed(w) => s.(dialsFor := s.dialsFor - {w}, failed := s.failed + 1, ws := Refuse(ws, w))
    case Claim(w) =>
      if w in ws.delivered then
        s.(ws := TakeAnswer(ws, w), cs := cs.(held := cs.held + {ws.delivered[w]}))
      else s.(ws := TakeAnswer(ws, w))
    case GiveUp(w) =>
      if w in ws.delivered then
        s.(ws := Cancel(ws, w), cs := cs.(returning := cs.returning + {ws.delivered[w]}))
      else s.(ws := Cancel(ws, w))
    case Finish(c, keep) =>
      if keep then s.(cs := cs.(held := cs.held - {c}, returning := cs.returning + {c}))
      else s.(cs := cs.(held := cs.held - {c}, closing := cs.closing + {c}))
    case EnterRelease(c) => s.(cs := cs.(returning := cs.returning - {c}), lock := Releasing(c))
    case ReleaseTurn =>
      if !s.waits || s.queue == [] then s.(cs := PutIdle(cs, s.lock.conn), lock := Free)
      else if Answered(ws, s.queue[0]) then s.(queue := s.queue[1..])
      else s.(queue := s.queue[1..], lock := Offering(s.lock.conn, s.queue[0]))
    case Offer =>
      if Answered(ws, s.lock.to) then s.(cs := PutIdle(cs, s.lock.conn), lock := Free)
      else s.(ws := Deliver(ws, s.lock.to, s.lock.conn), lock := Free)
    case EnterDecrement(c) =>
      s.(cs := cs.(closing := cs.closing - {c}, closed := cs.closed + {c}), lock := Decrementing)
    case EnterDecrementFailed => s.(failed := s.failed - 1, lock := Decrementing)
    case DecrementTurn =>
      if !s.waits || s.queue == [] then s.(connsCount := s.connsCount - 1, lock := Free)
      else if Answered(ws, s.queue[0]) then s.(queue := s.queue[1..])
      else s.(queue := s.queue[1..], dialsFor := s.dialsFor + {s.queue[0]}, lock := Free)
    case CloseIdle => s.(cs := cs.(closing := cs.closing + Elements(cs.idle), idle := []))
    case CleanIdle(k) => s.(cs := cs.(closing := cs.closing + Elements(cs.idle[..k]), idle := cs.idle[k..]))
    case SetMaxConns(n) => s.(maxConns := n)
  }

  function Init(maxConns: nat, waits: bool): State {
    State(maxConns, waits, 0, Free, 0, {}, 0, [],
          Conns([], {}, {}, {}, {}, {}), Waiters({}, {}, {}, map[], {}, {}, map[]))
  }

  // ---- The invariant ----------------------------------------------------------------------

  /** The connection in the hands of the holder of the lock. */
  function InHand(lock: Lock): set<Conn> {
    match lock
    case Releasing(c) => {c}
    case Offering(c, _) => {c}
    case _ => {}
  }

  /** How many slots the holder of the lock answers for. */
  function SlotsInHand(lock: Lock): nat {
    if lock.Free? then 0 else 1
  }

  /** Every slot that is counted is an idle connection, one in somebody's hands, a dial, or about to be given up. */
  function Slots(s: State): nat {
    |s.cs.idle| + Size(s.cs.held) + Size(s.cs.returning) + Size(s.cs.closing) + Size(s.ws.delivered.Keys)
    + s.dials + Size(s.dialsFor) + s.failed + SlotsInHand(s.lock)
  }

  /** In how many places a connection is: idle, in somebody's hands, delivered to a waiter, or gone. */
  function Places(cs: Conns, given: set<Conn>, inHand: set<Conn>, c: Conn): nat {
    Count(c in cs.idle) + Count(c in cs.held) + Count(c in cs.returning) + Count(c in cs.closing)
    + Count(c in given) + Count(c in inHand) + Count(c in cs.closed)
  }

  /** Every connection that was ever opened is in exactly one place, and at most once there. */
  ghost predicate Placed(cs: Conns, given: set<Conn>, inHand: set<Conn>) {
    && Distinct(cs.idle)
    && (forall c :: Places(cs, given, inHand, c) == Count(c in cs.everOpen))
  }

  /** A waiter is answered at most once, its channel is closed exactly when it is, and it returns with an answer. */
  ghost predicate AnsweredOnce(ws: Waiters) {
    && (forall w :: w in ws.delivered ==> w !in ws.refused && w !in ws.claimed && w in ws.selecting)
    && (forall w :: w in ws.refused ==> w !in ws.claimed && w in ws.all)
    && ws.claimed <= ws.all && ws.selecting <= ws.all && ws.arriving <= ws.selecting
    && ws.closes.Keys == ws.all
    && (forall w :: w in ws.arriving ==> !Answered(ws, w))
    && (forall w :: w in ws.all ==> ws.closes[w] == Count(Answered(ws, w)))
    && (forall w :: w in ws.all ==> w in ws.selecting || w in ws.refused || w in ws.claimed)
  }

  /** A waiter is in the queue, being offered a connection, or dialed for, in at most one of these. */
  ghost predicate Queued(queue: seq<Waiter>, dialsFor: set<Waiter>, lock: Lock, all: set<Waiter>,
                         arriving: set<Waiter>)
  {
    && Distinct(queue)
    && (forall w :: w in queue ==> w in all && w !in arriving && w !in dialsFor)
    && (forall w :: w in dialsFor ==> w in all && w !in arriving)
    && (lock.Offering? ==> lock.to in all && lock.to !in queue && lock.to !in dialsFor && lock.to !in arriving)
  }

  ghost predicate Inv(s: State) {
    && Placed(s.cs, s.ws.delivered.Values, InHand(s.lock))
    && Injective(s.ws.delivered)
    && AnsweredOnce(s.ws)
    && Queued(s.queue, s.dialsFor, s.lock, s.ws.all, s.ws.arriving)
    && s.connsCount == Slots(s)
    && (!s.waits ==> s.ws.all == {})
  }

  lemma InitInv(maxConns: nat, waits: bool)
    ensures Inv(Init(maxConns, waits))
  {
  }

  // ---- Every step keeps it ----------------------------------------------------------------

  lemma {:induction false} DistinctElements(q: seq<Conn>)
    requires Distinct(q)
    ensures |Elements(q)| == |q|
  {
    if q != [] {
      var n := |q| - 1;
      DistinctElements(q[..n]);
      assert Elements(q) == Elements(q[..n]) + {q[n]};
    }
  }

  lemma Give(cs: Conns, given: set<Conn>, c: Conn)
    requires Placed(cs, given, {c})
    ensures c !in given && Placed(cs, given + {c}, {})
  {
    assert Places(cs, given, {c}, c) == 1;
  }

  lemma GiveNew(cs: Conns, given: set<Conn>, inHand: set<Conn>, c: Conn)
    requires Placed(cs, given, inHand) && c !in cs.everOpen
    ensures c !in given && Placed(cs.(everOpen := cs.everOpen + {c}), given + {c}, inHand)
  {
    assert Places(cs, given, inHand, c) == 0;
  }

  lemma TakeBack(cs: Conns, given: set<Conn>, inHand: set<Conn>, c: Conn)
    requires Placed(cs, given, inHand) && c in given
    ensures Placed(cs.(held := cs.held + {c}), given - {c}, inHand)
    ensures Placed(cs.(returning := cs.returning + {c}), given - {c}, inHand)
  {
    assert Places(cs, given, inHand, c) == 1;
  }

  lemma PutBack(cs: Conns, given: set<Conn>, c: Conn)
    requires Placed(cs, given, {c})
    ensures Placed(PutIdle(cs, c), given, {})
  {
    assert Places(cs, given, {c}, c) == 1;
    forall x ensures Places(PutIdle(cs, c), given, {}, x) == Count(x in cs.everOpen) {
      assert Places(cs, given, {c}, x) == Count(x in cs.everOpen);
    }
  }

  lemma IdleToClosing(cs: Conns, given: set<Conn>, inHand: set<Conn>, k: nat)
    requires Placed(cs, given, inHand) && k <= |cs.idle|
    ensures Placed(cs.(idle := cs.idle[k..], closing := cs.closing + Elements(cs.idle[..k])), given, inHand)
    ensures cs.idle[..|cs.idle|] == cs.idle && cs.idle[|cs.idle|..] == []
  {
    var moved := cs.(idle := cs.idle[k..], closing := cs.closing + Elements(cs.idle[..k]));
    assert cs.idle == cs.idle[..k] + cs.idle[k..];
    forall c ensures Places(moved, given, inHand, c) == Count(c in cs.everOpen) {
      assert Places(cs, given, inHand, c) == Count(c in cs.everOpen);
      assert !(c in cs.idle[..k] && c in cs.idle[k..]);
    }
  }

  /** The steps that give a connection to a waiter or take it over. */
  predicate Hands(s: State, step: Step) {
    match step
    case DialForDone(w, _) => !Answered(s.ws, w)
    case Offer => s.lock.Offering? && !Answered(s.ws, s.lock.to)
    case Claim(w) => w in s.ws.delivered
    case GiveUp(w) => w in s.ws.delivered
    case _ => false
  }

  lemma PlacedHands(s: State, step: Step)
    requires Placed(s.cs, s.ws.delivered.Values, InHand(s.lock)) && Injective(s.ws.delivered) && Enabled(s, step)
    requires Hands(s, step)
    ensures var t := Next(s, step); Placed(t.cs, t.ws.delivered.Values, InHand(t.lock)) && Injective(t.ws.delivered)
  {
    hide AnsweredOnce, Queued, Slots, Inv, ClearFront, Placed, Injective;
    var d := s.ws.delivered;
    match step {
      case DialForDone(w, c) => GiveNew(s.cs, d.Values, InHand(s.lock), c); ValuesPlus(d, w, c);
      case Offer => Give(s.cs, d.Values, s.lock.conn); ValuesPlus(d, s.lock.to, s.lock.conn);
      case Claim(w) => ValuesMinus(d, w); TakeBack(s.cs, d.Values, InHand(s.lock), d[w]);
      case GiveUp(w) => ValuesMinus(d, w); TakeBack(s.cs, d.Values, InHand(s.lock), d[w]);
    }
  }

  lemma IdleToHeld(cs: Conns, given: set<Conn>, n: nat)
    requires Placed(cs, given, {}) && |cs.idle| == n + 1
    ensures Placed(cs.(idle := cs.idle[..n], held := cs.held + {cs.idle[n]}), given, {})
  {
    var c := cs.idle[n];
    var moved := cs.(idle := cs.idle[..n], held := cs.held + {c});
    assert cs.idle == cs.idle[..n] + [c];
    forall x ensures Places(moved, given, {}, x) == Count(x in cs.everOpen) {
      assert Places(cs, given, {}, x) == Count(x in cs.everOpen);
    }
  }

  lemma OpenedOne(cs: Conns, given: set<Conn>, inHand: set<Conn>, c: Conn)
    requires Placed(cs, given, inHand) && c !in cs.everOpen
    ensures Placed(cs.(held := cs.held + {c}, everOpen := cs.everOpen + {c}), given, inHand)
    ensures Placed(cs.(returning := cs.returning + {c}, everOpen := cs.everOpen + {c}), given, inHand)
  {
    assert Places(cs, given, inHand, c) == 0;
  }

  lemma HeldOnward(cs: Conns, given: set<Conn>, inHand: set<Conn>, c: Conn)
    requires Placed(cs, given, inHand) && c in cs.held
    ensures Placed(cs.(held := cs.held - {c}, returning := cs.returning + {c}), given, inHand)
    ensures Placed(cs.(held := cs.held - {c}, closing := cs.closing + {c}), given, inHand)
  {
    assert Places(cs, given, inHand, c) == 1;
  }

  lemma ReturningToHand(cs: Conns, given: set<Conn>, c: Conn)
    requires Placed(cs, given, {}) && c in cs.returning
    ensures Placed(cs.(returning := cs.returning - {c}), given, {c})
  {
    assert Places(cs, given, {}, c) == 1;
  }

  lemma ClosingToClosed(cs: Conns, given: set<Conn>, c: Conn)
    requires Placed(cs, given, {}) && c in cs.closing
    ensures Placed(cs.(closing := cs.closing - {c}, closed := cs.closed + {c}), given, {})
  {
    assert Places(cs, given, {}, c) == 1;
  }

  /** A step moves one connection, opens one, or moves a prefix of the idle ones. */
  lemma PlacedKept(s: State, step: Step)
    requires Placed(s.cs, s.ws.delivered.Values, InHand(s.lock)) && Injective(s.ws.delivered) && Enabled(s, step)
    ensures var t := Next(s, step); Placed(t.cs, t.ws.delivered.Values, InHand(t.lock)) && Injective(t.ws.delivered)
  {
    hide AnsweredOnce, Queued, Slots, Inv, ClearFront, Injective, Placed, Places, Distinct;
    var cs, g, h := s.cs, s.ws.delivered.Values, InHand(s.lock);
    if Hands(s, step) {
      PlacedHands(s, step);
    } else {
      match step {
        case AcquireIdle => IdleToHeld(cs, g, |cs.idle| - 1);
        case DialDone(c) => OpenedOne(cs, g, h, c);
        case DialForDone(w, c) => OpenedOne(cs, g, h, c);
        case Finish(c, _) => HeldOnward(cs, g, h, c);
        case EnterRelease(c) => ReturningToHand(cs, g, c);
        case ReleaseTurn => PutBack(cs, g, s.lock.conn);
        case Offer => PutBack(cs, g, s.lock.conn);
        case EnterDecrement(c) => ClosingToClosed(cs, g, c);
        case CloseIdle => IdleToClosing(cs, g, h, |cs.idle|);
        case CleanIdle(k) => IdleToClosing(cs, g, h, k);
        case _ =>
      }
    }
  }

  lemma DeliverOnce(ws: Waiters, w: Waiter, c: Conn)
    requires AnsweredOnce(ws) && w in ws.all && w !in ws.arriving && !Answered(ws, w)
    ensures AnsweredOnce(Deliver(ws, w, c))
  {
  }

  lemma RefuseOnce(ws: Waiters, w: Waiter)
    requires AnsweredOnce(ws) && w in ws.all && w !in ws.arriving
    ensures AnsweredOnce(Refuse(ws, w))
  {
  }

  lemma CancelOnce(ws: Waiters, w: Waiter)
    requires AnsweredOnce(ws) && w in ws.selecting && w !in ws.arriving
    ensures AnsweredOnce(Cancel(ws, w))
  {
  }

  lemma TakeAnswerOnce(ws: Waiters, w: Waiter)
    requires AnsweredOnce(ws) && w in ws.selecting && w !in ws.arriving && Answered(ws, w)
    ensures AnsweredOnce(TakeAnswer(ws, w))
  {
  }

  lemma AnsweredOnceKept(s: State, step: Step)
    requires AnsweredOnce(s.ws) && Queued(s.queue, s.dialsFor, s.lock, s.ws.all, s.ws.arriving) && Enabled(s, step)
    ensures AnsweredOnce(Next(s, step).ws)
  {
    hide Placed, Slots, Inv, ClearFront, Injective, Deliver, Refuse, Cancel, TakeAnswer;
    match step {
      case DialForDone(w, c) => if !Answered(s.ws, w) { DeliverOnce(s.ws, w, c); }
      case DialForFailed(w) => RefuseOnce(s.ws, w);
      case Claim(w) => TakeAnswerOnce(s.ws, w);
      case GiveUp(w) => CancelOnce(s.ws, w);
      case Offer => if !Answered(s.ws, s.lock.to) { DeliverOnce(s.ws, s.lock.to, s.lock.conn); }
      case _ =>
    }
  }

  lemma EnqueueKept(s: State, w: Waiter)
    requires Queued(s.queue, s.dialsFor, s.lock, s.ws.all, s.ws.arriving) && w in s.ws.arriving && w in s.ws.all
    ensures Queued(ClearFront(s.ws, s.queue) + [w], s.dialsFor, s.lock, s.ws.all, s.ws.arriving - {w})
  {
    var q := ClearFront(s.ws, s.queue);
    var k := |s.queue| - |q|;
    FrontCleared(s.ws, s.queue);
    hide ClearFront, Answered;
    assert w !in s.queue;
    assert forall i :: 0 <= i < |q| ==> q[i] == s.queue[k + i];
  }

  /** The first waiter leaves the queue, for an offer, for a dial, or for good. */
  lemma PopQueued(queue: seq<Waiter>, dialsFor: set<Waiter>, lock: Lock, all: set<Waiter>, arriving: set<Waiter>,
                  c: Conn)
    requires Queued(queue, dialsFor, lock, all, arriving) && queue != [] && !lock.Offering?
    ensures Queued(queue[1..], dialsFor, lock, all, arriving)
    ensures Queued(queue[1..], dialsFor, Offering(c, queue[0]), all, arriving)
    ensures Queued(queue[1..], dialsFor + {queue[0]}, Free, all, arriving)
  {
    assert queue[0] in queue;
  }

  lemma QueuedByTurn(s: State, step: Step)
    requires Queued(s.queue, s.dialsFor, s.lock, s.ws.all, s.ws.arriving)
    requires Enabled(s, step) && (step.ReleaseTurn? || step.DecrementTurn?)
    ensures var t := Next(s, step); Queued(t.queue, t.dialsFor, t.lock, t.ws.all, t.ws.arriving)
  {
    hide Answered, Distinct;
    if s.queue != [] {
      hide Queued;
      PopQueued(s.queue, s.dialsFor, s.lock, s.ws.all, s.ws.arriving, if step.ReleaseTurn? then s.lock.conn else 0);
    }
  }

  lemma QueuedKept(s: State, step: Step)
    requires Queued(s.queue, s.dialsFor, s.lock, s.ws.all, s.ws.arriving) && s.ws.arriving <= s.ws.all
    requires Enabled(s, step)
    ensures var t := Next(s, step); Queued(t.queue, t.dialsFor, t.lock, t.ws.all, t.ws.arriving)
  {
    hide Placed, Slots, Inv, Injective, AnsweredOnce, Deliver, Refuse, Cancel, TakeAnswer, ClearFront;
    match step {
      case Enqueue(w) => EnqueueKept(s, w);
      case ReleaseTurn => QueuedByTurn(s, step);
      case DecrementTurn => QueuedByTurn(s, step);
      case _ =>
    }
  }

  lemma KeysPlus(m: map<Waiter, Conn>, w: Waiter, c: Conn)
    requires w !in m
    ensures Size(m[w := c].Keys) == Size(m.Keys) + 1
  {
    assert m[w := c].Keys == m.Keys + {w};
  }

  lemma KeysMinus(m: map<Waiter, Conn>, w: Waiter)
    requires w in m
    ensures Size((m - {w}).Keys) == Size(m.Keys) - 1 && m[w] in m.Values
  {
    assert (m - {w}).Keys == m.Keys - {w};
    Minus(m.Keys, w);
  }

  lemma CountKept(s: State, step: Step)
    requires Inv(s) && Enabled(s, step)
    ensures var t := Next(s, step); t.connsCount == Slots(t)
  {
    hide ClearFront, Placed, Places, Count, Size, AnsweredOnce, Injective;
    var cs, d := s.cs, s.ws.delivered;
    match step {
      case AcquireIdle =>
        var c := cs.idle[|cs.idle| - 1];
        InOnePlace(s, c);
        Plus(cs.held, c);
      case DialDone(c) => InOnePlace(s, c); Plus(cs.held, c);
      case DialForDone(w, c) =>
        Minus(s.dialsFor, w);
        InOnePlace(s, c);
        if Answered(s.ws, w) { Plus(cs.returning, c); } else { KeysPlus(d, w, c); }
      case DialForFailed(w) => Minus(s.dialsFor, w);
      case Claim(w) => if w in d { KeysMinus(d, w); InOnePlace(s, d[w]); Plus(cs.held, d[w]); }
      case GiveUp(w) => if w in d { KeysMinus(d, w); InOnePlace(s, d[w]); Plus(cs.returning, d[w]); }
      case Finish(c, keep) =>
        InOnePlace(s, c);
        Minus(cs.held, c);
        if keep { Plus(cs.returning, c); } else { Plus(cs.closing, c); }
      case EnterRelease(c) => Minus(cs.returning, c);
      case Offer => if !Answered(s.ws, s.lock.to) { KeysPlus(d, s.lock.to, s.lock.conn); }
      case EnterDecrement(c) => Minus(cs.closing, c);
      case DecrementTurn =>
        if s.queue != [] {
          assert s.queue[0] in s.queue;
          Plus(s.dialsFor, s.queue[0]);
        }
      case CloseIdle => MoveIdle(s, |cs.idle|);
      case CleanIdle(k) => MoveIdle(s, k);
      case _ =>
    }
  }

  /** A connection is in at most one place, and an unopened one in none. */
  lemma InOnePlace(s: State, c: Conn)
    requires Placed(s.cs, s.ws.delivered.Values, InHand(s.lock))
    ensures c in s.cs.held ==> c !in s.cs.returning && c !in s.cs.closing
    ensures c in s.cs.idle || c in s.ws.delivered.Values ==>
      c !in s.cs.held && c !in s.cs.returning && c !in s.cs.closing
    ensures c !in s.cs.everOpen ==> c !in s.cs.held && c !in s.cs.returning
  {
    assert Places(s.cs, s.ws.delivered.Values, InHand(s.lock), c) == Count(c in s.cs.everOpen);
  }

  lemma MoveIdle(s: State, k: nat)
    requires Inv(s) && k <= |s.cs.idle|
    ensures Size(s.cs.closing + Elements(s.cs.idle[..k])) == Size(s.cs.closing) + k
    ensures s.cs.idle[..|s.cs.idle|] == s.cs.idle
  {
    DistinctElements(s.cs.idle[..k]);
    forall c | c in Elements(s.cs.idle[..k]) ensures c !in s.cs.closing { InOnePlace(s, c); }
  }

  /** Nobody waits for a connection unless the host is configured to. */
  lemma NoWaitersKept(s: State, step: Step)
    requires (!s.waits ==> s.ws.all == {}) && s.dialsFor <= s.ws.all && Enabled(s, step)
    ensures var t := Next(s, step); t.waits == s.waits && (!t.waits ==> t.ws.all == {})
  {
  }

  lemma Members(s: State)
    requires Inv(s)
    ensures s.dialsFor <= s.ws.all && s.ws.arriving <= s.ws.all
  {
    hide Placed, Injective, Slots;
  }

  lemma StepKeeps(s: State, step: Step)
    requires Inv(s) && Enabled(s, step)
    ensures Inv(Next(s, step))
  {
    hide Placed, AnsweredOnce, Queued, Slots, Injective, Next, Enabled;
    Members(s);
    PlacedKept(s, step);
    AnsweredOnceKept(s, step);
    QueuedKept(s, step);
    CountKept(s, step);
    NoWaitersKept(s, step);
  }

  // ---- What holds of every run ------------------------------------------------------------

  /** The steps lead from one state to the other, each one enabled where it is taken. */
  ghost predicate Run(s: State, steps: seq<Step>, t: State)
    decreases |steps|
  {
    if steps == [] then s == t
    else Enabled(s, steps[0]) && Run(Next(s, steps[0]), steps[1..], t)
  }

  lemma {:induction false} RunKeeps(s: State, steps: seq<Step>, t: State)
    requires Inv(s) && Run(s, steps, t)
    ensures Inv(t)
    decreases |steps|
  {
    hide Inv, Enabled, Next;
    if steps != [] {
      StepKeeps(s, steps[0]);
      RunKeeps(Next(s, steps[0]), steps[1..], t);
    }
  }

  /**
   * Whatever the interleaving, the counter equals the connections and dials it stands for, and no
   * connection is in two places.
   */
  lemma CountIsExact(maxConns: nat, waits: bool, steps: seq<Step>, t: State, c: Conn)
    requires Run(Init(maxConns, waits), steps, t)
    ensures t.connsCount == |t.cs.idle| + |t.cs.held| + |t.cs.returning| + |t.cs.closing| + |t.ws.delivered.Keys|
      + t.dials + |t.dialsFor| + t.failed + SlotsInHand(t.lock)
    ensures Places(t.cs, t.ws.delivered.Values, InHand(t.lock), c) == Count(c in t.cs.everOpen)
    ensures Distinct(t.cs.idle) && Injective(t.ws.delivered)
  {
    InitInv(maxConns, waits);
    RunKeeps(Init(maxConns, waits), steps, t);
    hide Run, AnsweredOnce, Queued, Places;
  }

  lemma StaysWithin(s: State, step: Step, limit: nat)
    requires Enabled(s, step) && s.connsCount <= limit && s.maxConns <= limit
    requires step.SetMaxConns? ==> step.n <= limit
    ensures Next(s, step).connsCount <= limit && Next(s, step).maxConns <= limit
  {
    hide ClearFront;
  }

  lemma {:induction false} WithinLimit(s: State, steps: seq<Step>, t: State, limit: nat)
    requires Inv(s) && Run(s, steps, t) && s.connsCount <= limit && s.maxConns <= limit
    requires forall step :: step in steps && step.SetMaxConns? ==> step.n <= limit
    ensures 0 <= t.connsCount <= limit && t.maxConns <= limit
    decreases |steps|
  {
    hide Placed, Places, AnsweredOnce, Queued, Injective, Size;
    if steps != [] {
      StepKeeps(s, steps[0]);
      assert steps[0] in steps;
      StaysWithin(s, steps[0], limit);
      hide Inv, Next, Enabled;
      WithinLimit(Next(s, steps[0]), steps[1..], t, limit);
    }
  }

  /** A waiter's channel is closed at most once in a run, and exactly when the waiter has its answer. */
  lemma ClosedOnce(maxConns: nat, waits: bool, steps: seq<Step>, t: State, w: Waiter)
    requires Run(Init(maxConns, waits), steps, t) && w in t.ws.all
    ensures w in t.ws.closes && t.ws.closes[w] <= 1
    ensures t.ws.closes[w] == 1 <==> Answered(t.ws, w)
    ensures w !in t.ws.selecting ==> Answered(t.ws, w) && w !in t.ws.delivered
  {
    InitInv(maxConns, waits);
    RunKeeps(Init(maxConns, waits), steps, t);
    hide Run, Placed, Queued, Injective;
  }

  /**
   * A delivered connection waits for its waiter, until the waiter returns it to its caller or puts
   * it back: one of the two, and never again.
   */
  lemma DeliveredGoesOnce(s: State, step: Step, w: Waiter)
    requires Inv(s) && Enabled(s, step) && Answered(s.ws, w)
    ensures var t := Next(s, step);
      && Answered(t.ws, w)
      && (w !in s.ws.delivered ==> w !in t.ws.delivered && (w in t.ws.claimed <==> w in s.ws.claimed))
      && (w in s.ws.delivered ==>
        var c := s.ws.delivered[w];
        || (w in t.ws.delivered && t.ws.delivered[w] == c)
        || (step == Claim(w) && w in t.ws.claimed && c in t.cs.held)
        || (step == GiveUp(w) && w !in t.ws.claimed && w in t.ws.refused && c in t.cs.returning))
  {
    hide Placed, Queued, Injective, Slots, ClearFront;
  }


  lemma {:induction false} Extend(s: State, steps: seq<Step>, t: State, step: Step)
    requires Run(s, steps, t) && Enabled(t, step)
    ensures Run(s, steps + [step], Next(t, step))
    decreases |steps|
  {
    hide Enabled, Next;
    if steps == [] {
      assert Run(Next(t, step), [], Next(t, step));
    } else {
      Extend(Next(s, steps[0]), steps[1..], t, step);
      assert (steps + [step])[1..] == steps[1..] + [step];
    }
  }

  // ---- A section that nobody interferes with ----------------------------------------------

  function Turns(k: nat): seq<Step> {
    seq(k, _ => ReleaseTurn)
  }

  lemma {:induction false} SkipAnswered(s: State, k: nat)
    requires s.lock.Releasing? && s.waits && k <= |s.queue|
    requires forall i :: 0 <= i < k ==> Answered(s.ws, s.queue[i])
    ensures Run(s, Turns(k), s.(queue := s.queue[k..]))
  {
    if k > 0 {
      SkipAnswered(s, k - 1);
      var t := s.(queue := s.queue[k - 1..]);
      assert Answered(s.ws, s.queue[k - 1]) && t.queue[0] == s.queue[k - 1] && t.queue[1..] == s.queue[k..];
      Extend(s, Turns(k - 1), t, ReleaseTurn);
      assert Turns(k) == Turns(k - 1) + [ReleaseTurn];
    } else {
      assert s.queue[0..] == s.queue;
    }
  }

  /** releaseConn without interference: the first waiter without an answer is served, or the connection becomes idle. */
  lemma ReleaseSection(s: State, k: nat)
    requires s.lock.Releasing? && s.waits && k <= |s.queue|
    requires forall i :: 0 <= i < k ==> Answered(s.ws, s.queue[i])
    requires k < |s.queue| ==> !Answered(s.ws, s.queue[k])
    ensures k == |s.queue| ==>
      Run(s, Turns(k) + [ReleaseTurn], s.(queue := [], cs := PutIdle(s.cs, s.lock.conn), lock := Free))
    ensures k < |s.queue| ==>
      Run(s, Turns(k) + [ReleaseTurn] + [Offer],
          s.(queue := s.queue[k + 1..], ws := Deliver(s.ws, s.queue[k], s.lock.conn), lock := Free))
  {
    hide Run, Answered;
    SkipAnswered(s, k);
    var t := s.(queue := s.queue[k..]);
    Extend(s, Turns(k), t, ReleaseTurn);
    if k < |s.queue| {
      assert t.queue[0] == s.queue[k] && t.queue[1..] == s.queue[k + 1..];
      Extend(s, Turns(k) + [ReleaseTurn], Next(t, ReleaseTurn), Offer);
    }
  }

  function SlotTurns(k: nat): seq<Step> {
    seq(k, _ => DecrementTurn)
  }

  lemma {:induction false} SkipForSlot(s: State, k: nat)
    requires s.lock.Decrementing? && s.waits && k <= |s.queue|
    requires forall i :: 0 <= i < k ==> Answered(s.ws, s.queue[i])
    ensures Run(s, SlotTurns(k), s.(queue := s.queue[k..]))
  {
    if k > 0 {
      SkipForSlot(s, k - 1);
      var t := s.(queue := s.queue[k - 1..]);
      assert Answered(s.ws, s.queue[k - 1]) && t.queue[0] == s.queue[k - 1] && t.queue[1..] == s.queue[k..];
      Extend(s, SlotTurns(k - 1), t, DecrementTurn);
      assert SlotTurns(k) == SlotTurns(k - 1) + [DecrementTurn];
    } else {
      assert s.queue[0..] == s.queue;
    }
  }

  /** decConnsCount without interference: the slot goes to the first waiter without an answer, or becomes free. */
  lemma DecrementSection(s: State, k: nat)
    requires s.lock.Decrementing? && s.waits && k <= |s.queue|
    requires forall i :: 0 <= i < k ==> Answered(s.ws, s.queue[i])
    requires k < |s.queue| ==> !Answered(s.ws, s.queue[k])
    ensures k == |s.queue| ==>
      Run(s, SlotTurns(k) + [DecrementTurn], s.(queue := [], connsCount := s.connsCount - 1, lock := Free))
    ensures k < |s.queue| ==>
      Run(s, SlotTurns(k) + [DecrementTurn],
          s.(queue := s.queue[k + 1..], dialsFor := s.dialsFor + {s.queue[k]}, lock := Free))
  {
    hide Run, Answered;
    SkipForSlot(s, k);
    var t := s.(queue := s.queue[k..]);
    Extend(s, SlotTurns(k), t, DecrementTurn);
    if k < |s.queue| {
      assert t.queue[0] == s.queue[k] && t.queue[1..] == s.queue[k + 1..];
    }
  }

  // ---- What becomes of a waiter -----------------------------------------------------------

  /** A waiter in the queue of acquireConn's select has its answer, or somebody is to give it one. */
  ghost predicate Attended(s: State) {
    forall w :: w in s.ws.selecting && w !in s.ws.arriving ==>
      Answered(s.ws, w) || w in s.queue || w in s.dialsFor || (s.lock.Offering? && s.lock.to == w)
  }

  /** An answer is never taken back. */
  lemma StaysAnswered(s: State, step: Step)
    requires Enabled(s, step)
    ensures forall w :: Answered(s.ws, w) ==> Answered(Next(s, step).ws, w)
  {
    hide ClearFront;
  }

  lemma AttendedTurn(s: State, step: Step)
    requires Attended(s) && Enabled(s, step) && (step.ReleaseTurn? || step.DecrementTurn?)
    ensures Attended(Next(s, step))
  {
    assert s.queue != [] ==> s.queue == [s.queue[0]] + s.queue[1..];
  }

  lemma AttendedKept(s: State, step: Step)
    requires Attended(s) && Enabled(s, step)
    ensures Attended(Next(s, step))
  {
    match step {
      case ReleaseTurn => AttendedTurn(s, step);
      case DecrementTurn => AttendedTurn(s, step);
      case Enqueue(w) =>
        FrontCleared(s.ws, s.queue);
        var k := |s.queue| - |ClearFront(s.ws, s.queue)|;
        assert s.queue == s.queue[..k] + s.queue[k..];
        hide ClearFront;
      case _ => StaysAnswered(s, step); hide ClearFront;
    }
  }

  lemma {:induction false} AttendedInRuns(s: State, steps: seq<Step>, t: State)
    requires Attended(s) && Run(s, steps, t)
    ensures Attended(t)
    decreases |steps|
  {
    hide Attended, Enabled, Next;
    if steps != [] {
      AttendedKept(s, steps[0]);
      AttendedInRuns(Next(s, steps[0]), steps[1..], t);
    }
  }

  /** In every run a queued waiter that was not answered is in the queue, being offered a connection or dialed for. */
  lemma NobodyForgotten(maxConns: nat, waits: bool, steps: seq<Step>, t: State, w: Waiter)
    requires Run(Init(maxConns, waits), steps, t)
    requires w in t.ws.selecting && w !in t.ws.arriving
    requires w !in t.ws.delivered && w !in t.ws.refused && w !in t.ws.claimed
    ensures w in t.queue || w in t.dialsFor || (t.lock.Offering? && t.lock.to == w)
  {
    AttendedInRuns(Init(maxConns, waits), steps, t);
    hide Run;
  }

  /**
   * A dial for a waiter ends in that waiter's answer, the connection or the error, if it has none yet; a
   * connection that came too late is put back, and a failed dial gives its slot up.
   */
  lemma DialEnds(s: State, w: Waiter, c: Conn)
    requires w in s.dialsFor
    ensures Enabled(s, DialForDone(w, c)) ==>
      var t := Next(s, DialForDone(w, c));
      && w !in t.dialsFor
      && if w in s.ws.delivered || w in s.ws.refused || w in s.ws.claimed then t.ws == s.ws && c in t.cs.returning
         else w in t.ws.delivered && t.ws.delivered[w] == c && t.cs.returning == s.cs.returning
    ensures Enabled(s, DialForFailed(w)) && w !in Next(s, DialForFailed(w)).dialsFor
    ensures var t := Next(s, DialForFailed(w));
      && t.failed == s.failed + 1 && t.ws.delivered == s.ws.delivered
      && if w in s.ws.delivered || w in s.ws.refused || w in s.ws.claimed then t.ws == s.ws else w in t.ws.refused
  {
  }

  /** So does the offer of a connection that is released. */
  lemma OfferEnds(s: State)
    requires s.lock.Offering?
    ensures var t, w, c := Next(s, Offer), s.lock.to, s.lock.conn;
      && t.lock.Free?
      && if w in s.ws.delivered || w in s.ws.refused || w in s.ws.claimed
         then t.ws == s.ws && t.cs.idle == s.cs.idle + [c]
         else w in t.ws.delivered && t.ws.delivered[w] == c && t.cs == s.cs
  {
  }

  /** In a run a dial for a waiter goes on until the waiter has an answer. */
  lemma {:induction false} DialedFor(s: State, steps: seq<Step>, t: State, w: Waiter)
    requires Run(s, steps, t) && (w in s.dialsFor || Answered(s.ws, w))
    ensures w in t.dialsFor || w in t.ws.delivered || w in t.ws.refused || w in t.ws.claimed
    decreases |steps|
  {
    if steps != [] {
      StaysAnswered(s, steps[0]);
      hide ClearFront;
      DialedFor(Next(s, steps[0]), steps[1..], t, w);
    }
  }

  /** Who is told to go away: whoever finds no idle connection and no free slot, and nobody else. */
  lemma AcquireDecides(s: State, w: Waiter)
    requires s.lock.Free? && w !in s.ws.all
    ensures Enabled(s, AcquireIdle) <==> s.cs.idle != []
    ensures Enabled(s, AcquireSlot) <==> s.cs.idle == [] && s.connsCount < s.maxConns
    ensures Enabled(s, AcquireWait(w)) <==> s.cs.idle == [] && s.connsCount >= s.maxConns && s.waits
  {
  }

  /** A connection that is released when nobody waits is the one the next request gets. */
  lemma LastReusedFirst(s: State, c: Conn)
    requires s.lock.Free? && c in s.cs.returning && s.queue == []
    ensures Run(s, [EnterRelease(c)] + [ReleaseTurn] + [AcquireIdle],
                s.(cs := s.cs.(returning := s.cs.returning - {c}, held := s.cs.held + {c})))
  {
    var a := Next(s, EnterRelease(c));
    assert [EnterRelease(c)][1..] == [];
    assert Run(s, [EnterRelease(c)], a);
    hide Run;
    var b := Next(a, ReleaseTurn);
    Extend(s, [EnterRelease(c)], a, ReleaseTurn);
    Extend(s, [EnterRelease(c)] + [ReleaseTurn], b, AcquireIdle);
    assert b.cs.idle[..|b.cs.idle| - 1] == s.cs.idle;
  }

  /**
   * CloseIdleConnections closes every idle connection and the cleaner those that were used least recently,
   * and no other one: each gives up its slot.
   */
  lemma ClosesIdle(s: State, k: nat, c: Conn)
    requires s.lock.Free? && k <= |s.cs.idle| && (c in s.cs.idle || c in s.cs.closing)
    ensures var t := Next(s, CloseIdle); t.cs.idle == [] && Enabled(t, EnterDecrement(c)) && t.cs.held == s.cs.held
    ensures var t := Next(s, CleanIdle(k));
      && |t.cs.idle| == |s.cs.idle| - k && (forall i :: k <= i < |s.cs.idle| ==> t.cs.idle[i - k] == s.cs.idle[i])
      && (c in t.cs.idle || Enabled(t, EnterDecrement(c))) && t.cs.held == s.cs.held
    ensures Enabled(s, EnterDecrement(c)) ==>
      var u := Next(s, EnterDecrement(c)); c in u.cs.closed && u.lock.Decrementing?
  {
    assert s.cs.idle == s.cs.idle[..k] + s.cs.idle[k..];
  }

  /** While somebody is inside releaseConn or decConnsCount nobody else changes what the lock protects. */
  lemma LockIsHeld(s: State, step: Step)
    requires s.lock != Free && Enabled(s, step) && step !in [ReleaseTurn, Offer, DecrementTurn]
    ensures var t := Next(s, step);
      && t.lock == s.lock && t.queue == s.queue && t.cs.idle == s.cs.idle
      && t.connsCount == s.connsCount && t.maxConns == s.maxConns && t.ws.all == s.ws.all
  {
    hide ClearFront;
  }

  /** A waiter does nothing before it is queued, and it is queued at the end. */
  lemma QueuedFirst(s: State, step: Step, w: Waiter)
    requires AnsweredOnce(s.ws) && Enabled(s, step) && w in s.ws.arriving
    ensures var t := Next(s, step);
      && w in t.ws.selecting
      && if step == Enqueue(w) then w !in t.ws.arriving && t.queue != [] && t.queue[|t.queue| - 1] == w
         else w in t.ws.arriving
  {
    hide ClearFront;
  }

  // ---- When no more requests come ---------------------------------------------------------

  /** A new request, or somebody who changes the pool from outside. */
  predicate Outside(step: Step) {
    step.AcquireIdle? || step.AcquireSlot? || step.AcquireWait? || step.CloseIdle? || step.CleanIdle? || step.SetMaxConns?
  }

  function LockLeft(lock: Lock): nat {
    match lock
    case Free => 0
    case Decrementing => 1
    case _ => 2
  }

  /** No more than this many steps are left until nobody waits, dials, or has a connection. */
  function StepsLeft(s: State): nat {
    4 * Size(s.cs.held) + 3 * Size(s.cs.returning) + 2 * Size(s.cs.closing) + Size(s.ws.delivered.Keys)
    + 5 * s.dials + 4 * Size(s.dialsFor) + 2 * s.failed + LockLeft(s.lock)
    + 4 * |s.queue| + 5 * Size(s.ws.arriving) + 4 * Size(s.ws.selecting)
  }

  lemma FewerSteps(s: State, step: Step)
    requires Inv(s) && Enabled(s, step) && !Outside(step)
    ensures StepsLeft(Next(s, step)) < StepsLeft(s)
  {
    hide ClearFront, Placed, Places, Count, Size, Injective, Slots;
    var cs, d := s.cs, s.ws.delivered;
    match step {
      case DialDone(c) => InOnePlace(s, c); Plus(cs.held, c);
      case Enqueue(w) => FrontCleared(s.ws, s.queue); Minus(s.ws.arriving, w);
      case DialForDone(w, c) =>
        Minus(s.dialsFor, w);
        InOnePlace(s, c);
        if Answered(s.ws, w) { Plus(cs.returning, c); } else { KeysPlus(d, w, c); }
      case DialForFailed(w) => Minus(s.dialsFor, w);
      case Claim(w) =>
        Minus(s.ws.selecting, w);
        if w in d { KeysMinus(d, w); InOnePlace(s, d[w]); Plus(cs.held, d[w]); }
      case GiveUp(w) =>
        Minus(s.ws.selecting, w);
        if w in d { KeysMinus(d, w); InOnePlace(s, d[w]); Plus(cs.returning, d[w]); }
      case Finish(c, keep) =>
        InOnePlace(s, c);
        Minus(cs.held, c);
        if keep { Plus(cs.returning, c); } else { Plus(cs.closing, c); }
      case EnterRelease(c) => Minus(cs.returning, c);
      case Offer => if !Answered(s.ws, s.lock.to) { KeysPlus(d, s.lock.to, s.lock.conn); }
      case EnterDecrement(c) => Minus(cs.closing, c);
      case DecrementTurn => if s.queue != [] { assert s.queue[0] in s.queue; Plus(s.dialsFor, s.queue[0]); }
      case _ =>
    }
  }

  /** Left alone, the pool takes no more than so many steps. */
  lemma {:induction false} ComesToRest(s: State, steps: seq<Step>, t: State)
    requires Inv(s) && Run(s, steps, t) && forall step :: step in steps ==> !Outside(step)
    ensures |steps| <= StepsLeft(s)
    decreases |steps|
  {
    hide Inv, Next, Enabled, StepsLeft, Outside;
    if steps != [] {
      FewerSteps(s, steps[0]);
      StepKeeps(s, steps[0]);
      ComesToRest(Next(s, steps[0]), steps[1..], t);
    }
  }

  /**
   * Where it can take none, every waiter has returned, every connection is idle or closed, and
   * connsCount is the number of idle connections. Nobody is stuck before that.
   */
  lemma AtRest(s: State)
    requires Inv(s) && forall step :: Enabled(s, step) ==> Outside(step)
    ensures s.lock.Free? && s.dials == 0 && s.dialsFor == {} && s.ws.selecting == {} && s.ws.delivered == map[]
    ensures forall c :: c in s.cs.everOpen ==> c in s.cs.idle || c in s.cs.closed
    ensures s.connsCount == |s.cs.idle|
  {
    NothingOpen(s);
    hide Enabled;
    assert s.ws.delivered.Keys == {};
    forall c | c in s.cs.everOpen ensures c in s.cs.idle || c in s.cs.closed {
      assert Places(s.cs, s.ws.delivered.Values, InHand(s.lock), c) == 1;
    }
  }

  lemma NothingOpen(s: State)
    requires forall step :: Enabled(s, step) ==> Outside(step)
    requires s.ws.arriving <= s.ws.selecting
    ensures s.lock.Free? && s.dials == 0 && s.failed == 0 && s.dialsFor == {} && s.ws.selecting == {}
    ensures s.cs.held == {} && s.cs.returning == {} && s.cs.closing == {}
  {
    assert !Enabled(s, ReleaseTurn) && !Enabled(s, Offer) && !Enabled(s, DecrementTurn);
    assert !Enabled(s, DialFailed) && !Enabled(s, EnterDecrementFailed);
    forall w ensures w !in s.dialsFor && w !in s.ws.selecting {
      assert !Enabled(s, DialForFailed(w)) && !Enabled(s, Enqueue(w)) && !Enabled(s, GiveUp(w));
    }
    forall c ensures c !in s.cs.held && c !in s.cs.returning && c !in s.cs.closing {
      assert !Enabled(s, Finish(c, true)) && !Enabled(s, EnterRelease(c)) && !Enabled(s, EnterDecrement(c));
    }
  }

  // ---- Waiters beside idle connections ----------------------------------------------------

  /** Somebody waits in the queue although a connection is idle. */
  ghost predicate Overlooked(s: State) {
    s.cs.idle != [] && exists w :: w in s.queue && !Answered(s.ws, w)
  }

  /**
   * The two ways to get there. acquireConn lets go of the lock before it queues the waiter, and a
   * connection may come back in between; and a waiter that gives up between the two looks that
   * releaseConn takes at it makes releaseConn keep the connection without asking the next one.
   */
  predicate Overlooks(s: State, step: Step) {
    match step
    case Enqueue(w) => s.cs.idle != []
    case Offer =>
      s.lock.Offering? && Answered(s.ws, s.lock.to) && exists w :: w in s.queue && !Answered(s.ws, w)
    case _ => false
  }

  /** A waiter beside an idle connection was there before, if both were. */
  lemma Inherits(s: State, t: State)
    requires t.cs.idle != [] ==> s.cs.idle != []
    requires forall w :: w in t.queue ==> w in s.queue && (Answered(s.ws, w) ==> Answered(t.ws, w))
    ensures Overlooked(t) ==> Overlooked(s)
  {
    hide Answered;
  }

  lemma Quietly(s: State, step: Step)
    requires Enabled(s, step) && !step.Enqueue? && !step.Offer? && !step.ReleaseTurn?
    ensures var t := Next(s, step);
      && (t.cs.idle != [] ==> s.cs.idle != [])
      && forall w :: w in t.queue ==> w in s.queue && (Answered(s.ws, w) ==> Answered(t.ws, w))
  {
    hide Overlooked, Inv;
  }

  lemma OnEnqueue(s: State, w: Waiter)
    requires !Answered(s.ws, w) && Enabled(s, Enqueue(w)) && !Overlooked(s)
    ensures Overlooked(Next(s, Enqueue(w))) <==> s.cs.idle != []
  {
    hide ClearFront;
    var t := Next(s, Enqueue(w));
    assert t.queue[|t.queue| - 1] == w;
    assert w in t.queue && !Answered(t.ws, w);
  }

  lemma OnReleaseTurn(s: State)
    requires (!s.waits ==> s.queue == []) && s.lock.Releasing? && !Overlooked(s)
    ensures !Overlooked(Next(s, ReleaseTurn))
  {
    var t := Next(s, ReleaseTurn);
    if t.cs.idle == s.cs.idle {
      Inherits(s, t);
    }
  }

  lemma OnOffer(s: State)
    requires s.lock.Offering? && !Overlooked(s)
    ensures Overlooked(Next(s, Offer)) <==> Overlooks(s, Offer)
  {
    var t := Next(s, Offer);
    if Answered(s.ws, s.lock.to) {
      assert t.ws == s.ws && t.queue == s.queue && t.cs.idle != [];
    } else {
      Inherits(s, t);
    }
  }

  /** A waiter that is not queued yet has no answer, and nobody is queued when waiting is not allowed. */
  ghost predicate Unasked(s: State) {
    (forall w :: w in s.ws.arriving ==> !Answered(s.ws, w)) && (!s.waits ==> s.queue == [])
  }

  /** That is so in every run. */
  lemma AlwaysUnasked(s: State)
    requires Inv(s)
    ensures Unasked(s)
  {
    hide Placed, Injective;
    assert s.queue != [] ==> s.queue[0] in s.queue;
  }

  /** A step gets there in one of these two ways, and by no other. */
  lemma OnlyThen(s: State, step: Step)
    requires Unasked(s) && Enabled(s, step) && !Overlooked(s)
    ensures Overlooked(Next(s, step)) <==> Overlooks(s, step)
  {
    match step {
      case Enqueue(w) => OnEnqueue(s, w);
      case ReleaseTurn => OnReleaseTurn(s);
      case Offer => OnOffer(s);
      case _ => Quietly(s, step); Inherits(s, Next(s, step));
    }
    hide Next, Overlooked;
  }

  /** Somebody waits in the queue although a slot is free. */
  ghost predicate Starved(s: State) {
    s.connsCount < s.maxConns && exists w :: w in s.queue && !Answered(s.ws, w)
  }

  lemma StillStarved(s: State, t: State)
    requires t.connsCount < t.maxConns ==> s.connsCount < s.maxConns
    requires forall w :: w in t.queue ==> w in s.queue && (Answered(s.ws, w) ==> Answered(t.ws, w))
    ensures Starved(t) ==> Starved(s)
  {
    hide Answered;
  }

  lemma StarvedQueue(s: State, w: Waiter)
    requires !Answered(s.ws, w) && Enabled(s, Enqueue(w)) && !Starved(s)
    ensures Starved(Next(s, Enqueue(w))) <==> s.connsCount < s.maxConns
  {
    hide ClearFront;
    var t := Next(s, Enqueue(w));
    assert t.queue[|t.queue| - 1] == w;
    assert w in t.queue && !Answered(t.ws, w);
  }

  lemma StarvedQuietly(s: State, step: Step)
    requires (!s.waits ==> s.queue == []) && Enabled(s, step) && !step.Enqueue? && !step.SetMaxConns?
    ensures var t := Next(s, step);
      && (t.queue != [] && t.connsCount < t.maxConns ==> s.connsCount < s.maxConns)
      && forall w :: w in t.queue ==> w in s.queue && (Answered(s.ws, w) ==> Answered(t.ws, w))
  {
  }

  /**
   * A step gets there exactly when it queues a waiter that decided to wait before the slot became free,
   * or when the limit is raised while somebody waits.
   */
  lemma OnlyThenStarved(s: State, step: Step)
    requires Unasked(s) && Enabled(s, step) && !Starved(s)
    ensures Starved(Next(s, step)) <==>
      || (step.Enqueue? && s.connsCount < s.maxConns)
      || (step.SetMaxConns? && s.connsCount < step.n && exists w :: w in s.queue && !Answered(s.ws, w))
  {
    match step {
      case Enqueue(w) => StarvedQueue(s, w);
      case SetMaxConns(n) =>
      case _ =>
        StarvedQuietly(s, step);
        if Next(s, step).queue != [] { StillStarved(s, Next(s, step)); }
    }
  }

  lemma NoSteps(s: State)
    ensures Run(s, [], s)
  {
  }

  lemma Take(s: State, steps: seq<Step>, t: State, step: Step) returns (u: State, longer: seq<Step>)
    requires Run(s, steps, t) && Enabled(t, step)
    ensures u == Next(t, step) && Run(s, longer, u)
  {
    Extend(s, steps, t, step);
    u, longer := Next(t, step), steps + [step];
  }

  /** The connection is in use, and one waiter is about to queue for it. */
  lemma OneArrives() returns (steps: seq<Step>, t: State)
    ensures Run(Init(1, true), steps, t)
    ensures t.lock.Free? && 3 in t.ws.arriving && t.waits && t.connsCount == 1 == t.maxConns
    ensures t.cs.idle == [] && 7 in t.cs.held && t.queue == [] && 3 in t.ws.selecting && 4 !in t.ws.all
    ensures !Answered(t.ws, 3) && !Answered(t.ws, 4)
  {
    hide Run, Inv, Overlooked;
    t, steps := Init(1, true), [];
    NoSteps(t);
    t, steps := Take(Init(1, true), steps, t, AcquireSlot);
    t, steps := Take(Init(1, true), steps, t, DialDone(7));
    t, steps := Take(Init(1, true), steps, t, AcquireWait(3));
  }

  /** The first way: a connection is put back between the decision to wait and the queue. */
  lemma AtTheQueue() returns (steps: seq<Step>, t: State)
    ensures Run(Init(1, true), steps, t) && Overlooked(t)
  {
    hide Run, Inv, Overlooked, ClearFront;
    steps, t := OneArrives();
    t, steps := Take(Init(1, true), steps, t, Finish(7, true));
    t, steps := Take(Init(1, true), steps, t, EnterRelease(7));
    t, steps := Take(Init(1, true), steps, t, ReleaseTurn);
    FrontCleared(t.ws, t.queue);
    t, steps := Take(Init(1, true), steps, t, Enqueue(3));
    assert t.queue[0] == 3 && !Answered(t.ws, 3) && t.cs.idle == [7];
    assert Overlooked(t) by { Seen(t, 3); }
  }

  lemma OneWaits() returns (steps: seq<Step>, t: State)
    ensures Run(Init(1, true), steps, t)
    ensures t.lock.Free? && t.waits && t.connsCount == 1 == t.maxConns && t.cs.idle == []
    ensures 4 !in t.ws.all && 7 in t.cs.held && t.queue == [3] && !Answered(t.ws, 3) && !Answered(t.ws, 4)
    ensures 3 in t.ws.selecting && 3 !in t.ws.arriving
  {
    hide Run, Inv, Overlooked, ClearFront;
    steps, t := OneArrives();
    FrontCleared(t.ws, t.queue);
    t, steps := Take(Init(1, true), steps, t, Enqueue(3));
  }

  lemma TwoWait() returns (steps: seq<Step>, t: State)
    ensures Run(Init(1, true), steps, t)
    ensures t.lock.Free? && t.waits && t.cs.idle == [] && 7 in t.cs.held && t.queue == [3, 4]
    ensures 3 in t.ws.selecting && 3 !in t.ws.arriving && !Answered(t.ws, 3) && !Answered(t.ws, 4)
  {
    hide Run, Inv, Overlooked, ClearFront;
    steps, t := OneWaits();
    t, steps := Take(Init(1, true), steps, t, AcquireWait(4));
    assert !Answered(t.ws, t.queue[0]);
    FrontCleared(t.ws, t.queue);
    t, steps := Take(Init(1, true), steps, t, Enqueue(4));
  }

  /** The second way: the waiter gives up while it is being offered the connection, and another one waits. */
  lemma AtTheOffer() returns (steps: seq<Step>, t: State)
    ensures Run(Init(1, true), steps, t) && Overlooked(t)
  {
    hide Run, Inv, Overlooked, ClearFront;
    steps, t := TwoWait();
    t, steps := Take(Init(1, true), steps, t, Finish(7, true));
    t, steps := Take(Init(1, true), steps, t, EnterRelease(7));
    t, steps := Take(Init(1, true), steps, t, ReleaseTurn);
    t, steps := Take(Init(1, true), steps, t, GiveUp(3));
    t, steps := Take(Init(1, true), steps, t, Offer);
    assert t.queue[0] == 4 && !Answered(t.ws, 4) && t.cs.idle == [7];
    assert Overlooked(t) by { Seen(t, 4); }
  }

  lemma Seen(s: State, w: Waiter)
    requires s.cs.idle != [] && w in s.queue && !Answered(s.ws, w)
    ensures Overlooked(s)
  {
  }
}
