/**
 * The two counters of a server and what Shutdown concludes from them (server.go): the accept
 * loops, the connections and Shutdown, each step being one atomic operation or one call.
 */
module Server {
  import opened Counting

  type Id = nat
  type Conn = nat

  /** What an accept loop is at. */
  datatype Loop =
    | Registered                       // its listener is known to Shutdown, itself not counted yet
    | Accepting
    | Accepted(c: Conn)                // before the connection is counted
    | Handing(c: Conn)                 // before the worker pool takes or refuses it
    | Returning                        // the listener failed
    | Returned

  /** What a connection is at. */
  datatype Phase =
    | Offered                          // counted
    | Refused                          // by the worker pool, before it is uncounted
    | Queued                           // taken by the worker pool
    | Denied                           // ServeConn, above the limit, before it takes itself back
    | Asked                            // ServeConn, within the limit, before it is counted
    | Opened                           // ServeConn, counted
    | Begun                            // inside serveConn
    | Uncounted                        // serveConnCleanup, after its first half
    | Left                             // ServeConn, before its last decrement
    | Over

  datatype Shutdown = Up | Closing | Polling | Down

  datatype State = State(
    limit: nat,                        // Concurrency
    open: int,
    concurrency: int,
    loops: map<Id, Loop>,
    closed: set<Id>,                   // loops whose listener was closed
    conns: map<Conn, Phase>,
    direct: set<Conn>,                 // connections of ServeConn
    shutdown: Shutdown)                // mu is held except when Up

  datatype LoopAct = Register | CountLoop | Accept(c: Conn) | Fail | CountConn | Hand | Refuse | Uncount | Return

  datatype ConnAct = Ask | Deny | Open | Begin | Finish | Leave | Release

  datatype Step =
    | OfLoop(l: Id, loopAct: LoopAct)
    | OfConn(c: Conn, connAct: ConnAct)
    | BeginShutdown
    | NothingToClose                   // there is no listener: Shutdown returns at once
    | CloseListeners
    | SeeZero
    | EndShutdown

  predicate LoopMay(s: State, l: Id, act: LoopAct) {
    if act.Register? then s.shutdown.Up? && l !in s.loops
    else
      && l in s.loops
      && (var p := s.loops[l];
          match act
          case CountLoop => p.Registered?
          case Accept(c) =>
            p.Accepting? && l !in s.closed && c !in s.conns && forall k :: k in s.loops ==> s.loops[k] != Accepted(c)
          case Fail => p.Accepting?
          case CountConn => p.Accepted?
          case Hand => p.Handing? && p.c in s.conns && s.conns[p.c].Offered?
          case Refuse => p.Handing? && p.c in s.conns && s.conns[p.c].Offered?
          case Uncount => p.Handing? && p.c in s.conns && s.conns[p.c].Refused?
          case Return => p.Returning?
          case Register => false)
  }

  predicate ConnMay(s: State, c: Conn, act: ConnAct) {
    if act.Ask? then c !in s.conns && (forall k :: k in s.loops ==> s.loops[k] != Accepted(c))
    else
      && c in s.conns
      && match act
         case Deny => s.conns[c].Denied?
         case Open => s.conns[c].Asked?
         case Begin => s.conns[c].Queued? || s.conns[c].Opened?
         case Finish => s.conns[c].Begun?
         case Leave => s.conns[c].Uncounted?
         case Release => s.conns[c].Left?
         case Ask => false
  }

  predicate Enabled(s: State, step: Step) {
    match step
    case OfLoop(l, act) => LoopMay(s, l, act)
    case OfConn(c, act) => ConnMay(s, c, act)
    case BeginShutdown => s.shutdown.Up?
    case NothingToClose => s.shutdown.Closing? && s.loops.Keys <= s.closed
    case CloseListeners => s.shutdown.Closing? && !(s.loops.Keys <= s.closed)
    case SeeZero => s.shutdown.Polling? && s.open == 0
    case EndShutdown => s.shutdown.Down?
  }

  function Put(s: State, l: Id, p: Loop): State {
    s.(loops := s.loops[l := p])
  }

  function Move(s: State, c: Conn, p: Phase): State {
    s.(conns := s.conns[c := p])
  }

  function LoopNext(s: State, l: Id, act: LoopAct): State
    requires LoopMay(s, l, act)
  {
    match act
    case Register => Put(s, l, Registered)
    case CountLoop => Put(s, l, Accepting).(open := s.open + 1)
    case Accept(c) => Put(s, l, Accepted(c))
    case Fail => Put(s, l, Returning)
    case CountConn => Move(Put(s, l, Handing(s.loops[l].c)), s.loops[l].c, Offered).(open := s.open + 1)
    case Hand => Move(Put(s, l, Accepting), s.loops[l].c, Queued)
    case Refuse => Move(s, s.loops[l].c, Refused)
    case Uncount => Move(Put(s, l, Accepting), s.loops[l].c, Over).(open := s.open - 1)
    case Return => Put(s, l, Returned).(open := s.open - 1)
  }

  function ConnNext(s: State, c: Conn, act: ConnAct): State
    requires ConnMay(s, c, act)
  {
    match act
    case Ask =>
      var n := s.concurrency + 1;
      Move(s, c, if n > s.limit then Denied else Asked).(concurrency := n, direct := s.direct + {c})
    case Deny => Move(s, c, Over).(concurrency := s.concurrency - 1)
    case Open => Move(s, c, Opened).(open := s.open + 1)
    case Begin => Move(s, c, Begun).(concurrency := s.concurrency + 1)
    case Finish => Move(s, c, Uncounted).(open := s.open - 1)
    case Leave => Move(s, c, if c in s.direct then Left else Over).(concurrency := s.concurrency - 1)
    case Release => Move(s, c, Over).(concurrency := s.concurrency - 1)
  }

  function Next(s: State, step: Step): State
    requires Enabled(s, step)
  {
    match step
    case OfLoop(l, act) => LoopNext(s, l, act)
    case OfConn(c, act) => ConnNext(s, c, act)
    case BeginShutdown => s.(shutdown := Closing)
    case NothingToClose => s.(shutdown := Up)
    case CloseListeners => s.(shutdown := Polling, closed := s.closed + s.loops.Keys)
    case SeeZero => s.(shutdown := Down)
    case EndShutdown => s.(shutdown := Up)
  }

  function Init(limit: nat): State {
    State(limit, 0, 0, map[], {}, map[], {}, Up)
  }

  // ---- The invariant ----------------------------------------------------------------------

  predicate Runs(p: Loop) {
    !p.Registered? && !p.Returned?
  }

  /** The accept loops that run. */
  function RunningLoops(loops: map<Id, Loop>): set<Id> {
    set l | l in loops && Runs(loops[l])
  }

  predicate Counts(p: Phase) {
    p.Offered? || p.Refused? || p.Queued? || p.Opened? || p.Begun?
  }

  /** The connections that were counted and whose serveConn has not finished. */
  function OpenConns(conns: map<Conn, Phase>): set<Conn> {
    set c | c in conns && Counts(conns[c])
  }

  predicate Inside(p: Phase) {
    p.Begun? || p.Uncounted?
  }

  /** The connections inside serveConn. */
  function InsideServe(conns: map<Conn, Phase>): set<Conn> {
    set c | c in conns && Inside(conns[c])
  }

  /** The calls of ServeConn that have asked and not returned. */
  function Calls(conns: map<Conn, Phase>, direct: set<Conn>): set<Conn> {
    set c | c in direct && c in conns && !conns[c].Over?
  }

  ghost predicate OpenExact(open: int, loops: map<Id, Loop>, conns: map<Conn, Phase>) {
    open == Size(RunningLoops(loops)) + Size(OpenConns(conns))
  }

  /** A connection of ServeConn counts twice while it is inside serveConn. */
  ghost predicate ConcurrencyExact(concurrency: int, conns: map<Conn, Phase>, direct: set<Conn>) {
    concurrency == Size(InsideServe(conns)) + Size(Calls(conns, direct))
  }

  ghost predicate Directly(conns: map<Conn, Phase>, direct: set<Conn>) {
    forall c :: c in conns && (conns[c].Denied? || conns[c].Asked? || conns[c].Opened? || conns[c].Left?) ==> c in direct
  }

  predicate Has(p: Loop) {
    p.Accepted? || p.Handing?
  }

  /** A connection that a loop hands over is in the worker pool's hands or refused, and it is not ServeConn's. */
  ghost predicate Handed(loops: map<Id, Loop>, conns: map<Conn, Phase>, direct: set<Conn>) {
    && (forall l :: l in loops && loops[l].Accepted? ==> loops[l].c !in conns)
    && (forall l :: l in loops && loops[l].Handing? ==>
      loops[l].c in conns && (conns[loops[l].c].Offered? || conns[loops[l].c].Refused?) && loops[l].c !in direct)
    && (forall k, l :: k in loops && l in loops && k != l && Has(loops[k]) && Has(loops[l]) ==> loops[k].c != loops[l].c)
    && direct <= conns.Keys
  }

  ghost predicate Inv(s: State) {
    && OpenExact(s.open, s.loops, s.conns)
    && ConcurrencyExact(s.concurrency, s.conns, s.direct)
    && Directly(s.conns, s.direct)
    && Handed(s.loops, s.conns, s.direct)
    && (s.shutdown.Polling? || s.shutdown.Down? ==> s.loops.Keys <= s.closed)
  }

  lemma InitInv(limit: nat)
    ensures Inv(Init(limit))
  {
    assert RunningLoops(map[]) == {};
    assert OpenConns(map[]) == {} && InsideServe(map[]) == {};
    assert Calls(map[], {}) == {};
  }

  // ---- Every step keeps it ----------------------------------------------------------------

  lemma LoopMoves(loops: map<Id, Loop>, l: Id, p: Loop)
    ensures Size(RunningLoops(loops[l := p])) + Count(l in loops && Runs(loops[l]))
      == Size(RunningLoops(loops)) + Count(Runs(p))
  {
    var was := RunningLoops(loops);
    assert RunningLoops(loops[l := p]) == if Runs(p) then was + {l} else was - {l};
    SizeMoves(was, l);
    hide Size;
  }

  lemma OpenMoves(conns: map<Conn, Phase>, c: Conn, p: Phase)
    ensures Size(OpenConns(conns[c := p])) + Count(c in conns && Counts(conns[c]))
      == Size(OpenConns(conns)) + Count(Counts(p))
  {
    var was := OpenConns(conns);
    assert OpenConns(conns[c := p]) == if Counts(p) then was + {c} else was - {c};
    SizeMoves(was, c);
    hide Size;
  }

  lemma InsideMoves(conns: map<Conn, Phase>, c: Conn, p: Phase)
    ensures Size(InsideServe(conns[c := p])) + Count(c in conns && Inside(conns[c]))
      == Size(InsideServe(conns)) + Count(Inside(p))
  {
    var was := InsideServe(conns);
    assert InsideServe(conns[c := p]) == if Inside(p) then was + {c} else was - {c};
    SizeMoves(was, c);
    hide Size;
  }

  lemma CallsMove(conns: map<Conn, Phase>, direct: set<Conn>, c: Conn, p: Phase)
    ensures c in direct ==>
      Size(Calls(conns[c := p], direct)) + Count(c in conns && !conns[c].Over?)
      == Size(Calls(conns, direct)) + Count(!p.Over?)
    ensures c !in direct ==> Calls(conns[c := p], direct) == Calls(conns, direct)
  {
    hide Size;
    var was := Calls(conns, direct);
    SizeMoves(was, c);
    if c in direct {
      assert Calls(conns[c := p], direct) == if !p.Over? then was + {c} else was - {c};
    }
  }

  lemma CallsNew(conns: map<Conn, Phase>, direct: set<Conn>, c: Conn, p: Phase)
    requires c !in conns && !p.Over?
    ensures Size(Calls(conns[c := p], direct + {c})) == Size(Calls(conns, direct)) + 1
  {
    hide Size;
    var was := Calls(conns, direct);
    SizeMoves(was, c);
    assert Calls(conns[c := p], direct + {c}) == was + {c};
  }

  lemma LoopKeeps(s: State, l: Id, act: LoopAct)
    requires Inv(s) && LoopMay(s, l, act)
    ensures var t := LoopNext(s, l, act);
      OpenExact(t.open, t.loops, t.conns) && ConcurrencyExact(t.concurrency, t.conns, t.direct)
  {
    hide RunningLoops, OpenConns, InsideServe, Calls, Size, Directly;
    var t := LoopNext(s, l, act);
    LoopMoves(s.loops, l, t.loops[l]);
    if act.CountConn? || act.Hand? || act.Refuse? || act.Uncount? {
      var c := s.loops[l].c;
      OpenMoves(s.conns, c, t.conns[c]);
      InsideMoves(s.conns, c, t.conns[c]);
      CallsMove(s.conns, s.direct, c, t.conns[c]);
    }
  }

  lemma ConnKeeps(s: State, c: Conn, act: ConnAct)
    requires Inv(s) && ConnMay(s, c, act)
    ensures var t := ConnNext(s, c, act);
      OpenExact(t.open, t.loops, t.conns) && ConcurrencyExact(t.concurrency, t.conns, t.direct)
  {
    hide RunningLoops, OpenConns, InsideServe, Calls, Size, Handed;
    var t := ConnNext(s, c, act);
    OpenMoves(s.conns, c, t.conns[c]);
    InsideMoves(s.conns, c, t.conns[c]);
    CallsMove(s.conns, s.direct, c, t.conns[c]);
    if act.Ask? {
      CallsNew(s.conns, s.direct, c, t.conns[c]);
    }
  }

  lemma DirectlyByLoop(s: State, l: Id, act: LoopAct)
    requires Directly(s.conns, s.direct) && LoopMay(s, l, act)
    ensures var t := LoopNext(s, l, act); Directly(t.conns, t.direct)
  {
  }

  lemma DirectlyByConn(s: State, c: Conn, act: ConnAct)
    requires Directly(s.conns, s.direct) && ConnMay(s, c, act)
    ensures var t := ConnNext(s, c, act); Directly(t.conns, t.direct)
  {
  }

  lemma HandedByLoop(s: State, l: Id, act: LoopAct)
    requires Handed(s.loops, s.conns, s.direct) && LoopMay(s, l, act)
    ensures var t := LoopNext(s, l, act); Handed(t.loops, t.conns, t.direct)
  {
  }

  lemma HandedByConn(s: State, c: Conn, act: ConnAct)
    requires Handed(s.loops, s.conns, s.direct) && Directly(s.conns, s.direct) && ConnMay(s, c, act)
    ensures var t := ConnNext(s, c, act); Handed(t.loops, t.conns, t.direct)
  {
  }

  lemma ClosedKept(s: State, step: Step)
    requires (s.shutdown.Polling? || s.shutdown.Down? ==> s.loops.Keys <= s.closed) && Enabled(s, step)
    ensures var t := Next(s, step); t.shutdown.Polling? || t.shutdown.Down? ==> t.loops.Keys <= t.closed
  {
  }

  lemma StepKeeps(s: State, step: Step)
    requires Inv(s) && Enabled(s, step)
    ensures Inv(Next(s, step))
  {
    ClosedKept(s, step);
    match step {
      case OfLoop(l, act) => LoopKeeps(s, l, act); DirectlyByLoop(s, l, act); HandedByLoop(s, l, act);
      case OfConn(c, act) => ConnKeeps(s, c, act); DirectlyByConn(s, c, act); HandedByConn(s, c, act);
      case _ =>
    }
    hide LoopNext, ConnNext, LoopMay, ConnMay, OpenExact, ConcurrencyExact, Directly, Handed;
  }

  // ---- What holds of every run ------------------------------------------------------------

  /** The steps lead from one state to the other, each one enabled where it is taken. */
  ghost predicate Run(s: State, steps: seq<Step>, t: State)
    decreases |steps|
  {
    if steps == [] then s == t
    else Enabled(s, steps[0]) && Run(Next(s, steps[0]), steps[1..], t)
  }

  lemma {:induction false} RunKeeps(s: State, steps: seq<Step>, t: State)
    requires Inv(s) && Run(s, steps, t)
    ensures Inv(t)
    decreases |steps|
  {
    hide Inv, Enabled, Next;
    if steps != [] {
      StepKeeps(s, steps[0]);
      RunKeeps(Next(s, steps[0]), steps[1..], t);
    }
  }

  /** The two counters are what they stand for. */
  lemma CountersExact(limit: nat, steps: seq<Step>, t: State)
    requires Run(Init(limit), steps, t)
    ensures t.open == |RunningLoops(t.loops)| + |OpenConns(t.conns)|
    ensures t.concurrency == |InsideServe(t.conns)| + |Calls(t.conns, t.direct)|
  {
    InitInv(limit);
    RunKeeps(Init(limit), steps, t);
    hide Run, Handed, Directly, RunningLoops, OpenConns, InsideServe, Calls;
  }

  /**
   * A call of ServeConn is turned away exactly when the calls that are there, and once more those of them
   * and of the worker pool that are being served, are as many as the limit. So one that is served takes
   * two places.
   */
  lemma DeniedExactly(limit: nat, steps: seq<Step>, t: State, c: Conn)
    requires Run(Init(limit), steps, t) && ConnMay(t, c, Ask)
    ensures var u := ConnNext(t, c, Ask);
      && c in u.conns && u.concurrency == t.concurrency + 1
      && (u.conns[c].Denied? <==> |InsideServe(t.conns)| + |Calls(t.conns, t.direct)| >= limit)
      && (u.conns[c].Asked? <==> |InsideServe(t.conns)| + |Calls(t.conns, t.direct)| < limit)
  {
    SameLimit(Init(limit), steps, t);
    CountersExact(limit, steps, t);
    hide Run, InsideServe, Calls;
  }

  lemma {:induction false} SameLimit(s: State, steps: seq<Step>, t: State)
    requires Run(s, steps, t)
    ensures t.limit == s.limit
    decreases |steps|
  {
    if steps != [] {
      SameLimit(Next(s, steps[0]), steps[1..], t);
    }
  }

  /** A call that is turned away is only taken back, and one that is let in is counted. */
  lemma AfterAsking(s: State, c: Conn, step: Step)
    requires Inv(s) && c in s.conns && Enabled(s, step)
    ensures s.conns[c].Denied? ==> Next(s, step).conns[c] == if step == OfConn(c, Deny) then Over else Denied
    ensures s.conns[c].Asked? ==> Next(s, step).conns[c] == if step == OfConn(c, Open) then Opened else Asked
  {
    hide OpenExact, ConcurrencyExact;
  }

  /** The calls of ServeConn that were let in and have not returned. */
  function LetIn(conns: map<Conn, Phase>, direct: set<Conn>): set<Conn> {
    set c | c in direct && c in conns && !conns[c].Denied? && !conns[c].Over?
  }

  lemma LetInByLoop(s: State, l: Id, act: LoopAct)
    requires Handed(s.loops, s.conns, s.direct) && LoopMay(s, l, act)
    ensures var t := LoopNext(s, l, act); LetIn(t.conns, t.direct) <= LetIn(s.conns, s.direct) && t.limit == s.limit
  {
  }

  lemma LetInByConn(s: State, c: Conn, act: ConnAct)
    requires ConnMay(s, c, act)
    ensures var t := ConnNext(s, c, act);
      && t.limit == s.limit
      && if act.Ask? && t.conns[c].Asked? then
           c !in LetIn(s.conns, s.direct) && LetIn(t.conns, t.direct) == LetIn(s.conns, s.direct) + {c}
         else LetIn(t.conns, t.direct) <= LetIn(s.conns, s.direct)
  {
  }

  lemma AmongCalls(s: State)
    requires ConcurrencyExact(s.concurrency, s.conns, s.direct)
    ensures Size(LetIn(s.conns, s.direct)) <= s.concurrency
  {
    Fewer(LetIn(s.conns, s.direct), Calls(s.conns, s.direct));
  }

  lemma LetInStep(s: State, step: Step)
    requires Inv(s) && Enabled(s, step) && Size(LetIn(s.conns, s.direct)) <= s.limit
    ensures var t := Next(s, step); Size(LetIn(t.conns, t.direct)) <= t.limit == s.limit
  {
    hide LetIn, Size, OpenExact, ConcurrencyExact, Handed, Directly;
    var was := LetIn(s.conns, s.direct);
    AmongCalls(s);
    match step {
      case OfLoop(l, act) =>
        LetInByLoop(s, l, act);
        hide LoopNext, LoopMay;
        Fewer(LetIn(Next(s, step).conns, Next(s, step).direct), was);
      case OfConn(c, act) =>
        LetInByConn(s, c, act);
        SizeMoves(was, c);
        if !(act.Ask? && Next(s, step).conns[c].Asked?) {
          Fewer(LetIn(Next(s, step).conns, Next(s, step).direct), was);
        }
      case _ =>
    }
  }

  lemma {:induction false} Fewer(a: set<Conn>, b: set<Conn>)
    requires a <= b
    ensures Size(a) <= Size(b)
  {
    assert b == a + (b - a);
  }

  /** Never more of them than the limit, in any run. */
  lemma {:induction false} WithinConcurrency(s: State, steps: seq<Step>, t: State)
    requires Inv(s) && Run(s, steps, t) && Size(LetIn(s.conns, s.direct)) <= s.limit
    ensures |LetIn(t.conns, t.direct)| <= t.limit
    decreases |steps|
  {
    hide Inv, LetIn, Enabled, Next;
    if steps != [] {
      StepKeeps(s, steps[0]);
      LetInStep(s, steps[0]);
      WithinConcurrency(Next(s, steps[0]), steps[1..], t);
    }
  }

  /** GetOpenConnectionsCount, while the server is not being shut down, is right exactly when one loop accepts. */
  lemma OpenConnectionsCount(limit: nat, steps: seq<Step>, t: State)
    requires Run(Init(limit), steps, t)
    ensures t.open - 1 == |OpenConns(t.conns)| <==> |RunningLoops(t.loops)| == 1
  {
    CountersExact(limit, steps, t);
  }

  /** When Shutdown sees zero no connection that was counted is still being served, and no loop accepts. */
  lemma ZeroIsSound(limit: nat, steps: seq<Step>, t: State)
    requires Run(Init(limit), steps, t) && Enabled(t, SeeZero)
    ensures RunningLoops(t.loops) == {} && OpenConns(t.conns) == {}
    ensures Settled(Next(t, SeeZero))
  {
    InitInv(limit);
    RunKeeps(Init(limit), steps, t);
    hide Run, ConcurrencyExact, Handed, Directly;
    assert RunningLoops(t.loops) == {} && OpenConns(t.conns) == {};
    forall l | l in t.loops ensures !Runs(t.loops[l]) { assert l !in RunningLoops(t.loops); }
    forall c | c in t.conns ensures !Counts(t.conns[c]) { assert c !in OpenConns(t.conns); }
  }

  /** No loop can accept any more, and what is still served came through ServeConn. */
  ghost predicate Settled(s: State) {
    && s.loops.Keys <= s.closed
    && (forall l :: l in s.loops ==> !s.loops[l].Accepted? && !s.loops[l].Handing?)
    && (forall c :: c in s.conns && Counts(s.conns[c]) ==> c in s.direct)
    && (forall c :: c in s.conns && (s.conns[c].Asked? || s.conns[c].Opened?) ==> c in s.direct)
  }

  /** It stays so, for the loops that there were: only a loop that is started later can bring another connection. */
  lemma {:induction false} SettledForGood(s: State, steps: seq<Step>, t: State)
    requires Settled(s) && Run(s, steps, t)
    requires forall step :: step in steps ==> !(step.OfLoop? && step.loopAct.Register?)
    ensures Settled(t)
    decreases |steps|
  {
    if steps != [] {
      assert steps[0] in steps;
      SettledOnce(s, steps[0]);
      SettledForGood(Next(s, steps[0]), steps[1..], t);
    }
  }

  lemma SettledOnce(s: State, step: Step)
    requires Settled(s) && Enabled(s, step) && !(step.OfLoop? && step.loopAct.Register?)
    ensures Settled(Next(s, step))
  {
  }

  // ---- When nothing new comes -------------------------------------------------------------

  /** A new loop, connection or call, or a new Shutdown. */
  predicate Outside(step: Step) {
    match step
    case OfLoop(_, act) => act.Register? || act.Accept?
    case OfConn(_, act) => act.Ask?
    case _ => step.BeginShutdown?
  }

  function LoopLeft(p: Loop): nat {
    match p
    case Registered => 5
    case Accepted(_) => 4
    case Handing(_) => 3
    case Accepting => 2
    case Returning => 1
    case Returned => 0
  }

  function PhaseLeft(p: Phase): nat {
    match p
    case Offered => 6
    case Asked => 6
    case Queued => 5
    case Opened => 5
    case Begun => 4
    case Uncounted => 3
    case Left => 2
    case Refused => 1
    case Denied => 1
    case Over => 0
  }

  function ShutdownLeft(p: Shutdown): nat {
    match p
    case Closing => 3
    case Polling => 2
    case Down => 1
    case Up => 0
  }

  /** Every other step brings a loop, a connection or Shutdown nearer to its end, and none further from it. */
  lemma Onward(s: State, step: Step)
    requires Handed(s.loops, s.conns, s.direct) && Enabled(s, step) && !Outside(step)
    ensures var t := Next(s, step);
      && (forall l :: l in s.loops ==>
            l in t.loops && (t.loops[l] == s.loops[l] || LoopLeft(t.loops[l]) < LoopLeft(s.loops[l])))
      && (forall c :: c in s.conns ==>
            c in t.conns && (t.conns[c] == s.conns[c] || PhaseLeft(t.conns[c]) < PhaseLeft(s.conns[c])))
      && (t.shutdown == s.shutdown || ShutdownLeft(t.shutdown) < ShutdownLeft(s.shutdown))
      && (t.loops != s.loops || t.conns != s.conns || t.shutdown != s.shutdown)
  {
    match step {
      case OfLoop(l, act) => LoopOnward(s, l, act);
      case OfConn(c, act) =>
        var t := ConnNext(s, c, act);
        assert PhaseLeft(t.conns[c]) < PhaseLeft(s.conns[c]);
        assert t.loops == s.loops && forall d :: d in s.conns && d != c ==> t.conns[d] == s.conns[d];
      case _ =>
    }
    hide Handed, LoopNext, ConnNext, Outside;
  }

  lemma LoopOnward(s: State, l: Id, act: LoopAct)
    requires Handed(s.loops, s.conns, s.direct) && LoopMay(s, l, act) && !act.Register? && !act.Accept?
    ensures var t := LoopNext(s, l, act);
      && t.shutdown == s.shutdown
      && (forall k :: k in s.loops ==> k in t.loops && (k != l ==> t.loops[k] == s.loops[k]))
      && (t.loops[l] == s.loops[l] || LoopLeft(t.loops[l]) < LoopLeft(s.loops[l]))
      && (forall c :: c in s.conns ==>
            c in t.conns && (t.conns[c] == s.conns[c] || PhaseLeft(t.conns[c]) < PhaseLeft(s.conns[c])))
      && (t.loops != s.loops || t.conns != s.conns)
  {
    if act.Refuse? {
      assert LoopNext(s, l, act).conns[s.loops[l].c] != s.conns[s.loops[l].c];
    } else {
      assert LoopNext(s, l, act).loops[l] != s.loops[l];
    }
  }

  /** A connection that was accepted is in the hands of a loop until the worker pool has it. */
  ghost predicate Carried(s: State) {
    forall c :: c in s.conns && (s.conns[c].Offered? || s.conns[c].Refused?) ==>
      exists l :: l in s.loops && s.loops[l] == Handing(c)
  }

  lemma CarriedKept(s: State, step: Step)
    requires Carried(s) && Handed(s.loops, s.conns, s.direct) && Enabled(s, step)
    ensures Carried(Next(s, step))
  {
    var t := Next(s, step);
    forall c | c in t.conns && (t.conns[c].Offered? || t.conns[c].Refused?)
      ensures exists l :: l in t.loops && t.loops[l] == Handing(c)
    {
      if c in s.conns && (s.conns[c].Offered? || s.conns[c].Refused?) {
        var l :| l in s.loops && s.loops[l] == Handing(c);
        assert t.loops[l] == Handing(c);
      } else {
        assert t.loops[step.l] == Handing(c);
      }
    }
  }

  lemma {:induction false} CarriedInRuns(s: State, steps: seq<Step>, t: State)
    requires Inv(s) && Carried(s) && Run(s, steps, t)
    ensures Carried(t)
    decreases |steps|
  {
    if steps != [] {
      StepKeeps(s, steps[0]);
      CarriedKept(s, steps[0]);
      hide Inv, Carried, Next, Enabled;
      CarriedInRuns(Next(s, steps[0]), steps[1..], t);
    }
  }

  /**
   * Nothing is stuck before the end: where no such step is left every connection is over, every loop has
   * returned, Shutdown is through, and both counters are zero.
   */
  lemma AtRest(limit: nat, steps: seq<Step>, t: State)
    requires Run(Init(limit), steps, t) && forall step :: Enabled(t, step) ==> Outside(step)
    ensures forall c :: c in t.conns ==> t.conns[c] == Over
    ensures forall l :: l in t.loops ==> t.loops[l] == Returned
    ensures t.open == 0 == t.concurrency && t.shutdown == Up
  {
    InitInv(limit);
    RunKeeps(Init(limit), steps, t);
    CarriedInRuns(Init(limit), steps, t);
    CountersExact(limit, steps, t);
    hide Run;
    LoopsDone(t);
    ConnsDone(t);
    assert RunningLoops(t.loops) == {} && OpenConns(t.conns) == {};
    assert InsideServe(t.conns) == {} && Calls(t.conns, t.direct) == {};
    assert !Enabled(t, NothingToClose) && !Enabled(t, CloseListeners) && !Enabled(t, SeeZero) && !Enabled(t, EndShutdown);
  }

  lemma LoopsDone(s: State)
    requires Handed(s.loops, s.conns, s.direct) && forall step :: Enabled(s, step) ==> Outside(step)
    ensures forall l :: l in s.loops ==> s.loops[l] == Returned
  {
    forall l | l in s.loops ensures s.loops[l] == Returned {
      assert !Enabled(s, OfLoop(l, CountLoop)) && !Enabled(s, OfLoop(l, Fail)) && !Enabled(s, OfLoop(l, CountConn));
      assert !Enabled(s, OfLoop(l, Hand)) && !Enabled(s, OfLoop(l, Uncount)) && !Enabled(s, OfLoop(l, Return));
    }
  }

  lemma ConnsDone(s: State)
    requires Carried(s) && forall l :: l in s.loops ==> s.loops[l] == Returned
    requires forall step :: Enabled(s, step) ==> Outside(step)
    ensures forall c :: c in s.conns ==> s.conns[c] == Over
  {
    forall c | c in s.conns ensures s.conns[c] == Over {
      assert !Enabled(s, OfConn(c, Deny)) && !Enabled(s, OfConn(c, Open)) && !Enabled(s, OfConn(c, Begin));
      assert !Enabled(s, OfConn(c, Finish)) && !Enabled(s, OfConn(c, Leave)) && !Enabled(s, OfConn(c, Release));
    }
  }

  /** A connection is over when it was refused, turned away or served, and a call of ServeConn when it returns. */
  lemma OverWhen(s: State, step: Step, c: Conn)
    requires Inv(s) && Enabled(s, step) && c in s.conns && s.conns[c] != Over
    ensures c in Next(s, step).conns
    ensures Next(s, step).conns[c] == Over ==>
      s.conns[c] in [Refused, Denied, Left] || (s.conns[c] == Uncounted && c !in s.direct)
    ensures s.conns[c] == Begun && Next(s, step).conns[c] != Begun ==> Next(s, step).conns[c] == Uncounted
    ensures s.conns[c] in [Queued, Opened] && Next(s, step).conns[c] != s.conns[c] ==> Next(s, step).conns[c] == Begun
  {
    hide OpenExact, ConcurrencyExact, Directly;
  }

  /**
   * From the moment Shutdown begins until it returns no listener is added; it closes all there are, so that
   * their loops accept nothing more, and it returns when it sees zero. Without a listener that is not closed
   * yet it returns at once, whatever is still served.
   */
  lemma ShutdownGoes(s: State, l: Id, c: Conn)
    requires s.shutdown == Up
    ensures var t := Next(s, BeginShutdown);
      && !Enabled(t, OfLoop(l, Register))
      && ((forall k :: k in s.loops ==> k in s.closed) ==> Enabled(t, NothingToClose) && Next(t, NothingToClose) == s)
      && (l in s.loops && l !in s.closed ==>
            && Enabled(t, CloseListeners) && !Enabled(t, NothingToClose)
            && var u := Next(t, CloseListeners);
              && !Enabled(u, OfLoop(l, Accept(c))) && (Enabled(u, SeeZero) <==> s.open == 0)
              && (s.open == 0 ==> Enabled(Next(u, SeeZero), EndShutdown)))
  {
  }

  /**
   * A listener can be served whenever the server is not being shut down, and only then; ServeConn can be
   * called at any time.
   */
  lemma MayServe(s: State, l: Id, c: Conn)
    requires l !in s.loops && c !in s.conns && forall k :: k in s.loops ==> s.loops[k] != Accepted(c)
    ensures Enabled(s, OfLoop(l, Register)) <==> s.shutdown == Up
    ensures s.shutdown == Up && l !in s.closed ==>
      var t := Next(s, OfLoop(l, Register));
      && Enabled(t, OfLoop(l, CountLoop))
      && var u := Next(t, OfLoop(l, CountLoop));
        Enabled(u, OfLoop(l, Accept(c))) && Next(u, OfLoop(l, Accept(c))).loops[l] == Accepted(c)
    ensures Enabled(s, OfConn(c, Ask))
  {
  }
}
