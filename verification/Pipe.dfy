/**
 * The in-memory pipes of a process and the pool of buffers that they share, as a protocol
 * (fasthttputil/pipeconns.go). A direction of a pipe has one writer and one reader; each step is
 * one channel operation, or one access to the pool or to the memory of a buffer.
 */
module Pipe {
  import opened Bytes
  import opened Counting

  type Buf = nat
  type Id = nat
  type Pipes = nat

  const QUEUE_SIZE := 4

  /** Write, before and after it has looked whether the pipe is closed. */
  datatype Writer = Idle | Filled(b: Buf) | Sending(b: Buf)

  /** c.b and the part of it that c.bb refers to. */
  datatype Current = None | Some(b: Buf, from: nat, to: nat)

  datatype Dir = Dir(
    pipe: Pipes,
    queue: seq<Buf>,
    writer: Writer,
    cur: Current,
    written: seq<byte>,                // by the calls of Write that succeeded
    read: seq<byte>,                   // by all calls of Read
    eof: bool)                         // Read has returned io.EOF

  datatype State = State(
    dirs: map<Id, Dir>,
    closed: set<Pipes>,
    pool: set<Buf>,
    made: set<Buf>,                    // every buffer that was ever made
    memory: map<Buf, seq<byte>>)       // what is in a buffer now

  datatype Act =
    | Fill(b: Buf, p: seq<byte>)       // a buffer from the pool or a new one, filled with the argument
    | SeeClosed
    | SeeOpen
    | Push
    | TimeOut
    | FindClosed                       // while waiting for room
    | Release                          // the reader gives back the buffer it has used up
    | Take
    | Copy(n: nat)
    | Eof

  datatype Step =
    | Make(d: Id, pipe: Pipes)
    | Close(pipe: Pipes)
    | On(d: Id, act: Act)

  function Mem(memory: map<Buf, seq<byte>>, b: Buf): seq<byte> {
    if b in memory then memory[b] else []
  }

  /** The bytes that c.bb refers to. */
  function Rest(memory: map<Buf, seq<byte>>, cur: Current): seq<byte> {
    if cur.Some? && cur.from <= cur.to <= |Mem(memory, cur.b)| then Mem(memory, cur.b)[cur.from..cur.to] else []
  }

  function Left(cur: Current): nat {
    if cur.Some? && cur.from <= cur.to then cur.to - cur.from else 0
  }

  predicate Acting(s: State, d: Id, act: Act) {
    && d in s.dirs
    && (var dir := s.dirs[d];
        match act
        case Fill(b, _) => dir.writer.Idle? && (b in s.pool || b !in s.made)
        case SeeClosed => dir.writer.Filled? && dir.pipe in s.closed
        case SeeOpen => dir.writer.Filled? && dir.pipe !in s.closed
        case Push => dir.writer.Sending? && |dir.queue| < QUEUE_SIZE
        case TimeOut => dir.writer.Sending?
        case FindClosed => dir.writer.Sending? && dir.pipe in s.closed
        case Release => dir.cur.Some? && Left(dir.cur) == 0
        case Take => dir.cur.None? && dir.queue != []
        case Copy(n) => n <= Left(dir.cur)
        case Eof => dir.cur.None? && dir.queue == [] && dir.pipe in s.closed)
  }

  predicate Enabled(s: State, step: Step) {
    match step
    case Make(d, _) => d !in s.dirs
    case Close(_) => true
    case On(d, act) => Acting(s, d, act)
  }

  function Set(s: State, d: Id, dir: Dir): State {
    s.(dirs := s.dirs[d := dir])
  }

  function Acted(s: State, d: Id, act: Act): State
    requires Acting(s, d, act)
  {
    var dir := s.dirs[d];
    match act
    case Fill(b, p) =>
      Set(s, d, dir.(writer := Filled(b))).(pool := s.pool - {b}, made := s.made + {b}, memory := s.memory[b := p])
    case SeeClosed => Set(s, d, dir.(writer := Idle)).(pool := s.pool + {dir.writer.b})
    case SeeOpen => Set(s, d, dir.(writer := Sending(dir.writer.b)))
    case Push =>
      Set(s, d, dir.(writer := Idle, queue := dir.queue + [dir.writer.b],
                     written := dir.written + Mem(s.memory, dir.writer.b)))
    case TimeOut => Set(s, d, dir.(writer := Idle))
    case FindClosed => Set(s, d, dir.(writer := Idle)).(pool := s.pool + {dir.writer.b})
    case Release => Set(s, d, dir.(cur := None)).(pool := s.pool + {dir.cur.b})
    case Take =>
      Set(s, d, dir.(queue := dir.queue[1..], cur := Some(dir.queue[0], 0, |Mem(s.memory, dir.queue[0])|)))
    case Copy(n) =>
      if n == 0 then s
      else
        Set(s, d, dir.(cur := Some(dir.cur.b, dir.cur.from + n, dir.cur.to),
                       read := dir.read + Window(Mem(s.memory, dir.cur.b), dir.cur.from, n)))
    case Eof => Set(s, d, dir.(eof := true))
  }

  /** copy(p, c.bb): n bytes of the memory that is there now. */
  function Window(m: seq<byte>, from: nat, n: nat): seq<byte> {
    if from + n <= |m| then m[from..from + n] else []
  }

  function Next(s: State, step: Step): State
    requires Enabled(s, step)
  {
    match step
    case Make(d, pipe) => Set(s, d, Dir(pipe, [], Idle, None, [], [], false))
    case Close(pipe) => s.(closed := s.closed + {pipe})
    case On(d, act) => Acted(s, d, act)
  }

  function Init(): State {
    State(map[], {}, {}, {}, map[])
  }

  // ---- The invariant ----------------------------------------------------------------------

  predicate Writes(dir: Dir, b: Buf) {
    !dir.writer.Idle? && dir.writer.b == b
  }

  predicate Holds(dir: Dir, b: Buf) {
    b in dir.queue || (dir.cur.Some? && dir.cur.b == b) || Writes(dir, b)
  }

  /** In one direction a buffer is with the writer, in the queue or with the reader, once. */
  ghost predicate Orderly(dir: Dir) {
    && Distinct(dir.queue) && |dir.queue| <= QUEUE_SIZE
    && (dir.cur.Some? ==> dir.cur.b !in dir.queue && !Writes(dir, dir.cur.b) && dir.cur.from <= dir.cur.to)
    && (!dir.writer.Idle? ==> dir.writer.b !in dir.queue)
  }

  /** A buffer is used in one direction, and it is in the pool only when it is used in none. */
  ghost predicate Apart(s: State) {
    && s.pool <= s.made
    && (forall d :: d in s.dirs ==> Orderly(s.dirs[d]))
    && (forall d, b :: d in s.dirs && Holds(s.dirs[d], b) ==> b in s.made && b !in s.pool)
    && (forall d, e, b :: d in s.dirs && e in s.dirs && Holds(s.dirs[d], b) && Holds(s.dirs[e], b) ==> d == e)
  }

  function Contents(memory: map<Buf, seq<byte>>, q: seq<Buf>): seq<byte> {
    if q == [] then [] else Mem(memory, q[0]) + Contents(memory, q[1..])
  }

  /** What was written is what was read, then what the reader still has, then what is queued. */
  ghost predicate Conserved(memory: map<Buf, seq<byte>>, dir: Dir) {
    && dir.written == dir.read + Rest(memory, dir.cur) + Contents(memory, dir.queue)
    && (dir.cur.Some? ==> dir.cur.to <= |Mem(memory, dir.cur.b)|)
  }

  ghost predicate Inv(s: State) {
    && Apart(s)
    && (forall d :: d in s.dirs ==> Conserved(s.memory, s.dirs[d]))
    && (forall d :: d in s.dirs && s.dirs[d].eof ==> s.dirs[d].pipe in s.closed)
  }

  lemma InitInv()
    ensures Inv(Init())
  {
  }

  // ---- Every step keeps it ----------------------------------------------------------------

  /** A direction that holds no other buffers than before may give some of them back. */
  lemma Shrinks(s: State, d: Id, dir: Dir, back: set<Buf>)
    requires Apart(s) && d in s.dirs && Orderly(dir)
    requires forall b :: Holds(dir, b) ==> Holds(s.dirs[d], b) && b !in back
    requires forall b :: b in back ==> Holds(s.dirs[d], b)
    ensures Apart(Set(s, d, dir).(pool := s.pool + back))
  {
    hide Orderly, Holds;
  }

  lemma Fills(s: State, d: Id, b: Buf, p: seq<byte>)
    requires Apart(s) && Acting(s, d, Fill(b, p))
    ensures Apart(Acted(s, d, Fill(b, p)))
    ensures forall e :: e in s.dirs ==> !Holds(s.dirs[e], b)
  {
    var dir := s.dirs[d];
    var t := dir.(writer := Filled(b));
    assert forall x :: Holds(t, x) <==> Holds(dir, x) || x == b;
    assert b in s.pool || b !in s.made;
    assert !Holds(dir, b);
    assert Orderly(dir);
    assert Orderly(t);
    hide Orderly, Holds;
  }

  lemma ApartActed(s: State, d: Id, act: Act)
    requires Apart(s) && Acting(s, d, act)
    ensures Apart(Acted(s, d, act))
  {
    var dir := s.dirs[d];
    assert Orderly(dir);
    hide Mem;
    match act {
      case Fill(b, p) => Fills(s, d, b, p);
      case SeeClosed => Shrinks(s, d, dir.(writer := Idle), {dir.writer.b});
      case SeeOpen => Shrinks(s, d, dir.(writer := Sending(dir.writer.b)), {});
      case Push =>
        Shrinks(s, d, dir.(writer := Idle, queue := dir.queue + [dir.writer.b],
                           written := dir.written + Mem(s.memory, dir.writer.b)), {});
      case TimeOut => Shrinks(s, d, dir.(writer := Idle), {});
      case FindClosed => Shrinks(s, d, dir.(writer := Idle), {dir.writer.b});
      case Release => Shrinks(s, d, dir.(cur := None), {dir.cur.b});
      case Take =>
        assert dir.queue[0] in dir.queue;
        Shrinks(s, d, dir.(queue := dir.queue[1..], cur := Some(dir.queue[0], 0, |Mem(s.memory, dir.queue[0])|)), {});
      case Copy(n) => if n > 0 { Shrinks(s, d, Acted(s, d, act).dirs[d], {}); }
      case Eof => Shrinks(s, d, dir.(eof := true), {});
    }
    hide Apart, Orderly, Holds;
  }

  lemma {:induction false} SameContents(m: map<Buf, seq<byte>>, n: map<Buf, seq<byte>>, q: seq<Buf>)
    requires forall b :: b in q ==> Mem(m, b) == Mem(n, b)
    ensures Contents(m, q) == Contents(n, q)
  {
    if q != [] {
      SameContents(m, n, q[1..]);
    }
  }

  lemma {:induction false} ContentsPlus(m: map<Buf, seq<byte>>, q: seq<Buf>, b: Buf)
    ensures Contents(m, q + [b]) == Contents(m, q) + Mem(m, b)
  {
    hide Mem;
    if q == [] {
      assert Contents(m, [b]) == Mem(m, b) + Contents(m, []);
    } else {
      ContentsPlus(m, q[1..], b);
      assert (q + [b])[1..] == q[1..] + [b];
    }
  }

  /** A direction keeps its bytes when the memory of its buffers does not change. */
  lemma SameBytes(m: map<Buf, seq<byte>>, n: map<Buf, seq<byte>>, dir: Dir, w: Writer)
    requires Conserved(m, dir)
    requires forall b :: b in dir.queue || (dir.cur.Some? && dir.cur.b == b) ==> Mem(m, b) == Mem(n, b)
    ensures Conserved(n, dir.(writer := w))
  {
    SameContents(m, n, dir.queue);
  }

  lemma Pushes(m: map<Buf, seq<byte>>, dir: Dir, b: Buf)
    requires Conserved(m, dir)
    ensures Conserved(m, dir.(writer := Idle, queue := dir.queue + [b], written := dir.written + Mem(m, b)))
  {
    ContentsPlus(m, dir.queue, b);
    hide Contents, Rest;
  }

  lemma Takes(m: map<Buf, seq<byte>>, dir: Dir)
    requires Conserved(m, dir) && dir.cur.None? && dir.queue != []
    ensures Conserved(m, dir.(queue := dir.queue[1..], cur := Some(dir.queue[0], 0, |Mem(m, dir.queue[0])|)))
  {
    assert Contents(m, dir.queue) == Mem(m, dir.queue[0]) + Contents(m, dir.queue[1..]);
    assert Mem(m, dir.queue[0])[0..|Mem(m, dir.queue[0])|] == Mem(m, dir.queue[0]);
    hide Contents;
  }

  lemma Copies(m: map<Buf, seq<byte>>, dir: Dir, n: nat)
    requires Conserved(m, dir) && 0 < n <= Left(dir.cur)
    ensures Conserved(m, dir.(cur := Some(dir.cur.b, dir.cur.from + n, dir.cur.to),
                              read := dir.read + Window(Mem(m, dir.cur.b), dir.cur.from, n)))
  {
    var cur := dir.cur;
    var rest := Mem(m, cur.b)[cur.from..cur.to];
    assert rest == Window(Mem(m, cur.b), cur.from, n) + Mem(m, cur.b)[cur.from + n..cur.to];
    hide Contents;
  }

  lemma Drops(m: map<Buf, seq<byte>>, dir: Dir)
    requires Conserved(m, dir)
    ensures Left(dir.cur) == 0 ==> Conserved(m, dir.(cur := None))
    ensures Conserved(m, dir.(eof := true))
  {
    hide Contents;
    assert Left(dir.cur) == 0 ==> Rest(m, dir.cur) == [];
  }

  lemma ConservedActed(s: State, d: Id, act: Act)
    requires Acting(s, d, act) && Apart(s) && Conserved(s.memory, s.dirs[d])
    ensures var t := Acted(s, d, act); Conserved(t.memory, t.dirs[d])
  {
    hide Conserved, Apart, Orderly, Mem, Window;
    var m, dir := s.memory, s.dirs[d];
    match act {
      case Fill(b, p) =>
        Fills(s, d, b, p);
        assert !Holds(dir, b);
        KeptMemory(m, dir, b, p);
        SameBytes(m, m[b := p], dir, Filled(b));
      case SeeClosed => SameBytes(m, m, dir, Idle);
      case SeeOpen => SameBytes(m, m, dir, Sending(dir.writer.b));
      case Push => Pushes(m, dir, dir.writer.b);
      case TimeOut => SameBytes(m, m, dir, Idle);
      case FindClosed => SameBytes(m, m, dir, Idle);
      case Release => Drops(m, dir);
      case Take => Takes(m, dir);
      case Copy(n) => if n > 0 { Copies(m, dir, n); }
      case Eof => Drops(m, dir);
    }
  }

  lemma KeptMemory(m: map<Buf, seq<byte>>, dir: Dir, b: Buf, p: seq<byte>)
    requires !Holds(dir, b)
    ensures forall x :: x in dir.queue || (dir.cur.Some? && dir.cur.b == x) ==> Mem(m, x) == Mem(m[b := p], x)
  {
  }

  lemma OthersConserved(s: State, d: Id, act: Act, e: Id)
    requires Inv(s) && Acting(s, d, act) && e in s.dirs && e != d
    ensures var t := Acted(s, d, act); t.dirs[e] == s.dirs[e] && Conserved(t.memory, t.dirs[e])
  {
    if act.Fill? {
      Fills(s, d, act.b, act.p);
      assert !Holds(s.dirs[e], act.b);
      SameBytes(s.memory, s.memory[act.b := act.p], s.dirs[e], s.dirs[e].writer);
    }
  }

  /** A closed pipe stays closed, so that an end once seen stays an end. */
  lemma EofActed(s: State, d: Id, act: Act)
    requires (forall e :: e in s.dirs && s.dirs[e].eof ==> s.dirs[e].pipe in s.closed) && Acting(s, d, act)
    ensures var t := Acted(s, d, act); forall e :: e in t.dirs && t.dirs[e].eof ==> t.dirs[e].pipe in t.closed
    ensures Acted(s, d, act).dirs.Keys == s.dirs.Keys
  {
  }

  lemma ActedKeeps(s: State, d: Id, act: Act)
    requires Inv(s) && Acting(s, d, act)
    ensures Inv(Acted(s, d, act))
  {
    ApartActed(s, d, act);
    ConservedActed(s, d, act);
    forall e | e in s.dirs && e != d ensures Conserved(Acted(s, d, act).memory, Acted(s, d, act).dirs[e]) {
      OthersConserved(s, d, act, e);
    }
    EofActed(s, d, act);
    hide Apart, Conserved, Acted, Acting;
  }

  lemma MakeKeeps(s: State, d: Id, pipe: Pipes)
    requires Inv(s) && d !in s.dirs
    ensures Inv(Next(s, Make(d, pipe)))
  {
    var dir := Dir(pipe, [], Idle, None, [], [], false);
    assert Orderly(dir) && forall b :: !Holds(dir, b);
    assert Conserved(s.memory, dir);
    hide Orderly, Holds, Conserved;
  }

  lemma StepKeeps(s: State, step: Step)
    requires Inv(s) && Enabled(s, step)
    ensures Inv(Next(s, step))
  {
    match step {
      case Make(d, pipe) => MakeKeeps(s, d, pipe);
      case Close(_) => hide Conserved, Orderly, Holds;
      case On(d, act) => ActedKeeps(s, d, act);
    }
  }

  // ---- What holds of every run ------------------------------------------------------------

  /** The steps lead from one state to the other, each one enabled where it is taken. */
  ghost predicate Run(s: State, steps: seq<Step>, t: State)
    decreases |steps|
  {
    if steps == [] then s == t
    else Enabled(s, steps[0]) && Run(Next(s, steps[0]), steps[1..], t)
  }

  lemma {:induction false} RunKeeps(s: State, steps: seq<Step>, t: State)
    requires Inv(s) && Run(s, steps, t)
    ensures Inv(t)
    decreases |steps|
  {
    hide Inv, Enabled, Next;
    if steps != [] {
      StepKeeps(s, steps[0]);
      RunKeeps(Next(s, steps[0]), steps[1..], t);
    }
  }

  /** No byte is lost, repeated or overtaken between the two ends. */
  lemma BytesConserved(steps: seq<Step>, t: State, d: Id)
    requires Run(Init(), steps, t) && d in t.dirs
    ensures var dir := t.dirs[d];
      dir.written == dir.read + Rest(t.memory, dir.cur) + Contents(t.memory, dir.queue)
  {
    InitInv();
    RunKeeps(Init(), steps, t);
    hide Run, Apart, Rest, Contents;
    assert Conserved(t.memory, t.dirs[d]);
  }

  /** The end is reported only for a closed pipe, and only when all that was written so far has been read. */
  lemma EofIsTheEnd(steps: seq<Step>, t: State, d: Id)
    requires Run(Init(), steps, t) && Enabled(t, On(d, Eof))
    ensures t.dirs[d].pipe in t.closed && t.dirs[d].read == t.dirs[d].written
  {
    InitInv();
    RunKeeps(Init(), steps, t);
    hide Run, Apart;
    assert Conserved(t.memory, t.dirs[d]);
  }

  /** A closed pipe takes no more bytes from a writer that has not looked whether it is closed before it was. */
  lemma {:induction false} NothingAfterClose(s: State, steps: seq<Step>, t: State, d: Id)
    requires Run(s, steps, t) && d in s.dirs && s.dirs[d].pipe in s.closed && !s.dirs[d].writer.Sending?
    ensures d in t.dirs && t.dirs[d].written == s.dirs[d].written
    decreases |steps|
  {
    if steps != [] {
      NothingAfterClose(Next(s, steps[0]), steps[1..], t, d);
    }
  }

  lemma HeldIsSafe(s: State, d: Id, b: Buf, step: Step)
    requires Apart(s) && d in s.dirs && Holds(s.dirs[d], b)
    ensures b !in s.pool && b in s.made
    ensures forall e :: e in s.dirs && Holds(s.dirs[e], b) ==> e == d
    ensures Enabled(s, step) ==> Mem(Next(s, step).memory, b) == Mem(s.memory, b)
  {
    hide Holds, Orderly;
  }

  lemma SendingMoves(s: State, step: Step, d: Id)
    requires Enabled(s, step) && d in s.dirs && s.dirs[d].pipe in s.closed && s.dirs[d].writer.Sending?
    ensures var t := Next(s, step);
      && d in t.dirs && t.dirs[d].pipe in t.closed
      && (t.dirs[d].writer.Sending? ==> t.dirs[d].writer == s.dirs[d].writer)
      && (t.dirs[d].written == s.dirs[d].written
          || (!t.dirs[d].writer.Sending?
              && t.dirs[d].written == s.dirs[d].written + Mem(s.memory, s.dirs[d].writer.b)))
  {
    hide Mem;
  }

  /** A call of Write that has looked before is the only one that still gets its bytes in, and it does so once. */
  lemma {:induction false} AfterClose(s: State, steps: seq<Step>, t: State, d: Id)
    requires Inv(s) && Run(s, steps, t) && d in s.dirs && s.dirs[d].pipe in s.closed
    ensures d in t.dirs
    ensures t.dirs[d].written == s.dirs[d].written
         || (s.dirs[d].writer.Sending? && t.dirs[d].written == s.dirs[d].written + Mem(s.memory, s.dirs[d].writer.b))
    decreases |steps|
  {
    if !s.dirs[d].writer.Sending? {
      NothingAfterClose(s, steps, t, d);
    } else if steps != [] {
      StepKeeps(s, steps[0]);
      HeldIsSafe(s, d, s.dirs[d].writer.b, steps[0]);
      SendingMoves(s, steps[0], d);
      hide Inv, Next, Enabled, Mem;
      AfterClose(Next(s, steps[0]), steps[1..], t, d);
    }
  }

  lemma {:induction false} Extend(s: State, steps: seq<Step>, t: State, step: Step)
    requires Run(s, steps, t) && Enabled(t, step)
    ensures Run(s, steps + [step], Next(t, step))
    decreases |steps|
  {
    hide Enabled, Next;
    if steps == [] {
      assert Run(Next(t, step), [], Next(t, step));
    } else {
      Extend(Next(s, steps[0]), steps[1..], t, step);
      assert (steps + [step])[1..] == steps[1..] + [step];
    }
  }

  lemma NoSteps(s: State)
    ensures Run(s, [], s)
  {
  }

  lemma Then(s: State, steps: seq<Step>, t: State, step: Step) returns (u: State, longer: seq<Step>)
    requires Run(s, steps, t) && Enabled(t, step)
    ensures u == Next(t, step) && Run(s, longer, u)
  {
    Extend(s, steps, t, step);
    u, longer := Next(t, step), steps + [step];
  }

  /** Wherever such a call stands it can succeed, if need be when the reader has made room. */
  lemma StillSends(s: State, d: Id) returns (steps: seq<Step>, t: State)
    requires Inv(s) && d in s.dirs && s.dirs[d].writer.Sending?
    ensures Run(s, steps, t) && d in t.dirs
    ensures t.dirs[d].written == s.dirs[d].written + Mem(s.memory, s.dirs[d].writer.b)
  {
    assert Orderly(s.dirs[d]);
    hide Run, Inv;
    t, steps := s, [];
    NoSteps(t);
    if |s.dirs[d].queue| == QUEUE_SIZE {
      if s.dirs[d].cur.Some? {
        t, steps := Then(s, steps, t, On(d, Copy(Left(t.dirs[d].cur))));
        t, steps := Then(s, steps, t, On(d, Release));
      }
      t, steps := Then(s, steps, t, On(d, Take));
    }
    t, steps := Then(s, steps, t, On(d, Push));
  }

  /**
   * In any state that can be reached: a closed pipe can still take bytes if and only if its writer had
   * looked before it was closed and has some to send.
   */
  lemma ClosedStillTakes(before: seq<Step>, s: State, d: Id)
    requires Run(Init(), before, s) && d in s.dirs && s.dirs[d].pipe in s.closed
    ensures (exists steps, t :: Run(s, steps, t) && d in t.dirs && t.dirs[d].written != s.dirs[d].written)
       <==> s.dirs[d].writer.Sending? && Mem(s.memory, s.dirs[d].writer.b) != []
  {
    InitInv();
    RunKeeps(Init(), before, s);
    if steps, t :| Run(s, steps, t) && d in t.dirs && t.dirs[d].written != s.dirs[d].written {
      AfterClose(s, steps, t, d);
    }
    if s.dirs[d].writer.Sending? {
      var steps, t := StillSends(s, d);
    }
    hide Run, Inv, Mem;
  }

  /** This can be after the reader has seen the end. */
  lemma LateWrite(p: seq<byte>) returns (steps: seq<Step>, t: State)
    requires p != []
    ensures Run(Init(), steps, t) && 0 in t.dirs && t.dirs[0].eof && t.dirs[0].read == [] && t.dirs[0].written == p
  {
    hide Run, Inv;
    t, steps := Init(), [];
    NoSteps(t);
    t, steps := Then(Init(), steps, t, Make(0, 0));
    t, steps := Then(Init(), steps, t, On(0, Fill(0, p)));
    t, steps := Then(Init(), steps, t, On(0, SeeOpen));
    t, steps := Then(Init(), steps, t, Close(0));
    t, steps := Then(Init(), steps, t, On(0, Eof));
    t, steps := Then(Init(), steps, t, On(0, Push));
    assert t.dirs[0].written == [] + p;
  }

  /** What somebody may still read from a buffer stays in it: it is not in the pool, and no step writes to it. */
  lemma UnreadIsSafe(steps: seq<Step>, t: State, d: Id, b: Buf, step: Step)
    requires Run(Init(), steps, t) && d in t.dirs && Holds(t.dirs[d], b)
    ensures b !in t.pool
    ensures forall e :: e in t.dirs && Holds(t.dirs[e], b) ==> e == d
    ensures Enabled(t, step) ==> Mem(Next(t, step).memory, b) == Mem(t.memory, b)
  {
    InitInv();
    RunKeeps(Init(), steps, t);
    HeldIsSafe(t, d, b, step);
    hide Run, Apart, Conserved, Holds, Next, Enabled;
  }

  /** The reader is never stuck but for lack of bytes: it can copy, give a buffer back, take one, or see the end. */
  lemma ReaderMoves(s: State, d: Id)
    requires d in s.dirs
    ensures var dir := s.dirs[d];
      && (Enabled(s, On(d, Copy(1))) <==> Left(dir.cur) > 0)
      && (Enabled(s, On(d, Release)) <==> dir.cur.Some? && Left(dir.cur) == 0)
      && (Enabled(s, On(d, Take)) <==> dir.cur.None? && dir.queue != [])
      && (Enabled(s, On(d, Eof)) <==> dir.cur.None? && dir.queue == [] && dir.pipe in s.closed)
  {
  }

  /** And the queue of a direction never holds more than four buffers. */
  lemma QueueBound(steps: seq<Step>, t: State, d: Id)
    requires Run(Init(), steps, t) && d in t.dirs
    ensures |t.dirs[d].queue| <= 4
  {
    InitInv();
    RunKeeps(Init(), steps, t);
    hide Run, Conserved, Holds;
    assert Orderly(t.dirs[d]);
  }

  // ---- What becomes of a write and of a buffer --------------------------------------------

  /** How many steps a call of Write takes at most. */
  function StepsLeft(w: Writer): nat {
    match w
    case Filled(_) => 2
    case Sending(_) => 1
    case Idle => 0
  }

  /**
   * Every step of a call of Write brings it nearer to its end, and it can always take one when the queue has
   * room or the pipe is closed. What it was given is written when it sends it, and only then; it is refused
   * only when the pipe is closed.
   */
  lemma WriteEnds(s: State, d: Id, act: Act)
    requires d in s.dirs && s.dirs[d].writer != Idle
    ensures var dir := s.dirs[d];
      Acting(s, d, act) ==>
        var t := Acted(s, d, act).dirs[d];
        && (act in [SeeClosed, SeeOpen, Push, TimeOut, FindClosed] ==> StepsLeft(t.writer) < StepsLeft(dir.writer))
        && (act !in [SeeClosed, SeeOpen, Push, TimeOut, FindClosed] ==> t.writer == dir.writer)
        && t.written == dir.written + if act == Push then Mem(s.memory, dir.writer.b) else []
    ensures |s.dirs[d].queue| < 4 || s.dirs[d].pipe in s.closed ==>
      Acting(s, d, SeeClosed) || Acting(s, d, SeeOpen) || Acting(s, d, Push) || Acting(s, d, FindClosed)
    ensures Acting(s, d, SeeClosed) || Acting(s, d, FindClosed) ==> s.dirs[d].pipe in s.closed
    ensures s.dirs[d].writer.Filled? ==> (Acting(s, d, SeeOpen) <==> s.dirs[d].pipe !in s.closed)
  {
  }

  /** Somebody has the buffer, or it can be used again. */
  ghost predicate Kept(s: State, b: Buf) {
    b in s.pool || exists d :: d in s.dirs && Holds(s.dirs[d], b)
  }

  lemma KeptStep(s: State, step: Step, b: Buf)
    requires Enabled(s, step) && !(step.On? && step.act == TimeOut)
    requires b in s.made ==> Kept(s, b)
    ensures b in Next(s, step).made ==> Kept(Next(s, step), b)
  {
    var t := Next(s, step);
    if b in s.made && b !in s.pool {
      var d :| d in s.dirs && Holds(s.dirs[d], b);
      assert b in t.pool || Holds(t.dirs[d], b) by {
        if step.On? && step.d == d && step.act.Take? {
          assert s.dirs[d].queue == [s.dirs[d].queue[0]] + t.dirs[d].queue;
        }
      }
    }
    if step.On? && step.act.Fill? && b == step.act.b {
      assert Holds(t.dirs[step.d], b);
    }
  }

  /** Only a write that runs into its deadline loses its buffer. */
  lemma {:induction false} NoBufferLost(s: State, steps: seq<Step>, t: State, b: Buf)
    requires Run(s, steps, t) && (b in s.made ==> Kept(s, b)) && b in t.made
    requires forall step :: step in steps ==> !(step.On? && step.act == TimeOut)
    ensures b in t.pool || exists d :: d in t.dirs && Holds(t.dirs[d], b)
    decreases |steps|
  {
    if steps != [] {
      KeptStep(s, steps[0], b);
      hide Next, Enabled, Kept;
      NoBufferLost(Next(s, steps[0]), steps[1..], t, b);
    }
  }
}
