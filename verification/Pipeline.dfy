/**
 * The connection of a pipelining client (client.go): the callers, the writer, the reader and the
 * worker that supervises the two, each step being one channel operation or one operation on the
 * connection. A run of the worker owns its two channels.
 */
module Pipeline {
  import opened Counting

  type Work = nat

  /** w.done is still to be signalled; the goroutine may return after that. */
  datatype Writer = WFetch | WHold(w: Work) | WPush(w: Work) | WSignal(w: Work, stop: bool) | WStopped
  datatype Reader = RFetch | RHold(w: Work) | RSignal(w: Work, stop: bool) | RStopped
  datatype Supervisor = Watching | AwaitReader | AwaitWriter | Draining | DSignal(w: Work) | Ended

  /** What a work's caller is at. Released: the work is back in workPool. Abandoned: DoDeadline returned early. */
  datatype Phase = Full | Evicting(oldest: Work) | Retrying | Blocked | Waiting | Abandoned | Released

  /** The error in w.err, or the number of the response that was read into w.resp, the first one being 1. */
  datatype Outcome = Answered(run: nat, k: nat) | Failed | TimedOut | Overflow | Stopped

  /** Who holds a work that is on its way. */
  datatype Hands = Hands(
    chW: seq<Work>,
    chR: seq<Work>,
    writer: Writer,
    reader: Reader,
    sup: Supervisor,
    evicted: map<Work, Work>)          // from a caller of Do to the work it took out of chW

  /** What went over the connection in this run and the ones before. */
  datatype Log = Log(
    past: seq<seq<Work>>,              // the requests written in earlier runs
    pastRead: seq<nat>,                // how many responses were read in them
    wrote: seq<Work>,                  // the requests written in this run
    taken: seq<Work>,                  // the works that left chR in this run
    lost: seq<Work>,                   // written, but the writer had to stop before chR had room
    read: nat,                         // how many responses were read in this run
    broken: set<Work>)                 // the works whose write or read failed, in any run

  datatype State = State(
    size: nat,                         // the capacity of both channels
    hands: Hands,
    stopR: bool,
    stopW: bool,
    log: Log,
    accepted: set<Work>,               // every work that was ever put into chW
    signals: multiset<Work>,           // every send to w.done
    outcome: map<Work, Outcome>,
    callers: map<Work, Phase>,
    timed: set<Work>)                  // works of DoDeadline

  datatype Call =
    | DoEnter                          // Do, up to its first send
    | DoEvict                          // Do takes the oldest work out of chW
    | DoOverflow                       // and signals it
    | DoRetry
    | DeadlineEnter                    // DoDeadline, up to its first send
    | DeadlineEnqueue
    | DeadlineFull                     // the timer fires before there is room
    | Return                           // the caller is signalled
    | Abandon                          // the timer fires first

  datatype Act =
    // the writer
    | WTake
    | WQuit                            // told to stop, idle, or a flush failed
    | WExpire                          // the deadline of the work has passed
    | WWriteFails
    | WWrite
    | WHandOn                          // to chR
    | WGiveUp                          // told to stop, or a flush failed, before chR had room
    | WDone
    // the reader
    | RTake
    | RQuit
    | RRead
    | RReadFails
    | RDone
    // the worker
    | SeeWriter
    | SeeReader
    | Joined
    | Drain
    | DrainDone
    | End
    | NextRun

  /** A step of the caller of a work, or of the worker and its two goroutines. */
  datatype Step = Caller(w: Work, call: Call) | Worker(act: Act)

  predicate Calling(s: State, w: Work, call: Call) {
    match call
    case DoEnter => w !in s.callers
    case DoEvict => w in s.callers && s.callers[w].Full?
    case DoOverflow => w in s.callers && s.callers[w].Evicting?
    case DoRetry => w in s.callers && s.callers[w].Retrying?
    case DeadlineEnter => w !in s.callers
    case DeadlineEnqueue => w in s.callers && s.callers[w].Blocked? && |s.hands.chW| < s.size
    case DeadlineFull => w in s.callers && s.callers[w].Blocked?
    case Return => w in s.callers && s.callers[w].Waiting? && w in s.signals
    case Abandon => w in s.callers && s.callers[w].Waiting? && w in s.timed
  }

  predicate Acting(s: State, act: Act) {
    var h := s.hands;
    match act
    case WTake => h.writer.WFetch? && h.chW != []
    case WQuit => h.writer.WFetch?
    case WExpire => h.writer.WHold? && h.writer.w in s.timed
    case WWriteFails => h.writer.WHold?
    case WWrite => h.writer.WHold?
    case WHandOn => h.writer.WPush? && |h.chR| < s.size
    case WGiveUp => h.writer.WPush?
    case WDone => h.writer.WSignal?
    case RTake => h.reader.RFetch? && h.chR != []
    case RQuit => h.reader.RFetch? && s.stopR
    case RRead => h.reader.RHold?
    case RReadFails => h.reader.RHold?
    case RDone => h.reader.RSignal?
    case SeeWriter => h.sup.Watching? && h.writer.WStopped?
    case SeeReader => h.sup.Watching? && h.reader.RStopped?
    case Joined => (h.sup.AwaitReader? && h.reader.RStopped?) || (h.sup.AwaitWriter? && h.writer.WStopped?)
    case Drain => h.sup.Draining? && h.chR != []
    case DrainDone => h.sup.DSignal?
    case End => h.sup.Draining? && h.chR == []
    case NextRun => h.sup.Ended?
  }

  predicate Enabled(s: State, step: Step) {
    match step
    case Caller(w, call) => Calling(s, w, call)
    case Worker(act) => Acting(s, act)
  }

  /** A work goes into chW: from now on somebody has to answer it. */
  function Enqueue(s: State, w: Work): State {
    s.(hands := s.hands.(chW := s.hands.chW + [w]), accepted := s.accepted + {w}, callers := s.callers[w := Waiting])
  }

  /** w.err = ...; w.done <- struct{}{} */
  function Signal(s: State, w: Work): State {
    s.(signals := s.signals + multiset{w})
  }

  function Called(s: State, w: Work, call: Call): State
    requires Calling(s, w, call)
  {
    var h := s.hands;
    match call
    case DoEnter =>
      if |h.chW| < s.size then Enqueue(s, w) else s.(callers := s.callers[w := Full])
    case DoEvict =>
      if h.chW == [] then s.(callers := s.callers[w := Retrying])
      else
        s.(hands := h.(chW := h.chW[1..], evicted := h.evicted[w := h.chW[0]]),
           callers := s.callers[w := Evicting(h.chW[0])], outcome := s.outcome[h.chW[0] := Overflow])
    case DoOverflow =>
      Signal(s, s.callers[w].oldest).(hands := h.(evicted := h.evicted - {w}), callers := s.callers[w := Retrying])
    case DoRetry =>
      if |h.chW| < s.size then Enqueue(s, w) else s.(callers := s.callers[w := Released])
    case DeadlineEnter =>
      var t := s.(timed := s.timed + {w});
      if |h.chW| < s.size then Enqueue(t, w) else t.(callers := s.callers[w := Blocked])
    case DeadlineEnqueue => Enqueue(s, w)
    case DeadlineFull => s.(callers := s.callers[w := Released])
    case Return => s.(callers := s.callers[w := Released])
    case Abandon => s.(callers := s.callers[w := Abandoned])
  }

  /** The log of a run that has just begun. */
  function NextLog(log: Log): Log {
    Log(log.past + [log.wrote], log.pastRead + [log.read], [], [], [], 0, log.broken)
  }

  function Acted(s: State, act: Act): State
    requires Acting(s, act)
  {
    var h, log := s.hands, s.log;
    match act
    case WTake => s.(hands := h.(chW := h.chW[1..], writer := WHold(h.chW[0])))
    case WQuit => s.(hands := h.(writer := WStopped))
    case WExpire =>
      s.(hands := h.(writer := WSignal(h.writer.w, false)), outcome := s.outcome[h.writer.w := TimedOut])
    case WWriteFails =>
      s.(hands := h.(writer := WSignal(h.writer.w, true)), outcome := s.outcome[h.writer.w := Failed],
         log := log.(broken := log.broken + {h.writer.w}))
    case WWrite => s.(hands := h.(writer := WPush(h.writer.w)), log := log.(wrote := log.wrote + [h.writer.w]))
    case WHandOn => s.(hands := h.(writer := WFetch, chR := h.chR + [h.writer.w]))
    case WGiveUp =>
      s.(hands := h.(writer := WSignal(h.writer.w, true)), outcome := s.outcome[h.writer.w := Stopped],
         log := log.(lost := log.lost + [h.writer.w]))
    case WDone =>
      Signal(s, h.writer.w).(hands := h.(writer := if h.writer.stop then WStopped else WFetch))
    case RTake =>
      s.(hands := h.(chR := h.chR[1..], reader := RHold(h.chR[0])), log := log.(taken := log.taken + [h.chR[0]]))
    case RQuit => s.(hands := h.(reader := RStopped))
    case RRead =>
      s.(hands := h.(reader := RSignal(h.reader.w, false)),
         outcome := s.outcome[h.reader.w := Answered(|log.past|, |log.taken|)],
         log := log.(read := log.read + 1))
    case RReadFails =>
      s.(hands := h.(reader := RSignal(h.reader.w, true)), outcome := s.outcome[h.reader.w := Failed],
         log := log.(broken := log.broken + {h.reader.w}))
    case RDone =>
      Signal(s, h.reader.w).(hands := h.(reader := if h.reader.stop then RStopped else RFetch))
    case SeeWriter => s.(hands := h.(sup := AwaitReader), stopR := true)
    case SeeReader => s.(hands := h.(sup := AwaitWriter), stopW := true)
    case Joined => s.(hands := h.(sup := Draining))
    case Drain =>
      s.(hands := h.(chR := h.chR[1..], sup := DSignal(h.chR[0])), log := log.(taken := log.taken + [h.chR[0]]),
         outcome := s.outcome[h.chR[0] := Stopped])
    case DrainDone => Signal(s, h.sup.w).(hands := h.(sup := Draining))
    case End => s.(hands := h.(sup := Ended))
    case NextRun =>
      s.(hands := h.(writer := WFetch, reader := RFetch, sup := Watching), stopR := false, stopW := false,
         log := NextLog(log))
  }

  function Next(s: State, step: Step): State
    requires Enabled(s, step)
  {
    match step
    case Caller(w, call) => Called(s, w, call)
    case Worker(act) => Acted(s, act)
  }

  function Init(size: nat): State {
    State(size, Hands([], [], WFetch, RFetch, Watching, map[]), false, false, Log([], [], [], [], [], 0, {}),
          {}, multiset{}, map[], map[], {})
  }

  // ---- The invariant ----------------------------------------------------------------------

  predicate WriterHas(h: Hands, w: Work) {
    !h.writer.WFetch? && !h.writer.WStopped? && h.writer.w == w
  }

  predicate ReaderHas(h: Hands, w: Work) {
    !h.reader.RFetch? && !h.reader.RStopped? && h.reader.w == w
  }

  predicate SupervisorHas(h: Hands, w: Work) {
    h.sup.DSignal? && h.sup.w == w
  }

  /** In how many places an unanswered work is. */
  function Places(h: Hands, w: Work): nat {
    Count(w in h.chW) + Count(w in h.chR) + Count(WriterHas(h, w)) + Count(ReaderHas(h, w))
    + Count(SupervisorHas(h, w)) + Count(w in h.evicted.Values)
  }

  /** Every accepted work is in one place until its one signal. */
  ghost predicate OneAnswer(h: Hands, signals: multiset<Work>, accepted: set<Work>) {
    && Distinct(h.chW) && Distinct(h.chR)
    && Injective(h.evicted)
    && (forall w :: Places(h, w) + signals[w] == Count(w in accepted))
  }

  /** What a caller may be at, depending on whether its work was accepted and signalled. */
  predicate Fits(c: Phase, accepted: bool, signals: nat) {
    match c
    case Waiting => accepted
    case Abandoned => accepted
    case Released => accepted ==> signals == 1
    case _ => !accepted
  }

  /** A caller waits, or gave up waiting, exactly for an accepted work; a released work is nobody's. */
  ghost predicate CallersKnow(callers: map<Work, Phase>, accepted: set<Work>, signals: multiset<Work>) {
    && accepted <= callers.Keys
    && (forall w :: w in callers ==> Fits(callers[w], w in accepted, signals[w]))
  }

  /** The work that a caller of Do took out of chW, and will signal. */
  ghost predicate Evictors(callers: map<Work, Phase>, evicted: map<Work, Work>) {
    && (forall w :: w in evicted <==> w in callers && callers[w].Evicting?)
    && (forall w :: w in evicted ==> evicted[w] == callers[w].oldest)
  }

  /** What was written and not yet handed on. */
  function Unhanded(h: Hands): seq<Work> {
    if h.writer.WPush? then [h.writer.w] else []
  }

  /** The works leave chR in the order in which their requests were written. */
  ghost predicate InOrder(h: Hands, log: Log) {
    && log.wrote == log.taken + h.chR + (Unhanded(h) + log.lost)
    && (log.lost != [] ==> |log.lost| == 1 && (h.writer.WStopped? || (h.writer.WSignal? && h.writer.stop)))
    && (h.reader.RHold? ==> log.taken != [] && log.taken[|log.taken| - 1] == h.reader.w)
  }

  /** After the worker has seen one of the two stop it waits for the other. */
  ghost predicate Supervised(h: Hands) {
    match h.sup
    case Watching => true
    case AwaitReader => h.writer.WStopped?
    case AwaitWriter => h.reader.RStopped?
    case Ended => h.writer.WStopped? && h.reader.RStopped? && h.chR == []
    case _ => h.writer.WStopped? && h.reader.RStopped?
  }

  function Wrote(log: Log, run: nat): seq<Work> {
    if run < |log.past| then log.past[run] else if run == |log.past| then log.wrote else []
  }

  /** A work got the response with the number of its own request. */
  ghost predicate Paired(log: Log, outcome: map<Work, Outcome>) {
    forall w :: w in outcome && outcome[w].Answered? ==>
      var o := outcome[w];
      1 <= o.k <= |Wrote(log, o.run)| && Wrote(log, o.run)[o.k - 1] == w
  }

  ghost predicate Inv(s: State) {
    && OneAnswer(s.hands, s.signals, s.accepted)
    && CallersKnow(s.callers, s.accepted, s.signals)
    && Evictors(s.callers, s.hands.evicted)
    && InOrder(s.hands, s.log)
    && Supervised(s.hands)
    && Paired(s.log, s.outcome)
    && |s.hands.chW| <= s.size && |s.hands.chR| <= s.size
  }

  lemma InitInv(size: nat)
    ensures Inv(Init(size))
  {
  }

  // ---- Every step keeps it ----------------------------------------------------------------

  lemma OrderWrite(h: Hands, log: Log)
    requires InOrder(h, log) && h.writer.WHold?
    ensures InOrder(h.(writer := WPush(h.writer.w)), log.(wrote := log.wrote + [h.writer.w]))
  {
  }

  lemma OrderHandOn(h: Hands, log: Log)
    requires InOrder(h, log) && h.writer.WPush?
    ensures InOrder(h.(writer := WFetch, chR := h.chR + [h.writer.w]), log)
    ensures InOrder(h.(writer := WSignal(h.writer.w, true)), log.(lost := log.lost + [h.writer.w]))
  {
  }

  lemma OrderTake(h: Hands, log: Log)
    requires InOrder(h, log) && h.chR != []
    ensures var taken := log.(taken := log.taken + [h.chR[0]]);
      && (h.reader.RFetch? ==> InOrder(h.(chR := h.chR[1..], reader := RHold(h.chR[0])), taken))
      && (h.reader.RStopped? ==> InOrder(h.(chR := h.chR[1..], sup := DSignal(h.chR[0])), taken))
  {
    assert h.chR == [h.chR[0]] + h.chR[1..];
  }

  lemma OrderNext(h: Hands, log: Log)
    requires h.chR == []
    ensures InOrder(h.(writer := WFetch, reader := RFetch, sup := Watching), NextLog(log))
  {
  }

  lemma AtEnd(h: Hands)
    requires Supervised(h) && (h.sup.Draining? || h.sup.Ended?)
    ensures h.writer.WStopped? && h.reader.RStopped? && (h.sup.Ended? ==> h.chR == [])
  {
  }

  lemma SameOrder(h: Hands, t: Hands, log: Log)
    requires InOrder(h, log) && t.chR == h.chR
    requires t.writer == h.writer || (!h.writer.WPush? && !t.writer.WPush? && log.lost == [])
      || (h.writer.WSignal? && t.writer == if h.writer.stop then WStopped else WFetch)
    requires t.reader == h.reader || !t.reader.RHold?
    ensures InOrder(t, log)
  {
  }

  lemma InOrderKept(s: State, act: Act)
    requires InOrder(s.hands, s.log) && Supervised(s.hands) && Acting(s, act)
    ensures var t := Acted(s, act); InOrder(t.hands, t.log)
  {
    NothingLost(s.hands, s.log);
    hide Supervised, InOrder;
    var h, log := s.hands, s.log;
    match act {
      case WWrite => OrderWrite(h, log);
      case WHandOn => OrderHandOn(h, log);
      case WGiveUp => OrderHandOn(h, log);
      case RTake => OrderTake(h, log);
      case Drain => AtEnd(h); OrderTake(h, log);
      case NextRun => AtEnd(h); OrderNext(h, log);
      case _ => SameOrder(h, Acted(s, act).hands, log);
    }
  }

  lemma NothingLost(h: Hands, log: Log)
    requires InOrder(h, log)
    ensures !h.writer.WStopped? && !h.writer.WSignal? ==> log.lost == []
  {
  }

  lemma SupervisedKept(s: State, act: Act)
    requires Supervised(s.hands) && Acting(s, act)
    ensures Supervised(Acted(s, act).hands)
  {
  }

  lemma PairedMoves(log: Log, outcome: map<Work, Outcome>, w: Work, o: Outcome)
    requires Paired(log, outcome)
    ensures !o.Answered? ==> Paired(log, outcome[w := o])
    ensures Paired(log.(wrote := log.wrote + [w]), outcome)
    ensures forall taken, lost, read, broken ::
      Paired(log.(taken := taken, lost := lost, read := read, broken := broken), outcome)
  {
  }

  lemma PairedAnswer(h: Hands, log: Log, outcome: map<Work, Outcome>)
    requires Paired(log, outcome) && InOrder(h, log) && h.reader.RHold?
    ensures Paired(log.(read := log.read + 1), outcome[h.reader.w := Answered(|log.past|, |log.taken|)])
  {
  }

  lemma PairedNext(log: Log, outcome: map<Work, Outcome>)
    requires Paired(log, outcome)
    ensures Paired(NextLog(log), outcome)
  {
  }

  lemma PairedKept(s: State, act: Act)
    requires Paired(s.log, s.outcome) && InOrder(s.hands, s.log) && Acting(s, act)
    ensures var t := Acted(s, act); Paired(t.log, t.outcome)
  {
    hide InOrder, Paired;
    var h, log, outcome := s.hands, s.log, s.outcome;
    match act {
      case WExpire => PairedMoves(log, outcome, h.writer.w, TimedOut);
      case WWriteFails =>
        PairedMoves(log, outcome, h.writer.w, Failed);
        PairedMoves(log, outcome[h.writer.w := Failed], h.writer.w, Failed);
      case WWrite => PairedMoves(log, outcome, h.writer.w, Failed);
      case WGiveUp =>
        PairedMoves(log, outcome, h.writer.w, Stopped);
        PairedMoves(log, outcome[h.writer.w := Stopped], h.writer.w, Stopped);
      case RTake => PairedMoves(log, outcome, h.chR[0], Stopped);
      case RRead => PairedAnswer(h, log, outcome);
      case RReadFails =>
        PairedMoves(log, outcome, h.reader.w, Failed);
        PairedMoves(log, outcome[h.reader.w := Failed], h.reader.w, Failed);
      case Drain =>
        PairedMoves(log, outcome, h.chR[0], Stopped);
        PairedMoves(log, outcome[h.chR[0] := Stopped], h.chR[0], Stopped);
      case NextRun => PairedNext(log, outcome);
      case _ =>
    }
  }

  lemma EvictorMoves(callers: map<Work, Phase>, evicted: map<Work, Work>, w: Work, c: Phase)
    requires Evictors(callers, evicted)
    ensures c.Evicting? ==> Evictors(callers[w := c], evicted[w := c.oldest])
    ensures !c.Evicting? ==> Evictors(callers[w := c], evicted - {w})
    ensures w in evicted <==> w in callers && callers[w].Evicting?
    ensures w in evicted ==> callers[w].oldest == evicted[w]
    ensures w !in evicted ==> evicted - {w} == evicted
  {
  }

  lemma CallerMoves(callers: map<Work, Phase>, accepted: set<Work>, signals: multiset<Work>, w: Work, c: Phase)
    requires CallersKnow(callers, accepted, signals)
    ensures w !in accepted && !c.Waiting? && !c.Abandoned? ==> CallersKnow(callers[w := c], accepted, signals)
    ensures w in accepted && (c.Abandoned? || (c.Released? && signals[w] == 1)) ==>
      CallersKnow(callers[w := c], accepted, signals)
    ensures c.Waiting? ==> CallersKnow(callers[w := c], accepted + {w}, signals)
  {
  }

  lemma Signalled(callers: map<Work, Phase>, accepted: set<Work>, signals: multiset<Work>, w: Work)
    requires CallersKnow(callers, accepted, signals) && w in accepted && signals[w] == 0
    ensures CallersKnow(callers, accepted, signals + multiset{w})
  {
  }

  lemma Held(h: Hands, signals: multiset<Work>, accepted: set<Work>, w: Work)
    requires OneAnswer(h, signals, accepted)
    ensures WriterHas(h, w) || ReaderHas(h, w) || SupervisorHas(h, w) || w in h.evicted.Values ==>
      w in accepted && signals[w] == 0
    ensures w in signals ==> w in accepted && signals[w] == 1
  {
    assert Places(h, w) + signals[w] == Count(w in accepted);
  }

  /** Before the work is in chW it is not accepted, and while the caller waits it is. */
  lemma Newcomer(s: State, w: Work)
    requires CallersKnow(s.callers, s.accepted, s.signals)
    ensures w !in s.callers ==> w !in s.accepted
    ensures w in s.callers && !s.callers[w].Waiting? && !s.callers[w].Abandoned? && !s.callers[w].Released? ==>
      w !in s.accepted
    ensures w in s.callers && s.callers[w].Waiting? ==> w in s.accepted
  {
  }

  lemma CallersKnowCalled(s: State, w: Work, call: Call)
    requires CallersKnow(s.callers, s.accepted, s.signals) && Evictors(s.callers, s.hands.evicted)
    requires OneAnswer(s.hands, s.signals, s.accepted) && Calling(s, w, call)
    ensures var t := Called(s, w, call); CallersKnow(t.callers, t.accepted, t.signals)
  {
    hide OneAnswer, CallersKnow, Evictors, Fits;
    var h, callers, accepted, signals := s.hands, s.callers, s.accepted, s.signals;
    Newcomer(s, w);
    if call.DoOverflow? {
      EvictorMoves(callers, h.evicted, w, Retrying);
      assert h.evicted[w] in h.evicted.Values;
      Held(h, signals, accepted, h.evicted[w]);
      Signalled(callers, accepted, signals, h.evicted[w]);
      CallerMoves(callers, accepted, signals + multiset{h.evicted[w]}, w, Retrying);
    } else {
      Held(h, signals, accepted, w);
      CallerMoves(callers, accepted, signals, w, Called(s, w, call).callers[w]);
    }
  }

  lemma CallersKnowActed(s: State, act: Act)
    requires CallersKnow(s.callers, s.accepted, s.signals)
    requires OneAnswer(s.hands, s.signals, s.accepted) && Acting(s, act)
    ensures var t := Acted(s, act);
      && CallersKnow(t.callers, t.accepted, t.signals)
      && t.callers == s.callers && t.hands.evicted == s.hands.evicted
  {
    hide OneAnswer, CallersKnow;
    var h, callers, accepted, signals := s.hands, s.callers, s.accepted, s.signals;
    match act {
      case WDone => Held(h, signals, accepted, h.writer.w); Signalled(callers, accepted, signals, h.writer.w);
      case RDone => Held(h, signals, accepted, h.reader.w); Signalled(callers, accepted, signals, h.reader.w);
      case DrainDone => Held(h, signals, accepted, h.sup.w); Signalled(callers, accepted, signals, h.sup.w);
      case _ =>
    }
  }

  lemma Enter(h: Hands, signals: multiset<Work>, accepted: set<Work>, w: Work)
    requires OneAnswer(h, signals, accepted) && w !in accepted
    ensures OneAnswer(h.(chW := h.chW + [w]), signals, accepted + {w})
  {
    assert Places(h, w) + signals[w] == 0;
    var t := h.(chW := h.chW + [w]);
    forall x ensures Places(t, x) + signals[x] == Count(x in accepted + {w}) {
      assert Places(h, x) + signals[x] == Count(x in accepted);
    }
  }

  /** The work at the front of chW goes to the writer, or to a caller that will signal it. */
  lemma LeaveW(h: Hands, signals: multiset<Work>, accepted: set<Work>, v: Work)
    requires OneAnswer(h, signals, accepted) && h.chW != []
    ensures h.writer.WFetch? ==> OneAnswer(h.(chW := h.chW[1..], writer := WHold(h.chW[0])), signals, accepted)
    ensures v !in h.evicted ==>
      OneAnswer(h.(chW := h.chW[1..], evicted := h.evicted[v := h.chW[0]]), signals, accepted)
  {
    var w := h.chW[0];
    assert h.chW == [w] + h.chW[1..];
    assert Places(h, w) + signals[w] == Count(w in accepted);
    if h.writer.WFetch? {
      forall x ensures Places(h.(chW := h.chW[1..], writer := WHold(w)), x) + signals[x] == Count(x in accepted) {
        assert Places(h, x) + signals[x] == Count(x in accepted);
      }
    }
    if v !in h.evicted {
      var e := h.evicted[v := w];
      ValuesPlus(h.evicted, v, w);
      forall x ensures Places(h.(chW := h.chW[1..], evicted := e), x) + signals[x] == Count(x in accepted) {
        assert Places(h, x) + signals[x] == Count(x in accepted);
      }
    }
  }

  lemma LeaveR(h: Hands, signals: multiset<Work>, accepted: set<Work>)
    requires OneAnswer(h, signals, accepted) && h.chR != []
    ensures h.reader.RFetch? ==> OneAnswer(h.(chR := h.chR[1..], reader := RHold(h.chR[0])), signals, accepted)
    ensures h.sup.Draining? ==> OneAnswer(h.(chR := h.chR[1..], sup := DSignal(h.chR[0])), signals, accepted)
  {
    var w := h.chR[0];
    assert h.chR == [w] + h.chR[1..];
    if h.reader.RFetch? {
      forall x ensures Places(h.(chR := h.chR[1..], reader := RHold(w)), x) + signals[x] == Count(x in accepted) {
        assert Places(h, x) + signals[x] == Count(x in accepted);
      }
    }
    if h.sup.Draining? {
      forall x ensures Places(h.(chR := h.chR[1..], sup := DSignal(w)), x) + signals[x] == Count(x in accepted) {
        assert Places(h, x) + signals[x] == Count(x in accepted);
      }
    }
  }

  lemma HandOn(h: Hands, signals: multiset<Work>, accepted: set<Work>)
    requires OneAnswer(h, signals, accepted) && h.writer.WPush?
    ensures OneAnswer(h.(writer := WFetch, chR := h.chR + [h.writer.w]), signals, accepted)
  {
    var w := h.writer.w;
    assert Places(h, w) + signals[w] == Count(w in accepted);
    forall x ensures Places(h.(writer := WFetch, chR := h.chR + [w]), x) + signals[x] == Count(x in accepted) {
      assert Places(h, x) + signals[x] == Count(x in accepted);
    }
  }

  /** A signal takes the place of the work that is signalled. */
  lemma Answer(h: Hands, t: Hands, signals: multiset<Work>, accepted: set<Work>, w: Work)
    requires OneAnswer(h, signals, accepted) && t.chW == h.chW && t.chR == h.chR && t.evicted == h.evicted
    requires forall x :: Places(t, x) + Count(x == w) == Places(h, x)
    ensures OneAnswer(t, signals + multiset{w}, accepted)
  {
    forall x ensures Places(t, x) + (signals + multiset{w})[x] == Count(x in accepted) {
      assert Places(h, x) + signals[x] == Count(x in accepted);
    }
  }

  lemma AnswerEvicted(h: Hands, signals: multiset<Work>, accepted: set<Work>, v: Work)
    requires OneAnswer(h, signals, accepted) && v in h.evicted
    ensures OneAnswer(h.(evicted := h.evicted - {v}), signals + multiset{h.evicted[v]}, accepted)
  {
    var t, w := h.(evicted := h.evicted - {v}), h.evicted[v];
    ValuesMinus(h.evicted, v);
    forall x ensures Places(t, x) + (signals + multiset{w})[x] == Count(x in accepted) {
      assert Places(h, x) + signals[x] == Count(x in accepted);
    }
  }

  /** Who holds a work is all that counts, not what for. */
  lemma SameHands(h: Hands, t: Hands, signals: multiset<Work>, accepted: set<Work>)
    requires OneAnswer(h, signals, accepted) && t.chW == h.chW && t.chR == h.chR && t.evicted == h.evicted
    requires forall x :: WriterHas(t, x) == WriterHas(h, x)
    requires forall x :: ReaderHas(t, x) == ReaderHas(h, x)
    requires forall x :: SupervisorHas(t, x) == SupervisorHas(h, x)
    ensures OneAnswer(t, signals, accepted)
  {
    forall x ensures Places(t, x) == Places(h, x) { }
  }

  lemma OneAnswerCalled(s: State, w: Work, call: Call)
    requires CallersKnow(s.callers, s.accepted, s.signals) && Evictors(s.callers, s.hands.evicted)
    requires OneAnswer(s.hands, s.signals, s.accepted) && Calling(s, w, call)
    ensures var t := Called(s, w, call); OneAnswer(t.hands, t.signals, t.accepted)
  {
    hide OneAnswer, CallersKnow, Evictors;
    var h, signals, accepted := s.hands, s.signals, s.accepted;
    EvictorMoves(s.callers, h.evicted, w, Retrying);
    Newcomer(s, w);
    match call {
      case DoEvict => if h.chW != [] { LeaveW(h, signals, accepted, w); }
      case DoOverflow => AnswerEvicted(h, signals, accepted, w);
      case Return =>
      case Abandon =>
      case DeadlineFull =>
      case _ => Enter(h, signals, accepted, w);
    }
  }

  lemma OneAnswerActed(s: State, act: Act)
    requires OneAnswer(s.hands, s.signals, s.accepted) && Supervised(s.hands) && Acting(s, act)
    ensures var t := Acted(s, act); OneAnswer(t.hands, t.signals, t.accepted)
  {
    hide OneAnswer;
    var h, signals, accepted := s.hands, s.signals, s.accepted;
    match act {
      case WTake => LeaveW(h, signals, accepted, 0);
      case WHandOn => HandOn(h, signals, accepted);
      case WDone => Answer(h, Acted(s, act).hands, signals, accepted, h.writer.w);
      case RTake => LeaveR(h, signals, accepted);
      case RDone => Answer(h, Acted(s, act).hands, signals, accepted, h.reader.w);
      case Drain => LeaveR(h, signals, accepted);
      case DrainDone => Answer(h, Acted(s, act).hands, signals, accepted, h.sup.w);
      case _ => SameHands(h, Acted(s, act).hands, signals, accepted);
    }
  }

  /** A caller touches nothing of the run but the queue that the writer reads. */
  lemma CalledApart(s: State, w: Work, call: Call)
    requires Inv(s) && Calling(s, w, call)
    ensures var h, t := s.hands, Called(s, w, call);
      && t.hands == h.(chW := t.hands.chW, evicted := t.hands.evicted) && t.log == s.log
      && Evictors(t.callers, t.hands.evicted) && Paired(t.log, t.outcome)
      && t.size == s.size && |t.hands.chW| <= s.size
  {
    hide OneAnswer, CallersKnow, InOrder, Supervised, Evictors, Paired;
    EvictorMoves(s.callers, s.hands.evicted, w, Called(s, w, call).callers[w]);
    if call.DoEvict? && s.hands.chW != [] {
      PairedMoves(s.log, s.outcome, s.hands.chW[0], Overflow);
    }
  }

  lemma WithinSize(s: State, act: Act)
    requires |s.hands.chW| <= s.size && |s.hands.chR| <= s.size && Acting(s, act)
    ensures var t := Acted(s, act); t.size == s.size && |t.hands.chW| <= t.size && |t.hands.chR| <= t.size
  {
  }

  lemma StepKeeps(s: State, step: Step)
    requires Inv(s) && Enabled(s, step)
    ensures Inv(Next(s, step))
  {
    hide Called, Acted, Calling, Acting, OneAnswer, CallersKnow, Evictors, Paired, InOrder, Supervised;
    match step {
      case Caller(w, call) =>
        CalledApart(s, w, call);
        OneAnswerCalled(s, w, call);
        CallersKnowCalled(s, w, call);
        SameOrder(s.hands, Called(s, w, call).hands, s.log);
        SameSupervision(s.hands, Called(s, w, call).hands);
      case Worker(act) =>
        OneAnswerActed(s, act);
        CallersKnowActed(s, act);
        InOrderKept(s, act);
        SupervisedKept(s, act);
        PairedKept(s, act);
        WithinSize(s, act);
    }
  }

  lemma SameSupervision(h: Hands, t: Hands)
    requires Supervised(h) && t == h.(chW := t.chW, evicted := t.evicted)
    ensures Supervised(t)
  {
  }

  // ---- What a caller is told --------------------------------------------------------------

  /** How many responses were read in a run. */
  function ReadIn(log: Log, run: nat): nat {
    if run < |log.pastRead| then log.pastRead[run] else if run == |log.past| then log.read else 0
  }

  /** Every work that left chR got its response, but for the one the reader has and those after a failure. */
  ghost predicate Reads(h: Hands, log: Log) {
    && |log.pastRead| == |log.past| && (forall run :: 0 <= run < |log.past| ==> log.pastRead[run] <= |log.past[run]|)
    && log.read <= |log.taken|
    && match h.reader
       case RFetch => log.read == |log.taken|
       case RHold(_) => log.read + 1 == |log.taken|
       case RSignal(_, stop) => log.read + Count(stop) == |log.taken|
       case RStopped => true
  }

  /** The works whose responses were read were told so, and are signalled or about to be. */
  ghost predicate Delivered(h: Hands, log: Log, outcome: map<Work, Outcome>, signals: multiset<Work>) {
    forall run: nat, k :: 0 <= k < ReadIn(log, run) && k < |Wrote(log, run)| ==>
      var w := Wrote(log, run)[k];
      && w in outcome && outcome[w] == Answered(run, k + 1)
      && (w in signals || (h.reader.RSignal? && h.reader.w == w))
  }

  /** Every error has its reason, and only what was read counts as answered. */
  ghost predicate Reasons(log: Log, outcome: map<Work, Outcome>, timed: set<Work>) {
    forall w :: w in outcome ==>
      match outcome[w]
      case Failed => w in log.broken
      case TimedOut => w in timed
      case Answered(run, k) => k <= ReadIn(log, run)
      case _ => true
  }

  /** A work that is signalled, or about to be, has been told something. */
  ghost predicate Told(h: Hands, signals: multiset<Work>, outcome: map<Work, Outcome>) {
    (forall w :: w in signals || w in h.evicted.Values ==> w in outcome) && ToldNext(h, outcome)
  }

  ghost predicate ToldNext(h: Hands, outcome: map<Work, Outcome>) {
    && (h.writer.WSignal? ==> h.writer.w in outcome)
    && (h.reader.RSignal? ==> h.reader.w in outcome)
    && (h.sup.DSignal? ==> h.sup.w in outcome)
  }

  ghost predicate Fates(s: State) {
    && Reads(s.hands, s.log)
    && Delivered(s.hands, s.log, s.outcome, s.signals)
    && Reasons(s.log, s.outcome, s.timed)
    && Told(s.hands, s.signals, s.outcome)
  }

  lemma ReadsActed(s: State, act: Act)
    requires InOrder(s.hands, s.log) && Reads(s.hands, s.log) && Supervised(s.hands) && Acting(s, act)
    ensures var t := Acted(s, act); Reads(t.hands, t.log)
  {
  }

  /** A work that nobody was answered about is none of those whose responses were read. */
  lemma NotRead(h: Hands, log: Log, outcome: map<Work, Outcome>, signals: multiset<Work>, accepted: set<Work>, w: Work)
    requires OneAnswer(h, signals, accepted) && Delivered(h, log, outcome, signals)
    requires w in h.chW || WriterHas(h, w) || w in h.chR || (h.reader.RHold? && h.reader.w == w)
    ensures forall run: nat, k :: 0 <= k < ReadIn(log, run) && k < |Wrote(log, run)| ==> Wrote(log, run)[k] != w
  {
    assert Places(h, w) + signals[w] == Count(w in accepted);
  }

  /** The works whose responses were read stay what they are. */
  lemma StillDelivered(h: Hands, t: Hands, log: Log, log1: Log, outcome: map<Work, Outcome>, outcome1: map<Work, Outcome>,
                       signals: multiset<Work>, signals1: multiset<Work>)
    requires Delivered(h, log, outcome, signals) && signals <= signals1
    requires log1.past == log.past && log1.pastRead == log.pastRead && log1.read == log.read && log1.wrote == log.wrote
    requires forall run: nat, k :: 0 <= k < ReadIn(log, run) && k < |Wrote(log, run)| ==>
      var w := Wrote(log, run)[k]; w in outcome1 && w in outcome && outcome1[w] == outcome[w]
    requires h.reader.RSignal? ==> h.reader.w in signals1 || t.reader == h.reader
    ensures Delivered(t, log1, outcome1, signals1)
  {
    assert forall run: nat :: Wrote(log1, run) == Wrote(log, run) && ReadIn(log1, run) == ReadIn(log, run);
    assert forall w :: w in signals ==> w in signals1;
  }

  lemma ReadAreTold(h: Hands, log: Log, outcome: map<Work, Outcome>, signals: multiset<Work>)
    requires Delivered(h, log, outcome, signals)
    ensures forall run: nat, k :: 0 <= k < ReadIn(log, run) && k < |Wrote(log, run)| ==> Wrote(log, run)[k] in outcome
  {
  }

  lemma DeliveredWrite(h: Hands, t: Hands, log: Log, outcome: map<Work, Outcome>, signals: multiset<Work>, w: Work)
    requires Delivered(h, log, outcome, signals) && t.reader == h.reader
    requires log.read <= |log.wrote| && |log.pastRead| == |log.past|
    ensures Delivered(t, log.(wrote := log.wrote + [w]), outcome, signals)
  {
    var log1 := log.(wrote := log.wrote + [w]);
    assert forall run: nat :: ReadIn(log1, run) == ReadIn(log, run);
    forall run: nat, k | 0 <= k < ReadIn(log, run) && k < |Wrote(log1, run)|
      ensures k < |Wrote(log, run)| && Wrote(log1, run)[k] == Wrote(log, run)[k]
    {
    }
  }

  lemma DeliveredNext(h: Hands, t: Hands, log: Log, outcome: map<Work, Outcome>, signals: multiset<Work>)
    requires Delivered(h, log, outcome, signals) && |log.pastRead| == |log.past| && !h.reader.RSignal?
    ensures Delivered(t, NextLog(log), outcome, signals)
  {
    assert forall run: nat :: ReadIn(NextLog(log), run) == ReadIn(log, run);
    assert forall run: nat :: run <= |log.past| ==> Wrote(NextLog(log), run) == Wrote(log, run);
  }

  lemma DeliveredRead(h: Hands, t: Hands, log: Log, outcome: map<Work, Outcome>, signals: multiset<Work>,
                      accepted: set<Work>)
    requires OneAnswer(h, signals, accepted) && InOrder(h, log) && Reads(h, log) && Delivered(h, log, outcome, signals)
    requires h.reader.RHold? && t.reader == RSignal(h.reader.w, false)
    ensures Delivered(t, log.(read := log.read + 1), outcome[h.reader.w := Answered(|log.past|, |log.taken|)], signals)
  {
    NotRead(h, log, outcome, signals, accepted, h.reader.w);
    var log1 := log.(read := log.read + 1);
    assert log.wrote[|log.taken| - 1] == h.reader.w;
    forall run: nat, k | 0 <= k < ReadIn(log1, run) && k < |Wrote(log1, run)|
      ensures Wrote(log1, run)[k] == Wrote(log, run)[k]
      ensures if run == |log.past| && k == log.read then Wrote(log, run)[k] == h.reader.w else k < ReadIn(log, run)
    {
    }
  }

  /** Telling somebody else something does not change them. */
  lemma OthersTold(h: Hands, t: Hands, log: Log, log1: Log, outcome: map<Work, Outcome>, signals: multiset<Work>,
                   accepted: set<Work>, w: Work, o: Outcome)
    requires OneAnswer(h, signals, accepted) && Delivered(h, log, outcome, signals)
    requires w in h.chW || WriterHas(h, w) || w in h.chR || (h.reader.RHold? && h.reader.w == w)
    requires log1.past == log.past && log1.pastRead == log.pastRead && log1.read == log.read && log1.wrote == log.wrote
    requires h.reader.RSignal? ==> t.reader == h.reader
    ensures Delivered(t, log1, outcome[w := o], signals)
  {
    NotRead(h, log, outcome, signals, accepted, w);
    ReadAreTold(h, log, outcome, signals);
    StillDelivered(h, t, log, log1, outcome, outcome[w := o], signals, signals);
  }

  lemma DeliveredTelling(s: State, act: Act)
    requires OneAnswer(s.hands, s.signals, s.accepted) && Delivered(s.hands, s.log, s.outcome, s.signals)
    requires Supervised(s.hands) && Acting(s, act)
    requires act.WExpire? || act.WWriteFails? || act.WGiveUp? || act.RReadFails? || act.Drain?
    ensures var t := Acted(s, act); Delivered(t.hands, t.log, t.outcome, t.signals)
  {
    var h, t := s.hands, Acted(s, act);
    var w := if act.RReadFails? then h.reader.w else if act.Drain? then h.chR[0] else h.writer.w;
    hide OneAnswer, Delivered, Places;
    OthersTold(h, t.hands, s.log, t.log, s.outcome, s.signals, s.accepted, w, t.outcome[w]);
  }

  lemma DeliveredQuietly(s: State, act: Act)
    requires Delivered(s.hands, s.log, s.outcome, s.signals) && Acting(s, act)
    requires !act.WExpire? && !act.WWriteFails? && !act.WGiveUp? && !act.RReadFails? && !act.Drain?
    requires !act.WWrite? && !act.RRead? && !act.NextRun?
    ensures var t := Acted(s, act); Delivered(t.hands, t.log, t.outcome, t.signals)
  {
    var t := Acted(s, act);
    ReadAreTold(s.hands, s.log, s.outcome, s.signals);
    hide Delivered;
    StillDelivered(s.hands, t.hands, s.log, t.log, s.outcome, t.outcome, s.signals, t.signals);
  }

  lemma DeliveredActed(s: State, act: Act)
    requires OneAnswer(s.hands, s.signals, s.accepted) && InOrder(s.hands, s.log) && Supervised(s.hands) && Acting(s, act)
    requires Reads(s.hands, s.log) && Delivered(s.hands, s.log, s.outcome, s.signals)
    ensures var t := Acted(s, act); Delivered(t.hands, t.log, t.outcome, t.signals)
  {
    var h, log, outcome, signals, t := s.hands, s.log, s.outcome, s.signals, Acted(s, act);
    assert log.read <= |log.wrote| && |log.pastRead| == |log.past|;
    hide OneAnswer, InOrder, Reads, Delivered, Supervised;
    if act.WWrite? {
      DeliveredWrite(h, t.hands, log, outcome, signals, h.writer.w);
    } else if act.RRead? {
      DeliveredRead(h, t.hands, log, outcome, signals, s.accepted);
    } else if act.NextRun? {
      AtEnd(h);
      DeliveredNext(h, t.hands, log, outcome, signals);
    } else if act.WExpire? || act.WWriteFails? || act.WGiveUp? || act.RReadFails? || act.Drain? {
      DeliveredTelling(s, act);
    } else {
      DeliveredQuietly(s, act);
    }
  }

  lemma ReasonsActed(s: State, act: Act)
    requires Reasons(s.log, s.outcome, s.timed) && Reads(s.hands, s.log) && Acting(s, act)
    ensures var t := Acted(s, act); Reasons(t.log, t.outcome, t.timed)
  {
  }

  lemma ToldActed(s: State, act: Act)
    requires Told(s.hands, s.signals, s.outcome) && Acting(s, act)
    ensures var t := Acted(s, act); Told(t.hands, t.signals, t.outcome)
  {
    ToldNextActed(s, act);
    ToldSignals(s, act);
    hide Acted, ToldNext;
  }

  lemma ToldNextActed(s: State, act: Act)
    requires ToldNext(s.hands, s.outcome) && Acting(s, act)
    ensures var t := Acted(s, act); ToldNext(t.hands, t.outcome)
  {
  }

  lemma ToldSignals(s: State, act: Act)
    requires Told(s.hands, s.signals, s.outcome) && Acting(s, act)
    ensures var t := Acted(s, act);
      && t.hands.evicted == s.hands.evicted && (forall w :: w in s.outcome ==> w in t.outcome)
      && (forall w :: w in t.signals ==> w in t.outcome)
  {
    var x := if act.WDone? then s.hands.writer.w else if act.RDone? then s.hands.reader.w
             else if act.DrainDone? then s.hands.sup.w else 0;
    var done := act.WDone? || act.RDone? || act.DrainDone?;
    assert Acted(s, act).signals == (if done then s.signals + multiset{x} else s.signals);
  }

  lemma FatesCalled(s: State, w: Work, call: Call)
    requires Inv(s) && Fates(s) && Calling(s, w, call)
    ensures Fates(Called(s, w, call))
  {
    DeliveredCalled(s, w, call);
    ToldCalled(s, w, call);
    ReasonsCalled(s, w, call);
    CalledApart(s, w, call);
    hide Inv, Called, Calling, Delivered, Told, Reasons;
  }

  lemma DeliveredCalled(s: State, w: Work, call: Call)
    requires OneAnswer(s.hands, s.signals, s.accepted) && Calling(s, w, call)
    requires Delivered(s.hands, s.log, s.outcome, s.signals)
    ensures var t := Called(s, w, call); Delivered(t.hands, t.log, t.outcome, t.signals)
  {
    var h, t := s.hands, Called(s, w, call);
    hide OneAnswer, Delivered, Places;
    if call.DoEvict? && h.chW != [] {
      OthersTold(h, t.hands, s.log, t.log, s.outcome, s.signals, s.accepted, h.chW[0], Overflow);
    } else {
      ReadAreTold(h, s.log, s.outcome, s.signals);
      StillDelivered(h, t.hands, s.log, t.log, s.outcome, t.outcome, s.signals, t.signals);
    }
  }

  lemma ReasonsCalled(s: State, w: Work, call: Call)
    requires Reasons(s.log, s.outcome, s.timed) && Calling(s, w, call)
    ensures var t := Called(s, w, call); Reasons(t.log, t.outcome, t.timed)
  {
  }

  lemma ToldCalled(s: State, w: Work, call: Call)
    requires Told(s.hands, s.signals, s.outcome) && Evictors(s.callers, s.hands.evicted) && Calling(s, w, call)
    ensures var t := Called(s, w, call); Told(t.hands, t.signals, t.outcome)
  {
  }

  // ---- What holds of every run ------------------------------------------------------------

  /** The steps lead from one state to the other, each one enabled where it is taken. */
  ghost predicate Run(s: State, steps: seq<Step>, t: State)
    decreases |steps|
  {
    if steps == [] then s == t
    else Enabled(s, steps[0]) && Run(Next(s, steps[0]), steps[1..], t)
  }

  lemma {:induction false} RunKeeps(s: State, steps: seq<Step>, t: State)
    requires Inv(s) && Run(s, steps, t)
    ensures Inv(t)
    decreases |steps|
  {
    hide Inv, Enabled, Next;
    if steps != [] {
      StepKeeps(s, steps[0]);
      RunKeeps(Next(s, steps[0]), steps[1..], t);
    }
  }

  /** The reader, and at the end the worker, handles the works in the order in which the writer wrote them. */
  lemma HandledInOrder(size: nat, steps: seq<Step>, t: State)
    requires Run(Init(size), steps, t)
    ensures t.log.taken <= t.log.wrote
    ensures t.log.wrote[|t.log.taken|..] == t.hands.chR + Unhanded(t.hands) + t.log.lost
    ensures t.hands.sup.Ended? ==> t.hands.chR == [] && t.log.wrote == t.log.taken + t.log.lost
  {
    InitInv(size);
    RunKeeps(Init(size), steps, t);
    hide Run, Inv;
    Order(t);
  }

  lemma Order(s: State)
    requires Inv(s)
    ensures s.log.taken <= s.log.wrote
    ensures s.log.wrote[|s.log.taken|..] == s.hands.chR + Unhanded(s.hands) + s.log.lost
    ensures s.hands.sup.Ended? ==> s.hands.chR == [] && s.log.wrote == s.log.taken + s.log.lost
  {
    hide OneAnswer, CallersKnow, Evictors, Paired;
    var rest := s.hands.chR + Unhanded(s.hands) + s.log.lost;
    assert s.hands.chR + (Unhanded(s.hands) + s.log.lost) == rest;
    assert s.log.wrote == s.log.taken + rest;
  }

  /** A caller that gets a response gets the one with the number of its own request, in every run of the worker. */
  lemma ResponsesMatch(size: nat, steps: seq<Step>, t: State, w: Work)
    requires Run(Init(size), steps, t) && w in t.outcome && t.outcome[w].Answered?
    ensures var o := t.outcome[w]; 1 <= o.k <= |Wrote(t.log, o.run)| && Wrote(t.log, o.run)[o.k - 1] == w
  {
    InitInv(size);
    RunKeeps(Init(size), steps, t);
    hide Run, OneAnswer, CallersKnow, Evictors, InOrder;
  }

  /**
   * Whatever becomes of a work, it is signalled at most once, so that its channel has room. Once it
   * was accepted it is signalled or in exactly one place; when the worker has ended, that is the queue
   * for the next run or the hands of a caller that took it out of there.
   */
  lemma OneDone(size: nat, steps: seq<Step>, t: State, w: Work)
    requires Run(Init(size), steps, t)
    ensures t.signals[w] <= 1
    ensures w in t.signals ==> Places(t.hands, w) == 0
    ensures w in t.accepted && t.hands.sup.Ended? ==> w in t.signals || w in t.hands.chW || w in t.hands.evicted.Values
  {
    InitInv(size);
    RunKeeps(Init(size), steps, t);
    hide Run, CallersKnow, Evictors, InOrder, Paired;
    assert Places(t.hands, w) + t.signals[w] == Count(w in t.accepted);
  }

  /** A work that goes back into the pool is nobody's, and its one signal, if it was accepted, has been received. */
  lemma RecycledIsFree(size: nat, steps: seq<Step>, t: State, w: Work)
    requires Run(Init(size), steps, t) && w in t.callers && t.callers[w].Released?
    ensures Places(t.hands, w) == 0
    ensures t.signals[w] == Count(w in t.accepted)
  {
    InitInv(size);
    RunKeeps(Init(size), steps, t);
    hide Run, Evictors, InOrder, Paired, Supervised;
    assert Places(t.hands, w) + t.signals[w] == Count(w in t.accepted);
  }
  lemma FatesKept(s: State, step: Step)
    requires Inv(s) && Fates(s) && Enabled(s, step)
    ensures Fates(Next(s, step))
  {
    match step {
      case Caller(w, call) => FatesCalled(s, w, call);
      case Worker(act) =>
        ReadsActed(s, act);
        DeliveredActed(s, act);
        ReasonsActed(s, act);
        ToldActed(s, act);
    }
    hide Called, Calling, Acted, Acting, Inv, Reads, Delivered, Reasons, Told;
  }

  lemma {:induction false} FatesInRuns(s: State, steps: seq<Step>, t: State)
    requires Inv(s) && Fates(s) && Run(s, steps, t)
    ensures Inv(t) && Fates(t)
    decreases |steps|
  {
    hide Inv, Fates, Enabled, Next;
    if steps != [] {
      StepKeeps(s, steps[0]);
      FatesKept(s, steps[0]);
      FatesInRuns(Next(s, steps[0]), steps[1..], t);
    }
  }

  lemma InitFates(size: nat)
    ensures Fates(Init(size))
  {
  }

  /** The k-th response that is read in a run of the worker is what the k-th work written in it is told. */
  lemma ResponsesDelivered(size: nat, steps: seq<Step>, t: State, run: nat, k: nat)
    requires Run(Init(size), steps, t) && k < ReadIn(t.log, run)
    ensures k < |Wrote(t.log, run)|
    ensures var w := Wrote(t.log, run)[k];
      && w in t.outcome && t.outcome[w] == Answered(run, k + 1)
      && (w in t.signals || (t.hands.reader.RSignal? && t.hands.reader.w == w))
  {
    InitInv(size);
    InitFates(size);
    FatesInRuns(Init(size), steps, t);
    hide Run, OneAnswer, CallersKnow, Evictors, Paired, Reasons, Told;
    assert |t.log.taken| <= |t.log.wrote|;
  }

  /**
   * Who is signalled has been told something: a failure only when the work's own write or read failed, a
   * timeout only with a deadline, a response only one that was read.
   */
  lemma ToldWhy(size: nat, steps: seq<Step>, t: State, w: Work)
    requires Run(Init(size), steps, t)
    ensures w in t.signals ==> w in t.outcome
    ensures w in t.outcome ==>
      && (t.outcome[w].Failed? ==> w in t.log.broken)
      && (t.outcome[w].TimedOut? ==> w in t.timed)
      && (t.outcome[w].Answered? ==> t.outcome[w].k <= ReadIn(t.log, t.outcome[w].run))
  {
    InitInv(size);
    InitFates(size);
    FatesInRuns(Init(size), steps, t);
    hide Run, Inv, Delivered, Reads;
  }

  /** What has to have happened for a work to be told this. */
  predicate Tells(step: Step, o: Outcome) {
    match o
    case Answered(_, _) => step == Worker(RRead)
    case Failed => step == Worker(WWriteFails) || step == Worker(RReadFails)
    case TimedOut => step == Worker(WExpire)
    case Overflow => step.Caller? && step.call.DoEvict?
    case Stopped => step == Worker(WGiveUp) || step == Worker(Drain)
  }

  lemma CallTells(s: State, v: Work, call: Call, w: Work)
    requires Calling(s, v, call) && w in Called(s, v, call).outcome
    ensures var o := Called(s, v, call).outcome[w];
      (w in s.outcome && s.outcome[w] == o) || (o.Overflow? && call.DoEvict?)
  {
  }

  lemma ActTells(s: State, act: Act, w: Work)
    requires Acting(s, act) && w in Acted(s, act).outcome
    ensures var o := Acted(s, act).outcome[w];
      || (w in s.outcome && s.outcome[w] == o)
      || (o.Answered? && act.RRead?) || (o.Failed? && (act.WWriteFails? || act.RReadFails?))
      || (o.TimedOut? && act.WExpire?) || (o.Stopped? && (act.WGiveUp? || act.Drain?))
  {
  }

  lemma OneTells(s: State, step: Step, w: Work)
    requires Enabled(s, step) && w in Next(s, step).outcome
    ensures (w in s.outcome && s.outcome[w] == Next(s, step).outcome[w]) || Tells(step, Next(s, step).outcome[w])
  {
    match step {
      case Caller(v, call) => CallTells(s, v, call, w);
      case Worker(act) => ActTells(s, act, w);
    }
    hide Called, Acted, Calling, Acting;
  }

  /** And that did happen. */
  lemma {:induction false} SomethingTold(s: State, steps: seq<Step>, t: State, w: Work)
    requires Run(s, steps, t) && w in t.outcome && w !in s.outcome
    ensures exists step :: step in steps && Tells(step, t.outcome[w])
    decreases |steps|
  {
    SomethingToldOrKept(s, steps, t, w);
  }

  lemma {:induction false} SomethingToldOrKept(s: State, steps: seq<Step>, t: State, w: Work)
    requires Run(s, steps, t) && w in t.outcome
    ensures (w in s.outcome && s.outcome[w] == t.outcome[w]) || exists step :: step in steps && Tells(step, t.outcome[w])
    decreases |steps|
  {
    if steps != [] {
      var u := Next(s, steps[0]);
      SomethingToldOrKept(u, steps[1..], t, w);
      if w in u.outcome && u.outcome[w] == t.outcome[w] {
        OneTells(s, steps[0], w);
      }
      assert steps[0] in steps && forall step :: step in steps[1..] ==> step in steps;
      hide Next, Enabled, Tells, Run;
    }
  }

  lemma {:induction false} Extend(s: State, steps: seq<Step>, t: State, step: Step)
    requires Run(s, steps, t) && Enabled(t, step)
    ensures Run(s, steps + [step], Next(t, step))
    decreases |steps|
  {
    hide Enabled, Next;
    if steps == [] {
      assert Run(Next(t, step), [], Next(t, step));
    } else {
      Extend(Next(s, steps[0]), steps[1..], t, step);
      assert (steps + [step])[1..] == steps[1..] + [step];
    }
  }

  lemma NoSteps(s: State)
    ensures Run(s, [], s)
  {
  }

  lemma Then(s: State, steps: seq<Step>, t: State, step: Step) returns (u: State, longer: seq<Step>)
    requires Run(s, steps, t) && Enabled(t, step)
    ensures u == Next(t, step) && Run(s, longer, u)
  {
    Extend(s, steps, t, step);
    u, longer := Next(t, step), steps + [step];
  }

  /** On a connection that works and has nothing else to do a request gets the next response. */
  lemma OneRequest(s: State, w: Work) returns (steps: seq<Step>, t: State)
    requires s.size > 0 && s.hands.chW == [] == s.hands.chR && s.hands.writer.WFetch? && s.hands.reader.RFetch?
    requires w !in s.callers && w !in s.signals
    ensures Run(s, steps, t) && w in t.callers && t.callers[w] == Released
    ensures t.log.wrote == s.log.wrote + [w] && t.log.read == s.log.read + 1
    ensures w in t.outcome && t.outcome[w] == Answered(|s.log.past|, |s.log.taken| + 1)
  {
    hide Run;
    t, steps := s, [];
    NoSteps(t);
    t, steps := Then(s, steps, t, Caller(w, DoEnter));
    t, steps := Then(s, steps, t, Worker(WTake));
    t, steps := Then(s, steps, t, Worker(WWrite));
    t, steps := Then(s, steps, t, Worker(WHandOn));
    t, steps := Then(s, steps, t, Worker(RTake));
    t, steps := Then(s, steps, t, Worker(RRead));
    t, steps := Then(s, steps, t, Worker(RDone));
    t, steps := Then(s, steps, t, Caller(w, Return));
  }

  /** How many steps a caller takes at most until it returns. */
  function StepsLeft(p: Phase): nat {
    match p
    case Full => 4
    case Evicting(_) => 3
    case Retrying => 2
    case Blocked => 2
    case Waiting => 1
    case _ => 0
  }

  /** Nobody spins: every step of a caller brings it nearer to its return. */
  lemma CallersReturn(s: State, w: Work, call: Call)
    requires w in s.callers && Calling(s, w, call)
    ensures w in Called(s, w, call).callers && StepsLeft(Called(s, w, call).callers[w]) < StepsLeft(s.callers[w])
    ensures forall v :: v in s.callers && v != w ==>
      v in Called(s, w, call).callers && Called(s, w, call).callers[v] == s.callers[v]
  {
  }

  /** Do makes room by dropping the oldest request, which its caller is told, if there is one. */
  lemma EvictsOldest(s: State, w: Work)
    requires Calling(s, w, DoEvict) && s.hands.chW != []
    ensures var t, oldest := Called(s, w, DoEvict), s.hands.chW[0];
      && t.hands.chW == s.hands.chW[1..] && oldest in t.outcome && t.outcome[oldest] == Overflow
      && Calling(t, w, DoOverflow) && Called(t, w, DoOverflow).signals == s.signals + multiset{oldest}
  {
  }

  /** A caller is turned away only where the queue was full when it looked, and else it is queued. */
  lemma TurnedAway(s: State, w: Work, call: Call)
    requires Calling(s, w, call) && w !in s.accepted
    ensures var t := Called(s, w, call);
      && w in t.callers
      && (t.callers[w].Released? ==>
            || (call.DoRetry? && |s.hands.chW| >= s.size) || call.DeadlineFull? || s.callers[w].Waiting?)
      && (|s.hands.chW| < s.size && (call.DoEnter? || call.DeadlineEnter? || call.DoRetry? || call.DeadlineEnqueue?) ==>
            t.callers[w].Waiting? && w in t.accepted && t.hands.chW == s.hands.chW + [w])
  {
  }

  lemma {:induction false} StaysTimed(s: State, steps: seq<Step>, t: State, w: Work)
    requires Run(s, steps, t) && w in s.timed
    ensures w in t.timed
    decreases |steps|
  {
    if steps != [] {
      TimedKept(s, steps[0], w);
      StaysTimed(Next(s, steps[0]), steps[1..], t, w);
    }
  }

  lemma TimedKept(s: State, step: Step, w: Work)
    requires Enabled(s, step) && w in s.timed
    ensures w in Next(s, step).timed
  {
    if step.Caller? {
      assert s.timed <= Called(s, step.w, step.call).timed;
    } else {
      TimedActed(s, step.act);
    }
  }

  lemma TimedActed(s: State, act: Act)
    requires Acting(s, act)
    ensures Acted(s, act).timed == s.timed
  {
  }

  /** A caller with a deadline can always leave: before its work is queued, or while it waits. */
  lemma DeadlinesEnd(s: State, w: Work, steps: seq<Step>, t: State)
    requires Calling(s, w, DeadlineEnter) && Run(Called(s, w, DeadlineEnter), steps, t) && w in t.callers
    ensures t.callers[w].Blocked? ==> Calling(t, w, DeadlineFull)
    ensures t.callers[w].Waiting? ==> Calling(t, w, Abandon)
  {
    StaysTimed(Called(s, w, DeadlineEnter), steps, t, w);
    hide Run;
  }

  // ---- The worker's run ends --------------------------------------------------------------

  function WriterLeft(writer: Writer): nat {
    match writer
    case WFetch => 1
    case WHold(_) => 6
    case WPush(_) => 5
    case WSignal(_, _) => 2
    case WStopped => 0
  }

  function ReaderLeft(reader: Reader): nat {
    match reader
    case RFetch => 1
    case RHold(_) => 3
    case RSignal(_, _) => 2
    case RStopped => 0
  }

  function SupervisorLeft(sup: Supervisor): nat {
    match sup
    case Watching => 4
    case AwaitReader => 3
    case AwaitWriter => 3
    case Draining => 2
    case DSignal(_) => 3
    case Ended => 0
  }

  /** How many acts the worker and its goroutines take at most until the run ends. */
  function ActsLeft(h: Hands): nat {
    6 * |h.chW| + WriterLeft(h.writer) + 3 * |h.chR| + ReaderLeft(h.reader) + SupervisorLeft(h.sup)
  }

  lemma FewerActs(s: State, act: Act)
    requires Acting(s, act) && !act.NextRun?
    ensures ActsLeft(Acted(s, act).hands) < ActsLeft(s.hands)
  {
  }

  /** While no caller adds work a run of the worker takes no more acts than that. */
  lemma {:induction false} ActsEnd(s: State, steps: seq<Step>, t: State)
    requires Run(s, steps, t) && forall step :: step in steps ==> step.Worker? && !step.act.NextRun?
    ensures |steps| <= ActsLeft(s.hands)
    decreases |steps|
  {
    hide ActsLeft, Acting, Acted;
    if steps != [] {
      assert steps[0] in steps;
      FewerActs(s, steps[0].act);
      ActsEnd(Next(s, steps[0]), steps[1..], t);
    }
  }

  /** A timeout or a response does not end the run; a failure does, after its work was signalled. */
  lemma GoesOnAfter(s: State)
    ensures Acting(s, WExpire) ==>
      var t := Acted(s, WExpire); Acting(t, WDone) && Acted(t, WDone).hands.writer == WFetch
    ensures Acting(s, RRead) ==>
      var t := Acted(s, RRead); Acting(t, RDone) && Acted(t, RDone).hands.reader == RFetch
    ensures Acting(s, WWriteFails) ==>
      var t := Acted(s, WWriteFails); Acting(t, WDone) && Acted(t, WDone).hands.writer == WStopped
    ensures Acting(s, WGiveUp) ==>
      var t := Acted(s, WGiveUp); Acting(t, WDone) && Acted(t, WDone).hands.writer == WStopped
    ensures Acting(s, RReadFails) ==>
      var t := Acted(s, RReadFails); Acting(t, RDone) && Acted(t, RDone).hands.reader == RStopped
  {
  }

  /** The worker tells the reader, or the writer, to stop before it waits for it. */
  lemma {:induction false} OtherIsTold(s: State, steps: seq<Step>, t: State)
    requires Run(s, steps, t)
    requires (s.hands.sup.AwaitReader? ==> s.stopR) && (s.hands.sup.AwaitWriter? ==> s.stopW)
    ensures (t.hands.sup.AwaitReader? ==> t.stopR) && (t.hands.sup.AwaitWriter? ==> t.stopW)
    decreases |steps|
  {
    if steps != [] {
      TellsOther(s, steps[0]);
      hide Next, Enabled;
      OtherIsTold(Next(s, steps[0]), steps[1..], t);
    }
  }

  lemma TellsOther(s: State, step: Step)
    requires Enabled(s, step) && (s.hands.sup.AwaitReader? ==> s.stopR) && (s.hands.sup.AwaitWriter? ==> s.stopW)
    ensures var t := Next(s, step); (t.hands.sup.AwaitReader? ==> t.stopR) && (t.hands.sup.AwaitWriter? ==> t.stopW)
  {
    match step {
      case Caller(w, call) => NobodyTold(s, w, call);
      case Worker(act) => TellsByActing(s, act);
    }
    hide Called, Acted, Calling, Acting;
  }

  lemma NobodyTold(s: State, w: Work, call: Call)
    requires Calling(s, w, call)
    ensures var t := Called(s, w, call);
      t.hands.sup == s.hands.sup && t.stopR == s.stopR && t.stopW == s.stopW
  {
  }

  lemma TellsByActing(s: State, act: Act)
    requires Acting(s, act) && (s.hands.sup.AwaitReader? ==> s.stopR) && (s.hands.sup.AwaitWriter? ==> s.stopW)
    ensures var t := Acted(s, act); (t.hands.sup.AwaitReader? ==> t.stopR) && (t.hands.sup.AwaitWriter? ==> t.stopW)
  {
  }

  /**
   * Nothing is stuck before the end of a run, whatever fails: where neither the worker nor its goroutines
   * can act, the run has ended, and each work that was not signalled is still queued for the next run, or in
   * the hands of the caller that took it out.
   */
  lemma WorkerEnds(size: nat, steps: seq<Step>, t: State, w: Work)
    requires Run(Init(size), steps, t) && forall act :: Acting(t, act) ==> act.NextRun?
    ensures t.hands.sup.Ended?
    ensures w in t.accepted && w !in t.signals ==> w in t.hands.chW || w in t.hands.evicted.Values
  {
    OtherIsTold(Init(size), steps, t);
    InitInv(size);
    RunKeeps(Init(size), steps, t);
    hide Run;
    NobodyActs(t);
    assert Places(t.hands, w) + t.signals[w] == Count(w in t.accepted);
  }

  lemma NobodyActs(s: State)
    requires forall act :: Acting(s, act) ==> act.NextRun?
    requires Supervised(s.hands) && (s.hands.sup.AwaitReader? ==> s.stopR)
    ensures s.hands.sup.Ended? && s.hands.writer.WStopped? && s.hands.reader.RStopped? && s.hands.chR == []
  {
    assert !Acting(s, WQuit) && !Acting(s, WWrite) && !Acting(s, WGiveUp) && !Acting(s, WDone);
    assert !Acting(s, RQuit) && !Acting(s, RRead) && !Acting(s, RDone);
    assert !Acting(s, SeeWriter) && !Acting(s, Joined) && !Acting(s, Drain) && !Acting(s, DrainDone) && !Acting(s, End);
  }
}
