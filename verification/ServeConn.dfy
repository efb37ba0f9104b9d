/**
 * What serving the requests of one connection comes to (server.go, serveConn). What the connection,
 * the handler and the rest of the server do in one turn is given by a Round, and a run of the loop by
 * a script of them: which requests get to the handler, which responses are lost, how the loop may end.
 * The loop itself is in ServeLoop.
 */
module ServeConn {
  datatype Config = Config(
    reduceMemory: bool,                // ReduceMemoryUsage
    disableKeepalive: bool,
    maxRequests: nat,                  // MaxRequestsPerConn, 0 for no limit
    continueHandler: bool,             // ContinueHandler is set
    closeOnShutdown: bool)

  datatype ReadResult = Read | AtEof | NothingRead | Broken

  datatype Round = Round(
    first: ReadResult,                 // the first byte, on a keep-alive connection or without a reader
    needMore: bool,                    // the headers are not complete while responses are unflushed
    flushedEarly: bool,                // the flush for that reason succeeds
    header: ReadResult,
    body: ReadResult,
    leftover: bool,                    // more input is buffered after the request
    expects: bool,                     // Expect: 100-continue
    admitted: bool,                    // by ContinueHandler
    continueSent: bool,                // 100 Continue is written and flushed
    continueBody: ReadResult,
    continueLeftover: bool,            // more input is buffered after that body
    requestClose: bool,                // Connection: close in the request
    responseClose: bool,               // or in the handler's response
    hijack: bool,
    noResponse: bool,                  // HijackSetNoResponse
    written: bool,                     // the response is written
    spilled: nat,                      // how many whole responses the writer has to push out for it
    pipelined: bool,                   // more input is buffered when the handler returns
    flushed: bool,                     // the flush of the response, or the one before a hijack, succeeds
    errorSent: bool,                   // the flush of an error response succeeds
    deadlinesReset: bool,
    stopping: bool,                    // Shutdown has begun when the response is made
    stopped: bool)                     // Shutdown has begun when the turn ends

  datatype ConnState = New | Active | Idle | Hijacked | Closed

  datatype Result =
    | Waiting                          // for the next request
    | NoMore                           // the client closed the connection, or it was idle for too long
    | CloseSent                        // after a response with Connection: close
    | ShutDown                         // between two requests
    | Taken                            // errHijacked
    | Failed

  // ---- Why a turn ends the loop -----------------------------------------------------------

  /** The response to request n closes the connection. */
  ghost predicate WantsClose(cfg: Config, r: Round, n: nat) {
    || cfg.disableKeepalive || r.requestClose || r.responseClose
    || (cfg.maxRequests > 0 && n >= cfg.maxRequests) || (cfg.closeOnShutdown && r.stopping)
  }

  /** What reading headers and body comes to. */
  ghost function ReadOf(r: Round): ReadResult {
    if r.header.Read? then r.body else r.header
  }

  /** Turn n gives a reason for this end, with the request read or not. */
  ghost predicate Cause(cfg: Config, r: Round, n: nat, active: bool, end: Result) {
    match end
    case Waiting => !r.hijack && !WantsClose(cfg, r, n) && !r.stopped
    case NoMore => !r.first.Read? || ReadOf(r).AtEof? || (ReadOf(r).NothingRead? && n > 1)
    case CloseSent => WantsClose(cfg, r, n)
    case ShutDown => !r.hijack && !WantsClose(cfg, r, n) && r.stopped
    case Taken => r.hijack
    case Failed =>
      if !active then (r.needMore && !r.flushedEarly) || ReadOf(r).Broken? || (ReadOf(r).NothingRead? && n == 1)
      else
        || (r.expects && (!r.continueSent || !r.continueBody.Read?))
        || !r.written || !r.flushed || (r.hijack && !r.deadlinesReset)
  }

  /** The first n turns gave no reason to end the loop. */
  ghost predicate WentOn(cfg: Config, script: seq<Round>, n: nat) {
    n <= |script| && forall k :: 0 <= k < n ==> Cause(cfg, script[k], k + 1, true, Waiting)
  }

  lemma GoesOn(cfg: Config, script: seq<Round>, n: nat)
    requires 0 < n <= |script| && WentOn(cfg, script, n - 1) && Cause(cfg, script[n - 1], n, true, Waiting)
    ensures WentOn(cfg, script, n)
  {
  }

  // ---- Which requests get to the handler --------------------------------------------------

  /** The flag continueReadingRequest after n requests: only one that expects 100 Continue changes it. */
  ghost function Continuing(cfg: Config, script: seq<Round>, n: nat): bool
    requires n <= |script|
  {
    if n == 0 then true
    else if script[n - 1].expects && cfg.continueHandler then script[n - 1].admitted
    else Continuing(cfg, script, n - 1)
  }

  /** The connection breaks down while 100 Continue is sent or the body after it is read. */
  ghost predicate BreaksDown(r: Round, continuing: bool) {
    r.expects && continuing && (!r.continueSent || !r.continueBody.Read?)
  }

  /** Whether request n gets to the handler. */
  ghost predicate Reaches(cfg: Config, script: seq<Round>, n: nat)
    requires 0 < n <= |script|
  {
    Continuing(cfg, script, n) && !BreaksDown(script[n - 1], Continuing(cfg, script, n))
  }

  /** The requests among the first n that get to the handler, in order. */
  ghost function Handled(cfg: Config, script: seq<Round>, n: nat): seq<nat>
    requires n <= |script|
  {
    if n == 0 then [] else Handled(cfg, script, n - 1) + if Reaches(cfg, script, n) then [n] else []
  }

  // ---- Which responses stay in the writer -------------------------------------------------

  /** More input is buffered when all of the request is read. A refusal throws away what is buffered. */
  ghost predicate MoreBuffered(cfg: Config, r: Round, continuing: bool) {
    if r.expects && continuing then r.continueLeftover
    else r.leftover && !(r.expects && cfg.continueHandler)
  }

  /** The next request is in the reader already when the response to request n is written. */
  ghost predicate Pipelined(cfg: Config, script: seq<Round>, n: nat)
    requires 0 < n <= |script|
  {
    var r, continuing := script[n - 1], Continuing(cfg, script, n);
    if continuing then r.pipelined && (cfg.reduceMemory ==> MoreBuffered(cfg, r, continuing))
    else MoreBuffered(cfg, r, continuing)
  }

  /** What the writer keeps when it has to push out the first k of the responses in it. */
  ghost function Kept(all: seq<nat>, k: nat): seq<nat> {
    all[if k < |all| then k else |all|..]
  }

  /** The response to request n, if it stays in a writer that is given back. */
  ghost function LateIn(cfg: Config, script: seq<Round>, n: nat): seq<nat>
    requires 0 < n <= |script|
  {
    if cfg.reduceMemory && Pipelined(cfg, script, n) then Kept([n], script[n - 1].spilled) else []
  }

  /** With ReduceMemoryUsage: the requests among the first n whose responses stay in a writer that is given back. */
  ghost function Late(cfg: Config, script: seq<Round>, n: nat): seq<nat>
    requires n <= |script|
  {
    if n == 0 then [] else Late(cfg, script, n - 1) + LateIn(cfg, script, n)
  }

  /** Without it: the requests whose responses are in the writer when turn n is over. */
  ghost function Unsent(cfg: Config, script: seq<Round>, n: nat): seq<nat>
    requires n <= |script|
    decreases n, 2
  {
    if n == 0 || cfg.reduceMemory || !Pipelined(cfg, script, n) then []
    else Kept(Before(cfg, script, n) + [n], script[n - 1].spilled)
  }

  /** Those in it when the next headers are read. */
  ghost function AtHeaders(cfg: Config, script: seq<Round>, n: nat): seq<nat>
    requires 0 < n <= |script|
    decreases n, 0
  {
    if script[n - 1].needMore then [] else Unsent(cfg, script, n - 1)
  }

  /** Those in it when response n is written: both a wait for headers and 100 Continue flush the writer. */
  ghost function Before(cfg: Config, script: seq<Round>, n: nat): seq<nat>
    requires 0 < n <= |script|
    decreases n, 1
  {
    if script[n - 1].expects && Continuing(cfg, script, n) then [] else AtHeaders(cfg, script, n)
  }

  /** Those that are lost because they are in the writer when the loop ends after n finished turns. */
  ghost function AtEnd(cfg: Config, script: seq<Round>, n: nat, end: Result): seq<nat>
    requires n <= |script| && (end.NoMore? ==> n < |script|)
  {
    match end
    case NoMore => AtHeaders(cfg, script, n + 1)
    case ShutDown => Unsent(cfg, script, n)
    case _ => []
  }

  /** What request n does to the flag, to the calls of the handler and to the reader. */
  lemma NextRequest(cfg: Config, script: seq<Round>, n: nat, was: bool, now: bool)
    requires 0 < n <= |script| && was == Continuing(cfg, script, n - 1)
    requires now == if script[n - 1].expects && cfg.continueHandler then script[n - 1].admitted else was
    ensures now == Continuing(cfg, script, n)
    ensures Handled(cfg, script, n) ==
      if now && !BreaksDown(script[n - 1], now) then Handled(cfg, script, n - 1) + [n] else Handled(cfg, script, n - 1)
    ensures Before(cfg, script, n) == if script[n - 1].expects && now then [] else AtHeaders(cfg, script, n)
    ensures Pipelined(cfg, script, n) <==>
      if now then script[n - 1].pipelined && (cfg.reduceMemory ==> MoreBuffered(cfg, script[n - 1], now))
      else MoreBuffered(cfg, script[n - 1], now)
  {
  }

  // ---- The state of the loop --------------------------------------------------------------

  ghost predicate Alternates(trace: seq<ConnState>) {
    forall i :: 0 <= i < |trace| ==> trace[i] == if i % 2 == 0 then Active else Idle
  }

  function UpTo(n: nat): seq<nat> {
    seq(n, i => i + 1)
  }

  /** The hook was called twice in each of the turns that are over. */
  ghost predicate TraceBetween(cfg: Config, num: nat, trace: seq<ConnState>) {
    |trace| == 2 * num && Alternates(trace) && (cfg.maxRequests > 0 && num > 0 ==> num < cfg.maxRequests)
  }

  /** The last turn may have stopped short: before a request was read, or before the connection was idle again. */
  ghost predicate TraceEnded(cfg: Config, num: nat, trace: seq<ConnState>, end: Result) {
    && num > 0 && 2 * num - 2 <= |trace| <= 2 * num && Alternates(trace)
    && (end.NoMore? ==> |trace| == 2 * num - 2)
    && (end.Taken? || end.CloseSent? ==> |trace| == 2 * num - 1)
    && (end.ShutDown? <==> |trace| == 2 * num)
    && (cfg.maxRequests > 0 ==> num <= cfg.maxRequests)
  }

  /** In turn num a request was read. */
  ghost predicate TraceActive(cfg: Config, num: nat, trace: seq<ConnState>) {
    && num > 0 && |trace| == 2 * num - 1 && Alternates(trace)
    && (cfg.maxRequests > 0 ==> num <= cfg.maxRequests)
  }

  lemma TraceSteps(cfg: Config, num: nat, trace: seq<ConnState>, end: Result)
    requires TraceBetween(cfg, num, trace)
    ensures |trace| == 2 * num
    ensures end.NoMore? || end.Failed? ==> TraceEnded(cfg, num + 1, trace, end)
    ensures TraceActive(cfg, num + 1, trace + [Active])
  {
  }

  lemma TraceCompletes(cfg: Config, num: nat, trace: seq<ConnState>, end: Result)
    requires TraceActive(cfg, num, trace)
    ensures |trace| == 2 * num - 1
    ensures end.CloseSent? || end.Taken? || end.Failed? ==> TraceEnded(cfg, num, trace, end)
    ensures TraceEnded(cfg, num, trace + [Idle], ShutDown)
    ensures (cfg.maxRequests > 0 ==> num < cfg.maxRequests) ==> TraceBetween(cfg, num, trace + [Idle])
  {
  }

  /** Every response is somewhere, and without ReduceMemoryUsage in order and in the writer if not sent. */
  ghost predicate Conserved(cfg: Config, sent: seq<nat>, held: seq<nat>, lost: seq<nat>, answered: seq<nat>) {
    if cfg.reduceMemory then multiset(sent) + multiset(held) + multiset(lost) == multiset(answered)
    else lost == [] && sent + held == answered
  }

  /** What became of the responses to the first n requests. */
  ghost predicate OutBetween(cfg: Config, script: seq<Round>, n: nat,
                             sent: seq<nat>, held: seq<nat>, lost: seq<nat>, answered: seq<nat>) {
    n <= |script| && answered == UpTo(n) && lost == Late(cfg, script, n) && Conserved(cfg, sent, held, lost, answered)
  }

  /** Which requests are answered when the loop ends after n finished turns. */
  ghost predicate Answered(script: seq<Round>, n: nat, end: Result, answered: seq<nat>) {
    match end
    case CloseSent => answered == UpTo(n + 1)
    case Taken => n < |script| && answered == UpTo(if script[n].noResponse then n else n + 1)
    case Failed => answered == UpTo(n) || answered == UpTo(n + 1)
    case _ => answered == UpTo(n)
  }

  ghost predicate EndsIn(x: seq<nat>, y: seq<nat>) {
    |x| <= |y| && y[|y| - |x|..] == x
  }

  /** What may be in the writer after n finished turns and what was answered since. */
  ghost function MayBeHeld(cfg: Config, script: seq<Round>, n: nat, answered: seq<nat>): seq<nat>
    requires n <= |script|
  {
    Unsent(cfg, script, n) + if |answered| > n then [n + 1] else []
  }

  /** The loop has ended, and the writer has not been given back. */
  ghost predicate OutEnded(cfg: Config, script: seq<Round>, n: nat, end: Result,
                           sent: seq<nat>, held: seq<nat>, lost: seq<nat>, answered: seq<nat>) {
    && n <= |script| && (end.NoMore? ==> n < |script|)
    && Answered(script, n, end, answered)
    && Conserved(cfg, sent, held, lost, answered)
    && lost == Late(cfg, script, n)
    && (if end.Failed? then EndsIn(held, MayBeHeld(cfg, script, n, answered))
        else held == AtEnd(cfg, script, n, end))
  }

  /**
   * What became of the responses when the writer has been given back. When the connection fails in a turn,
   * only those are lost with it that were in the writer before that turn or written in it, and the last
   * ones first.
   */
  ghost predicate Delivered(cfg: Config, script: seq<Round>, n: nat, end: Result,
                            sent: seq<nat>, lost: seq<nat>, answered: seq<nat>) {
    && n <= |script| && (end.NoMore? ==> n < |script|)
    && Answered(script, n, end, answered)
    && (if cfg.reduceMemory then multiset(sent) + multiset(lost) == multiset(answered) else sent + lost == answered)
    && (if end.Failed? then
          var late := Late(cfg, script, n);
          late <= lost && EndsIn(lost[|late|..], MayBeHeld(cfg, script, n, answered))
        else lost == Late(cfg, script, n) + AtEnd(cfg, script, n, end))
  }

  lemma {:induction false} NoneLate(cfg: Config, script: seq<Round>, n: nat)
    requires n <= |script| && !cfg.reduceMemory
    ensures Late(cfg, script, n) == []
  {
    if n > 0 {
      NoneLate(cfg, script, n - 1);
    }
  }

  lemma OutDelivered(cfg: Config, script: seq<Round>, n: nat, end: Result, sent: seq<nat>, held: seq<nat>,
                     lost: seq<nat>, answered: seq<nat>)
    requires OutEnded(cfg, script, n, end, sent, held, lost, answered)
    ensures Delivered(cfg, script, n, end, sent, lost + held, answered)
  {
    hide Late, AtEnd, Answered, MayBeHeld, EndsIn;
    assert !cfg.reduceMemory ==> lost + held == held;
    assert (lost + held)[|lost|..] == held;
  }

  lemma EndsInPart(x: seq<nat>, y: seq<nat>, more: seq<nat>, sent: seq<nat>, sent1: seq<nat>, x1: seq<nat>)
    requires EndsIn(x, y) && sent1 + x1 == sent + x + more && |x1| <= |x| + |more|
    ensures EndsIn(x1, y + more)
  {
    var all := sent + x + more;
    assert x1 == all[|all| - |x1|..];
    assert (x + more)[|x + more| - |x1|..] == x1;
    assert y + more == y[..|y| - |x|] + (x + more);
  }

  lemma ConservedStays(cfg: Config, sent: seq<nat>, held: seq<nat>, sent1: seq<nat>, held1: seq<nat>, lost: seq<nat>,
                       answered: seq<nat>)
    requires Conserved(cfg, sent, held, lost, answered) && sent + held == sent1 + held1
    ensures Conserved(cfg, sent1, held1, lost, answered)
  {
    assert multiset(sent + held) == multiset(sent1 + held1);
  }

  lemma UpToLength(n: nat)
    ensures |UpTo(n)| == n
  {
  }

  /** Flushing moves responses from the writer to the connection. */
  lemma OutStays(cfg: Config, script: seq<Round>, n: nat, end: Result, sent: seq<nat>, held: seq<nat>, sent1: seq<nat>,
                 held1: seq<nat>, lost: seq<nat>, answered: seq<nat>)
    requires OutBetween(cfg, script, n, sent, held, lost, answered) && sent + held == sent1 + held1
    requires |held1| <= |held| && EndsIn(held, Unsent(cfg, script, n))
    ensures OutBetween(cfg, script, n, sent1, held1, lost, answered)
    ensures end.Failed? || (end.NoMore? && n < |script| && held1 == AtHeaders(cfg, script, n + 1)) ==>
              OutEnded(cfg, script, n, end, sent1, held1, lost, answered)
  {
    hide Late, AtHeaders, Unsent, EndsIn, Conserved, UpTo;
    assert sent + held + [] == sent1 + held1;
    EndsInPart(held, Unsent(cfg, script, n), [], sent, sent1, held1);
    ConservedStays(cfg, sent, held, sent1, held1, lost, answered);
    UpToLength(n);
  }

  lemma LateStep(cfg: Config, script: seq<Round>, n: nat)
    requires 0 < n <= |script|
    ensures Late(cfg, script, n) == Late(cfg, script, n - 1) + LateIn(cfg, script, n)
    ensures cfg.reduceMemory ==> Before(cfg, script, n) == []
    ensures UpTo(n) == UpTo(n - 1) + [n]
  {
    assert cfg.reduceMemory ==> Unsent(cfg, script, n - 1) == [];
  }

  lemma ConservedMoves(cfg: Config, n: nat, sent: seq<nat>, held: seq<nat>, sent1: seq<nat>, kept: seq<nat>,
                       lost: seq<nat>, answered: seq<nat>)
    requires Conserved(cfg, sent, held, lost, answered) && sent1 + kept == sent + (held + [n])
    ensures cfg.reduceMemory ==> Conserved(cfg, sent1, [], lost + kept, answered + [n])
    ensures !cfg.reduceMemory || kept == [] ==> Conserved(cfg, sent1, kept, lost, answered + [n])
  {
    assert sent + held + [n] == sent + (held + [n]);
    assert multiset(sent1 + kept) == multiset(sent + held + [n]);
    assert multiset(sent1) + multiset(kept) == multiset(sent) + multiset(held) + multiset{n};
    if cfg.reduceMemory {
      var none: seq<nat> := [];
      assert multiset(none) == multiset{};
      assert multiset(sent1) + multiset(none) + multiset(lost + kept)
          == multiset(sent1) + multiset(kept) + multiset(lost)
          == multiset(answered) + multiset{n}
          == multiset(answered + [n]);
    }
  }

  /** What turn n does to the responses when it does not end the loop. */
  ghost predicate OutMoved(cfg: Config, script: seq<Round>, n: nat, sent: seq<nat>, held: seq<nat>, sent1: seq<nat>,
                           held1: seq<nat>, lost: seq<nat>, lost1: seq<nat>)
    requires 0 < n <= |script|
  {
    var all := held + [n];
    if Pipelined(cfg, script, n) then
      var kept := Kept(all, script[n - 1].spilled);
      && sent1 + kept == sent + all
      && if cfg.reduceMemory then held1 == [] && lost1 == lost + kept else held1 == kept && lost1 == lost
    else sent1 == sent + all && held1 == [] && lost1 == lost
  }

  lemma OutShutDown(cfg: Config, script: seq<Round>, n: nat, sent: seq<nat>, held: seq<nat>, lost: seq<nat>,
                    answered: seq<nat>)
    requires OutBetween(cfg, script, n, sent, held, lost, answered) && held == Unsent(cfg, script, n)
    ensures OutEnded(cfg, script, n, ShutDown, sent, held, lost, answered)
  {
  }

  lemma HeldMoves(cfg: Config, script: seq<Round>, n: nat, sent: seq<nat>, sent1: seq<nat>, held1: seq<nat>,
                  lost: seq<nat>, lost1: seq<nat>)
    requires 0 < n <= |script| && OutMoved(cfg, script, n, sent, Before(cfg, script, n), sent1, held1, lost, lost1)
    ensures held1 == Unsent(cfg, script, n)
  {
    hide Before, Pipelined, Kept;
  }

  lemma LostMoves(cfg: Config, script: seq<Round>, n: nat, sent: seq<nat>, sent1: seq<nat>, held1: seq<nat>,
                  lost1: seq<nat>)
    requires 0 < n <= |script|
    requires OutMoved(cfg, script, n, sent, Before(cfg, script, n), sent1, held1, Late(cfg, script, n - 1), lost1)
    ensures lost1 == Late(cfg, script, n)
  {
    hide Late, Before, Pipelined, Kept;
    LateStep(cfg, script, n);
    assert cfg.reduceMemory ==> Before(cfg, script, n) + [n] == [n];
  }

  lemma ConservedInTurn(cfg: Config, script: seq<Round>, n: nat, sent: seq<nat>, held: seq<nat>, sent1: seq<nat>,
                        held1: seq<nat>, lost: seq<nat>, lost1: seq<nat>, answered: seq<nat>)
    requires 0 < n <= |script| && Conserved(cfg, sent, held, lost, answered)
    requires OutMoved(cfg, script, n, sent, held, sent1, held1, lost, lost1)
    ensures Conserved(cfg, sent1, held1, lost1, answered + [n])
  {
    hide Pipelined, Kept, Conserved;
    var kept := if Pipelined(cfg, script, n) then Kept(held + [n], script[n - 1].spilled) else [];
    assert sent1 + kept == sent + (held + [n]);
    assert lost + [] == lost;
    ConservedMoves(cfg, n, sent, held, sent1, kept, lost, answered);
  }

  /** A response is not left in the writer without a next request in the reader, and never with ReduceMemoryUsage. */
  lemma NoneHeld(cfg: Config, script: seq<Round>, n: nat)
    requires n <= |script|
    ensures Unsent(cfg, script, n) != [] ==> n > 0 && Pipelined(cfg, script, n)
    ensures n > 0 && cfg.reduceMemory ==> AtHeaders(cfg, script, n) == [] == Before(cfg, script, n)
    ensures EndsIn(Unsent(cfg, script, n), Unsent(cfg, script, n))
    ensures n > 0 ==> EndsIn(AtHeaders(cfg, script, n), Unsent(cfg, script, n - 1))
    ensures n > 0 ==> EndsIn(Before(cfg, script, n), Unsent(cfg, script, n - 1))
  {
  }

  /** Turn n wrote its response or not, and nothing went away. */
  ghost predicate Grew(n: nat, sent: seq<nat>, held: seq<nat>, sent1: seq<nat>, held1: seq<nat>,
                       answered: seq<nat>, answered1: seq<nat>, wrote: bool)
  {
    var more := if wrote then [n] else [];
    answered1 == answered + more && sent1 + held1 == sent + held + more && |held1| <= |held| + |more|
  }

  /** The same for a turn that ends the loop in this way. */
  ghost predicate GrewAtEnd(n: nat, r: Round, end: Result, sent: seq<nat>, held: seq<nat>, sent1: seq<nat>,
                            held1: seq<nat>, answered: seq<nat>, answered1: seq<nat>)
  {
    match end
    case CloseSent => held1 == [] && Grew(n, sent, held, sent1, held1, answered, answered1, true)
    case Taken => held1 == [] && Grew(n, sent, held, sent1, held1, answered, answered1, !r.noResponse)
    case Failed =>
      || Grew(n, sent, held, sent1, held1, answered, answered1, false)
      || Grew(n, sent, held, sent1, held1, answered, answered1, true)
    case _ => false
  }

  lemma ConservedGrows(cfg: Config, n: nat, sent: seq<nat>, held: seq<nat>, sent1: seq<nat>, held1: seq<nat>,
                       lost: seq<nat>, answered: seq<nat>, answered1: seq<nat>, wrote: bool)
    requires Conserved(cfg, sent, held, lost, answered)
    requires Grew(n, sent, held, sent1, held1, answered, answered1, wrote)
    ensures Conserved(cfg, sent1, held1, lost, answered1)
  {
    var more := if wrote then [n] else [];
    assert multiset(sent1 + held1) == multiset(sent + held + more);
    assert multiset(sent1) + multiset(held1) == multiset(sent) + multiset(held) + multiset(more);
    assert multiset(answered1) == multiset(answered) + multiset(more);
  }

  lemma OutEnds(cfg: Config, script: seq<Round>, n: nat, end: Result, sent: seq<nat>, held: seq<nat>, lost: seq<nat>,
                answered: seq<nat>)
    requires n <= |script| && (end.CloseSent? || end.Taken? || end.Failed?) && Answered(script, n, end, answered)
    requires Conserved(cfg, sent, held, lost, answered) && lost == Late(cfg, script, n)
    requires if end.Failed? then EndsIn(held, MayBeHeld(cfg, script, n, answered)) else held == []
    ensures OutEnded(cfg, script, n, end, sent, held, lost, answered)
  {
  }

  lemma HeldCloses(cfg: Config, script: seq<Round>, n: nat, sent: seq<nat>, held: seq<nat>, sent1: seq<nat>,
                   held1: seq<nat>, answered: seq<nat>, answered1: seq<nat>, wrote: bool)
    requires 0 < n <= |script| && EndsIn(held, Unsent(cfg, script, n - 1)) && |answered| == n - 1
    requires Grew(n, sent, held, sent1, held1, answered, answered1, wrote)
    ensures EndsIn(held1, MayBeHeld(cfg, script, n - 1, answered1))
  {
    hide Unsent, EndsIn;
    EndsInPart(held, Unsent(cfg, script, n - 1), if wrote then [n] else [], sent, sent1, held1);
  }

  lemma AnsweredAtEnd(script: seq<Round>, n: nat, end: Result, sent: seq<nat>, held: seq<nat>, sent1: seq<nat>,
                      held1: seq<nat>, answered: seq<nat>, answered1: seq<nat>)
    requires 0 < n <= |script| && answered == UpTo(n - 1)
    requires GrewAtEnd(n, script[n - 1], end, sent, held, sent1, held1, answered, answered1)
    ensures Answered(script, n - 1, end, answered1) && (!end.Failed? ==> held1 == [])
    ensures Grew(n, sent, held, sent1, held1, answered, answered1, answered1 != answered)
    ensures end.CloseSent? || end.Taken? || end.Failed?
  {
    assert UpTo(n) == UpTo(n - 1) + [n];
  }

  /** What was in the writer before response n, and that response, are where they can be. */
  lemma EndsAfter(cfg: Config, script: seq<Round>, n: nat, sent: seq<nat>, held: seq<nat>, sent1: seq<nat>,
                  held1: seq<nat>, lost: seq<nat>, answered: seq<nat>, answered1: seq<nat>, wrote: bool)
    requires 0 < n <= |script| && held == Before(cfg, script, n) && answered == UpTo(n - 1)
    requires Conserved(cfg, sent, held, lost, answered)
    requires Grew(n, sent, held, sent1, held1, answered, answered1, wrote)
    ensures Conserved(cfg, sent1, held1, lost, answered1)
    ensures EndsIn(held1, MayBeHeld(cfg, script, n - 1, answered1))
  {
    hide Unsent, EndsIn, Conserved, Before, Grew;
    NoneHeld(cfg, script, n);
    ConservedGrows(cfg, n, sent, held, sent1, held1, lost, answered, answered1, wrote);
    HeldCloses(cfg, script, n, sent, held, sent1, held1, answered, answered1, wrote);
  }

  /**
   * Why the loop went on and why it ended, in the terms of the configuration and of what happened. After
   * a finished turn nothing asked for the connection to be closed, handed over or shut down.
   */
  lemma ReasonsToGoOn(cfg: Config, script: seq<Round>, num: nat, trace: seq<ConnState>, end: Result)
    requires
      if end.Waiting? then WentOn(cfg, script, num) && TraceBetween(cfg, num, trace)
      else && 0 < num <= |script| && WentOn(cfg, script, num - 1)
           && Cause(cfg, script[num - 1], num, |trace| >= 2 * num - 1, end) && TraceEnded(cfg, num, trace, end)
    ensures |trace| > 1 ==> !cfg.disableKeepalive && (cfg.maxRequests > 0 ==> |trace| / 2 < cfg.maxRequests)
    ensures |trace| / 2 <= |script| &&
      forall k :: 0 <= k < |trace| / 2 ==>
        var r := script[k];
        && !r.requestClose && !r.responseClose && !(cfg.closeOnShutdown && r.stopping)
        && !r.hijack && (r.stopped ==> end.ShutDown? && k + 1 == num)
  {
    hide Alternates;
    assert forall k :: 0 <= k < |trace| / 2 ==>
      Cause(cfg, script[k], k + 1, true, if end.ShutDown? && k + 1 == num then ShutDown else Waiting);
    assert |trace| > 1 ==>
      !WantsClose(cfg, script[0], 1) && !WantsClose(cfg, script[|trace| / 2 - 1], |trace| / 2);
  }

  lemma ReasonsToEnd(cfg: Config, script: seq<Round>, num: nat, trace: seq<ConnState>, end: Result)
    requires 0 < num <= |script| && Cause(cfg, script[num - 1], num, |trace| >= 2 * num - 1, end)
    requires TraceEnded(cfg, num, trace, end) && !end.Waiting?
    ensures
      var r := script[num - 1];
      match end
      case CloseSent =>
        || cfg.disableKeepalive || r.requestClose || r.responseClose || (cfg.closeOnShutdown && r.stopping)
        || (cfg.maxRequests > 0 && num == cfg.maxRequests)
      case ShutDown => r.stopped
      case Taken => r.hijack
      case NoMore =>
        || !r.first.Read? || r.header.AtEof? || (r.header.Read? && r.body.AtEof?)
        || (num > 1 && (r.header.NothingRead? || (r.header.Read? && r.body.NothingRead?)))
      case Failed =>
        || (r.needMore && !r.flushedEarly) || !r.header.Read? || !r.body.Read?
        || (r.expects && (!r.continueSent || !r.continueBody.Read?))
        || !r.written || !r.flushed || (r.hijack && !r.deadlinesReset)
      case Waiting => false
  {
    hide Alternates;
  }

  // ---- What it means ----------------------------------------------------------------------

  /** The calls of the ConnState hook for a connection that was accepted and is over. */
  function Life(trace: seq<ConnState>, end: Result): seq<ConnState> {
    [New] + trace + [if end.Taken? then Hijacked else Closed]
  }

  /** The life cycle that the ConnState constants document. */
  predicate MayFollow(a: ConnState, b: ConnState) {
    match a
    case New => b.Active? || b.Closed?
    case Active => b.Idle? || b.Hijacked? || b.Closed?
    case Idle => b.Active? || b.Closed?
    case _ => false
  }

  lemma LifeCycle(cfg: Config, num: nat, trace: seq<ConnState>, end: Result, i: nat)
    requires TraceEnded(cfg, num, trace, end) && i < |trace| + 1
    ensures |Life(trace, end)| == |trace| + 2
    ensures MayFollow(Life(trace, end)[i], Life(trace, end)[i + 1])
    ensures Life(trace, end)[i + 1].Hijacked? ==> i == |trace| && Life(trace, end)[i].Active?
  {
    if 0 < i {
      assert Life(trace, end)[i] == trace[i - 1];
    }
    if i < |trace| {
      assert Life(trace, end)[i + 1] == trace[i];
    }
  }

  /** The handler is called for a request exactly when nothing stopped it on the way. */
  lemma {:induction false} HandledExactly(cfg: Config, script: seq<Round>, n: nat, k: nat)
    requires n <= |script|
    ensures k in Handled(cfg, script, n) <==> 0 < k <= n && Reaches(cfg, script, k)
  {
    if n > 0 {
      HandledExactly(cfg, script, n - 1, k);
    }
  }

  /** So not for a refused one, and not for one whose body could not be asked for or did not come. */
  lemma HandledOnly(cfg: Config, script: seq<Round>, n: nat, k: nat)
    requires 0 < n <= |script| && k in Handled(cfg, script, n)
    ensures 0 < k <= n
    ensures script[k - 1].expects ==>
      var r := script[k - 1];
      (cfg.continueHandler ==> r.admitted) && r.continueSent && r.continueBody.Read?
  {
    HandledExactly(cfg, script, n, k);
  }

  /** It is called once for each of them, and in order. */
  lemma {:induction false} HandledInOrder(cfg: Config, script: seq<Round>, n: nat)
    requires n <= |script|
    ensures var h := Handled(cfg, script, n);
      && |h| <= n
      && (forall i :: 0 <= i < |h| ==> h[i] <= n)
      && (forall i, j :: 0 <= i < j < |h| ==> h[i] < h[j])
  {
    if n > 0 {
      HandledInOrder(cfg, script, n - 1);
      hide Reaches;
    }
  }

  /** Without a ContinueHandler that refuses, every request that is read completely gets to the handler. */
  lemma {:induction false} AllHandled(cfg: Config, script: seq<Round>, n: nat)
    requires n <= |script|
    requires forall r :: r in script[..n] && r.expects ==>
      (cfg.continueHandler ==> r.admitted) && r.continueSent && r.continueBody.Read?
    ensures Handled(cfg, script, n) == UpTo(n) && Continuing(cfg, script, n)
  {
    if n > 0 {
      assert script[n - 1] in script[..n];
      assert script[..n - 1] <= script[..n];
      AllHandled(cfg, script, n - 1);
    }
  }

  /**
   * A refusal lasts: continueReadingRequest is not set again for the next request, so that the
   * requests after a refused one do not get to the handler either, up to the next one that expects
   * 100 Continue and is admitted.
   */
  lemma {:induction false} RefusalLasts(cfg: Config, script: seq<Round>, j: nat, k: nat)
    requires 0 < j <= k <= |script| && script[j - 1].expects && cfg.continueHandler
    requires forall i :: j <= i < k ==> !script[i].expects
    ensures k in Handled(cfg, script, k) <==>
      var r := script[j - 1];
      r.admitted && (j == k ==> r.continueSent && r.continueBody.Read?)
    ensures Continuing(cfg, script, k) == script[j - 1].admitted
  {
    HandledExactly(cfg, script, k, k);
    if j < k {
      RefusalLasts(cfg, script, j, k - 1);
    }
  }

  /**
   * With ReduceMemoryUsage a response is lost exactly when the next request is already there and the
   * response is not so large that it leaves the writer by itself.
   */
  lemma {:induction false} LateExactly(cfg: Config, script: seq<Round>, n: nat, k: nat)
    requires n <= |script|
    ensures k in Late(cfg, script, n) <==>
              cfg.reduceMemory && 0 < k <= n && Pipelined(cfg, script, k) && script[k - 1].spilled == 0
  {
    if n > 0 {
      LateExactly(cfg, script, n - 1, k);
    }
  }

  /** Turn n does not flush the writer before it writes its response. */
  ghost predicate LeavesUnflushed(cfg: Config, script: seq<Round>, n: nat)
    requires 0 < n <= |script|
  {
    !script[n - 1].needMore && !(script[n - 1].expects && Continuing(cfg, script, n))
  }

  lemma BeforeIs(cfg: Config, script: seq<Round>, n: nat)
    requires 0 < n <= |script|
    ensures AtHeaders(cfg, script, n) == if script[n - 1].needMore then [] else Unsent(cfg, script, n - 1)
    ensures Before(cfg, script, n) == if LeavesUnflushed(cfg, script, n) then Unsent(cfg, script, n - 1) else []
  {
    hide Unsent, Continuing;
  }

  lemma LastUnsent(cfg: Config, script: seq<Round>, n: nat)
    requires n <= |script| && !cfg.reduceMemory
    ensures var u := Unsent(cfg, script, n);
      && (u == [] <==> n == 0 || !Pipelined(cfg, script, n) || script[n - 1].spilled > |Before(cfg, script, n)|)
      && (u != [] ==> u[|u| - 1] == n)
  {
    hide Pipelined, Before;
  }

  /** The last numbers up to b, without a gap. */
  ghost predicate IsRun(u: seq<nat>, b: nat) {
    |u| <= b && forall i :: 0 <= i < |u| ==> u[i] == b - |u| + 1 + i
  }

  lemma RunHas(u: seq<nat>, b: nat, k: nat)
    requires IsRun(u, b)
    ensures k in u <==> b - |u| < k <= b
    ensures |u| <= b
  {
    if b - |u| < k <= b {
      assert u[k - (b - |u| + 1)] == k;
    }
  }

  lemma KeptRun(u: seq<nat>, b: nat, spilled: nat, k: nat)
    requires IsRun(u, b)
    ensures IsRun(Kept(u + [b + 1], spilled), b + 1)
    ensures k in Kept(u + [b + 1], spilled) <==> b + 1 - |u| + spilled <= k <= b + 1
  {
    RunHas(Kept(u + [b + 1], spilled), b + 1, k);
  }

  /** The responses in the writer are the last ones, without a gap. */
  lemma {:induction false} UnsentRun(cfg: Config, script: seq<Round>, n: nat)
    requires n <= |script|
    ensures IsRun(Unsent(cfg, script, n), n)
    ensures n > 0 ==> IsRun(Before(cfg, script, n), n - 1)
  {
    hide Pipelined, Continuing, Kept;
    if n > 0 {
      UnsentRun(cfg, script, n - 1);
      BeforeIs(cfg, script, n);
      KeptRun(Before(cfg, script, n), n - 1, script[n - 1].spilled, 0);
    }
  }

  /**
   * Turn j leaves response k in the writer: the next request is in the reader, an earlier response is not
   * flushed before response j, and k is not among those that the writer has to push out for it.
   */
  ghost predicate Leaves(cfg: Config, script: seq<Round>, j: nat, k: nat)
    requires 0 < j <= |script|
  {
    && Pipelined(cfg, script, j)
    && (k < j ==> LeavesUnflushed(cfg, script, j))
    && j - |Before(cfg, script, j)| + script[j - 1].spilled <= k
  }

  /**
   * Without ReduceMemoryUsage a response is still in the writer when turn n is over exactly when its own
   * turn and every turn since left it there.
   */
  lemma {:induction false} UnsentExactly(cfg: Config, script: seq<Round>, n: nat, k: nat)
    requires n <= |script| && !cfg.reduceMemory
    ensures k in Unsent(cfg, script, n) <==> 0 < k <= n && forall j :: k <= j <= n ==> Leaves(cfg, script, j, k)
  {
    if n > 0 {
      hide Unsent, Leaves;
      UnsentExactly(cfg, script, n - 1, k);
      UnsentStep(cfg, script, n, k);
    }
  }

  lemma UnsentStep(cfg: Config, script: seq<Round>, n: nat, k: nat)
    requires 0 < n <= |script| && !cfg.reduceMemory
    ensures k in Unsent(cfg, script, n) <==>
              0 < k <= n && Leaves(cfg, script, n, k) && (k < n ==> k in Unsent(cfg, script, n - 1))
  {
    hide Pipelined, Continuing, IsRun, Kept, LeavesUnflushed;
    var before := Before(cfg, script, n);
    UnsentRun(cfg, script, n);
    BeforeIs(cfg, script, n);
    KeptRun(before, n - 1, script[n - 1].spilled, k);
    RunHas(before, n - 1, k);
  }

  /**
   * When a response is lost without ReduceMemoryUsage: the loop ended by itself, the last request of a
   * finished turn had the next one behind it and its response was small enough to stay in the writer,
   * and the loop did not have to wait for the headers of that next request.
   */
  lemma LostExactly(cfg: Config, script: seq<Round>, n: nat, end: Result, sent: seq<nat>, lost: seq<nat>,
                    answered: seq<nat>)
    requires Delivered(cfg, script, n, end, sent, lost, answered) && !cfg.reduceMemory && !end.Failed?
    ensures lost != [] <==>
              && n > 0 && Pipelined(cfg, script, n) && script[n - 1].spilled <= |Before(cfg, script, n)|
              && (end.ShutDown? || (end.NoMore? && !script[n].needMore))
    ensures lost != [] ==> lost[|lost| - 1] == n
  {
    NoneLate(cfg, script, n);
    assert lost == AtEnd(cfg, script, n, end);
    LastUnsent(cfg, script, n);
    hide Late, Pipelined, Before, Unsent;
    if end.NoMore? {
      BeforeIs(cfg, script, n + 1);
    }
  }

  // ---- The same without the terms of the model --------------------------------------------

  lemma {:induction false} NeverAhead(cfg: Config, script: seq<Round>, n: nat)
    requires n <= |script|
    requires forall r :: r in script[..n] ==> !r.leftover && !r.continueLeftover && !r.pipelined
    ensures Late(cfg, script, n) == [] == Unsent(cfg, script, n)
  {
    if n > 0 {
      assert script[n - 1] in script[..n];
      assert script[..n - 1] <= script[..n];
      NeverAhead(cfg, script, n - 1);
    }
  }

  /** A client that waits for each response before it sends the next request gets all of them. */
  lemma NoneLost(cfg: Config, script: seq<Round>, n: nat, end: Result, sent: seq<nat>, lost: seq<nat>,
                 answered: seq<nat>)
    requires Delivered(cfg, script, n, end, sent, lost, answered) && !end.Failed?
    requires forall r :: r in script[..n] ==> !r.leftover && !r.continueLeftover && !r.pipelined
    ensures lost == [] && multiset(sent) == multiset(answered) && (!cfg.reduceMemory ==> sent == answered)
  {
    NeverAhead(cfg, script, n);
    assert lost == [];
  }

  lemma {:induction false} AlwaysAhead(cfg: Config, script: seq<Round>, n: nat)
    requires n <= |script|
    requires forall r :: r in script[..n] ==> r.leftover && r.pipelined && !r.expects && !r.needMore && r.spilled == 0
    ensures Continuing(cfg, script, n)
    ensures Late(cfg, script, n) == if cfg.reduceMemory then UpTo(n) else []
    ensures Unsent(cfg, script, n) == if cfg.reduceMemory then [] else UpTo(n)
  {
    if n > 0 {
      assert script[n - 1] in script[..n];
      assert script[..n - 1] <= script[..n];
      AlwaysAhead(cfg, script, n - 1);
      assert Before(cfg, script, n) == AtHeaders(cfg, script, n) == Unsent(cfg, script, n - 1);
      assert UpTo(n) == UpTo(n - 1) + [n];
    }
  }

  /**
   * And one that is always one request ahead gets none, when a shutdown ends the loop and the responses
   * are small.
   */
  lemma AllLost(cfg: Config, script: seq<Round>, n: nat, sent: seq<nat>, lost: seq<nat>, answered: seq<nat>)
    requires Delivered(cfg, script, n, ShutDown, sent, lost, answered)
    requires forall r :: r in script[..n] ==> r.leftover && r.pipelined && !r.expects && !r.needMore && r.spilled == 0
    ensures lost == UpTo(n) == answered && sent == []
  {
    AlwaysAhead(cfg, script, n);
    assert lost == UpTo(n);
    assert cfg.reduceMemory ==> |sent| + |lost| == |multiset(sent) + multiset(lost)| == |multiset(answered)| == |answered|;
  }

  /** A wait for headers and 100 Continue send everything that is in the writer. */
  lemma FlushedBefore(cfg: Config, script: seq<Round>, n: nat, k: nat, x: nat)
    requires 0 < k <= n <= |script| && !cfg.reduceMemory && x in Unsent(cfg, script, n)
    requires script[k - 1].needMore || (script[k - 1].expects && k in Handled(cfg, script, n))
    ensures k <= x
  {
    UnsentExactly(cfg, script, n, x);
    HandledExactly(cfg, script, n, k);
    assert x < k ==> Leaves(cfg, script, k, x);
  }
}
