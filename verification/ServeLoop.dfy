/**
 * The loop that serves the requests of one connection (server.go, serveConn). It is run over a script of
 * what happens around it, and waits for the next request when the script ends.
 */
module ServeLoop {
  import opened Counting
  import opened ServeConn

  class Loop {
    const cfg: Config
    var num: nat                       // connRequestNum
    var br: bool                       // there is a reader
    var bw: bool                       // there is a writer
    var buffered: bool                 // and input in the reader
    var continuing: bool               // continueReadingRequest
    var trace: seq<ConnState>          // the calls of the ConnState hook
    var handled: seq<nat>              // the requests the handler was called for
    var sent: seq<nat>                 // the requests whose responses have left the writer for the connection
    var held: seq<nat>                 // those whose responses are in the writer
    var lost: seq<nat>                 // those whose responses were in a writer that was given back
    var answered: seq<nat>             // all that were answered
    ghost var readers: nat             // readers taken from the pool and not given back
    ghost var writers: nat
    ghost var given: nat               // readers that went to a hijacker
    ghost var dropped: nat             // and readers that should have and did not get there

    /** What was taken from the pools is what there is. */
    ghost predicate Accounted()
      reads this`br, this`bw, this`buffered, this`held, this`readers, this`writers
    {
      readers == Count(br) && writers == Count(bw) && (buffered ==> br) && (held != [] ==> bw)
    }

    constructor (cfg: Config)
      ensures Accounted() && this.cfg == cfg && num == 0 && continuing && !br && !bw && given == 0 && dropped == 0
      ensures trace == [] && handled == [] && sent == [] && held == [] && lost == [] && answered == []
    {
      this.cfg := cfg;
      num, br, bw, buffered, continuing := 0, false, false, false, true;
      trace, handled, sent, held := [], [], [], [];
      lost, answered, readers, writers, given, dropped := [], [], 0, 0, 0, 0;
    }

    method AcquireWriter()
      requires Accounted()
      modifies this`bw, this`writers
      ensures Accounted() && bw
    {
      if !bw {
        bw, writers := true, writers + 1;
      }
    }

    method Flush()
      requires bw
      modifies this`sent, this`held
      ensures sent == old(sent + held) && held == [] && sent + held == old(sent + held)
    {
      sent, held := sent + held, [];
    }

    /** Gives the writer back, and what is in it with it. */
    method ReleaseWriter()
      requires bw && Accounted()
      modifies this`bw, this`writers, this`held, this`lost
      ensures !bw && Accounted() && held == [] && lost == old(lost + held)
    {
      bw, writers := false, writers - 1;
      lost, held := lost + held, [];
    }

    method AcquireReader()
      requires Accounted()
      modifies this`br, this`readers
      ensures Accounted() && br
    {
      if !br {
        br, readers := true, readers + 1;
      }
    }

    method ReleaseReader()
      requires br && Accounted()
      modifies this`br, this`buffered, this`readers
      ensures !br && !buffered && Accounted()
    {
      br, buffered, readers := false, false, readers - 1;
    }

    /** A reader, and on a keep-alive connection the first byte. */
    method FirstByte(r: Round) returns (read: ReadResult)
      requires Accounted()
      modifies this`br, this`readers
      ensures Accounted() && (read.Read? ==> br)
      ensures read.Read? || read.AtEof? || (read.NothingRead? && num > 1)
      ensures !read.Read? ==> !r.first.Read? && !buffered
    {
      read := Read;
      if !cfg.reduceMemory || br {
        AcquireReader();
        if num > 1 && !buffered && !r.first.Read? {
          read := if r.first.AtEof? then AtEof else NothingRead;
        }
      } else if r.first.Read? {
        AcquireReader();
      } else {
        read := AtEof;
      }
    }

    /** An error response, in a writer of its own if need be. That its flush may fail is not looked at. */
    method WriteErrorResponse(r: Round)
      requires Accounted()
      modifies this`bw, this`sent, this`held, this`writers
      ensures Accounted() && sent + held == old(sent + held) && |held| <= |old(held)|
    {
      AcquireWriter();
      if r.errorSent {
        Flush();
      }
    }

    /** Responses that are still in the writer are flushed when the next headers are not complete yet. */
    method ReadHeaders(r: Round) returns (read: ReadResult, flushed: bool)
      requires Accounted()
      modifies this`sent, this`held
      ensures Accounted() && sent + held == old(sent + held) && |held| <= |old(held)|
      ensures flushed ==> held == if r.needMore then [] else old(held)
      ensures !flushed ==> r.needMore && !r.flushedEarly
      ensures read == ReadOf(r)
    {
      read, flushed := if r.header.Read? then r.body else r.header, true;
      if held != [] && r.needMore {
        flushed := r.flushedEarly;
        if flushed {
          Flush();
        }
      }
    }

    /** The headers and, unless the client waits for 100 Continue, the body. */
    method ReadBody(r: Round) returns (read: ReadResult, flushed: bool)
      requires Accounted() && br
      modifies this`br, this`buffered, this`trace, this`sent, this`held, this`readers
      ensures Accounted() && sent + held == old(sent + held) && |held| <= |old(held)|
      ensures flushed ==> held == if r.needMore then [] else old(held)
      ensures !flushed ==> r.needMore && !r.flushedEarly
      ensures read == ReadOf(r)
      ensures trace == if flushed && read.Read? then old(trace) + [Active] else old(trace)
      ensures flushed && read.Read? ==> br == (!cfg.reduceMemory || r.leftover) && buffered == r.leftover
    {
      read, flushed := ReadHeaders(r);
      if !flushed {
        return;
      }
      buffered := r.leftover;
      if read.Read? {
        trace := trace + [Active];
      }
      if (cfg.reduceMemory && !r.leftover) || !read.Read? {
        ReleaseReader();
      }
    }

    /** The next request, unless there is none. */
    method ReadRequest(r: Round) returns (end: Result)
      requires Accounted() && num > 0 && (held != [] ==> buffered)
      modifies this`br, this`bw, this`buffered, this`trace, this`sent, this`held, this`readers, this`writers
      ensures Accounted() && sent + held == old(sent + held) && |held| <= |old(held)|
      ensures trace == if end.Waiting? then old(trace) + [Active] else old(trace)
      ensures end.Waiting? || ((end.NoMore? || end.Failed?) && Cause(cfg, r, num, false, end))
      ensures end.Waiting? || end.NoMore? ==> held == if r.needMore then [] else old(held)
      ensures end.Waiting? ==> br == (!cfg.reduceMemory || r.leftover) && buffered == r.leftover
    {
      hide Accounted;
      var flushed := true;
      var read := FirstByte(r);
      if read.Read? {
        read, flushed := ReadBody(r);
        if !flushed {
          return Failed;
        }
      }
      if read.Read? {
        end := Waiting;
      } else if read.AtEof? || (read.NothingRead? && num > 1) {
        end := NoMore;
      } else {
        WriteErrorResponse(r);
        end := Failed;
      }
    }

    /** Sends 100 Continue and reads the body. */
    method AskForBody(r: Round) returns (end: Result)
      requires Accounted() && (cfg.reduceMemory ==> held == [])
      modifies this`br, this`bw, this`buffered, this`sent, this`held, this`readers, this`writers, this`lost
      ensures Accounted() && sent + held == old(sent + held) && |held| <= |old(held)| && lost == old(lost)
      ensures end == if r.continueSent && r.continueBody.Read? then Waiting else Failed
      ensures end.Waiting? ==>
        held == [] && br == (!cfg.reduceMemory || r.continueLeftover) && buffered == r.continueLeftover
    {
      AcquireWriter();
      if !r.continueSent {
        return Failed;
      }
      Flush();
      if cfg.reduceMemory {
        ReleaseWriter();
      }
      AcquireReader();
      buffered := r.continueLeftover;
      if (cfg.reduceMemory && !r.continueLeftover) || !r.continueBody.Read? {
        ReleaseReader();
      }
      if !r.continueBody.Read? {
        WriteErrorResponse(r);
        return Failed;
      }
      end := Waiting;
    }

    /** Asks for the body, if the client waits to be asked and nobody objects. */
    method Expect(r: Round) returns (end: Result)
      requires Accounted() && (cfg.reduceMemory ==> held == [])
      requires br == (!cfg.reduceMemory || r.leftover) && buffered == r.leftover
      modifies this`br, this`bw, this`buffered, this`continuing, this`sent, this`held, this`readers, this`writers,
        this`lost
      ensures Accounted() && sent + held == old(sent + held) && |held| <= |old(held)| && lost == old(lost)
      ensures continuing == if r.expects && cfg.continueHandler then r.admitted else old(continuing)
      ensures end == if BreaksDown(r, continuing) then Failed else Waiting
      ensures end.Waiting? ==>
        && held == (if r.expects && continuing then [] else old(held))
        && buffered == MoreBuffered(cfg, r, continuing)
        && (continuing ==> br == (!cfg.reduceMemory || buffered))
    {
      end := Waiting;
      if r.expects {
        if cfg.continueHandler {
          continuing := r.admitted;
          if !continuing {
            buffered := false;
          }
        }
        if continuing {
          end := AskForBody(r);
        }
      }
    }

    /** Writes a response, which may push out some of what is in the writer. */
    method WriteResponse(r: Round)
      requires Accounted() && bw
      modifies this`sent, this`held, this`answered
      ensures Accounted() && sent + held == old(sent + held) + if r.written then [num] else []
      ensures |held| <= |old(held)| + Count(r.written)
      ensures answered == old(answered) + if r.written then [num] else []
      ensures r.written ==> held == Kept(old(held) + [num], r.spilled)
    {
      if r.written {
        held, answered := held + [num], answered + [num];
      }
      var k := if r.spilled < |held| then r.spilled else |held|;
      sent, held := sent + held[..k], held[k..];
    }

    /** The response, which is flushed unless the next request is there already. */
    method Respond(r: Round, connectionClose: bool) returns (end: Result)
      requires Accounted()
      modifies this`bw, this`sent, this`held, this`writers, this`lost, this`answered
      ensures Accounted() && (end == CloseSent || end == Waiting || end == Failed)
      ensures end.Failed? ==>
        && (!r.written || !r.flushed) && lost == old(lost)
        && Grew(num, old(sent), old(held), sent, held, old(answered), answered, r.written)
      ensures !end.Failed? ==> answered == old(answered) + [num]
      ensures !end.Failed? ==> end == if connectionClose then CloseSent else Waiting
      ensures end.CloseSent? || (end.Waiting? && !buffered) ==>
        sent == old(sent + held) + [num] && held == [] && lost == old(lost)
      ensures end.Waiting? && buffered ==>
        var kept := Kept(old(held) + [num], r.spilled);
        && sent + kept == old(sent + held) + [num]
        && if cfg.reduceMemory && !r.hijack then held == [] && lost == old(lost) + kept
           else held == kept && lost == old(lost)
    {
      AcquireWriter();
      WriteResponse(r);
      if !r.written {
        return Failed;
      }
      if !buffered || connectionClose {
        if !r.flushed {
          return Failed;
        }
        Flush();
      }
      if connectionClose {
        return CloseSent;
      }
      if cfg.reduceMemory && !r.hijack {
        ReleaseWriter();
      }
      end := Waiting;
    }

    /** The connection goes to the hijack handler, and the reader with it, unless a flush or a deadline fails. */
    method HandOver(r: Round) returns (end: Result)
      requires Accounted()
      modifies this`br, this`bw, this`buffered, this`sent, this`held, this`readers, this`writers, this`lost,
        this`given, this`dropped
      ensures Accounted() && sent + held == old(sent + held) && |held| <= |old(held)| && lost == old(lost)
      ensures end == if r.deadlinesReset && (old(bw) ==> r.flushed) then Taken else Failed
      ensures !br && given + dropped == old(given + dropped) + Count(old(br))
      ensures if end.Taken? then !bw && held == [] && dropped == old(dropped) else given == old(given)
    {
      ghost var reader := Count(br);
      if br {
        br, buffered, readers := false, false, readers - 1;
      }
      if bw {
        if !r.flushed {
          dropped := dropped + reader;
          return Failed;
        }
        Flush();
        ReleaseWriter();
      }
      if !r.deadlinesReset {
        dropped := dropped + reader;
        return Failed;
      }
      given := given + reader;
      end := Taken;
    }

    /** No reader has gone anywhere. */
    ghost predicate Undivided()
      reads this`br, this`bw, this`buffered, this`held, this`readers, this`writers, this`given, this`dropped
    {
      Accounted() && given == 0 && dropped == 0
    }

    /** The loop is between two turns of the script. */
    ghost predicate Between(script: seq<Round>)
      reads this
    {
      && Undivided() && WentOn(cfg, script, num) && TraceBetween(cfg, num, trace)
      && continuing == Continuing(cfg, script, num) && handled == Handled(cfg, script, num)
      && OutBetween(cfg, script, num, sent, held, lost, answered)
      && held == Unsent(cfg, script, num) && (held != [] ==> buffered)
    }

    /** At most one reader has gone away: to a hijacker, or when that failed. */
    ghost predicate Divided(end: Result)
      reads this`given, this`dropped
    {
      given + dropped <= 1 && (given > 0 ==> end.Taken?) && (dropped > 0 ==> end.Failed?)
    }

    /** The loop has ended, with what is in the writer not given back yet. */
    ghost predicate Ended(script: seq<Round>, end: Result)
      reads this
    {
      && 0 < num <= |script| && Accounted() && Divided(end)
      && WentOn(cfg, script, num - 1) && Cause(cfg, script[num - 1], num, |trace| >= 2 * num - 1, end)
      && TraceEnded(cfg, num, trace, end)
      && handled == Handled(cfg, script, (|trace| + 1) / 2)
      && OutEnded(cfg, script, |trace| / 2, end, sent, held, lost, answered)
    }

    /** Keep-alive is for nobody who asked to close, nor after the last request allowed, nor when shutting down. */
    method MustClose(r: Round) returns (connectionClose: bool)
      ensures connectionClose == WantsClose(cfg, r, num)
    {
      var responseClose := r.responseClose;
      if cfg.maxRequests > 0 && num >= cfg.maxRequests {
        responseClose := true;
      }
      connectionClose := cfg.disableKeepalive || r.requestClose;
      connectionClose := connectionClose || responseClose;
      connectionClose := connectionClose || responseClose || (cfg.closeOnShutdown && r.stopping);
    }

    /** The response and what comes after it. */
    method Answer(r: Round) returns (end: Result)
      requires Undivided()
      modifies this`br, this`bw, this`buffered, this`sent, this`held, this`readers, this`writers, this`lost,
        this`given, this`dropped, this`answered
      ensures Accounted() && Divided(end)
      ensures end.Waiting? || end.CloseSent? || end.Taken? || end.Failed?
      ensures end.Waiting? ==> Undivided() && !r.hijack && !WantsClose(cfg, r, num)
      ensures !end.Waiting? ==> Cause(cfg, r, num, true, end)
      ensures end.Waiting? ==> answered == old(answered) + [num]
      ensures end.Waiting? && !old(buffered) ==> sent == old(sent + held) + [num] && held == [] && lost == old(lost)
      ensures end.Waiting? && old(buffered) ==>
        var kept := Kept(old(held) + [num], r.spilled);
        && buffered && sent + kept == old(sent + held) + [num]
        && if cfg.reduceMemory then held == [] && lost == old(lost) + kept else held == kept && lost == old(lost)
      ensures !end.Waiting? ==>
        lost == old(lost) && GrewAtEnd(num, r, end, old(sent), old(held), sent, held, old(answered), answered)
    {
      hide Accounted, WantsClose;
      var connectionClose := MustClose(r);
      if !(r.hijack && r.noResponse) {
        end := Respond(r, connectionClose);
        if !end.Waiting? {
          return;
        }
      }
      if r.hijack {
        end := HandOver(r);
      } else {
        end := Waiting;
      }
    }

    /** In turn num, with the request read and nothing done about it yet. */
    ghost predicate Started(script: seq<Round>)
      reads this
    {
      && 0 < num <= |script| && Undivided() && WentOn(cfg, script, num - 1) && TraceActive(cfg, num, trace)
      && continuing == Continuing(cfg, script, num - 1) && handled == Handled(cfg, script, num - 1)
      && OutBetween(cfg, script, num - 1, sent, held, lost, answered)
      && held == AtHeaders(cfg, script, num)
      && br == (!cfg.reduceMemory || script[num - 1].leftover) && buffered == script[num - 1].leftover
    }

    /** Nothing is in the way of the handler but a refusal. */
    ghost predicate Decided(script: seq<Round>)
      reads this
    {
      && 0 < num <= |script| && Undivided() && WentOn(cfg, script, num - 1) && TraceActive(cfg, num, trace)
      && continuing == Continuing(cfg, script, num)
      && Handled(cfg, script, num) == (if continuing then handled + [num] else handled)
      && OutBetween(cfg, script, num - 1, sent, held, lost, answered)
      && held == Before(cfg, script, num)
      && Pipelined(cfg, script, num) == if continuing then br && script[num - 1].pipelined else buffered
    }

    /** The handler has been called for the request, if it is to be called. */
    ghost predicate Served(script: seq<Round>)
      reads this
    {
      && 0 < num <= |script| && Undivided() && WentOn(cfg, script, num - 1) && TraceActive(cfg, num, trace)
      && continuing == Continuing(cfg, script, num) && handled == Handled(cfg, script, num)
      && OutBetween(cfg, script, num - 1, sent, held, lost, answered)
      && held == Before(cfg, script, num) && buffered == Pipelined(cfg, script, num)
    }

    method Begin(script: seq<Round>) returns (end: Result)
      requires Between(script) && num < |script|
      modifies this`num, this`br, this`bw, this`buffered, this`trace, this`sent, this`held, this`readers, this`writers
      ensures if end.Waiting? then Started(script) else Ended(script, end)
      ensures num == old(num) + 1
    {
      hide TraceBetween, TraceActive, TraceEnded, OutBetween, OutEnded, Continuing, Handled, Unsent, WentOn, Cause;
      hide Accounted, EndsIn, Conserved;
      NoneHeld(cfg, script, num);
      num := num + 1;
      end := ReadRequest(script[num - 1]);
      TraceSteps(cfg, num - 1, old(trace), end);
      OutStays(cfg, script, num - 1, end, old(sent), old(held), sent, held, lost, answered);
    }

    method Admit(script: seq<Round>) returns (end: Result)
      requires Started(script)
      modifies this`br, this`bw, this`buffered, this`continuing, this`sent, this`held, this`readers, this`writers,
        this`lost
      ensures if end.Waiting? then Decided(script) else Ended(script, end)
      ensures num == old(num)
    {
      ghost var was := continuing;
      hide TraceActive, TraceEnded, OutBetween, OutEnded, Continuing, Handled, Pipelined, Unsent, AtHeaders, Before,
        WentOn;
      NoneHeld(cfg, script, num);
      end := Expect(script[num - 1]);
      TraceCompletes(cfg, num, trace, end);
      OutStays(cfg, script, num - 1, end, old(sent), old(held), sent, held, lost, answered);
      NextRequest(cfg, script, num, was, continuing);
    }

    method CallHandler(script: seq<Round>)
      requires Decided(script)
      modifies this`handled, this`buffered
      ensures Served(script)
    {
      hide TraceActive, OutBetween, Continuing, Handled, Pipelined, Before, WentOn;
      if continuing {
        handled := handled + [num];
        buffered := br && script[num - 1].pipelined;
      }
    }

    method Complete(script: seq<Round>) returns (end: Result)
      requires Served(script)
      modifies this`br, this`bw, this`buffered, this`trace, this`sent, this`held, this`readers, this`writers, this`lost,
        this`given, this`dropped, this`answered
      ensures if end.Waiting? then Between(script) else Ended(script, end)
      ensures num == old(num)
    {
      hide TraceBetween, TraceActive, TraceEnded, OutEnded, Continuing, Handled, Pipelined, Unsent, Before, WentOn;
      hide Kept, Late, Conserved, UpTo, GrewAtEnd, Grew, Answered, EndsIn;
      end := Answer(script[num - 1]);
      TraceCompletes(cfg, num, trace, end);
      if !end.Waiting? {
        ghost var wrote := answered != old(answered);
        AnsweredAtEnd(script, num, end, old(sent), old(held), sent, held, old(answered), answered);
        EndsAfter(cfg, script, num, old(sent), old(held), sent, held, lost, old(answered), answered, wrote);
        OutEnds(cfg, script, num - 1, end, sent, held, lost, answered);
        return;
      }
      HeldMoves(cfg, script, num, old(sent), sent, held, old(lost), lost);
      LostMoves(cfg, script, num, old(sent), sent, held, lost);
      ConservedInTurn(cfg, script, num, old(sent), old(held), sent, held, old(lost), lost, old(answered));
      LateStep(cfg, script, num);
      trace := trace + [Idle];
      if script[num - 1].stopped {
        OutShutDown(cfg, script, num, sent, held, lost, answered);
        end := ShutDown;
      } else {
        GoesOn(cfg, script, num);
      }
    }

    method Turn(script: seq<Round>) returns (end: Result)
      requires Between(script) && num < |script|
      modifies this
      ensures if end.Waiting? then Between(script) else Ended(script, end)
      ensures num == old(num) + 1
    {
      end := Begin(script);
      if end.Waiting? {
        end := Admit(script);
      }
      if end.Waiting? {
        CallHandler(script);
        end := Complete(script);
      }
    }

    /** What is left of the reader and the writer goes back into the pools. */
    method GiveBack()
      requires Accounted()
      modifies this`br, this`bw, this`buffered, this`held, this`lost, this`readers, this`writers
      ensures readers == 0 && writers == 0 && lost == old(lost + held)
    {
      if br {
        ReleaseReader();
      }
      if bw {
        ReleaseWriter();
      } else {
        assert lost == lost + held;
      }
    }

    /** serveConn: turns until one of them ends the loop, and then the rest goes back into the pools. */
    method Serve(script: seq<Round>) returns (end: Result)
      requires Between(script) && num == 0
      modifies this
      ensures end.Waiting? ==> Between(script) && num == |script|
      ensures !end.Waiting? ==>
        && readers == 0 && writers == 0 && Divided(end)
        && 0 < num <= |script| && WentOn(cfg, script, num - 1)
        && Cause(cfg, script[num - 1], num, |trace| >= 2 * num - 1, end)
        && TraceEnded(cfg, num, trace, end)
        && handled == Handled(cfg, script, (|trace| + 1) / 2)
        && Delivered(cfg, script, |trace| / 2, end, sent, lost, answered)
      ensures |trace| > 1 ==> !cfg.disableKeepalive && (cfg.maxRequests > 0 ==> |trace| / 2 < cfg.maxRequests)
      ensures |trace| / 2 <= |script| &&
        forall k :: 0 <= k < |trace| / 2 ==>
          var r := script[k];
          && !r.requestClose && !r.responseClose && !(cfg.closeOnShutdown && r.stopping)
          && !r.hijack && (r.stopped ==> end.ShutDown? && k + 1 == num)
      ensures !end.Waiting? ==>
        var r := script[num - 1];
        match end
        case CloseSent =>
          || cfg.disableKeepalive || r.requestClose || r.responseClose || (cfg.closeOnShutdown && r.stopping)
          || (cfg.maxRequests > 0 && num == cfg.maxRequests)
        case ShutDown => r.stopped
        case Taken => r.hijack
        case NoMore =>
          || !r.first.Read? || r.header.AtEof? || (r.header.Read? && r.body.AtEof?)
          || (num > 1 && (r.header.NothingRead? || (r.header.Read? && r.body.NothingRead?)))
        case Failed =>
          || (r.needMore && !r.flushedEarly) || !r.header.Read? || !r.body.Read?
          || (r.expects && (!r.continueSent || !r.continueBody.Read?))
          || !r.written || !r.flushed || (r.hijack && !r.deadlinesReset)
        case Waiting => false
    {
      hide OutBetween, OutEnded, Delivered, Handled, WentOn, Cause, Continuing, Unsent, Alternates;
      end := Waiting;
      while num < |script| && end.Waiting?
        invariant num <= |script| && if end.Waiting? then Between(script) else Ended(script, end)
        decreases |script| - num
      {
        end := Turn(script);
      }
      ReasonsToGoOn(cfg, script, num, trace, end);
      if end.Waiting? {
        return;
      }
      ReasonsToEnd(cfg, script, num, trace, end);
      OutDelivered(cfg, script, |trace| / 2, end, sent, held, lost, answered);
      GiveBack();
    }
  }

  /** A loop before its first turn. */
  method Accept(cfg: Config, script: seq<Round>) returns (loop: Loop)
    ensures fresh(loop) && loop.cfg == cfg && loop.num == 0 && loop.Between(script)
  {
    loop := new Loop(cfg);
  }

  /** A whole connection: what the client gets and what is lost, and the calls of the hook and of the handler. */
  method ServeConnection(cfg: Config, script: seq<Round>)
    returns (end: Result, num: nat, trace: seq<ConnState>, handled: seq<nat>, sent: seq<nat>,
             lost: seq<nat>, answered: seq<nat>)
    ensures end.Waiting? ==>
      && num == |script| && WentOn(cfg, script, |script|) && TraceBetween(cfg, |script|, trace)
      && handled == Handled(cfg, script, |script|)
      && OutBetween(cfg, script, |script|, sent, Unsent(cfg, script, |script|), lost, answered)
    ensures !end.Waiting? ==>
      && 0 < num <= |script| && WentOn(cfg, script, num - 1)
      && Cause(cfg, script[num - 1], num, |trace| >= 2 * num - 1, end)
      && TraceEnded(cfg, num, trace, end)
      && handled == Handled(cfg, script, (|trace| + 1) / 2)
      && Delivered(cfg, script, |trace| / 2, end, sent, lost, answered)
    ensures |trace| > 1 ==> !cfg.disableKeepalive && (cfg.maxRequests > 0 ==> |trace| / 2 < cfg.maxRequests)
    ensures |trace| / 2 <= |script| &&
      forall k :: 0 <= k < |trace| / 2 ==>
        var r := script[k];
        && !r.requestClose && !r.responseClose && !(cfg.closeOnShutdown && r.stopping)
        && !r.hijack && (r.stopped ==> end.ShutDown? && k + 1 == num)
    ensures !end.Waiting? ==>
      var r := script[num - 1];
      match end
      case CloseSent =>
        || cfg.disableKeepalive || r.requestClose || r.responseClose || (cfg.closeOnShutdown && r.stopping)
        || (cfg.maxRequests > 0 && num == cfg.maxRequests)
      case ShutDown => r.stopped
      case Taken => r.hijack
      case NoMore =>
        || !r.first.Read? || r.header.AtEof? || (r.header.Read? && r.body.AtEof?)
        || (num > 1 && (r.header.NothingRead? || (r.header.Read? && r.body.NothingRead?)))
      case Failed =>
        || (r.needMore && !r.flushedEarly) || !r.header.Read? || !r.body.Read?
        || (r.expects && (!r.continueSent || !r.continueBody.Read?))
        || !r.written || !r.flushed || (r.hijack && !r.deadlinesReset)
      case Waiting => false
  {
    hide TraceBetween, TraceEnded, Handled, Delivered, OutBetween, WentOn, Cause, Unsent, Continuing;
    var loop := Accept(cfg, script);
    end := loop.Serve(script);
    num, trace, handled, sent, lost, answered := loop.num, loop.trace, loop.handled, loop.sent, loop.lost, loop.answered;
  }
}
