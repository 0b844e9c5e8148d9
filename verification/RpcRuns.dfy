/** What happens to a call, to the responses and to the echo loop over whole runs of the RPC multiplexer. */
module RpcRuns {
  import opened Results
  import opened Bits
  import opened Text
  import opened RpcClient
  import opened RpcInvariant

  // ---------------------------------------------------------------- after the request was sent

  /** The request was sent: the call waits, or it is done with an outcome that is no send error. */
  predicate PastSend(s: State, c: CallId) {
    c in s.calls &&
    match s.calls[c].phase
    case Waiting => true
    case Leaving(o) => !o.SendErr?
    case Returned(o) => !o.SendErr?
    case _ => false
  }

  lemma PastSendStays(s: State, step: Step, c: CallId)
    requires PastSend(s, c) && Enabled(s, step)
    ensures PastSend(Apply(s, step), c)
  {
    hide IdText, ToInt64;
  }

  /** What a call that has sent its request can come to. */
  predicate Concluded(s: State, c: CallId) {
    c in s.calls &&
    var call := s.calls[c];
    || call.phase.Waiting?
    || (call.phase == Leaving(CtxErr) && call.ctx in s.done)
    || (call.phase == Returned(CtxErr) && call.ctx in s.done)
    || (FirstAnswer(s, call).Some? && call.phase == Leaving(Answer(FirstAnswer(s, call).value)))
    || (FirstAnswer(s, call).Some? && call.phase == Returned(Answer(FirstAnswer(s, call).value)))
  }

  lemma ConcludedNow(s: State, c: CallId)
    requires Inv(s) && PastSend(s, c)
    ensures Concluded(s, c)
  {
    hide FirstAnswer;
    assert CallOk(s, c, s.calls[c]);
  }

  /**
    From any reachable state in which a call waits for its response: after any further steps it still waits,
    or it has the context error and its context is done, or it has the first response to its own ID.
   */
  lemma {:induction false} WaitingConcludes(s: State, steps: seq<Step>, c: CallId)
    requires Inv(s) && PastSend(s, c)
    requires CanRun(s, steps) && Run(s, steps).issued < 0x1_0000_0000_0000_0000
    ensures Concluded(Run(s, steps), c)
    decreases |steps|
  {
    hide Inv, Enabled, Apply, Concluded, PastSend;
    if steps == [] {
      ConcludedNow(s, c);
    } else {
      IssuedGrows(Apply(s, steps[0]), steps[1..]);
      StepKeepsInv(s, steps[0]);
      PastSendStays(s, steps[0], c);
      WaitingConcludes(Apply(s, steps[0]), steps[1..], c);
    }
  }

  lemma WaitingCallConcludes(s: State, steps: seq<Step>, c: CallId)
    requires Reachable(s) && Has(s, c, Waiting)
    requires CanRun(s, steps) && Run(s, steps).issued < 0x1_0000_0000_0000_0000
    ensures Concluded(Run(s, steps), c)
  {
    ReachableInv(s);
    WaitingConcludes(s, steps, c);
  }

  /** A waiting call whose context is done can leave with the context error, and no later cancellation undoes that. */
  lemma CancelledCallLeaves(s: State, c: CallId)
    requires !s.panicked && Has(s, c, Waiting) && s.calls[c].ctx in s.done
    ensures Enabled(s, SelectDone(c)) && Has(Apply(s, SelectDone(c)), c, Leaving(CtxErr))
  {
  }

  // ---------------------------------------------------------------- who can go on

  /** A step that a caller inside `rpc` takes itself. */
  predicate CallStep(step: Step, c: CallId) {
    || step == CheckCtx(c) || step == TakeId(c) || step == Register(c)
    || step == SendOk(c) || step == SendFail(c, true) || step == SendFail(c, false)
    || step == SelectDone(c) || step == SelectReceive(c) || step == Cleanup(c)
  }

  ghost predicate CanGoOn(s: State, c: CallId) {
    exists step :: CallStep(step, c) && Enabled(s, step)
  }

  /**
    A call that has not returned is blocked exactly while it waits, its context is not done, and no
    response for its ID was processed since it registered.
   */
  lemma BlockedWhileUnanswered(s: State, c: CallId)
    requires Reachable(s) && c in s.calls && !s.calls[c].phase.Returned?
    ensures CanGoOn(s, c) <==>
            !(Has(s, c, Waiting) && s.calls[c].ctx !in s.done && FirstAnswer(s, s.calls[c]).None?)
  {
    hide FirstAnswer, IdText, Reachable;
    CallIsOk(s, c);
    match s.calls[c].phase
    case Entered => assert CallStep(CheckCtx(c), c) && Enabled(s, CheckCtx(c));
    case Checked => assert CallStep(TakeId(c), c) && Enabled(s, TakeId(c));
    case Numbered => assert CallStep(Register(c), c) && Enabled(s, Register(c));
    case Registered => assert CallStep(SendFail(c, false), c) && Enabled(s, SendFail(c, false));
    case Waiting =>
      assert CallStep(SelectDone(c), c) && (Enabled(s, SelectDone(c)) <==> s.calls[c].ctx in s.done);
      assert CallStep(SelectReceive(c), c) && (Enabled(s, SelectReceive(c)) <==> FirstAnswer(s, s.calls[c]).Some?);
    case Leaving(_) => assert CallStep(Cleanup(c), c) && Enabled(s, Cleanup(c));
  }

  lemma CallIsOk(s: State, c: CallId)
    requires Reachable(s) && c in s.calls
    ensures !s.panicked && CallOk(s, c, s.calls[c])
  {
    hide CallOk, OwnerOk, Reachable;
    ReachableInv(s);
  }

  /** What callers, server, network and clock do is not restricted by the state of the client. */
  lemma OutsideIsFree(s: State, c: CallId, ctx: CtxId, m: Incoming)
    requires Reachable(s)
    ensures Enabled(s, StartCall(c, ctx)) <==> c !in s.calls
    ensures Enabled(s, CancelCtx(ctx))
    ensures s.listener.Receiving? && s.conn.Open? ==> Enabled(s, Receive(m)) && Enabled(s, ReceiveEnd)
    ensures Has(s, c, Registered) ==> Enabled(s, SendFail(c, false)) && Enabled(s, if s.conn.Open? then SendOk(c) else SendFail(c, true))
    ensures s.ticker.TickerWaiting? ==> Enabled(s, Tick)
  {
    ReachableInv(s);
  }

  // ---------------------------------------------------------------- send errors

  /** The call is done with the given outcome. */
  predicate EndsWith(s: State, c: CallId, o: Outcome) {
    Has(s, c, Leaving(o)) || Has(s, c, Returned(o))
  }

  lemma SendErrStep(s: State, step: Step, c: CallId, closed: bool)
    requires Enabled(s, step) && !EndsWith(s, c, SendErr(closed)) && EndsWith(Apply(s, step), c, SendErr(closed))
    ensures step == SendFail(c, closed)
  {
    hide IdText, ToInt64;
  }

  /** A call ends with a send error only if its send failed, in just that way. */
  lemma {:induction false} SendErrFromFailure(s: State, steps: seq<Step>, c: CallId, closed: bool)
    requires CanRun(s, steps)
    requires !EndsWith(s, c, SendErr(closed)) && EndsWith(Run(s, steps), c, SendErr(closed))
    ensures SendFail(c, closed) in steps
    decreases |steps|
  {
    hide Enabled, Apply, EndsWith;
    if steps != [] {
      if EndsWith(Apply(s, steps[0]), c, SendErr(closed)) {
        SendErrStep(s, steps[0], c, closed);
      } else {
        SendErrFromFailure(Apply(s, steps[0]), steps[1..], c, closed);
      }
    }
  }

  /** And a failed send ends the call with that error. */
  lemma FailureEnds(s: State, c: CallId, closed: bool)
    requires Enabled(s, SendFail(c, closed))
    ensures EndsWith(Apply(s, SendFail(c, closed)), c, SendErr(closed))
  {
  }

  // ---------------------------------------------------------------- a context that was done from the start

  /** The call has not got past the check of its context, and has drawn no ID. */
  predicate NeverStarted(s: State, c: CallId) {
    && c in s.calls && s.calls[c].ctx in s.done && s.calls[c].num == 0
    && (s.calls[c].phase == Entered || s.calls[c].phase == Returned(CtxErr))
  }

  lemma NeverStartedStays(s: State, step: Step, c: CallId)
    requires NeverStarted(s, c) && Enabled(s, step) && FoundIsActive(s)
    ensures NeverStarted(Apply(s, step), c)
  {
    hide IdText, ToInt64;
  }

  predicate FoundIsActive(s: State) {
    FoundCallback(s) ==> Active(Target(s))
  }

  /** A call entered with a done context draws no ID, registers nothing and returns the context error. */
  lemma {:induction false} DoneContextNeverStarts(s: State, steps: seq<Step>, c: CallId)
    requires Inv(s) && NeverStarted(s, c)
    requires CanRun(s, steps) && Run(s, steps).issued < 0x1_0000_0000_0000_0000
    ensures NeverStarted(Run(s, steps), c)
    decreases |steps|
  {
    hide Inv, Enabled, Apply, NeverStarted, FoundIsActive;
    if steps != [] {
      IssuedGrows(Apply(s, steps[0]), steps[1..]);
      StepKeepsInv(s, steps[0]);
      TargetsAreActive(s);
      NeverStartedStays(s, steps[0], c);
      DoneContextNeverStarts(Apply(s, steps[0]), steps[1..], c);
    }
  }

  lemma TargetsAreActive(s: State)
    requires Inv(s)
    ensures FoundIsActive(s)
  {
    if FoundCallback(s) {
      assert OwnerOk(s, s.listener.id);
    }
  }

  lemma EntersWithDoneContext(s: State, c: CallId, ctx: CtxId)
    requires Enabled(s, StartCall(c, ctx)) && ctx in s.done
    ensures NeverStarted(Apply(s, StartCall(c, ctx)), c)
  {
  }

  // ---------------------------------------------------------------- contexts and responses

  /** A call keeps the context it was started with. */
  lemma {:induction false} ContextIsKept(s: State, steps: seq<Step>, c: CallId)
    requires CanRun(s, steps) && c in s.calls
    ensures c in Run(s, steps).calls && Run(s, steps).calls[c].ctx == s.calls[c].ctx
    decreases |steps|
  {
    hide Enabled, Apply;
    if steps != [] {
      ContextStep(s, steps[0], c);
      ContextIsKept(Apply(s, steps[0]), steps[1..], c);
    }
  }

  lemma ContextStep(s: State, step: Step, c: CallId)
    requires Enabled(s, step) && c in s.calls
    ensures c in Apply(s, step).calls && Apply(s, step).calls[c].ctx == s.calls[c].ctx
  {
    hide IdText, ToInt64;
  }

  lemma StartsWithContext(s: State, c: CallId, ctx: CtxId)
    requires Enabled(s, StartCall(c, ctx))
    ensures c in Apply(s, StartCall(c, ctx)).calls && Apply(s, StartCall(c, ctx)).calls[c].ctx == ctx
  {
  }

  /** The responses among what the server sent, in order. */
  function Responses(steps: seq<Step>): seq<(string, Response)> {
    if steps == [] then []
    else
      (if steps[0].Receive? && steps[0].msg.Message? then [(steps[0].msg.id, steps[0].msg.res)] else [])
      + Responses(steps[1..])
  }

  /** The responses processed so far, with the one being dispatched. */
  function Taken(s: State): seq<(string, Response)> {
    s.log + if s.listener.Dispatching? then [(s.listener.id, s.listener.res)] else []
  }

  lemma TakenStep(s: State, step: Step)
    requires Inv(s) && Enabled(s, step)
    ensures Taken(Apply(s, step)) == Taken(s) + Responses([step])
  {
    hide CallOk, OwnerOk;
    assert [step][1..] == [] && Responses([]) == [];
    if s.listener.Dispatching? && s.listener.id in s.callbacks {
      FoundChannelIsFresh(s);
    }
    assert Taken(s) + [] == Taken(s);
    assert s.log + [] == s.log;
  }

  /** The log is what the server sent: every response, once, in the order in which it came in. */
  lemma {:induction false} LogIsReceived(s: State, steps: seq<Step>)
    requires Inv(s) && CanRun(s, steps) && Run(s, steps).issued < 0x1_0000_0000_0000_0000
    ensures Taken(Run(s, steps)) == Taken(s) + Responses(steps)
    decreases |steps|
  {
    hide Inv, Enabled, Apply, Taken, Responses;
    ResponsesParts(steps);
    if steps == [] {
      assert Taken(s) + [] == Taken(s);
    } else {
      IssuedGrows(Apply(s, steps[0]), steps[1..]);
      StepKeepsInv(s, steps[0]);
      TakenStep(s, steps[0]);
      LogIsReceived(Apply(s, steps[0]), steps[1..]);
      Associate(Taken(s), Responses([steps[0]]), Responses(steps[1..]));
    }
  }

  lemma ResponsesParts(steps: seq<Step>)
    ensures steps == [] ==> Responses(steps) == []
    ensures steps != [] ==> Responses(steps) == Responses([steps[0]]) + Responses(steps[1..])
  {
    if steps != [] {
      assert [steps[0]][1..] == [];
      assert Responses([steps[0]]) + [] == Responses([steps[0]]);
    }
  }

  lemma Associate(a: seq<(string, Response)>, b: seq<(string, Response)>, c: seq<(string, Response)>)
    ensures a + b + c == a + (b + c)
  {
  }

  // ---------------------------------------------------------------- the echo loop and the ticker

  /** How many echoes succeeded. */
  function Successes(steps: seq<Step>): nat {
    if steps == [] then 0 else (if steps[0] == EchoReturn(true) then 1 else 0) + Successes(steps[1..])
  }

  /** The echo's own call found the connection closed. */
  predicate FoundClosed(s: State) {
    s.echo.EchoCalling? && Has(s, s.echo.call, Returned(SendErr(true)))
  }

  /** How many echoes failed for another reason than a closed connection. */
  function Failures(s: State, steps: seq<Step>): nat
    requires CanRun(s, steps)
    decreases |steps|
  {
    if steps == [] then 0
    else
      (if steps[0] == EchoReturn(false) && !FoundClosed(s) then 1 else 0)
      + Failures(Apply(s, steps[0]), steps[1..])
  }

  lemma EchoStep(s: State, step: Step)
    requires Enabled(s, step)
    ensures var s' := Apply(s, step);
            && s'.echoOK == (if step == EchoReturn(true) then ToInt64(s.echoOK + 1) else s.echoOK)
            && s'.echoFail == (if step == EchoReturn(false) && !FoundClosed(s)
                               then ToInt64(s.echoFail + 1) else s.echoFail)
  {
    hide ToInt64;
  }

  /** From a new client on, the two counters hold the numbers of successful and failed echoes, modulo 2^64. */
  lemma {:induction false} EchoesAreCounted(s: State, steps: seq<Step>, ok: nat, fail: nat)
    requires CanRun(s, steps) && s.echoOK == ToInt64(ok) && s.echoFail == ToInt64(fail)
    ensures Run(s, steps).echoOK == ToInt64(ok + Successes(steps))
    ensures Run(s, steps).echoFail == ToInt64(fail + Failures(s, steps))
    decreases |steps|
  {
    hide Enabled, Apply, ToInt64, FoundClosed;
    if steps != [] {
      EchoStep(s, steps[0]);
      Int64Successor(ok);
      Int64Successor(fail);
      var failed := steps[0] == EchoReturn(false) && !FoundClosed(s);
      EchoesAreCounted(Apply(s, steps[0]), steps[1..],
                       ok + (if steps[0] == EchoReturn(true) then 1 else 0), fail + if failed then 1 else 0);
    }
  }

  /**
    The ticker and the echo loop run until the client's context is cancelled, the listener until its input ends;
    and the client closes its connection only after it cancelled that context.
   */
  predicate RunUntilCancelled(s: State, ticks: bool, ended: bool) {
    && (s.echo.EchoExited? ==> CLIENT_CTX in s.done)
    && (ticks && s.ticker.TickerExited? ==> CLIENT_CTX in s.done)
    && (s.listener.ListenerExited? ==> ended)
    && (s.conn.Closed? ==> CLIENT_CTX in s.done)
  }

  /** No goroutine of a new client gives up early, whatever messages, errors and responses come. */
  lemma GoroutinesRun(ticks: bool, steps: seq<Step>)
    requires CanRun(Init(ticks), steps)
    ensures RunUntilCancelled(Run(Init(ticks), steps), ticks, ReceiveEnd in steps)
  {
    StillRunning(Init(ticks), steps, ticks, false);
  }

  lemma {:induction false} StillRunning(s: State, steps: seq<Step>, ticks: bool, ended: bool)
    requires CanRun(s, steps) && RunUntilCancelled(s, ticks, ended)
    ensures RunUntilCancelled(Run(s, steps), ticks, ended || ReceiveEnd in steps)
    decreases |steps|
  {
    hide Enabled, Apply;
    if steps != [] {
      var now := ended || steps[0] == ReceiveEnd;
      ExitStep(s, steps[0], ticks, ended);
      StillRunning(Apply(s, steps[0]), steps[1..], ticks, now);
      assert ReceiveEnd in steps <==> steps[0] == ReceiveEnd || ReceiveEnd in steps[1..];
    }
  }

  lemma ExitStep(s: State, step: Step, ticks: bool, ended: bool)
    requires Enabled(s, step) && RunUntilCancelled(s, ticks, ended)
    ensures RunUntilCancelled(Apply(s, step), ticks, ended || step == ReceiveEnd)
  {
    hide IdText, ToInt64;
  }

  // ---------------------------------------------------------------- what was in flight when the connection closed

  /** The messages that the listener took from the connection, in order. */
  function Received(steps: seq<Step>): seq<Incoming> {
    if steps == [] then []
    else (if steps[0].Receive? then [steps[0].msg] else []) + Received(steps[1..])
  }

  /** On a closed connection the listener takes what is left in it, message by message, in order. */
  lemma {:induction false} DrainsInOrder(s: State, steps: seq<Step>)
    requires s.conn.Closed? && CanRun(s, steps)
    ensures Run(s, steps).conn.Closed?
    ensures Received(steps) + Run(s, steps).conn.pending == s.conn.pending
    decreases |steps|
  {
    hide Enabled, Apply;
    if steps != [] {
      DrainStep(s, steps[0]);
      DrainsInOrder(Apply(s, steps[0]), steps[1..]);
    }
  }

  lemma DrainStep(s: State, step: Step)
    requires s.conn.Closed? && Enabled(s, step)
    ensures var s' := Apply(s, step);
            && s'.conn.Closed?
            && (if step.Receive? then [step.msg] else []) + s'.conn.pending == s.conn.pending
    ensures step == ReceiveEnd ==> s.conn.pending == []
  {
  }

  /** The listener of a closed client exits only after it took everything that was in flight when it was closed. */
  lemma TakesAllBeforeExit(s: State, pending: seq<Incoming>, steps: seq<Step>)
    requires CanRun(s, [CloseConn(pending)] + steps) && !s.listener.ListenerExited?
    ensures Received(steps) <= pending
    ensures Run(s, [CloseConn(pending)] + steps).listener.ListenerExited? ==> Received(steps) == pending
  {
    var all := [CloseConn(pending)] + steps;
    assert all[0] == CloseConn(pending) && all[1..] == steps;
    var s' := Apply(s, all[0]);
    assert s'.conn == Closed(pending) && s'.listener == s.listener;
    DrainsInOrder(s', steps);
    ExitMeansDrained(s', steps);
  }

  lemma {:induction false} ExitMeansDrained(s: State, steps: seq<Step>)
    requires s.conn.Closed? && CanRun(s, steps) && (s.listener.ListenerExited? ==> s.conn.pending == [])
    ensures Run(s, steps).conn.Closed?
    ensures Run(s, steps).listener.ListenerExited? ==> Run(s, steps).conn.pending == []
    decreases |steps|
  {
    hide Enabled, Apply;
    if steps != [] {
      DrainStep(s, steps[0]);
      ExitIsFinal(s, steps[0]);
      ExitMeansDrained(Apply(s, steps[0]), steps[1..]);
    }
  }

  lemma ExitIsFinal(s: State, step: Step)
    requires Enabled(s, step)
    ensures Apply(s, step).listener.ListenerExited? ==> s.listener.ListenerExited? || step == ReceiveEnd
    ensures s.listener.ListenerExited? ==> !step.Receive? && Apply(s, step).listener.ListenerExited?
  {
  }

  /** A tick that finds the echo loop waiting makes it send an echo, in the client's context, and the ticker goes on. */
  lemma TickSendsEcho(s: State, c: CallId)
    requires !s.panicked && s.ticker.TickerFired? && s.echo.EchoWaiting? && CLIENT_CTX !in s.done && c !in s.calls
    ensures CanRun(s, [TickerCheck, TickerHandOff, EchoCheck(c)])
    ensures var s' := Run(s, [TickerCheck, TickerHandOff, EchoCheck(c)]);
            && s'.ticker.TickerWaiting? && s'.echo == EchoCalling(c)
            && c in s'.calls && s'.calls[c] == Call(CLIENT_CTX, Entered, 0, 0, FRESH)
  {
    var steps := [TickerCheck, TickerHandOff, EchoCheck(c)];
    var s1 := s.(ticker := TickerHandingOff);
    var s2 := s.(ticker := TickerWaiting, echo := EchoTriggered);
    assert steps[1..] == [TickerHandOff, EchoCheck(c)] && steps[1..][1..] == [EchoCheck(c)];
    assert steps[1..][1..][1..] == [];
    assert Enabled(s, TickerCheck) && Apply(s, TickerCheck) == s1;
    assert Enabled(s1, TickerHandOff) && Apply(s1, TickerHandOff) == s2;
    var s3 := Apply(s2, EchoCheck(c));
    assert CanRun(s3, []) && Run(s3, []) == s3;
    assert CanRun(s2, [EchoCheck(c)]) && Run(s2, [EchoCheck(c)]) == s3;
    assert CanRun(s1, steps[1..]) && Run(s1, steps[1..]) == s3;
  }

  // ---------------------------------------------------------------- it works

  /** The state of a new client in which call 0 has got to the given point. */
  function InCall(ctx: CtxId, phase: Phase, num: uint32, ch: Channel, callbacks: map<string, CallId>,
                  listener: Listener, log: seq<(string, Response)>): State {
    Init(false).(rpcID := num, issued := num, callbacks := callbacks, listener := listener, log := log,
                 calls := map[0 := Call(ctx, phase, num, 0, ch)])
  }

  /** A call that sends its request and gets a response to its ID, 1. */
  function Exchange(ctx: CtxId, res: Response): seq<Step> {
    [StartCall(0, ctx), CheckCtx(0), TakeId(0), Register(0), SendOk(0),
     Receive(Message("1", res)), DispatchSend, SelectReceive(0), Cleanup(0)]
  }

  lemma FirstId()
    ensures IdText(1) == "1"
  {
  }

  lemma NoSteps(s: State) returns (steps: seq<Step>)
    ensures steps == [] && CanRun(s, steps) && Run(s, steps) == s
  {
    steps := [];
  }

  /** A run from the next state, with one more step in front. */
  lemma Before(s: State, step: Step, next: State, rest: seq<Step>) returns (steps: seq<Step>)
    requires Enabled(s, step) && Apply(s, step) == next && CanRun(next, rest)
    ensures steps == [step] + rest && CanRun(s, steps) && Run(s, steps) == Run(next, rest)
  {
    hide Enabled, Apply;
    steps := [step] + rest;
    assert steps[1..] == rest;
  }

  /** It returns exactly that response, and leaves no callback behind. */
  lemma AnswerArrives(ctx: CtxId, res: Response)
    ensures CanRun(Init(false), Exchange(ctx, res))
    ensures var s := Run(Init(false), Exchange(ctx, res));
            Has(s, 0, Returned(Answer(res))) && s.callbacks == map[] && s.log == [("1", res)]
  {
    hide Enabled, Apply, CanRun, Run, IdText;
    var cb := map["1" := 0];
    var full := Channel(Some(res), true, 1, 1);
    var empty := Channel(None, true, 1, 1);
    var log := [("1", res)];
    var s0 := Init(false);
    var s1 := InCall(ctx, Entered, 0, FRESH, map[], Receiving, []);
    var s2 := InCall(ctx, Checked, 0, FRESH, map[], Receiving, []);
    var s3 := InCall(ctx, Numbered, 1, FRESH, map[], Receiving, []);
    var s4 := InCall(ctx, Registered, 1, FRESH, cb, Receiving, []);
    var s5 := InCall(ctx, Waiting, 1, FRESH, cb, Receiving, []);
    var s6 := InCall(ctx, Waiting, 1, FRESH, cb, Dispatching("1", res), []);
    var s7 := InCall(ctx, Waiting, 1, full, map[], Receiving, log);
    var s8 := InCall(ctx, Leaving(Answer(res)), 1, empty, map[], Receiving, log);
    var s9 := InCall(ctx, Returned(Answer(res)), 1, empty, map[], Receiving, log);
    SendingSteps(ctx);
    AnsweringSteps(ctx, res);
    LeavingSteps(ctx, res);
    CleanupStep(ctx, res);
    var t9 := NoSteps(s9);
    var t8 := Before(s8, Cleanup(0), s9, t9);
    var t7 := Before(s7, SelectReceive(0), s8, t8);
    var t6 := Before(s6, DispatchSend, s7, t7);
    var t5 := Before(s5, Receive(Message("1", res)), s6, t6);
    var t4 := Before(s4, SendOk(0), s5, t5);
    var t3 := Before(s3, Register(0), s4, t4);
    var t2 := Before(s2, TakeId(0), s3, t3);
    var t1 := Before(s1, CheckCtx(0), s2, t2);
    var t0 := Before(s0, StartCall(0, ctx), s1, t1);
    assert t0 == Exchange(ctx, res);
  }

  lemma SendingSteps(ctx: CtxId)
    ensures Enabled(Init(false), StartCall(0, ctx))
    ensures Apply(Init(false), StartCall(0, ctx)) == InCall(ctx, Entered, 0, FRESH, map[], Receiving, [])
    ensures var s := InCall(ctx, Entered, 0, FRESH, map[], Receiving, []);
            Enabled(s, CheckCtx(0)) && Apply(s, CheckCtx(0)) == InCall(ctx, Checked, 0, FRESH, map[], Receiving, [])
    ensures var s := InCall(ctx, Checked, 0, FRESH, map[], Receiving, []);
            Enabled(s, TakeId(0)) && Apply(s, TakeId(0)) == InCall(ctx, Numbered, 1, FRESH, map[], Receiving, [])
  {
    hide IdText;
  }

  lemma AnsweringSteps(ctx: CtxId, res: Response)
    ensures var s := InCall(ctx, Numbered, 1, FRESH, map[], Receiving, []); var cb := map["1" := 0];
            Enabled(s, Register(0)) && Apply(s, Register(0)) == InCall(ctx, Registered, 1, FRESH, cb, Receiving, [])
    ensures var cb := map["1" := 0]; var s := InCall(ctx, Registered, 1, FRESH, cb, Receiving, []);
            Enabled(s, SendOk(0)) && Apply(s, SendOk(0)) == InCall(ctx, Waiting, 1, FRESH, cb, Receiving, [])
    ensures var cb := map["1" := 0]; var s := InCall(ctx, Waiting, 1, FRESH, cb, Receiving, []);
            var step := Receive(Message("1", res));
            Enabled(s, step) && Apply(s, step) == InCall(ctx, Waiting, 1, FRESH, cb, Dispatching("1", res), [])
  {
    hide IdText;
    FirstId();
  }

  lemma LeavingSteps(ctx: CtxId, res: Response)
    ensures var cb := map["1" := 0]; var s := InCall(ctx, Waiting, 1, FRESH, cb, Dispatching("1", res), []);
            && Enabled(s, DispatchSend)
            && Apply(s, DispatchSend) == InCall(ctx, Waiting, 1, Channel(Some(res), true, 1, 1), map[], Receiving, [("1", res)])
    ensures var s := InCall(ctx, Waiting, 1, Channel(Some(res), true, 1, 1), map[], Receiving, [("1", res)]);
            && Enabled(s, SelectReceive(0))
            && Apply(s, SelectReceive(0)) ==
               InCall(ctx, Leaving(Answer(res)), 1, Channel(None, true, 1, 1), map[], Receiving, [("1", res)])
  {
    hide IdText;
    FirstId();
    assert map["1" := 0] - {"1"} == map[];
  }

  lemma CleanupStep(ctx: CtxId, res: Response)
    ensures var s := InCall(ctx, Leaving(Answer(res)), 1, Channel(None, true, 1, 1), map[], Receiving, [("1", res)]);
            && Enabled(s, Cleanup(0))
            && Apply(s, Cleanup(0)) ==
               InCall(ctx, Returned(Answer(res)), 1, Channel(None, true, 1, 1), map[], Receiving, [("1", res)])
  {
    hide IdText;
  }
}
