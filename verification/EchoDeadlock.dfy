/** The mutual wait of the listener and the echo loop: a reachable deadlock that only a cancellation ends. */
module EchoDeadlock {
  import opened Results
  import opened Bits
  import opened Text
  import opened RpcClient
  import opened RpcInvariant
  import opened RpcTheorems

  // The listener hands an echo request over to the echo loop and waits until it takes it. The echo loop
  // waits for the response to its own echo, which only the listener can dispatch.

  /** A step of the echo loop, its own RPC included. */
  predicate StepOfEcho(s: State, step: Step) {
    || step.HandOff? || step.TickerHandOff? || step.EchoCancelled? || step.EchoCheck? || step.EchoReturn?
    || (StepOfCall(step) && s.echo == EchoCalling(step.call))
  }

  /** Neither the listener nor the echo loop can take a step. */
  ghost predicate Blocked(s: State) {
    forall step :: Enabled(s, step) ==> !StepOfListener(step) && !StepOfEcho(s, step)
  }

  /** Each waits for the other: a hand-off, and an echo whose response has not been dispatched. */
  predicate MutualWait(s: State) {
    && s.listener.HandingOff? && s.echo.EchoCalling? && CLIENT_CTX !in s.done
    && s.echo.call in s.calls
    && var call := s.calls[s.echo.call];
       call.phase.Waiting? && call.ctx == CLIENT_CTX && call.ch.slot.None? && !call.ch.closed
  }

  lemma WaitBlocks(s: State)
    requires MutualWait(s)
    ensures Blocked(s)
  {
  }

  /** A step that the echo loop or the listener can take when they do not wait for each other. */
  function FreeMove(s: State, unused: CallId): Step {
    match s.listener
    case Receiving => if s.conn.Closed? && s.conn.pending != [] then Receive(s.conn.pending[0]) else ReceiveEnd
    case Dispatching(id, _) => if id in s.callbacks then DispatchSend else DispatchUnknown
    case _ =>
      match s.echo
      case EchoWaiting => HandOff
      case EchoTriggered => EchoCheck(unused)
      case EchoCalling(c) =>
        if c !in s.calls then EchoCancelled
        else (
          match s.calls[c].phase
          case Entered => CheckCtx(c)
          case Checked => TakeId(c)
          case Numbered => Register(c)
          case Registered => SendFail(c, false)
          case Waiting => SelectReceive(c)
          case Leaving(_) => Cleanup(c)
          case Returned(_) => EchoReturn(false)
        )
      case EchoExited => EchoCancelled
  }

  lemma FreeMoves(s: State, unused: CallId)
    requires Inv(s) && CLIENT_CTX !in s.done && !s.listener.ListenerExited? && !s.echo.EchoExited?
    requires unused !in s.calls && !MutualWait(s)
    ensures var step := FreeMove(s, unused); Enabled(s, step) && (StepOfListener(step) || StepOfEcho(s, step))
  {
    hide CallOk, OwnerOk;
    if s.listener.Dispatching? && s.listener.id in s.callbacks {
      FoundChannelIsFresh(s);
    }
  }

  /**
    Before the client's context is cancelled, while both goroutines run: neither has a step exactly when the
    listener waits to hand an echo over and the echo loop waits for a response that was not dispatched.
   */
  lemma BlockedExactly(s: State)
    requires Reachable(s) && CLIENT_CTX !in s.done && !s.listener.ListenerExited? && !s.echo.EchoExited?
    ensures Blocked(s) <==> MutualWait(s)
  {
    hide Enabled, StepOfListener, StepOfEcho;
    ReachableInv(s);
    if MutualWait(s) {
      WaitBlocks(s);
    } else {
      var unused := FreshId(s.calls.Keys);
      FreeMoves(s, unused);
      assert Enabled(s, FreeMove(s, unused));
    }
  }

  lemma {:induction false} SomeFresh(ids: set<CallId>) returns (bound: CallId)
    ensures forall id :: id in ids ==> id < bound
    decreases |ids|
  {
    if ids == {} {
      bound := 0;
    } else {
      var id :| id in ids;
      var rest := SomeFresh(ids - {id});
      bound := if id < rest then rest else id + 1;
      assert forall x :: x in ids ==> x == id || x in ids - {id};
    }
  }

  ghost function FreshId(ids: set<CallId>): (id: CallId)
    ensures id !in ids
  {
    assert exists id: CallId :: id !in ids by {
      var bound := SomeFresh(ids);
      assert bound !in ids;
    }
    var id: CallId :| id !in ids;
    id
  }

  // ---------------------------------------------------------------- until cancelled

  /** No step of anybody ends the wait, except the cancellation of the client's context. */
  lemma WaitStays(s: State, step: Step)
    requires MutualWait(s) && Enabled(s, step) && step != CancelCtx(CLIENT_CTX)
    ensures MutualWait(Apply(s, step)) && !StepOfListener(step) && !StepOfEcho(s, step)
  {
  }

  predicate NeverCancelled(steps: seq<Step>) {
    forall i :: 0 <= i < |steps| ==> steps[i] != CancelCtx(CLIENT_CTX)
  }

  /** However the callers, the ticker and the server go on, the wait lasts. */
  lemma {:induction false} WaitLasts(s: State, steps: seq<Step>)
    requires MutualWait(s) && CanRun(s, steps) && NeverCancelled(steps)
    ensures MutualWait(Run(s, steps))
    decreases |steps|
  {
    if steps != [] {
      assert steps[0] != CancelCtx(CLIENT_CTX);
      WaitStays(s, steps[0]);
      assert forall i :: 0 <= i < |steps[1..]| ==> steps[1..][i] == steps[i + 1];
      WaitLasts(Apply(s, steps[0]), steps[1..]);
    }
  }

  /** The cancellation sets both goroutines free. */
  lemma CancelFrees(s: State)
    requires MutualWait(s) && !s.panicked
    ensures Enabled(s, CancelCtx(CLIENT_CTX))
    ensures var s' := Apply(s, CancelCtx(CLIENT_CTX));
            Enabled(s', HandOffCancelled) && Enabled(s', SelectDone(s'.echo.call))
  {
  }

  // ---------------------------------------------------------------- it happens

  /** The server asks for an echo, and for another one before it answers the first. */
  function TwoEchoes(): seq<Step> {
    [Receive(EchoRequest), HandOff, EchoCheck(0), CheckCtx(0), TakeId(0), Register(0), SendOk(0), Receive(EchoRequest)]
  }

  /** The state in which the echo call 0 has reached the given phase. */
  function Echoing(phase: Phase, num: uint32, callbacks: map<string, CallId>, listener: Listener): State {
    Init(false).(rpcID := num, issued := num, callbacks := callbacks, listener := listener,
                 echo := EchoCalling(0), calls := map[0 := Call(CLIENT_CTX, phase, num, 0, FRESH)])
  }

  /** Two echo requests in a row deadlock a new client without an echo interval. */
  lemma DeadlockIsReachable() returns (s: State)
    ensures CanRun(Init(false), TwoEchoes()) && s == Run(Init(false), TwoEchoes())
    ensures Reachable(s) && MutualWait(s)
  {
    hide IdText, Enabled, Apply, CanRun, Run;
    var s0 := Init(false);
    var cb := map[IdText(1) := 0];
    LastSteps(cb);
    FirstSteps();
    CallSteps();
    s := Echoing(Waiting, 1, cb, HandingOff);
    var t8 := NoSteps(s);
    var t7 := Before(Echoing(Waiting, 1, cb, Receiving), Receive(EchoRequest), t8);
    var t6 := Before(Echoing(Registered, 1, cb, Receiving), SendOk(0), t7);
    var t5 := Before(Echoing(Numbered, 1, map[], Receiving), Register(0), t6);
    var t4 := Before(Echoing(Checked, 0, map[], Receiving), TakeId(0), t5);
    var t3 := Before(Echoing(Entered, 0, map[], Receiving), CheckCtx(0), t4);
    var t2 := Before(s0.(echo := EchoTriggered), EchoCheck(0), t3);
    var t1 := Before(s0.(listener := HandingOff), HandOff, t2);
    var t0 := Before(s0, Receive(EchoRequest), t1);
    assert t0 == TwoEchoes();
  }

  lemma NoSteps(s: State) returns (steps: seq<Step>)
    ensures steps == [] && CanRun(s, steps) && Run(s, steps) == s
  {
    steps := [];
  }

  /** A run from the next state, with one more step in front. */
  lemma Before(s: State, step: Step, rest: seq<Step>) returns (steps: seq<Step>)
    requires Enabled(s, step) && CanRun(Apply(s, step), rest)
    ensures steps == [step] + rest && CanRun(s, steps) && Run(s, steps) == Run(Apply(s, step), rest)
  {
    hide Enabled, Apply;
    steps := [step] + rest;
    assert steps[1..] == rest;
  }

  lemma FirstSteps()
    ensures var s0 := Init(false);
            && Enabled(s0, Receive(EchoRequest))
            && Apply(s0, Receive(EchoRequest)) == s0.(listener := HandingOff)
    ensures var s1 := Init(false).(listener := HandingOff);
            Enabled(s1, HandOff) && Apply(s1, HandOff) == Init(false).(echo := EchoTriggered)
    ensures var s2 := Init(false).(echo := EchoTriggered);
            Enabled(s2, EchoCheck(0)) && Apply(s2, EchoCheck(0)) == Echoing(Entered, 0, map[], Receiving)
  {
    hide IdText;
  }

  lemma CallSteps()
    ensures var s3 := Echoing(Entered, 0, map[], Receiving);
            Enabled(s3, CheckCtx(0)) && Apply(s3, CheckCtx(0)) == Echoing(Checked, 0, map[], Receiving)
    ensures var s4 := Echoing(Checked, 0, map[], Receiving);
            Enabled(s4, TakeId(0)) && Apply(s4, TakeId(0)) == Echoing(Numbered, 1, map[], Receiving)
  {
    hide IdText;
  }

  lemma LastSteps(cb: map<string, CallId>)
    requires cb == map[IdText(1) := 0]
    ensures var s5 := Echoing(Numbered, 1, map[], Receiving);
            Enabled(s5, Register(0)) && Apply(s5, Register(0)) == Echoing(Registered, 1, cb, Receiving)
    ensures var s6 := Echoing(Registered, 1, cb, Receiving);
            Enabled(s6, SendOk(0)) && Apply(s6, SendOk(0)) == Echoing(Waiting, 1, cb, Receiving)
    ensures var s7 := Echoing(Waiting, 1, cb, Receiving);
            Enabled(s7, Receive(EchoRequest)) && Apply(s7, Receive(EchoRequest)) == Echoing(Waiting, 1, cb, HandingOff)
  {
    hide IdText;
  }
}
