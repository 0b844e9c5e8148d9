/** What the RPC multiplexer guarantees in every reachable state and over every run. */
module RpcTheorems {
  import opened Results
  import opened Bits
  import opened Text
  import opened RpcClient
  import opened RpcInvariant

  // ---------------------------------------------------------------- responses

  /**
    A call that hands back a server outcome hands back the first response that was processed for
    its own ID after it registered; and it never hands back nil without a response.
   */
  lemma AnswersAreFirst(s: State, c: CallId)
    requires Reachable(s) && c in s.calls
    requires s.calls[c].phase.Leaving? || s.calls[c].phase.Returned?
    ensures match s.calls[c].phase.outcome
            case Answer(r) => s.calls[c].num > 0 && FirstAnswer(s, s.calls[c]) == Some(r)
            case CtxErr => s.calls[c].ctx in s.done
            case SendErr(_) => true
            case NothingAtAll => false
  {
    ReachableInv(s);
    assert CallOk(s, c, s.calls[c]);
  }

  /**
    As long as a registered call has not been cleaned up, its callback is found exactly until the
    first response for its ID is processed; and once that happened the caller can wake up.
   */
  lemma FirstResponseFindsCallback(s: State, c: CallId)
    requires Reachable(s) && c in s.calls && Active(s.calls[c])
    ensures FirstAnswer(s, s.calls[c]).None? <==>
            (IdText(s.calls[c].num) in s.callbacks && s.callbacks[IdText(s.calls[c].num)] == c)
    ensures FirstAnswer(s, s.calls[c]).Some? && s.calls[c].phase.Waiting? ==> Enabled(s, SelectReceive(c))
  {
    ReachableInv(s);
    assert CallOk(s, c, s.calls[c]);
  }

  /**
    The response being dispatched reaches the call that owns its ID: after the send arm that call
    can receive exactly this response, and no other call's channel has changed.
   */
  lemma DeliveredToOwner(s: State)
    requires Reachable(s) && Enabled(s, DispatchSend)
    ensures var c := s.callbacks[s.listener.id]; var s' := Apply(s, DispatchSend);
            && c in s'.calls && s'.calls[c].ch.slot == Some(s.listener.res)
            && IdText(s'.calls[c].num) == s.listener.id
            && s.listener.id !in s'.callbacks
            && forall d :: d in s.calls && d != c ==> d in s'.calls && s'.calls[d] == s.calls[d]
  {
    ReachableInv(s);
    FoundChannelIsFresh(s);
    assert OwnerOk(s, s.listener.id);
  }

  // ---------------------------------------------------------------- channels

  /**
    No channel is sent to or closed twice, nothing panics, and `doCallback` always has an arm of its
    select to take, so `cbMu` is never held by a blocked goroutine.
   */
  lemma ChannelDiscipline(s: State)
    requires Reachable(s)
    ensures !s.panicked
    ensures forall c :: c in s.calls ==> s.calls[c].ch.sends <= 1 && s.calls[c].ch.closes <= 1
    ensures s.listener.Dispatching? ==> Enabled(s, DispatchUnknown) || Enabled(s, DispatchSend)
    ensures FoundCallback(s) ==> !Target(s).ch.closed
  {
    ReachableInv(s);
    forall c | c in s.calls
      ensures s.calls[c].ch.sends <= 1 && s.calls[c].ch.closes <= 1
    {
      assert CallOk(s, c, s.calls[c]);
    }
    if s.listener.Dispatching? && s.listener.id in s.callbacks {
      FoundChannelIsFresh(s);
    }
  }

  /** The closed-without-value branch of `rpc` is taken only when the call's context is done. */
  lemma ClosedEmptyMeansCancelled(s: State, c: CallId)
    requires Reachable(s) && Has(s, c, Waiting) && s.calls[c].ch.closed && s.calls[c].ch.slot.None?
    ensures s.calls[c].ctx in s.done
    ensures Enabled(s, SelectReceive(c)) && Has(Apply(s, SelectReceive(c)), c, Leaving(CtxErr))
  {
    ReachableInv(s);
    assert CallOk(s, c, s.calls[c]);
  }

  // ---------------------------------------------------------------- callbacks

  /** Each registered ID belongs to exactly one call, which has registered and not yet returned. */
  lemma CallbacksHaveOneOwner(s: State, id: string)
    requires Reachable(s) && id in s.callbacks
    ensures var c := s.callbacks[id];
            && c in s.calls && Active(s.calls[c]) && IdText(s.calls[c].num) == id
            && forall d :: d in s.calls && HasNumber(s.calls[d]) && IdText(s.calls[d].num) == id ==> d == c
  {
    ReachableInv(s);
    assert OwnerOk(s, id);
    var c := s.callbacks[id];
    assert CallOk(s, c, s.calls[c]);
    forall d | d in s.calls && HasNumber(s.calls[d]) && IdText(s.calls[d].num) == id
      ensures d == c
    {
      assert CallOk(s, d, s.calls[d]);
      if d != c {
        OtherIdsDiffer(s, c, d);
      }
    }
  }

  lemma CallbackImpliesActive(s: State)
    requires Inv(s) && s.callbacks != map[]
    ensures exists c :: c in s.calls && Active(s.calls[c])
  {
    var id :| id in s.callbacks;
    assert OwnerOk(s, id);
  }

  /** Once every call has returned, no callback is left: `Stats().Callbacks.Current` is 0. */
  lemma NoLeak(s: State)
    requires Reachable(s)
    requires forall c :: c in s.calls ==> s.calls[c].phase.Returned?
    ensures |s.callbacks| == 0
  {
    ReachableInv(s);
    if s.callbacks != map[] {
      CallbackImpliesActive(s);
    }
  }

  /** Registering never finds its ID taken. */
  lemma RegistrationNeverPanics(s: State, c: CallId)
    requires Reachable(s) && Enabled(s, Register(c))
    ensures !Apply(s, Register(c)).panicked
  {
    ReachableInv(s);
    RegisterFindsIdFree(s, c);
  }

  // ---------------------------------------------------------------- shutdown

  predicate ShuttingDown(s: State) {
    CLIENT_CTX in s.done && s.conn.Closed?
  }

  predicate AllExited(s: State) {
    s.listener.ListenerExited? && s.ticker.TickerExited? && s.echo.EchoExited?
  }

  /** A step of the listener, the ticker or the echo loop, the echo loop's own RPC included. */
  predicate BackgroundStep(s: State, step: Step) {
    match step
    case StartCall(_, _) => false
    case CancelCtx(_) => false
    case CloseConn(_) => false
    case CheckCtx(c) => s.echo == EchoCalling(c)
    case TakeId(c) => s.echo == EchoCalling(c)
    case Register(c) => s.echo == EchoCalling(c)
    case SendOk(c) => s.echo == EchoCalling(c)
    case SendFail(c, _) => s.echo == EchoCalling(c)
    case SelectDone(c) => s.echo == EchoCalling(c)
    case SelectReceive(c) => s.echo == EchoCalling(c)
    case Cleanup(c) => s.echo == EchoCalling(c)
    case _ => true
  }

  function PhaseRank(p: Phase): nat {
    match p
    case Entered => 7
    case Checked => 6
    case Numbered => 5
    case Registered => 4
    case Waiting => 3
    case Leaving(_) => 2
    case Returned(_) => 1
  }

  function ListenerRank(s: State): nat {
    var pending := if s.conn.Closed? then |s.conn.pending| else 0;
    match s.listener
    case ListenerExited => 0
    case Receiving => 2 * pending + 1
    case Dispatching(_, _) => 2 * pending + 2
    case HandingOff => 2 * pending + 2
  }

  function TickerRank(t: Ticker): nat {
    match t
    case TickerExited => 0
    case TickerFired => 1
    case TickerWaiting => 2
    case TickerHandingOff => 3
  }

  function EchoRank(s: State): nat {
    match s.echo
    case EchoExited => 0
    case EchoTriggered => 1
    case EchoWaiting => 2
    case EchoCalling(c) => 3 + if c in s.calls then PhaseRank(s.calls[c].phase) else 0
  }

  function Measure(s: State): nat {
    ListenerRank(s) + TickerRank(s.ticker) + EchoRank(s)
  }

  predicate StepOfCall(step: Step) {
    || step.CheckCtx? || step.TakeId? || step.Register? || step.SendOk? || step.SendFail?
    || step.SelectDone? || step.SelectReceive? || step.Cleanup?
  }

  predicate StepOfListener(step: Step) {
    || step.Receive? || step.ReceiveEnd? || step.DispatchUnknown? || step.DispatchSend?
    || step.DispatchCancelled? || step.HandOff? || step.HandOffCancelled?
  }

  /** A caller's step lowers the rank of its own phase and touches nothing else of the measure. */
  lemma CallStepRank(s: State, step: Step)
    requires Enabled(s, step) && StepOfCall(step) && !Apply(s, step).panicked
    ensures var s' := Apply(s, step);
            && s'.conn == s.conn && s'.listener == s.listener && s'.ticker == s.ticker && s'.echo == s.echo
            && step.call in s.calls && s'.calls.Keys == s.calls.Keys
            && PhaseRank(s'.calls[step.call].phase) < PhaseRank(s.calls[step.call].phase)
            && forall d :: d in s.calls && d != step.call ==> s'.calls[d] == s.calls[d]
  {
  }

  lemma CallStepMeasure(s: State, step: Step)
    requires Enabled(s, step) && StepOfCall(step) && !Apply(s, step).panicked && ShuttingDown(s)
    requires EchoOk(s)
    ensures BackgroundStep(s, step) <==> s.echo == EchoCalling(step.call)
    ensures BackgroundStep(s, step) ==> Measure(Apply(s, step)) < Measure(s)
    ensures !BackgroundStep(s, step) ==> Measure(Apply(s, step)) == Measure(s)
  {
    CallStepRank(s, step);
  }

  lemma ListenerStepMeasure(s: State, step: Step)
    requires Enabled(s, step) && StepOfListener(step) && ShuttingDown(s)
    requires !Apply(s, step).panicked && EchoOk(s)
    ensures Measure(Apply(s, step)) < Measure(s)
  {
    var s' := Apply(s, step);
    if step.DispatchSend? || step.DispatchCancelled? {
      assert forall d :: d in s.calls ==> d in s'.calls && s'.calls[d].phase == s.calls[d].phase;
    }
    assert !step.HandOff? ==> EchoRank(s') == EchoRank(s);
    assert ListenerRank(s') < ListenerRank(s);
  }

  lemma OtherStepMeasure(s: State, step: Step)
    requires Enabled(s, step) && !StepOfCall(step) && !StepOfListener(step) && ShuttingDown(s)
    requires EchoOk(s)
    ensures BackgroundStep(s, step) ==> Measure(Apply(s, step)) < Measure(s)
    ensures !BackgroundStep(s, step) ==> Measure(Apply(s, step)) == Measure(s)
  {
    assert ListenerRank(Apply(s, step)) == ListenerRank(s);
  }

  /** After cancel and close, every background step lowers the measure and every other step keeps it. */
  lemma ShutdownStep(s: State, step: Step)
    requires ShuttingDown(s) && Inv(s) && Enabled(s, step)
    requires Apply(s, step).issued < 0x1_0000_0000_0000_0000
    ensures ShuttingDown(Apply(s, step)) && Inv(Apply(s, step))
    ensures BackgroundStep(s, step) ==> Measure(Apply(s, step)) < Measure(s)
    ensures !BackgroundStep(s, step) ==> Measure(Apply(s, step)) == Measure(s)
  {
    hide CallOk, OwnerOk;
    StepKeepsInv(s, step);
    if StepOfCall(step) {
      CallStepMeasure(s, step);
    } else if StepOfListener(step) {
      ListenerStepMeasure(s, step);
    } else {
      OtherStepMeasure(s, step);
    }
  }

  function CountBackground(s: State, steps: seq<Step>): nat
    requires CanRun(s, steps)
    decreases |steps|
  {
    if steps == [] then 0
    else (if BackgroundStep(s, steps[0]) then 1 else 0) + CountBackground(Apply(s, steps[0]), steps[1..])
  }

  /** However callers interleave, the background goroutines take at most `Measure` steps after shutdown. */
  lemma {:induction false} ShutdownIsBounded(s: State, steps: seq<Step>)
    requires ShuttingDown(s) && Inv(s) && CanRun(s, steps)
    requires Run(s, steps).issued < 0x1_0000_0000_0000_0000
    ensures CountBackground(s, steps) + Measure(Run(s, steps)) <= Measure(s)
    decreases |steps|
  {
    if steps != [] {
      IssuedGrows(Apply(s, steps[0]), steps[1..]);
      ShutdownStep(s, steps[0]);
      ShutdownIsBounded(Apply(s, steps[0]), steps[1..]);
    }
  }

  /** A step the listener can take during shutdown. */
  function ListenerMove(s: State): Step
    requires s.conn.Closed?
  {
    match s.listener
    case Dispatching(id, _) => if id in s.callbacks then DispatchSend else DispatchUnknown
    case HandingOff => HandOffCancelled
    case _ => if s.conn.pending == [] then ReceiveEnd else Receive(s.conn.pending[0])
  }

  function TickerMove(s: State): Step {
    if s.ticker.TickerFired? then TickerCheck else TickerCancelled
  }

  function EchoMove(s: State, unused: CallId): Step {
    match s.echo
    case EchoTriggered => EchoCheck(unused)
    case EchoCalling(c) =>
      if c !in s.calls then EchoCancelled
      else (
        match s.calls[c].phase
        case Entered => CheckCtx(c)
        case Checked => TakeId(c)
        case Numbered => Register(c)
        case Registered => SendFail(c, true)
        case Waiting => SelectDone(c)
        case Leaving(_) => Cleanup(c)
        case Returned(_) => EchoReturn(false)
      )
    case _ => EchoCancelled
  }

  lemma ListenerProgress(s: State)
    requires ShuttingDown(s) && Inv(s) && !s.listener.ListenerExited?
    ensures Enabled(s, ListenerMove(s)) && BackgroundStep(s, ListenerMove(s))
  {
    hide CallOk, OwnerOk;
    if s.listener.Dispatching? && s.listener.id in s.callbacks {
      FoundChannelIsFresh(s);
    }
  }

  lemma TickerAndEchoProgress(s: State, unused: CallId)
    requires ShuttingDown(s) && !s.panicked && EchoOk(s) && unused !in s.calls
    ensures !s.ticker.TickerExited? ==> Enabled(s, TickerMove(s)) && BackgroundStep(s, TickerMove(s))
    ensures !s.echo.EchoExited? ==> Enabled(s, EchoMove(s, unused)) && BackgroundStep(s, EchoMove(s, unused))
  {
  }

  lemma ExitedMeansZero(s: State)
    requires s.conn.Closed?
    ensures AllExited(s) <==> Measure(s) == 0
  {
  }

  /** During shutdown no background goroutine is stuck: until it has exited, a step of its own is enabled. */
  lemma ShutdownProgress(s: State, unused: CallId)
    requires ShuttingDown(s) && Inv(s) && unused !in s.calls
    ensures !s.listener.ListenerExited? ==>
              Enabled(s, ListenerMove(s)) && BackgroundStep(s, ListenerMove(s))
    ensures !s.ticker.TickerExited? ==> Enabled(s, TickerMove(s)) && BackgroundStep(s, TickerMove(s))
    ensures !s.echo.EchoExited? ==> Enabled(s, EchoMove(s, unused)) && BackgroundStep(s, EchoMove(s, unused))
    ensures AllExited(s) <==> Measure(s) == 0
  {
    hide Enabled, BackgroundStep, Measure, AllExited, CallOk, OwnerOk;
    if !s.listener.ListenerExited? {
      ListenerProgress(s);
    }
    TickerAndEchoProgress(s, unused);
    ExitedMeansZero(s);
  }

  /**
    The wait of `Close` ends: a run from a reachable state after cancel and close that has taken
    `Measure` background steps has brought every background goroutine to its exit.
   */
  lemma CloseTerminates(s: State, steps: seq<Step>)
    requires Reachable(s) && ShuttingDown(s) && CanRun(s, steps)
    requires Run(s, steps).issued < 0x1_0000_0000_0000_0000
    ensures CountBackground(s, steps) <= Measure(s)
    ensures CountBackground(s, steps) == Measure(s) ==> AllExited(Run(s, steps))
  {
    ReachableInv(s);
    ShutdownIsBounded(s, steps);
  }
}
