/**
  The OVSDB client's RPC multiplexer as a state machine.

  Any number of callers run `rpc` at the same time; one listener dispatches responses; an echo loop
  and a ticker share the connection. Every section under `cbMu`, every atomic counter update,
  every channel operation and every socket operation is one step. The server is the environment:
  it may answer in any order, twice, never, or under an ID nobody used.
 */
module RpcClient {
  import opened Results
  import opened Bits
  import opened Text

  type CallId = nat
  type CtxId = nat

  /** The context that `New` creates for the background goroutines. */
  const CLIENT_CTX: CtxId := 0

  datatype Response = RpcResult(raw: string) | RpcError(text: string)

  /** What one call of `rpc` hands back. `NothingAtAll` is a nil error without any response. */
  datatype Outcome = Answer(res: Response) | CtxErr | SendErr(closed: bool) | NothingAtAll

  datatype Phase =
    | Entered
    | Checked
    | Numbered
    | Registered
    | Waiting
    | Leaving(outcome: Outcome)
    | Returned(outcome: Outcome)

  /** A response channel of capacity one, with the history of what was done to it. */
  datatype Channel = Channel(slot: Option<Response>, closed: bool, sends: nat, closes: nat)

  const FRESH: Channel := Channel(None, false, 0, 0)

  /**
    One invocation of `rpc`. `num` counts the request IDs drawn so far when this call drew its own
    (0 before that); `seen` is the number of responses processed when it registered.
   */
  datatype Call = Call(ctx: CtxId, phase: Phase, num: nat, seen: nat, ch: Channel)

  datatype Incoming = Message(id: string, res: Response) | EchoRequest | BadMessage

  datatype Conn = Open | Closed(pending: seq<Incoming>)

  datatype Listener = Receiving | Dispatching(id: string, res: Response) | HandingOff | ListenerExited

  datatype Ticker = TickerWaiting | TickerFired | TickerHandingOff | TickerExited

  datatype EchoLoop = EchoWaiting | EchoTriggered | EchoCalling(call: CallId) | EchoExited

  datatype State = State(
    rpcID: int64,
    issued: nat,
    callbacks: map<string, CallId>,
    calls: map<CallId, Call>,
    done: set<CtxId>,
    log: seq<(string, Response)>,
    conn: Conn,
    listener: Listener,
    ticker: Ticker,
    echo: EchoLoop,
    echoOK: int64,
    echoFail: int64,
    panicked: bool)

  datatype Step =
    // a caller inside rpc
    | StartCall(call: CallId, ctx: CtxId)
    | CheckCtx(call: CallId)
    | TakeId(call: CallId)
    | Register(call: CallId)
    | SendOk(call: CallId)
    | SendFail(call: CallId, closed: bool)
    | SelectDone(call: CallId)
    | SelectReceive(call: CallId)
    | Cleanup(call: CallId)
    // the outside world
    | CancelCtx(ctx: CtxId)
    | CloseConn(pending: seq<Incoming>)
    // the listener
    | Receive(msg: Incoming)
    | ReceiveEnd
    | DispatchUnknown
    | DispatchSend
    | DispatchCancelled
    | HandOff
    | HandOffCancelled
    // the ticker
    | Tick
    | TickerCheck
    | TickerCancelled
    | TickerHandOff
    // the echo loop
    | EchoCancelled
    | EchoCheck(call: CallId)
    | EchoReturn(ok: bool)

  /** The request ID drawn when the counter has been advanced `num` times: `FormatInt(rpcID, 10)`. */
  function IdText(num: nat): string {
    FormatInt(ToInt64(num))
  }

  predicate Has(s: State, c: CallId, p: Phase) {
    c in s.calls && s.calls[c].phase == p
  }

  /** The callback found for the message being dispatched. */
  predicate FoundCallback(s: State) {
    s.listener.Dispatching? && s.listener.id in s.callbacks && s.callbacks[s.listener.id] in s.calls
  }

  function Target(s: State): Call
    requires FoundCallback(s)
  {
    s.calls[s.callbacks[s.listener.id]]
  }

  // ---------------------------------------------------------------- when a step can be taken

  predicate Enabled(s: State, step: Step) {
    && !s.panicked
    && match step {
         case StartCall(c, _) => c !in s.calls
         case CheckCtx(c) => Has(s, c, Entered)
         case TakeId(c) => Has(s, c, Checked)
         case Register(c) => Has(s, c, Numbered)
         case SendOk(c) => Has(s, c, Registered) && s.conn.Open?
         case SendFail(c, closed) => Has(s, c, Registered) && (closed ==> s.conn.Closed?)
         case SelectDone(c) => Has(s, c, Waiting) && s.calls[c].ctx in s.done
         case SelectReceive(c) => Has(s, c, Waiting) && (s.calls[c].ch.slot.Some? || s.calls[c].ch.closed)
         case Cleanup(c) => c in s.calls && s.calls[c].phase.Leaving?
         case CancelCtx(_) => true
         case CloseConn(_) => s.conn.Open? && CLIENT_CTX in s.done
         case Receive(m) =>
           s.listener.Receiving? && (s.conn.Closed? ==> s.conn.pending != [] && s.conn.pending[0] == m)
         case ReceiveEnd => s.listener.Receiving? && (s.conn.Closed? ==> s.conn.pending == [])
         case DispatchUnknown => s.listener.Dispatching? && s.listener.id !in s.callbacks
         case DispatchSend => FoundCallback(s) && (Target(s).ch.slot.None? || Target(s).ch.closed)
         case DispatchCancelled => FoundCallback(s) && Target(s).ctx in s.done
         case HandOff => s.listener.HandingOff? && s.echo.EchoWaiting?
         case HandOffCancelled => s.listener.HandingOff? && CLIENT_CTX in s.done
         case Tick => s.ticker.TickerWaiting?
         case TickerCheck => s.ticker.TickerFired?
         case TickerCancelled => (s.ticker.TickerWaiting? || s.ticker.TickerHandingOff?) && CLIENT_CTX in s.done
         case TickerHandOff => s.ticker.TickerHandingOff? && s.echo.EchoWaiting?
         case EchoCancelled => s.echo.EchoWaiting? && CLIENT_CTX in s.done
         case EchoCheck(c) => s.echo.EchoTriggered? && c !in s.calls
         case EchoReturn(ok) =>
           && s.echo.EchoCalling? && s.echo.call in s.calls && s.calls[s.echo.call].phase.Returned?
           && (ok ==> s.calls[s.echo.call].phase.outcome.Answer?)
       }
  }

  // ---------------------------------------------------------------- what a step does

  function MoveTo(s: State, c: CallId, p: Phase): State
    requires c in s.calls
  {
    s.(calls := s.calls[c := s.calls[c].(phase := p)])
  }

  /** `addCallback`: a second registration of an ID panics. */
  function AddCallback(s: State, c: CallId): State
    requires c in s.calls
  {
    var id := IdText(s.calls[c].num);
    if id in s.callbacks then s.(panicked := true)
    else
      s.(callbacks := s.callbacks[id := c],
         calls := s.calls[c := s.calls[c].(phase := Registered, seen := |s.log|)])
  }

  /** The select of `rpc` takes its channel arm. */
  function ReceiveFromChannel(s: State, c: CallId): State
    requires c in s.calls
  {
    var call := s.calls[c];
    if call.ch.slot.Some? then
      s.(calls := s.calls[c := call.(phase := Leaving(Answer(call.ch.slot.value)), ch := call.ch.(slot := None))])
    else
      // The channel is closed and empty: rpc returns ctx.Err().
      MoveTo(s, c, Leaving(if call.ctx in s.done then CtxErr else NothingAtAll))
  }

  /** The rest of `doCallback` once an arm of its select was taken: close the channel, drop the callback. */
  function FinishCallback(s: State, ch: Channel): State
    requires FoundCallback(s)
  {
    var id, c := s.listener.id, s.callbacks[s.listener.id];
    if ch.closed then s.(panicked := true)
    else
      s.(callbacks := s.callbacks - {id},
         calls := s.calls[c := s.calls[c].(ch := ch.(closed := true, closes := ch.closes + 1))],
         log := s.log + [(id, s.listener.res)],
         listener := Receiving)
  }

  function SendToChannel(s: State): State
    requires FoundCallback(s)
  {
    var ch := Target(s).ch;
    // Go panics on a send to a closed channel.
    if ch.closed then s.(panicked := true)
    else FinishCallback(s, ch.(slot := Some(s.listener.res), sends := ch.sends + 1))
  }

  function Apply(s: State, step: Step): State
    requires Enabled(s, step)
  {
    match step
    case StartCall(c, ctx) => s.(calls := s.calls[c := Call(ctx, Entered, 0, 0, FRESH)])
    case CheckCtx(c) => MoveTo(s, c, if s.calls[c].ctx in s.done then Returned(CtxErr) else Checked)
    case TakeId(c) =>
      var num := s.issued + 1;
      s.(rpcID := ToInt64(s.rpcID + 1), issued := num,
         calls := s.calls[c := s.calls[c].(phase := Numbered, num := num)])
    case Register(c) => AddCallback(s, c)
    case SendOk(c) => MoveTo(s, c, Waiting)
    case SendFail(c, closed) => MoveTo(s, c, Leaving(SendErr(closed)))
    case SelectDone(c) => MoveTo(s, c, Leaving(CtxErr))
    case SelectReceive(c) => ReceiveFromChannel(s, c)
    case Cleanup(c) =>
      var call := s.calls[c];
      s.(callbacks := s.callbacks - {IdText(call.num)},
         calls := s.calls[c := call.(phase := Returned(call.phase.outcome))])
    case CancelCtx(x) => s.(done := s.done + {x})
    case CloseConn(pending) => s.(conn := Closed(pending))
    case Receive(m) =>
      var s1 := if s.conn.Closed? then s.(conn := Closed(s.conn.pending[1..])) else s;
      match m {
        case Message(id, res) => s1.(listener := Dispatching(id, res))
        case EchoRequest => s1.(listener := HandingOff)
        case BadMessage => s1
      }
    case ReceiveEnd => s.(listener := ListenerExited)
    case DispatchUnknown =>
      s.(log := s.log + [(s.listener.id, s.listener.res)], listener := Receiving)
    case DispatchSend => SendToChannel(s)
    case DispatchCancelled => FinishCallback(s, Target(s).ch)
    case HandOff => s.(listener := Receiving, echo := EchoTriggered)
    case HandOffCancelled => s.(listener := Receiving)
    case Tick => s.(ticker := TickerFired)
    case TickerCheck => s.(ticker := if CLIENT_CTX in s.done then TickerExited else TickerHandingOff)
    case TickerCancelled => s.(ticker := TickerExited)
    case TickerHandOff => s.(ticker := TickerWaiting, echo := EchoTriggered)
    case EchoCancelled => s.(echo := EchoExited)
    case EchoCheck(c) =>
      if CLIENT_CTX in s.done then s.(echo := EchoExited)
      else s.(echo := EchoCalling(c), calls := s.calls[c := Call(CLIENT_CTX, Entered, 0, 0, FRESH)])
    case EchoReturn(ok) =>
      var s1 := s.(echo := EchoWaiting);
      if ok then s1.(echoOK := ToInt64(s.echoOK + 1))
      else if s.calls[s.echo.call].phase.outcome == SendErr(true) then s1
      else s1.(echoFail := ToInt64(s.echoFail + 1))
  }

  /** `New`: no calls yet; the ticker runs only if an echo interval was configured. */
  function Init(ticks: bool): State {
    State(0, 0, map[], map[], {}, [], Open, Receiving,
          if ticks then TickerWaiting else TickerExited, EchoWaiting, 0, 0, false)
  }

  // ---------------------------------------------------------------- runs

  /** The steps can be taken one after the other from `s`. */
  predicate CanRun(s: State, steps: seq<Step>)
    decreases |steps|
  {
    steps == [] || (Enabled(s, steps[0]) && CanRun(Apply(s, steps[0]), steps[1..]))
  }

  function Run(s: State, steps: seq<Step>): State
    requires CanRun(s, steps)
    decreases |steps|
  {
    if steps == [] then s else Run(Apply(s, steps[0]), steps[1..])
  }

  /** `s` can come about, from a new client, through some interleaving that drew fewer than 2^64 IDs. */
  ghost predicate Reachable(s: State) {
    s.issued < 0x1_0000_0000_0000_0000 &&
    exists ticks, steps :: CanRun(Init(ticks), steps) && Run(Init(ticks), steps) == s
  }

  // ---------------------------------------------------------------- the invariant

  /** The first response for `id` in a log. */
  function FirstFor(log: seq<(string, Response)>, id: string): Option<Response> {
    if log == [] then None
    else if log[0].0 == id then Some(log[0].1)
    else FirstFor(log[1..], id)
  }

  /** The first response for this call's ID processed since the call registered. */
  function FirstAnswer(s: State, call: Call): Option<Response> {
    if call.seen <= |s.log| then FirstFor(s.log[call.seen..], IdText(call.num)) else None
  }

  /** The call has registered its callback and its deferred clean-up has not run. */
  predicate Active(call: Call) {
    call.phase.Registered? || call.phase.Waiting? || call.phase.Leaving?
  }

  predicate HasNumber(call: Call) {
    call.phase.Numbered? || Active(call) || (call.phase.Returned? && call.num > 0)
  }

  predicate ChannelOk(s: State, call: Call) {
    var first := FirstAnswer(s, call);
    if first.None? then call.ch == FRESH
    else
      && call.ch.closed && call.ch.closes == 1
      && (|| (call.ch.sends == 1 && call.ch.slot == first)
          || (call.ch.sends == 1 && call.ch.slot == None && !call.phase.Registered? && !call.phase.Waiting?)
          || (call.ch.sends == 0 && call.ch.slot == None && call.ctx in s.done))
  }

  predicate OutcomeOk(s: State, call: Call) {
    call.phase.Leaving? || call.phase.Returned? ==>
      match call.phase.outcome
      case Answer(r) => call.num > 0 && FirstAnswer(s, call) == Some(r)
      case CtxErr => call.ctx in s.done
      case SendErr(_) => true
      case NothingAtAll => false
  }

  predicate CallOk(s: State, c: CallId, call: Call) {
    var id := IdText(call.num);
    && call.num <= s.issued && call.seen <= |s.log|
    && (HasNumber(call) <==> call.num > 0)
    && (Active(call) ==> (id in s.callbacks <==> FirstAnswer(s, call).None?))
    && (Active(call) && id in s.callbacks ==> s.callbacks[id] == c)
    && (Active(call) ==> ChannelOk(s, call))
    && (!Active(call) && !call.phase.Returned? ==> call.ch == FRESH)
    && call.ch.sends <= 1 && call.ch.closes <= 1
    && OutcomeOk(s, call)
  }

  /** A registered ID belongs to an active call that drew it. */
  predicate OwnerOk(s: State, id: string) {
    && id in s.callbacks && s.callbacks[id] in s.calls
    && Active(s.calls[s.callbacks[id]])
    && IdText(s.calls[s.callbacks[id]].num) == id
  }

  ghost predicate Inv(s: State) {
    && !s.panicked
    && s.rpcID == ToInt64(s.issued)
    && (forall c :: c in s.calls ==> CallOk(s, c, s.calls[c]))
    && (forall c, d :: c in s.calls && d in s.calls && c != d && s.calls[c].num > 0
          ==> s.calls[c].num != s.calls[d].num)
    && (forall id :: id in s.callbacks ==> OwnerOk(s, id))
    && (s.echo.EchoCalling? ==> s.echo.call in s.calls && s.calls[s.echo.call].ctx == CLIENT_CTX)
  }
}
