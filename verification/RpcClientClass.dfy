/** The client object: the fields that `cbMu` and the atomic counter protect, and the sections that update them. */
module RpcClientClass {
  import opened Results
  import opened Bits
  import opened Text
  import opened RpcClient
  import opened RpcInvariant
  import opened RpcTheorems

  // Each method is one step of the state machine in `RpcClient`: the ghost argument `s` is the state
  // the fields show before the call, and the contract says that they show `Apply(s, step)` afterwards.

  ghost predicate Represents(rpcID: int64, callbacks: map<string, CallId>, channels: map<CallId, Channel>, s: State) {
    && rpcID == s.rpcID
    && callbacks == s.callbacks
    && channels.Keys == s.calls.Keys
    && forall c :: c in s.calls ==> channels[c] == s.calls[c].ch
  }

  /** A delivery drops the callback and leaves its channel closed, with or without the response. */
  lemma DeliveryRepresented(rpcID: int64, callbacks: map<string, CallId>, channels: map<CallId, Channel>,
                            s: State, step: Step)
    requires Represents(rpcID, callbacks, channels, s) && Inv(s)
    requires Enabled(s, step) && (step.DispatchSend? || step.DispatchCancelled?)
    ensures var c := callbacks[s.listener.id];
            var ch := if step.DispatchSend? then Channel(Some(s.listener.res), true, 1, 1)
                      else Channel(None, true, 0, 1);
            && !Apply(s, step).panicked
            && Represents(rpcID, callbacks - {s.listener.id}, channels[c := ch], Apply(s, step))
  {
    FoundChannelIsFresh(s);
    DeliveryEffect(s, step);
  }

  class Client {
    var rpcID: int64
    var callbacks: map<string, CallId>
    var channels: map<CallId, Channel>

    /** The fields are those of the client in state `s`. */
    ghost predicate Shows(s: State)
      reads this
    {
      Represents(rpcID, callbacks, channels, s)
    }

    constructor (ghost ticks: bool)
      ensures Shows(Init(ticks))
    {
      rpcID, callbacks, channels := 0, map[], map[];
    }

    method RequestID(ghost s: State, ghost c: CallId) returns (id: string)
      requires Shows(s) && Inv(s) && Enabled(s, TakeId(c))
      modifies this`rpcID
      ensures Shows(Apply(s, TakeId(c)))
      ensures id == IdText(Apply(s, TakeId(c)).calls[c].num)
    {
      Int64Successor(s.issued);
      rpcID := ToInt64(rpcID + 1);
      id := FormatInt(rpcID);
    }

    method AddCallback(ghost s: State, id: string, c: CallId)
      requires Shows(s) && Inv(s) && s.issued < 0x1_0000_0000_0000_0000
      requires Enabled(s, Register(c)) && id == IdText(s.calls[c].num)
      modifies this`callbacks
      ensures Shows(Apply(s, Register(c))) && !Apply(s, Register(c)).panicked
    {
      RegisterFindsIdFree(s, c);
      if id in callbacks {
        // The original panics here.
        assert false;
      }
      callbacks := callbacks[id := c];
    }

    /**
      `doCallback`, called by the listener for a message it has received. The guards of the inner
      `if` are the arms of the select; one of them always holds, so the section never blocks.
     */
    method DoCallback(ghost s: State, id: string, res: Response, cancelled: bool) returns (ghost step: Step)
      requires Shows(s) && Inv(s) && s.listener == Dispatching(id, res)
      requires id in s.callbacks ==> FoundCallback(s) && (cancelled <==> Target(s).ctx in s.done)
      modifies this`callbacks, this`channels
      ensures step.DispatchUnknown? || step.DispatchSend? || step.DispatchCancelled?
      ensures Enabled(s, step) && Shows(Apply(s, step)) && !Apply(s, step).panicked
    {
      if id !in callbacks {
        return DispatchUnknown;
      }
      FoundChannelIsFresh(s);
      var c := callbacks[id];
      var ch := channels[c];
      if {
        case cancelled =>
          step := DispatchCancelled;
        case ch.slot.None? =>
          ch := ch.(slot := Some(res), sends := ch.sends + 1);
          step := DispatchSend;
      }
      DeliveryRepresented(rpcID, callbacks, channels, s, step);
      callbacks := callbacks - {id};
      channels := channels[c := ch.(closed := true, closes := ch.closes + 1)];
    }

    /** The deferred function of `rpc`. */
    method RemoveCallback(ghost s: State, id: string, ghost c: CallId)
      requires Shows(s) && Enabled(s, Cleanup(c)) && id == IdText(s.calls[c].num)
      modifies this`callbacks
      ensures Shows(Apply(s, Cleanup(c)))
    {
      callbacks := callbacks - {id};
    }

    /** `Stats().Callbacks.Current`: the number of calls waiting for the first response to their ID. */
    method CurrentCallbacks(ghost s: State) returns (n: nat)
      requires Shows(s) && Inv(s)
      ensures n == |s.callbacks|
      ensures (forall c :: c in s.calls ==> s.calls[c].phase.Returned?) ==> n == 0
    {
      n := |callbacks|;
      if callbacks != map[] {
        CallbackImpliesActive(s);
      }
    }
  }
}
