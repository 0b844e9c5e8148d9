/** Every step of the RPC multiplexer keeps the invariant, so every reachable state has it. */
module RpcInvariant {
  import opened Results
  import opened Bits
  import opened Text
  import opened RpcClient

  // ---------------------------------------------------------------- request IDs

  /** The first 2^64 - 1 request IDs are distinct texts, even past the wrap of the 64-bit counter. */
  lemma IdsDistinct(m: nat, n: nat)
    requires 0 < m < 0x1_0000_0000_0000_0000 && 0 < n < 0x1_0000_0000_0000_0000
    requires IdText(m) == IdText(n)
    ensures m == n
  {
    hide FormatInt, ToInt64;
    FormatIntInjective(ToInt64(m), ToInt64(n));
    CounterInjective(m, n);
  }

  lemma CounterInjective(m: nat, n: nat)
    requires 0 < m < 0x1_0000_0000_0000_0000 && 0 < n < 0x1_0000_0000_0000_0000
    requires ToInt64(m) == ToInt64(n)
    ensures m == n
  {
  }

  /** Two calls that have drawn their IDs have drawn different ones. */
  lemma OtherIdsDiffer(s: State, c: CallId, d: CallId)
    requires Inv(s) && s.issued < 0x1_0000_0000_0000_0000
    requires c in s.calls && d in s.calls && c != d && s.calls[c].num > 0 && s.calls[d].num > 0
    ensures IdText(s.calls[c].num) != IdText(s.calls[d].num)
  {
    assert CallOk(s, c, s.calls[c]) && CallOk(s, d, s.calls[d]);
    if IdText(s.calls[c].num) == IdText(s.calls[d].num) {
      IdsDistinct(s.calls[c].num, s.calls[d].num);
    }
  }

  // ---------------------------------------------------------------- the log of processed responses

  lemma {:induction false} FirstForAppend(log: seq<(string, Response)>, entry: (string, Response), id: string)
    ensures FirstFor(log + [entry], id) ==
            if FirstFor(log, id).Some? then FirstFor(log, id)
            else if entry.0 == id then Some(entry.1)
            else None
  {
    var all := log + [entry];
    if log != [] {
      assert all[1..] == log[1..] + [entry];
      FirstForAppend(log[1..], entry, id);
    } else {
      assert all[1..] == [];
    }
  }

  lemma FirstAnswerAppend(s: State, s': State, call: Call, entry: (string, Response))
    requires call.seen <= |s.log| && s'.log == s.log + [entry]
    ensures FirstAnswer(s', call) ==
            if FirstAnswer(s, call).Some? then FirstAnswer(s, call)
            else if entry.0 == IdText(call.num) then Some(entry.1)
            else None
  {
    assert s'.log[call.seen..] == s.log[call.seen..] + [entry];
    FirstForAppend(s.log[call.seen..], entry, IdText(call.num));
  }

  // ---------------------------------------------------------------- frames

  /** Nothing a call's condition depends on has changed, except that contexts may have been cancelled. */
  predicate SameShared(s: State, s': State) {
    && s'.callbacks == s.callbacks && s'.log == s.log
    && s.done <= s'.done
    && s.issued <= s'.issued && s'.rpcID == ToInt64(s'.issued)
    && !s'.panicked
  }

  lemma CallFrame(s: State, s': State, c: CallId, call: Call)
    requires SameShared(s, s') && CallOk(s, c, call)
    ensures CallOk(s', c, call)
  {
    assert FirstAnswer(s', call) == FirstAnswer(s, call);
  }

  predicate EchoOk(s: State) {
    s.echo.EchoCalling? ==> s.echo.call in s.calls && s.calls[s.echo.call].ctx == CLIENT_CTX
  }

  /** One call moves on; callbacks and log stay. */
  lemma CallMoves(s: State, s': State, c: CallId, call: Call)
    requires Inv(s) && SameShared(s, s') && EchoOk(s')
    requires s'.calls == s.calls[c := call] && CallOk(s', c, call)
    requires call.num > 0 ==> (c in s.calls && call.num == s.calls[c].num) || call.num > s.issued
    requires c in s.calls && Active(s.calls[c]) ==> Active(call) && call.num == s.calls[c].num
    ensures Inv(s')
  {
    forall d | d in s'.calls
      ensures CallOk(s', d, s'.calls[d])
    {
      if d != c {
        CallFrame(s, s', d, s.calls[d]);
      }
    }
    forall d, e | d in s'.calls && e in s'.calls && d != e && s'.calls[d].num > 0
      ensures s'.calls[d].num != s'.calls[e].num
    {
      assert d != c ==> CallOk(s, d, s.calls[d]);
      assert e != c ==> CallOk(s, e, s.calls[e]);
    }
    forall id | id in s'.callbacks
      ensures OwnerOk(s', id)
    {
      assert OwnerOk(s, id);
    }
  }

  /** No call moves; callbacks and log stay. */
  lemma NoCallMoves(s: State, s': State)
    requires Inv(s) && SameShared(s, s') && EchoOk(s') && s'.calls == s.calls
    ensures Inv(s')
  {
    forall d | d in s'.calls
      ensures CallOk(s', d, s'.calls[d])
    {
      CallFrame(s, s', d, s.calls[d]);
    }
    forall id | id in s'.callbacks
      ensures OwnerOk(s', id)
    {
      assert OwnerOk(s, id);
    }
  }

  // ---------------------------------------------------------------- the steps of a caller

  lemma EntryStepKeepsInv(s: State, step: Step)
    requires Inv(s) && Enabled(s, step) && (step.StartCall? || step.CheckCtx?)
    ensures Inv(Apply(s, step))
  {
    var s' := Apply(s, step);
    var c := step.call;
    if c in s.calls {
      assert CallOk(s, c, s.calls[c]);
    }
    CallMoves(s, s', c, s'.calls[c]);
  }

  lemma TakeIdKeepsInv(s: State, c: CallId)
    requires Inv(s) && Enabled(s, TakeId(c))
    ensures Inv(Apply(s, TakeId(c)))
  {
    var s' := Apply(s, TakeId(c));
    Int64Successor(s.issued);
    assert CallOk(s, c, s.calls[c]);
    CallMoves(s, s', c, s'.calls[c]);
  }

  lemma SendStepKeepsInv(s: State, step: Step)
    requires Inv(s) && Enabled(s, step) && (step.SendOk? || step.SendFail? || step.SelectDone?)
    ensures Inv(Apply(s, step))
  {
    var s' := Apply(s, step);
    var c := step.call;
    var call := s'.calls[c];
    assert CallOk(s, c, s.calls[c]);
    assert FirstAnswer(s', call) == FirstAnswer(s, s.calls[c]);
    CallMoves(s, s', c, call);
  }

  lemma ReceiveStepKeepsInv(s: State, c: CallId)
    requires Inv(s) && Enabled(s, SelectReceive(c))
    ensures Inv(Apply(s, SelectReceive(c)))
  {
    var s' := Apply(s, SelectReceive(c));
    var call := s'.calls[c];
    assert CallOk(s, c, s.calls[c]);
    assert FirstAnswer(s', call) == FirstAnswer(s, s.calls[c]);
    CallMoves(s, s', c, call);
  }

  /** Registration finds its ID free: the duplicate-ID panic cannot happen. */
  lemma RegisterFindsIdFree(s: State, c: CallId)
    requires Inv(s) && s.issued < 0x1_0000_0000_0000_0000 && Has(s, c, Numbered)
    ensures IdText(s.calls[c].num) !in s.callbacks
  {
    var id := IdText(s.calls[c].num);
    assert CallOk(s, c, s.calls[c]);
    if id in s.callbacks {
      assert OwnerOk(s, id);
      var d := s.callbacks[id];
      assert CallOk(s, d, s.calls[d]);
      OtherIdsDiffer(s, c, d);
    }
  }

  lemma RegisterEffect(s: State, c: CallId)
    requires Enabled(s, Register(c)) && IdText(s.calls[c].num) !in s.callbacks
    ensures Apply(s, Register(c)) ==
            s.(callbacks := s.callbacks[IdText(s.calls[c].num) := c],
               calls := s.calls[c := s.calls[c].(phase := Registered, seen := |s.log|)])
  {
    hide IdText;
  }

  /** The call that registers has seen the whole log, and owns its ID. */
  lemma RegisteredCallOk(s: State, s': State, c: CallId)
    requires c in s.calls && CallOk(s, c, s.calls[c]) && s.calls[c].phase.Numbered?
    requires s' == s.(callbacks := s.callbacks[IdText(s.calls[c].num) := c],
                      calls := s.calls[c := s.calls[c].(phase := Registered, seen := |s.log|)])
    ensures CallOk(s', c, s'.calls[c])
  {
    hide IdText;
    assert s.log[|s.log|..] == [];
  }

  /** A call with another ID does not notice that `id` is registered or removed. */
  lemma OtherCallOk(s: State, s': State, id: string, d: CallId, call: Call)
    requires CallOk(s, d, call) && (call.num > 0 ==> IdText(call.num) != id)
    requires s'.issued == s.issued && s'.log == s.log && s'.done == s.done
    requires forall i :: i != id ==> (i in s'.callbacks <==> i in s.callbacks)
    requires forall i :: i != id && i in s.callbacks ==> s'.callbacks[i] == s.callbacks[i]
    ensures CallOk(s', d, call)
  {
    hide IdText;
    assert FirstAnswer(s', call) == FirstAnswer(s, call);
  }

  lemma RegisterKeepsInv(s: State, c: CallId)
    requires Inv(s) && s.issued < 0x1_0000_0000_0000_0000 && Enabled(s, Register(c))
    ensures Inv(Apply(s, Register(c)))
  {
    hide IdText, Apply, CallOk;
    RegisterFindsIdFree(s, c);
    RegisterEffect(s, c);
    var s' := Apply(s, Register(c));
    var id := IdText(s.calls[c].num);
    forall d | d in s'.calls
      ensures CallOk(s', d, s'.calls[d])
    {
      assert CallOk(s, d, s.calls[d]) && CallOk(s, c, s.calls[c]);
      if d == c {
        RegisteredCallOk(s, s', c);
      } else {
        OtherId(s, c, d);
        OtherCallOk(s, s', id, d, s.calls[d]);
      }
    }
    forall i | i in s'.callbacks
      ensures OwnerOk(s', i)
    {
      if i != id {
        assert OwnerOk(s, i);
      }
    }
  }

  lemma OtherId(s: State, c: CallId, d: CallId)
    requires Inv(s) && s.issued < 0x1_0000_0000_0000_0000
    requires c in s.calls && d in s.calls && c != d && HasNumber(s.calls[c])
    ensures s.calls[d].num > 0 ==> IdText(s.calls[d].num) != IdText(s.calls[c].num)
  {
    hide IdText;
    assert CallOk(s, c, s.calls[c]);
    if s.calls[d].num > 0 {
      OtherIdsDiffer(s, c, d);
    }
  }

  lemma CleanedCallOk(s: State, s': State, c: CallId)
    requires c in s.calls && CallOk(s, c, s.calls[c]) && s.calls[c].phase.Leaving?
    requires s' == s.(callbacks := s.callbacks - {IdText(s.calls[c].num)},
                      calls := s.calls[c := s.calls[c].(phase := Returned(s.calls[c].phase.outcome))])
    ensures CallOk(s', c, s'.calls[c])
  {
    hide IdText;
    assert FirstAnswer(s', s'.calls[c]) == FirstAnswer(s, s.calls[c]);
  }

  lemma CleanupKeepsInv(s: State, c: CallId)
    requires Inv(s) && s.issued < 0x1_0000_0000_0000_0000 && Enabled(s, Cleanup(c))
    ensures Inv(Apply(s, Cleanup(c)))
  {
    hide IdText, CallOk;
    var s' := Apply(s, Cleanup(c));
    var id := IdText(s.calls[c].num);
    forall d | d in s'.calls
      ensures CallOk(s', d, s'.calls[d])
    {
      assert CallOk(s, d, s.calls[d]) && CallOk(s, c, s.calls[c]);
      if d == c {
        CleanedCallOk(s, s', c);
      } else {
        OtherId(s, c, d);
        OtherCallOk(s, s', id, d, s.calls[d]);
      }
    }
    forall i | i in s'.callbacks
      ensures OwnerOk(s', i)
    {
      assert OwnerOk(s, i);
    }
  }

  // ---------------------------------------------------------------- the steps of the listener

  /** A response nobody waits for changes nothing but the log. */
  lemma UnknownKeepsInv(s: State)
    requires Inv(s) && Enabled(s, DispatchUnknown)
    ensures Inv(Apply(s, DispatchUnknown))
  {
    var s' := Apply(s, DispatchUnknown);
    var entry := (s.listener.id, s.listener.res);
    forall d | d in s'.calls
      ensures CallOk(s', d, s'.calls[d])
    {
      assert CallOk(s, d, s.calls[d]);
      FirstAnswerAppend(s, s', s.calls[d], entry);
    }
    forall i | i in s'.callbacks
      ensures OwnerOk(s', i)
    {
      assert OwnerOk(s, i);
    }
  }

  /** The callback found for a message has a fresh channel: both arms of the select are safe to take. */
  lemma FoundChannelIsFresh(s: State)
    requires Inv(s) && s.listener.Dispatching? && s.listener.id in s.callbacks
    ensures FoundCallback(s) && Target(s).ch == FRESH
  {
    assert OwnerOk(s, s.listener.id);
    var c := s.callbacks[s.listener.id];
    assert CallOk(s, c, s.calls[c]);
  }

  /** What the delivery of a response does to the condition of call `d`. */
  lemma DeliveryKeepsCall(s: State, step: Step, d: CallId)
    requires Inv(s) && s.issued < 0x1_0000_0000_0000_0000 && d in s.calls
    requires Enabled(s, step) && (step.DispatchSend? || step.DispatchCancelled?)
    ensures d in Apply(s, step).calls && CallOk(Apply(s, step), d, Apply(s, step).calls[d])
  {
    FoundChannelIsFresh(s);
    var s' := Apply(s, step);
    var id := s.listener.id;
    var c := s.callbacks[id];
    assert OwnerOk(s, id) && CallOk(s, c, s.calls[c]) && CallOk(s, d, s.calls[d]);
    FirstAnswerAppend(s, s', s.calls[d], (id, s.listener.res));
    assert FirstAnswer(s', s'.calls[d]) == FirstAnswer(s', s.calls[d]);
    if d != c && s.calls[d].num > 0 {
      OtherIdsDiffer(s, c, d);
    }
  }

  /** The whole effect of `doCallback` on the shared fields. */
  lemma DeliveryEffect(s: State, step: Step)
    requires Inv(s) && Enabled(s, step) && (step.DispatchSend? || step.DispatchCancelled?)
    ensures var s' := Apply(s, step); var c := s.callbacks[s.listener.id];
            && !s'.panicked && s'.rpcID == s.rpcID
            && s'.callbacks == s.callbacks - {s.listener.id}
            && s'.calls == s.calls[c := s.calls[c].(ch :=
                 if step.DispatchSend? then Channel(Some(s.listener.res), true, 1, 1)
                 else Channel(None, true, 0, 1))]
  {
    hide CallOk, OwnerOk, IdText, FirstFor;
    FoundChannelIsFresh(s);
    hide Inv;
  }

  lemma DeliveryKeepsInv(s: State, step: Step)
    requires Inv(s) && s.issued < 0x1_0000_0000_0000_0000
    requires Enabled(s, step) && (step.DispatchSend? || step.DispatchCancelled?)
    ensures Inv(Apply(s, step))
  {
    FoundChannelIsFresh(s);
    var s' := Apply(s, step);
    assert OwnerOk(s, s.listener.id);
    forall d | d in s'.calls
      ensures CallOk(s', d, s'.calls[d])
    {
      DeliveryKeepsCall(s, step, d);
    }
    forall i | i in s'.callbacks
      ensures OwnerOk(s', i)
    {
      assert OwnerOk(s, i);
    }
  }

  // ---------------------------------------------------------------- every step, every run

  predicate QuietStep(step: Step) {
    || step.CancelCtx? || step.CloseConn? || step.Receive? || step.ReceiveEnd?
    || step.HandOff? || step.HandOffCancelled? || step.Tick? || step.TickerCheck?
    || step.TickerCancelled? || step.TickerHandOff?
  }

  /** A quiet step touches no call and nothing a call depends on. */
  lemma QuietFrame(s: State, step: Step)
    requires !s.panicked && s.rpcID == ToInt64(s.issued) && EchoOk(s) && Enabled(s, step) && QuietStep(step)
    ensures var s' := Apply(s, step); SameShared(s, s') && EchoOk(s') && s'.calls == s.calls
  {
    hide ToInt64;
  }

  lemma QuietStepKeepsInv(s: State, step: Step)
    requires Inv(s) && Enabled(s, step) && QuietStep(step)
    ensures Inv(Apply(s, step))
  {
    hide CallOk, OwnerOk, Apply, SameShared;
    QuietFrame(s, step);
    NoCallMoves(s, Apply(s, step));
  }

  lemma EchoStepKeepsInv(s: State, step: Step)
    requires Inv(s) && Enabled(s, step) && (step.EchoCancelled? || step.EchoCheck? || step.EchoReturn?)
    ensures Inv(Apply(s, step))
  {
    if step.EchoCheck? && CLIENT_CTX !in s.done {
      CallMoves(s, Apply(s, step), step.call, Call(CLIENT_CTX, Entered, 0, 0, FRESH));
    } else {
      NoCallMoves(s, Apply(s, step));
    }
  }

  lemma StepKeepsInv(s: State, step: Step)
    requires Inv(s) && Enabled(s, step)
    requires Apply(s, step).issued < 0x1_0000_0000_0000_0000
    ensures Inv(Apply(s, step))
  {
    if step.StartCall? || step.CheckCtx? {
      EntryStepKeepsInv(s, step);
    } else if step.TakeId? {
      TakeIdKeepsInv(s, step.call);
    } else if step.SendOk? || step.SendFail? || step.SelectDone? {
      SendStepKeepsInv(s, step);
    } else if step.SelectReceive? {
      ReceiveStepKeepsInv(s, step.call);
    } else if step.Register? {
      RegisterKeepsInv(s, step.call);
    } else if step.Cleanup? {
      CleanupKeepsInv(s, step.call);
    } else if step.DispatchUnknown? {
      UnknownKeepsInv(s);
    } else if step.DispatchSend? || step.DispatchCancelled? {
      DeliveryKeepsInv(s, step);
    } else if QuietStep(step) {
      QuietStepKeepsInv(s, step);
    } else {
      EchoStepKeepsInv(s, step);
    }
  }

  lemma {:induction false} IssuedGrows(s: State, steps: seq<Step>)
    requires CanRun(s, steps)
    ensures s.issued <= Run(s, steps).issued
    decreases |steps|
  {
    if steps != [] {
      IssuedGrows(Apply(s, steps[0]), steps[1..]);
    }
  }

  lemma {:induction false} RunKeepsInv(s: State, steps: seq<Step>)
    requires Inv(s) && CanRun(s, steps) && Run(s, steps).issued < 0x1_0000_0000_0000_0000
    ensures Inv(Run(s, steps))
    decreases |steps|
  {
    if steps != [] {
      IssuedGrows(Apply(s, steps[0]), steps[1..]);
      StepKeepsInv(s, steps[0]);
      RunKeepsInv(Apply(s, steps[0]), steps[1..]);
    }
  }

  lemma ReachableInv(s: State)
    requires Reachable(s)
    ensures Inv(s)
  {
    var ticks, steps :| CanRun(Init(ticks), steps) && Run(Init(ticks), steps) == s;
    RunKeepsInv(Init(ticks), steps);
  }
}
