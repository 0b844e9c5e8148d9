/**
  Flow bundles. A caller's function works on a `FlowTransaction`; `AddFlowBundle` then pipes the
  transaction's flows to Open vSwitch, all of them or none.
 */
module Bundles {
  import opened Results
  import opened Text
  import Flows

  /** A flow or match flow, seen through the result of its `MarshalText`. */
  type TextMarshaler = Result<string, Flows.FlowError>

  datatype Directive = Add | Delete {
    function Text(): string {
      if this.Add? then "add" else "delete"
    }
  }

  datatype FlowDirective = FlowDirective(directive: Directive, flow: string)

  /** What the caller's function does with its transaction. `Add` and `Delete` are pushes. */
  datatype Op = Push(directive: Directive, flows: seq<TextMarshaler>) | Commit | Discard

  /** How the caller's function returns: with the result of a last `Commit` or `Discard`, or with nil. */
  datatype Ending = ReturnCommit | ReturnDiscard | ReturnNil

  datatype BundleResult =
    | Piped(text: string)
    | MarshalFailed(error: Flows.FlowError)
    | BundleDiscarded
    | NotCommitted

  // ---------------------------------------------------------------- one step

  datatype State = State(flows: seq<FlowDirective>, committed: bool, err: Option<Flows.FlowError>)

  function PushAll(s: State, directive: Directive, flows: seq<TextMarshaler>): State
    decreases |flows|
  {
    if flows == [] then s
    else
      match flows[0]
      case Err(e) => s.(err := Some(e))
      case Ok(t) => PushAll(s.(flows := s.flows + [FlowDirective(directive, t)]), directive, flows[1..])
  }

  function Apply(s: State, op: Op): State {
    match op
    case Push(directive, flows) => if s.err.Some? then s else PushAll(s, directive, flows)
    case Commit => if s.err.Some? then s else s.(committed := true)
    case Discard => s.(flows := [])
  }

  const INITIAL := State([], false, None)

  /** The transaction after all of `ops`. */
  function Run(ops: seq<Op>): State {
    if ops == [] then INITIAL else Apply(Run(ops[..|ops| - 1]), ops[|ops| - 1])
  }

  // ---------------------------------------------------------------- what a run means

  /** One flow handed to the transaction. */
  datatype Pushing = Pushing(directive: Directive, result: TextMarshaler)

  function Pushings(directive: Directive, flows: seq<TextMarshaler>): (r: seq<Pushing>)
    ensures |r| == |flows| && forall i :: 0 <= i < |flows| ==> r[i] == Pushing(directive, flows[i])
  {
    seq(|flows|, i requires 0 <= i < |flows| => Pushing(directive, flows[i]))
  }

  /** Everything pushed, in call order. */
  function Pushed(ops: seq<Op>): seq<Pushing> {
    if ops == [] then []
    else
      var op := ops[|ops| - 1];
      Pushed(ops[..|ops| - 1]) + if op.Push? then Pushings(op.directive, op.flows) else []
  }

  /** How many flows were pushed before the last `Discard`. */
  function Discarded(ops: seq<Op>): (n: nat)
    ensures n <= |Pushed(ops)|
  {
    if ops == [] then 0
    else
      var before := ops[..|ops| - 1];
      if ops[|ops| - 1].Discard? then |Pushed(before)| else Discarded(before)
  }

  /** The index of the first flow that does not marshal, or the length. */
  function FirstFailure(ps: seq<Pushing>): (n: nat)
    ensures n <= |ps| && forall i :: 0 <= i < n ==> ps[i].result.Ok?
    ensures n < |ps| ==> ps[n].result.Err?
  {
    if ps == [] || ps[0].result.Err? then 0 else 1 + FirstFailure(ps[1..])
  }

  function FirstError(ps: seq<Pushing>): Option<Flows.FlowError> {
    var n := FirstFailure(ps);
    if n < |ps| then Some(ps[n].result.error) else None
  }

  function Directives(ps: seq<Pushing>): (r: seq<FlowDirective>)
    requires forall i :: 0 <= i < |ps| ==> ps[i].result.Ok?
    ensures |r| == |ps| && forall i :: 0 <= i < |ps| ==> r[i] == FlowDirective(ps[i].directive, ps[i].result.value)
  {
    seq(|ps|, i requires 0 <= i < |ps| => FlowDirective(ps[i].directive, ps[i].result.value))
  }

  /** The directives from index `from` on, up to the first flow that does not marshal. */
  function KeptFrom(ps: seq<Pushing>, from: nat): seq<FlowDirective> {
    if from <= FirstFailure(ps) then Directives(ps[from..FirstFailure(ps)]) else []
  }

  /** The directives of the flows pushed since the last `Discard`, up to the first that does not marshal. */
  function Kept(ops: seq<Op>): seq<FlowDirective> {
    KeptFrom(Pushed(ops), Discarded(ops))
  }

  /** Some `Commit` came before every marshalling error. */
  ghost predicate CommittedInTime(ops: seq<Op>) {
    exists i :: 0 <= i < |ops| && ops[i].Commit? && FirstError(Pushed(ops[..i])).None?
  }

  /** Pushing more moves the first failure only if there was none. */
  lemma {:induction false} FailureAppend(ps: seq<Pushing>, more: seq<Pushing>)
    ensures FirstFailure(ps + more) ==
            if FirstFailure(ps) < |ps| then FirstFailure(ps) else |ps| + FirstFailure(more)
  {
    var all := ps + more;
    if ps == [] {
      assert all == more;
    } else if ps[0].result.Ok? {
      assert all[0] == ps[0] && all[1..] == ps[1..] + more;
      FailureAppend(ps[1..], more);
    }
  }

  lemma {:induction false} PushMeaning(s: State, directive: Directive, flows: seq<TextMarshaler>)
    requires s.err.None?
    ensures var t := PushAll(s, directive, flows); var ps := Pushings(directive, flows);
            && t.committed == s.committed
            && t.err == FirstError(ps)
            && t.flows == s.flows + Directives(ps[..FirstFailure(ps)])
    decreases |flows|
  {
    hide FirstFailure, Directives, Pushings;
    if flows == [] {
      NothingPushed(s.flows, directive);
    } else if flows[0].Ok? {
      var d := FlowDirective(directive, flows[0].value);
      FirstPushed(directive, flows);
      PushMeaning(s.(flows := s.flows + [d]), directive, flows[1..]);
    } else {
      FirstFails(s.flows, directive, flows);
    }
  }

  lemma NothingPushed(kept: seq<FlowDirective>, directive: Directive)
    ensures FirstFailure(Pushings(directive, [])) == 0
    ensures kept + Directives(Pushings(directive, [])[..0]) == kept
  {
  }

  lemma FirstPushed(directive: Directive, flows: seq<TextMarshaler>)
    requires flows != [] && flows[0].Ok?
    ensures var ps, rest := Pushings(directive, flows), Pushings(directive, flows[1..]);
            && FirstError(ps) == FirstError(rest)
            && Directives(ps[..FirstFailure(ps)]) ==
               [FlowDirective(directive, flows[0].value)] + Directives(rest[..FirstFailure(rest)])
  {
    hide Directives;
    var ps, rest := Pushings(directive, flows), Pushings(directive, flows[1..]);
    assert ps[1..] == rest;
    assert ps[..FirstFailure(ps)] == [ps[0]] + rest[..FirstFailure(rest)];
    DirectivesAppend([ps[0]], rest[..FirstFailure(rest)]);
    DirectivesOne(ps[0]);
  }

  lemma DirectivesOne(p: Pushing)
    requires p.result.Ok?
    ensures Directives([p]) == [FlowDirective(p.directive, p.result.value)]
  {
  }

  lemma FirstFails(kept: seq<FlowDirective>, directive: Directive, flows: seq<TextMarshaler>)
    requires flows != [] && flows[0].Err?
    ensures FirstFailure(Pushings(directive, flows)) == 0
    ensures kept + Directives(Pushings(directive, flows)[..0]) == kept
  {
    assert Pushings(directive, flows)[0].result == flows[0];
  }

  /**
    After any calls: the stored error is that of the first flow ever that did not marshal; the flows are
    those since the last discard, up to that one; and it is committed if a commit came before it.
   */
  lemma {:induction false} RunMeaning(ops: seq<Op>)
    ensures Run(ops).err == FirstError(Pushed(ops))
    ensures Run(ops).flows == Kept(ops)
    ensures Run(ops).committed <==> CommittedInTime(ops)
  {
    if ops == [] {
      assert !CommittedInTime(ops);
    } else {
      var n := |ops| - 1;
      var op, s := ops[n], Run(ops[..n]);
      RunMeaning(ops[..n]);
      CommitStep(ops);
      if op.Push? {
        PushKept(ops);
      } else {
        assert Pushed(ops) == Pushed(ops[..n]);
      }
    }
  }

  lemma KeptAppend(ps: seq<Pushing>, more: seq<Pushing>, from: nat)
    requires from <= |ps|
    ensures FirstError(ps).Some? ==>
              FirstError(ps + more) == FirstError(ps) && KeptFrom(ps + more, from) == KeptFrom(ps, from)
    ensures FirstError(ps).None? ==>
              && FirstError(ps + more) == FirstError(more)
              && KeptFrom(ps + more, from) == KeptFrom(ps, from) + Directives(more[..FirstFailure(more)])
  {
    hide FirstFailure, Directives;
    FailureAppend(ps, more);
    var all, n, m := ps + more, FirstFailure(ps), FirstFailure(more);
    if n < |ps| {
      assert all[n] == ps[n];
      if from <= n {
        assert all[from..n] == ps[from..n];
      }
    } else {
      assert m < |more| ==> all[n + m] == more[m];
      assert all[from..n + m] == ps[from..n] + more[..m];
      DirectivesAppend(ps[from..n], more[..m]);
    }
  }

  lemma DirectivesAppend(ps: seq<Pushing>, qs: seq<Pushing>)
    requires forall i :: 0 <= i < |ps| ==> ps[i].result.Ok?
    requires forall i :: 0 <= i < |qs| ==> qs[i].result.Ok?
    ensures Directives(ps + qs) == Directives(ps) + Directives(qs)
  {
  }

  /** A push adds its flows up to the first failure, if there was none before. */
  lemma PushKept(ops: seq<Op>)
    requires ops != [] && ops[|ops| - 1].Push?
    requires var s := Run(ops[..|ops| - 1]); var before := ops[..|ops| - 1];
             s.err == FirstError(Pushed(before)) && s.flows == Kept(before)
    ensures Run(ops).err == FirstError(Pushed(ops)) && Run(ops).flows == Kept(ops)
    ensures Run(ops).committed == Run(ops[..|ops| - 1]).committed
  {
    hide FirstError, KeptFrom, Pushings, PushAll;
    var before, op := ops[..|ops| - 1], ops[|ops| - 1];
    var s := Run(before);
    KeptAppend(Pushed(before), Pushings(op.directive, op.flows), Discarded(before));
    if s.err.None? {
      PushMeaning(s, op.directive, op.flows);
    }
  }

  lemma CommitStep(ops: seq<Op>)
    requires ops != []
    ensures var n := |ops| - 1;
            CommittedInTime(ops) <==>
            CommittedInTime(ops[..n]) || (ops[n].Commit? && FirstError(Pushed(ops[..n])).None?)
  {
    hide Pushed, FirstError;
    var n := |ops| - 1;
    assert forall i :: 0 <= i < n ==> ops[..n][..i] == ops[..i];
    if CommittedInTime(ops[..n]) {
      var i :| 0 <= i < n && ops[..n][i].Commit? && FirstError(Pushed(ops[..n][..i])).None?;
      assert ops[i].Commit? && FirstError(Pushed(ops[..i])).None?;
    }
    if CommittedInTime(ops) {
      var i :| 0 <= i < |ops| && ops[i].Commit? && FirstError(Pushed(ops[..i])).None?;
      assert i < n ==> ops[..n][i].Commit?;
    }
  }

  // ---------------------------------------------------------------- the transaction

  class FlowTransaction {
    var flows: seq<FlowDirective>
    var committed: bool
    var err: Option<Flows.FlowError>

    function Value(): State
      reads this
    {
      State(flows, committed, err)
    }

    constructor ()
      ensures Value() == INITIAL
    {
      flows, committed, err := [], false, None;
    }

    method Add(added: seq<TextMarshaler>)
      modifies this
      ensures Value() == Apply(old(Value()), Op.Push(Directive.Add, added))
    {
      if err.Some? {
        return;
      }
      Push(Directive.Add, added);
    }

    method Delete(deleted: seq<TextMarshaler>)
      modifies this
      ensures Value() == Apply(old(Value()), Op.Push(Directive.Delete, deleted))
    {
      if err.Some? {
        return;
      }
      Push(Directive.Delete, deleted);
    }

    method Push(directive: Directive, pushed: seq<TextMarshaler>)
      modifies this
      ensures Value() == PushAll(old(Value()), directive, pushed)
    {
      for i := 0 to |pushed|
        invariant PushAll(Value(), directive, pushed[i..]) == PushAll(old(Value()), directive, pushed)
      {
        assert pushed[i..][0] == pushed[i] && pushed[i..][1..] == pushed[i + 1..];
        match pushed[i]
        case Err(e) =>
          err := Some(e);
          return;
        case Ok(text) =>
          flows := flows + [FlowDirective(directive, text)];
      }
    }

    method Commit() returns (error: Option<Flows.FlowError>)
      modifies this
      ensures Value() == Apply(old(Value()), Op.Commit) && error == err == old(err)
    {
      if err.Some? {
        return err;
      }
      committed := true;
      return None;
    }

    method Discard()
      modifies this
      ensures Value() == Apply(old(Value()), Op.Discard)
    {
      flows := [];
    }
  }

  function Line(d: FlowDirective): string {
    d.directive.Text() + " " + d.flow + "\n"
  }

  function Lines(ds: seq<FlowDirective>): (r: seq<string>)
    ensures |r| == |ds| && forall i :: 0 <= i < |ds| ==> r[i] == Line(ds[i])
  {
    seq(|ds|, i requires 0 <= i < |ds| => Line(ds[i]))
  }

  lemma {:induction false} ConcatAppend(ss: seq<string>, s: string)
    ensures Concat(ss + [s]) == Concat(ss) + s
  {
    var all := ss + [s];
    if ss == [] {
      assert all[0] == s && all[1..] == [];
      assert s + [] == s;
    } else {
      assert all[0] == ss[0] && all[1..] == ss[1..] + [s];
      ConcatAppend(ss[1..], s);
      assert ss[0] + (Concat(ss[1..]) + s) == ss[0] + Concat(ss[1..]) + s;
    }
  }

  /** Every call of the caller's function, one after the other. */
  method RunCalls(tx: FlowTransaction, ops: seq<Op>)
    requires tx.Value() == INITIAL
    modifies tx
    ensures tx.Value() == Run(ops)
  {
    for i := 0 to |ops|
      invariant tx.Value() == Run(ops[..i])
    {
      assert ops[..i + 1][..i] == ops[..i];
      match ops[i]
      case Push(directive, flows) =>
        if directive.Add? {
          tx.Add(flows);
        } else {
          tx.Delete(flows);
        }
      case Commit =>
        var _ := tx.Commit();
      case Discard => tx.Discard();
    }
    assert ops[..|ops|] == ops;
  }

  /** The file piped to Open vSwitch: one line for each directive. */
  method WriteBuffer(flows: seq<FlowDirective>) returns (buf: string)
    ensures buf == Concat(Lines(flows))
  {
    buf := "";
    for i := 0 to |flows|
      invariant buf == Concat(Lines(flows[..i]))
    {
      assert Lines(flows[..i + 1]) == Lines(flows[..i]) + [Line(flows[i])];
      ConcatAppend(Lines(flows[..i]), Line(flows[i]));
      buf := buf + (flows[i].directive.Text() + " " + flows[i].flow + "\n");
    }
    assert flows[..|flows|] == flows;
  }

  /**
    `AddFlowBundle`. When the caller ends with `Commit` and returns its result, the bundle is piped if and
    only if no marshalling error ever occurred; otherwise the first marshalling error is returned. A caller
    that ends with nil gets it piped if some commit came before every error, even if an error came later.
    What is piped has one line for each flow kept.
   */
  method AddFlowBundle(ops: seq<Op>, ending: Ending) returns (r: BundleResult)
    ensures r.Piped? ==> r.text == Concat(Lines(Kept(ops)))
    ensures ending.ReturnCommit? ==>
              if FirstError(Pushed(ops)).None? then r.Piped? else r == MarshalFailed(FirstError(Pushed(ops)).value)
    ensures ending.ReturnDiscard? ==> r == BundleDiscarded
    ensures ending.ReturnNil? ==> if CommittedInTime(ops) then r.Piped? else r == NotCommitted
  {
    var tx := new FlowTransaction();
    RunCalls(tx, ops);
    RunMeaning(ops);
    match ending {
      case ReturnCommit =>
        var error := tx.Commit();
        if error.Some? {
          return MarshalFailed(error.value);
        }
      case ReturnDiscard =>
        tx.Discard();
        return BundleDiscarded;
      case ReturnNil =>
    }
    if !tx.committed {
      return NotCommitted;
    }
    var text := WriteBuffer(tx.flows);
    return Piped(text);
  }

  /** Without an error, every flow since the last discard is kept, in call order, with its own text. */
  lemma OneLinePerFlow(ops: seq<Op>, i: nat)
    requires FirstError(Pushed(ops)).None? && i < |Pushed(ops)| - Discarded(ops)
    ensures |Kept(ops)| == |Pushed(ops)| - Discarded(ops)
    ensures Pushed(ops)[Discarded(ops) + i] == Pushing(Kept(ops)[i].directive, Ok(Kept(ops)[i].flow))
  {
    hide Pushed, Discarded;
  }

  // ---------------------------------------------------------------- invalid calls

  /** A push leaves the flows as they are exactly if an error is stored, or nothing or a failing flow comes first. */
  lemma PushIsNoOp(s: State, directive: Directive, flows: seq<TextMarshaler>)
    ensures Apply(s, Op.Push(directive, flows)).flows == s.flows <==>
            s.err.Some? || flows == [] || flows[0].Err?
  {
    hide FirstFailure;
    if s.err.None? {
      PushMeaning(s, directive, flows);
      var n := FirstFailure(Pushings(directive, flows));
      FailsFirst(directive, flows);
      assert |Apply(s, Op.Push(directive, flows)).flows| == |s.flows| + n;
      assert n == 0 ==> Directives(Pushings(directive, flows)[..n]) == [];
    }
  }

  lemma FailsFirst(directive: Directive, flows: seq<TextMarshaler>)
    ensures FirstFailure(Pushings(directive, flows)) == 0 <==> flows == [] || flows[0].Err?
  {
    assert flows != [] ==> Pushings(directive, flows)[0].result == flows[0];
  }

  /**
    An invalid call that is not a no-op: the first of two flows stays in the transaction although the second
    does not marshal. After an earlier commit, a caller that returns nil gets it piped.
   */
  lemma InvalidAddIsPiped(text: string, error: Flows.FlowError)
    ensures var ops := [Op.Commit, Op.Push(Directive.Add, [Ok(text), Err(error)])];
            && FirstError(Pushed(ops)) == Some(error)
            && CommittedInTime(ops) && Kept(ops) == [FlowDirective(Directive.Add, text)]
            && Concat(Lines(Kept(ops))) == "add " + text + "\n"
  {
    hide Kept, Pushed, FirstError, CommittedInTime, Concat, Lines;
    var flows: seq<TextMarshaler> := [Ok(text), Err(error)];
    var ops := [Op.Commit, Op.Push(Directive.Add, flows)];
    RunMeaning(ops);
    CommitThenPush(flows);
    PushedTwo(INITIAL.(committed := true), text, error);
    OneLine(FlowDirective(Directive.Add, text));
  }

  lemma CommitThenPush(flows: seq<TextMarshaler>)
    ensures Run([Op.Commit, Op.Push(Directive.Add, flows)]) ==
            PushAll(INITIAL.(committed := true), Directive.Add, flows)
  {
    var ops := [Op.Commit, Op.Push(Directive.Add, flows)];
    assert ops[..1] == [Op.Commit] && [Op.Commit][..0] == [];
    assert Run([]) == INITIAL;
    assert Run([Op.Commit]) == Apply(INITIAL, Op.Commit);
  }

  lemma PushedTwo(s: State, text: string, error: Flows.FlowError)
    requires s.flows == []
    ensures PushAll(s, Directive.Add, [Ok(text), Err(error)]) ==
            s.(flows := [FlowDirective(Directive.Add, text)], err := Some(error))
  {
    var flows: seq<TextMarshaler> := [Ok(text), Err(error)];
    var next := s.(flows := s.flows + [FlowDirective(Directive.Add, text)]);
    assert flows[1..] == [Err(error)];
    assert PushAll(s, Directive.Add, flows) == PushAll(next, Directive.Add, flows[1..]);
  }

  lemma OneLine(d: FlowDirective)
    ensures Concat(Lines([d])) == Line(d)
  {
    var ls := Lines([d]);
    assert ls[0] == Line(d) && ls[1..] == [] && Line(d) + [] == Line(d);
  }

  /** The line of a flow: the word for its directive, a space, its text and a newline. */
  lemma DirectiveLines(flow: string)
    ensures Concat(Lines([FlowDirective(Directive.Add, flow)])) == "add " + flow + "\n"
    ensures Concat(Lines([FlowDirective(Directive.Delete, flow)])) == "delete " + flow + "\n"
  {
    OneLine(FlowDirective(Directive.Add, flow));
    OneLine(FlowDirective(Directive.Delete, flow));
    assert "add" + " " == "add " && "delete" + " " == "delete ";
  }
}
