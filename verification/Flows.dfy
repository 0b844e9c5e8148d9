/**
  Flows and their text form. `MarshalFlow` and `UnmarshalFlow` specify the two directions on values;
  the class `Flow` holds the fields and carries the original's buffer and loops.
 */
module Flows {
  import opened Results
  import opened Bits
  import opened Text
  import opened Net
  import Actions
  import Matches
  import MatchParser
  import ActionParser

  /** The fields of a flow. */
  datatype Fields = Fields(
    priority: int64,
    protocol: string,
    inPort: int64,
    matches: seq<Matches.Match>,
    table: int64,
    idleTimeout: int64,
    cookie: uint64,
    actions: seq<Actions.Action>)

  const ZERO_FLOW := Fields(0, "", 0, [], 0, 0, 0, [])

  const PORT_LOCAL := -1

  const ACTIONS: string := "actions="

  datatype FlowError =
    | NoActions
    | ActionsWithDrop
    | InAction(actionError: Actions.ActionError)
    | InMatch(matchError: Matches.MatchError)
    | BadNumber(text: string)
    | BadMatch(parse: MatchParser.ParseError)
    | InvalidActions(text: string)
    | ParserPanics

  // ---------------------------------------------------------------- printing

  /** The texts of all actions, or the first error. */
  function ActionTexts(actions: seq<Actions.Action>): (r: Result<seq<string>, FlowError>)
    ensures r.Ok? ==> |r.value| == |actions|
  {
    if actions == [] then Ok([])
    else
      var front := ActionTexts(actions[..|actions| - 1]);
      if front.Err? then front
      else
        var t := Actions.MarshalAction(actions[|actions| - 1]);
        if t.Err? then Err(InAction(t.error)) else Ok(front.value + [t.value])
  }

  function MatchTexts(net: Library, matches: seq<Matches.Match>): (r: Result<seq<string>, FlowError>)
    ensures r.Ok? ==> |r.value| == |matches|
  {
    if matches == [] then Ok([])
    else
      var front := MatchTexts(net, matches[..|matches| - 1]);
      if front.Err? then front
      else
        var t := Matches.MarshalMatch(net, matches[|matches| - 1]);
        if t.Err? then Err(InMatch(t.error)) else Ok(front.value + [t.value])
  }

  function PriorityPiece(f: Fields): string {
    "priority=" + FormatInt(f.priority)
  }

  function ProtocolPieces(f: Fields): seq<string> {
    if f.protocol == "" then [] else [f.protocol]
  }

  function PortPieces(f: Fields): seq<string> {
    if f.inPort == 0 then [] else ["in_port=" + if f.inPort == PORT_LOCAL then "LOCAL" else FormatInt(f.inPort)]
  }

  function TablePiece(f: Fields): string {
    "table=" + FormatInt(f.table)
  }

  function TimeoutPiece(f: Fields): string {
    "idle_timeout=" + FormatInt(f.idleTimeout)
  }

  /** `paddedHexUint64`: the prefix comes on top of the sixteen digits. */
  function PaddedHex(n: uint64): string {
    "0x" + FormatHexPadded(n, 16)
  }

  function CookiePieces(f: Fields): seq<string> {
    if f.cookie == 0 then [] else ["cookie=" + PaddedHex(f.cookie)]
  }

  /** Everything before the actions, in printing order. */
  function HeadPieces(f: Fields, matches: seq<string>): (r: seq<string>)
    ensures r != []
  {
    [PriorityPiece(f)] + ProtocolPieces(f) + PortPieces(f) + matches + [TablePiece(f), TimeoutPiece(f)] + CookiePieces(f)
  }

  /** `drop` beside other actions. */
  predicate DropIsNotAlone(texts: seq<string>) {
    |texts| > 1 && "drop" in texts
  }

  function FlowText(f: Fields, matches: seq<string>, actions: seq<string>): string {
    Join(HeadPieces(f, matches) + [ACTIONS + Join(actions, ',')], ',')
  }

  function MarshalFlow(net: Library, f: Fields): Result<string, FlowError> {
    if f.actions == [] then Err(NoActions)
    else
      var actions := ActionTexts(f.actions);
      if actions.Err? then Err(actions.error)
      else
        var matches := MatchTexts(net, f.matches);
        if matches.Err? then Err(matches.error)
        else if DropIsNotAlone(actions.value) then Err(ActionsWithDrop)
        else Ok(FlowText(f, matches.value, actions.value))
  }

  // ---------------------------------------------------------------- parsing

  /** The fields after a call, and its error if it failed; fields set before an error stay set. */
  datatype Outcome = Outcome(flow: Fields, error: Option<FlowError>)

  function SetNumber(text: string, whenOk: int64 -> Fields, f: Fields): Outcome {
    var n := ParseInt(text);
    if n.Err? then Outcome(f, Some(BadNumber(text))) else Outcome(whenOk(n.value), None)
  }

  predicate IgnoredKey(key: string) {
    key == "duration" || key == "n_packets" || key == "n_bytes" || key == "hard_age" || key == "idle_age"
  }

  /** The switch on the key of a `key=value` piece; `rawKey` is the key before trimming. */
  function ApplyKey(f: Fields, rawKey: string, value: string): Outcome {
    var key := TrimSpace(rawKey);
    if key == "priority" then SetNumber(value, (n: int64) => f.(priority := n), f)
    else if key == "cookie" then
      var n := ParseUintPrefixed(value);
      if n.Err? then Outcome(f, Some(BadNumber(value))) else Outcome(f.(cookie := n.value), None)
    else if key == "actions" then Outcome(f, None)
    else if key == "in_port" then
      if TrimSpace(value) == "LOCAL" then Outcome(f.(inPort := PORT_LOCAL), None)
      else SetNumber(value, (n: int64) => f.(inPort := n), f)
    else if key == "idle_timeout" then SetNumber(value, (n: int64) => f.(idleTimeout := n), f)
    else if key == "table" then SetNumber(value, (n: int64) => f.(table := n), f)
    else if IgnoredKey(key) then Outcome(f, None)
    else
      var m := MatchParser.ParseMatch(rawKey, value);
      if m.Err? then Outcome(f, Some(BadMatch(m.error))) else Outcome(f.(matches := f.matches + [m.value]), None)
  }

  /** One turn of the loop over the comma-separated pieces. */
  function ApplyPiece(f: Fields, piece: string): Outcome {
    if '=' !in piece then Outcome(if piece == "" then f else f.(protocol := piece), None)
    else
      var kv := Split(piece, '=');
      if |kv| != 2 then Outcome(f, None) else ApplyKey(f, kv[0], TrimSpace(kv[1]))
  }

  function ApplyPieces(f: Fields, pieces: seq<string>): Outcome
    decreases |pieces|
  {
    if pieces == [] then Outcome(f, None)
    else
      var o := ApplyPiece(f, pieces[0]);
      if o.error.Some? then o else ApplyPieces(o.flow, pieces[1..])
  }

  /** The part after the loop. */
  function ApplyActions(net: Library, f: Fields, text: string): Outcome {
    var r := ActionParser.ParseAll(net, text);
    if r == Err(ActionParser.Panics) then Outcome(f, Some(ParserPanics))
    else if r.Err? then Outcome(f, Some(InvalidActions(text)))
    else Outcome(f.(actions := r.value.0), if DropIsNotAlone(r.value.1) then Some(ActionsWithDrop) else None)
  }

  /** `UnmarshalText` on a flow that holds `f`. */
  function UnmarshalFlow(net: Library, f: Fields, text: string): Outcome {
    var halves := SplitOn(text, ACTIONS);
    if |halves| != 2 || halves[1] == "" then Outcome(f, Some(NoActions))
    else
      var o := ApplyPieces(f.(matches := []), Split(TrimSpace(halves[0]), ','));
      if o.error.Some? then o else ApplyActions(net, o.flow, TrimSpace(halves[1]))
  }

  // ---------------------------------------------------------------- the imperative flow

  /** Joining two lists. */
  lemma {:induction false} JoinLists(ps: seq<string>, qs: seq<string>)
    requires ps != [] && qs != []
    ensures Join(ps + qs, ',') == Join(ps, ',') + "," + Join(qs, ',')
    decreases |ps|
  {
    var all := ps + qs;
    if |ps| == 1 {
      assert all[1..] == qs;
    } else {
      assert all[1..] == ps[1..] + qs;
      JoinLists(ps[1..], qs);
    }
  }

  lemma {:induction false} FailedAction(actions: seq<Actions.Action>, i: nat)
    requires i < |actions| && ActionTexts(actions[..i]).Ok? && Actions.MarshalAction(actions[i]).Err?
    ensures ActionTexts(actions) == Err(InAction(Actions.MarshalAction(actions[i]).error))
    decreases |actions|
  {
    hide Actions.MarshalAction;
    if i + 1 == |actions| {
      assert actions[..|actions| - 1] == actions[..i];
    } else {
      assert actions[..|actions| - 1][..i] == actions[..i];
      FailedAction(actions[..|actions| - 1], i);
    }
  }

  lemma {:induction false} FailedMatch(net: Library, matches: seq<Matches.Match>, i: nat)
    requires i < |matches| && MatchTexts(net, matches[..i]).Ok? && Matches.MarshalMatch(net, matches[i]).Err?
    ensures MatchTexts(net, matches) == Err(InMatch(Matches.MarshalMatch(net, matches[i]).error))
    decreases |matches|
  {
    hide Matches.MarshalMatch;
    if i + 1 == |matches| {
      assert matches[..|matches| - 1] == matches[..i];
    } else {
      assert matches[..|matches| - 1][..i] == matches[..i];
      FailedMatch(net, matches[..|matches| - 1], i);
    }
  }

  class Flow {
    var priority: int64
    var protocol: string
    var inPort: int64
    var matches: seq<Matches.Match>
    var table: int64
    var idleTimeout: int64
    var cookie: uint64
    var actions: seq<Actions.Action>

    function Value(): Fields
      reads this
    {
      Fields(priority, protocol, inPort, matches, table, idleTimeout, cookie, actions)
    }

    /** The zero flow. */
    constructor ()
      ensures Value() == ZERO_FLOW
    {
      priority, protocol, inPort, matches, table, idleTimeout, cookie, actions := 0, "", 0, [], 0, 0, 0, [];
    }

    method MarshalActions() returns (r: Result<seq<string>, FlowError>)
      ensures r == ActionTexts(actions)
    {
      hide Actions.MarshalAction;
      var out: seq<string> := [];
      for i := 0 to |actions|
        invariant ActionTexts(actions[..i]) == Ok(out)
      {
        var o := Actions.MarshalAction(actions[i]);
        if o.Err? {
          FailedAction(actions, i);
          return Err(InAction(o.error));
        }
        assert actions[..i + 1][..i] == actions[..i];
        out := out + [o.value];
      }
      assert actions[..|actions|] == actions;
      return Ok(out);
    }

    method MarshalMatches(net: Library) returns (r: Result<seq<string>, FlowError>)
      ensures r == MatchTexts(net, matches)
    {
      hide Matches.MarshalMatch;
      var out: seq<string> := [];
      for i := 0 to |matches|
        invariant MatchTexts(net, matches[..i]) == Ok(out)
      {
        var o := Matches.MarshalMatch(net, matches[i]);
        if o.Err? {
          FailedMatch(net, matches, i);
          return Err(InMatch(o.error));
        }
        assert matches[..i + 1][..i] == matches[..i];
        out := out + [o.value];
      }
      assert matches[..|matches|] == matches;
      return Ok(out);
    }

    /** The buffer of `MarshalText`, grown field by field. */
    method AppendFields(matchTexts: seq<string>, actionTexts: seq<string>) returns (b: string)
      ensures b == FlowText(Value(), matchTexts, actionTexts)
    {
      hide FormatInt, Join, PaddedHex, FlowText;
      hide PriorityPiece, ProtocolPieces, PortPieces, TablePiece, TimeoutPiece, CookiePieces;
      ghost var f := Value();
      b := "priority=" + FormatInt(priority);
      ghost var done := [PriorityPiece(f)];
      FirstPiece(f);

      ghost var before := b;
      if protocol != "" {
        b := b + ",";
        b := b + protocol;
      }
      ProtocolAppended(f, done, before);
      done := done + ProtocolPieces(f);
      before := b;
      if inPort != 0 {
        b := b + ("," + "in_port" + "=");
        if inPort == PORT_LOCAL {
          b := b + "LOCAL";
        } else {
          b := b + FormatInt(inPort);
        }
      }
      PortAppended(f, done, before);
      done := done + PortPieces(f);
      before := b;
      if |matchTexts| > 0 {
        b := b + ("," + Join(matchTexts, ','));
      }
      MatchesAppended(done, matchTexts, before);
      done := done + matchTexts;
      before := b;
      b := b + ("," + "table" + "=");
      b := b + FormatInt(table);
      b := b + ("," + "idle_timeout" + "=");
      b := b + FormatInt(idleTimeout);
      NumbersAppended(f, done, before);
      done := done + [TablePiece(f), TimeoutPiece(f)];
      before := b;
      if cookie > 0 {
        b := b + ("," + "cookie" + "=");
        b := b + PaddedHex(cookie);
      }
      CookieAppended(f, done, before);
      done := done + CookiePieces(f);
      before := b;
      b := b + ("," + "actions" + "=" + Join(actionTexts, ','));
      ActionsAppended(f, matchTexts, actionTexts, before);
    }

    method MarshalText(net: Library) returns (r: Result<string, FlowError>)
      ensures r == MarshalFlow(net, Value())
    {
      hide FlowText, ActionTexts, MatchTexts;
      if |actions| == 0 {
        return Err(NoActions);
      }
      var actionTexts := MarshalActions();
      if actionTexts.Err? {
        return Err(actionTexts.error);
      }
      var matchTexts := MarshalMatches(net);
      if matchTexts.Err? {
        return Err(matchTexts.error);
      }
      if |actionTexts.value| > 1 {
        for i := 0 to |actionTexts.value|
          invariant "drop" !in actionTexts.value[..i]
        {
          if actionTexts.value[i] == "drop" {
            return Err(ActionsWithDrop);
          }
        }
      }
      var b := AppendFields(matchTexts.value, actionTexts.value);
      return Ok(b);
    }

    /** The body of the loop over the pieces of the head. */
    method TakePiece(piece: string) returns (error: Option<FlowError>)
      modifies this
      ensures Outcome(Value(), error) == ApplyPiece(old(Value()), piece)
    {
      hide MatchParser.ParseMatch, ParseInt, ParseUintPrefixed, TrimSpace, Split;
      if '=' !in piece {
        if piece != "" {
          protocol := piece;
        }
        return None;
      }
      var kv := Split(piece, '=');
      if |kv| != 2 {
        return None;
      }
      var value := TrimSpace(kv[1]);
      var key := TrimSpace(kv[0]);
      if key == "priority" {
        var n := ParseInt(value);
        if n.Err? {
          return Some(BadNumber(value));
        }
        priority := n.value;
      } else if key == "cookie" {
        var n := ParseUintPrefixed(value);
        if n.Err? {
          return Some(BadNumber(value));
        }
        cookie := n.value;
      } else if key == "actions" {
        return None;
      } else if key == "in_port" {
        if TrimSpace(value) == "LOCAL" {
          inPort := PORT_LOCAL;
          return None;
        }
        var n := ParseInt(value);
        if n.Err? {
          return Some(BadNumber(value));
        }
        inPort := n.value;
      } else if key == "idle_timeout" {
        var n := ParseInt(value);
        if n.Err? {
          return Some(BadNumber(value));
        }
        idleTimeout := n.value;
      } else if key == "table" {
        var n := ParseInt(value);
        if n.Err? {
          return Some(BadNumber(value));
        }
        table := n.value;
      } else if !IgnoredKey(key) {
        var m := MatchParser.ParseMatch(kv[0], value);
        if m.Err? {
          return Some(BadMatch(m.error));
        }
        matches := matches + [m.value];
      }
      return None;
    }

    method UnmarshalText(net: Library, text: string) returns (error: Option<FlowError>)
      modifies this
      ensures Outcome(Value(), error) == UnmarshalFlow(net, old(Value()), text)
    {
      hide SplitOn, Split, TrimSpace, ApplyPiece, ActionParser.ParseAll;
      var halves := SplitOn(text, ACTIONS);
      if |halves| != 2 || halves[1] == "" {
        return Some(NoActions);
      }
      var matchers, actionText := TrimSpace(halves[0]), TrimSpace(halves[1]);
      var ss := Split(matchers, ',');
      matches := [];
      ghost var start := Value();
      for i := 0 to |ss|
        invariant ApplyPieces(Value(), ss[i..]) == ApplyPieces(start, ss)
      {
        assert ss[i..][0] == ss[i] && ss[i..][1..] == ss[i + 1..];
        error := TakePiece(ss[i]);
        if error.Some? {
          return error;
        }
      }
      var p := new ActionParser.Parser(actionText);
      var out := p.Parse(net);
      if out == Err(ActionParser.Panics) {
        return Some(ParserPanics);
      }
      if out.Err? {
        return Some(InvalidActions(actionText));
      }
      actions := out.value.0;
      var raw := out.value.1;
      if |raw| > 1 {
        for i := 0 to |raw|
          invariant "drop" !in raw[..i]
        {
          if raw[i] == "drop" {
            return Some(ActionsWithDrop);
          }
        }
      }
      return None;
    }
  }

  // ---------------------------------------------------------------- the buffer, piece by piece

  lemma FirstPiece(f: Fields)
    ensures Join([PriorityPiece(f)], ',') == "priority=" + FormatInt(f.priority)
  {
  }

  lemma ProtocolAppended(f: Fields, done: seq<string>, b: string)
    requires done != [] && b == Join(done, ',')
    ensures Join(done + ProtocolPieces(f), ',') == if f.protocol != "" then b + "," + f.protocol else b
  {
    JoinMore(done, ProtocolPieces(f));
  }

  lemma PortAppended(f: Fields, done: seq<string>, b: string)
    requires done != [] && b == Join(done, ',')
    ensures Join(done + PortPieces(f), ',') ==
            if f.inPort == 0 then b
            else if f.inPort == PORT_LOCAL then b + ("," + "in_port" + "=") + "LOCAL"
            else b + ("," + "in_port" + "=") + FormatInt(f.inPort)
  {
    hide FormatInt;
    JoinMore(done, PortPieces(f));
    KeyValue(b, "in_port", if f.inPort == PORT_LOCAL then "LOCAL" else FormatInt(f.inPort));
  }

  lemma MatchesAppended(done: seq<string>, texts: seq<string>, b: string)
    requires done != [] && b == Join(done, ',')
    ensures Join(done + texts, ',') == if |texts| > 0 then b + ("," + Join(texts, ',')) else b
  {
    JoinMore(done, texts);
  }

  lemma NumbersAppended(f: Fields, done: seq<string>, b: string)
    requires done != [] && b == Join(done, ',')
    ensures Join(done + [TablePiece(f), TimeoutPiece(f)], ',') ==
            b + ("," + "table" + "=") + FormatInt(f.table) + ("," + "idle_timeout" + "=") + FormatInt(f.idleTimeout)
  {
    hide FormatInt, Join;
    JoinAppend(done, TablePiece(f), ',');
    KeyValue(b, "table", FormatInt(f.table));
    JoinAppend(done + [TablePiece(f)], TimeoutPiece(f), ',');
    KeyValue(Join(done + [TablePiece(f)], ','), "idle_timeout", FormatInt(f.idleTimeout));
    assert done + [TablePiece(f), TimeoutPiece(f)] == done + [TablePiece(f)] + [TimeoutPiece(f)];
  }

  lemma CookieAppended(f: Fields, done: seq<string>, b: string)
    requires done != [] && b == Join(done, ',')
    ensures Join(done + CookiePieces(f), ',') ==
            if f.cookie > 0 then b + ("," + "cookie" + "=") + PaddedHex(f.cookie) else b
  {
    hide PaddedHex;
    JoinMore(done, CookiePieces(f));
    KeyValue(b, "cookie", PaddedHex(f.cookie));
  }

  lemma ActionsAppended(f: Fields, matches: seq<string>, actions: seq<string>, b: string)
    requires b == Join(HeadPieces(f, matches), ',')
    ensures FlowText(f, matches, actions) == b + ("," + "actions" + "=" + Join(actions, ','))
  {
    hide HeadPieces, Join;
    JoinAppend(HeadPieces(f, matches), ACTIONS + Join(actions, ','), ',');
    assert "," + "actions" + "=" + Join(actions, ',') == "," + (ACTIONS + Join(actions, ','));
  }

  lemma KeyValue(b: string, key: string, value: string)
    ensures b + ("," + key + "=") + value == b + "," + (key + "=" + value)
  {
  }

  /** Joining a list that may be empty. */
  lemma JoinMore(ps: seq<string>, qs: seq<string>)
    requires ps != []
    ensures Join(ps + qs, ',') == if qs == [] then Join(ps, ',') else Join(ps, ',') + "," + Join(qs, ',')
  {
    if qs == [] {
      assert ps + qs == ps;
    } else {
      JoinLists(ps, qs);
    }
  }

  lemma {:induction false} ActionTextsOk(actions: seq<Actions.Action>)
    ensures ActionTexts(actions).Ok? <==> forall i :: 0 <= i < |actions| ==> Actions.MarshalAction(actions[i]).Ok?
    ensures ActionTexts(actions).Ok? ==>
              forall i :: 0 <= i < |actions| ==> Actions.MarshalAction(actions[i]) == Ok(ActionTexts(actions).value[i])
  {
    hide Actions.MarshalAction;
    if actions != [] {
      ActionTextsOk(actions[..|actions| - 1]);
    }
  }

  lemma {:induction false} MatchTextsOk(net: Library, matches: seq<Matches.Match>)
    ensures MatchTexts(net, matches).Ok? <==>
            forall i :: 0 <= i < |matches| ==> Matches.MarshalMatch(net, matches[i]).Ok?
    ensures MatchTexts(net, matches).Ok? ==>
              forall i :: 0 <= i < |matches| ==> Matches.MarshalMatch(net, matches[i]) == Ok(MatchTexts(net, matches).value[i])
  {
    hide Matches.MarshalMatch;
    if matches != [] {
      MatchTextsOk(net, matches[..|matches| - 1]);
    }
  }
}
