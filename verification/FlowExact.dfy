/** The exact condition for a flow to be restored from its text: the plain flows of `FlowRoundTrip`, and no other. */
module FlowExact {
  import opened Results
  import opened Bits
  import opened Text
  import opened Net
  import opened Actions
  import opened Flows
  import opened ActionParser
  import opened FlowRoundTrip
  import opened ActionImage
  import ActionDispatch
  import ActionEnds
  import ActionRoundTrip

  // ---------------------------------------------------------------- token by token

  /** The text of an action that can be read has no white space, as regular expressions see it. */
  lemma TextHasNoSpace(net: Library, a: Action)
    requires MarshalAction(a).Ok? && ActionRoundTrip.Parseable(a) && ActionRoundTrip.WellBuilt(net, a)
    ensures ActionDispatch.NoReSpace(MarshalAction(a).value) && MarshalAction(a).value != []
  {
    if HasFreeText(a) {
      FreeTextHasNoSpace(a);
    } else {
      hide MarshalAction;
      FixedTextPlain(net, a);
      PlainHasNoReSpace(MarshalAction(a).value);
    }
  }

  lemma FreeTextHasNoSpace(a: Action)
    requires MarshalAction(a).Ok? && ActionRoundTrip.Parseable(a) && HasFreeText(a)
    ensures ActionDispatch.NoReSpace(MarshalAction(a).value) && MarshalAction(a).value != []
    ensures !IsSpace(MarshalAction(a).value[0])
  {
    hide ActionRoundTrip.NotTakenEarlier, ActionRoundTrip.HasInnerArrow;
  }

  lemma PlainHasNoReSpace(t: string)
    requires PlainText(t)
    ensures ActionDispatch.NoReSpace(t)
  {
    hide Clean, Contains;
  }

  /**
    The first token of a text that starts with the text of `a`, at its end or at a comma, is that text if
    the token is read as `a`.
   */
  lemma FirstToken(net: Library, a: Action, s: string, rest: string, t: string)
    requires MarshalAction(a) == Ok(s) && HasFreeText(a)
    requires ActionDispatch.NoReSpace(s + rest) && (rest == [] || rest[0] == ',')
    requires t <= s + rest && Clean(t, 0) && ActionDispatch.ParseAction(net, t) == Ok(a)
    ensures t == s
  {
    hide MarshalAction, ActionDispatch.ParseAction, Clean;
    var x, y := FreeTextOccurs(net, t, a);
    var all := s + rest;
    if |t| == |s| {
      assert t == all[..|t|] == s;
    } else {
      var u := t[|s| + 1..];
      assert t[|s|] == all[|s|] == ',';
      assert t == all[..|t|];
      assert t == s + ([','] + u);
      CommaInside(s, u, 0);
      assert forall i :: 0 <= i < |t| ==> t[i] == all[i];
      LongerDiffers(net, a, u);
    }
  }

  /** The actions marshal to `texts`, and each of them can be read. */
  ghost predicate Readable(net: Library, actions: seq<Action>, texts: seq<string>) {
    && |actions| == |texts|
    && forall i :: 0 <= i < |actions| ==>
         && MarshalAction(actions[i]) == Ok(texts[i])
         && ActionRoundTrip.Parseable(actions[i]) && ActionRoundTrip.WellBuilt(net, actions[i])
  }

  lemma {:induction false} JoinHasNoSpace(net: Library, actions: seq<Action>, texts: seq<string>)
    requires Readable(net, actions, texts)
    ensures ActionDispatch.NoReSpace(Join(texts, ','))
    decreases |texts|
  {
    hide MarshalAction;
    if texts != [] {
      TextHasNoSpace(net, actions[0]);
      if |texts| > 1 {
        JoinHasNoSpace(net, actions[1..], texts[1..]);
      }
    }
  }

  predicate AllSpace(w: string) {
    forall i :: 0 <= i < |w| ==> IsSpace(w[i])
  }

  /** The first text is a token of its own, whatever follows. */
  lemma FirstIsClean(net: Library, a: Action, s: string, rest: string)
    requires MarshalAction(a) == Ok(s) && ActionRoundTrip.Parseable(a) && ActionRoundTrip.WellBuilt(net, a)
    requires ActionDispatch.NoReSpace(s + rest) && (rest == [] || rest[0] == ',')
    requires HasFreeText(a) ==> ScanToken(s + rest, 0, []).Token?
    requires HasFreeText(a) ==> ActionDispatch.ParseAction(net, ScanToken(s + rest, 0, []).text) == Ok(a)
    ensures Clean(s, 0)
  {
    hide MarshalAction, ActionDispatch.ParseAction, ScanToken;
    if HasFreeText(a) {
      TokenIsClean(s + rest, 0, []);
      var t := ScanToken(s + rest, 0, []).text;
      assert t[0..] == t;
      FirstToken(net, a, s, rest, t);
    } else {
      FixedTextPlain(net, a);
    }
  }

  /** Nothing was trimmed off the end of a single action's text. */
  lemma NothingTrimmed(net: Library, a: Action, s: string, kept: string, w: string)
    requires MarshalAction(a) == Ok(s) && ActionRoundTrip.Parseable(a) && ActionRoundTrip.WellBuilt(net, a)
    requires s == kept + w && AllSpace(w)
    requires HasFreeText(a) ==> ScanToken(kept, 0, []).Token?
    requires HasFreeText(a) ==> ActionDispatch.ParseAction(net, ScanToken(kept, 0, []).text) == Ok(a)
    ensures w == []
  {
    hide MarshalAction, ActionDispatch.ParseAction, ScanToken, Clean;
    if HasFreeText(a) {
      TokenIsClean(kept, 0, []);
      var t := ScanToken(kept, 0, []).text;
      assert t[0..] == t;
      var x, y := FreeTextOccurs(net, t, a);
    } else {
      FixedTextPlain(net, a);
      if w != [] {
        SpaceInside(kept, w);
      }
    }
  }

  lemma SpaceInside(kept: string, w: string)
    requires w != [] && AllSpace(w)
    ensures !NoSpace(kept + w)
  {
    assert IsSpace((kept + w)[|kept|]);
  }

  /** Reading one token off a list of actions. */
  lemma FirstOfAll(net: Library, s: string, actions: seq<Action>)
    requires actions != [] && ParseAll(net, s).Ok? && ParseAll(net, s).value.0 == actions
    ensures ScanToken(s, 0, []).Token?
    ensures ActionDispatch.ParseAction(net, ScanToken(s, 0, []).text) == Ok(actions[0])
    ensures ParseAll(net, ScanToken(s, 0, []).rest).Ok?
    ensures ParseAll(net, ScanToken(s, 0, []).rest).value.0 == actions[1..]
  {
    hide ActionDispatch.ParseAction, ScanToken;
    var more := ParseAll(net, ScanToken(s, 0, []).rest);
    if more.Ok? {
      var a := ActionDispatch.ParseAction(net, ScanToken(s, 0, []).text);
      assert a.Ok? ==> ([a.value] + more.value.0)[1..] == more.value.0;
    }
  }

  /**
    If the joined texts, up to white space at the end, are read as the same actions, then each text was a
    token of its own and nothing was trimmed.
   */
  lemma {:induction false} ExactTokens(net: Library, actions: seq<Action>, texts: seq<string>, kept: string, w: string)
    requires actions != [] && Readable(net, actions, texts)
    requires Join(texts, ',') == kept + w && AllSpace(w)
    requires ParseAll(net, kept).Ok? && ParseAll(net, kept).value.0 == actions
    ensures w == [] && forall i :: 0 <= i < |texts| ==> Clean(texts[i], 0)
    decreases |texts|
  {
    hide MarshalAction, ActionDispatch.ParseAction, ScanToken, Clean, ParseAll, HasFreeText;
    var a, s := actions[0], texts[0];
    FirstOfAll(net, kept, actions);
    JoinHasNoSpace(net, actions, texts);
    if |texts| == 1 {
      NothingTrimmed(net, a, s, kept, w);
      assert kept == s == s + [];
      FirstIsClean(net, a, s, []);
    } else {
      var keptRest := RestOfJoin(s, Join(texts[1..], ','), kept, w);
      FirstIsClean(net, a, s, [','] + keptRest);
      TextHasNoSpace(net, a);
      assert [] + s == s && ([','] + keptRest)[1..] == keptRest;
      ScanClean(s, 0, [], [','] + keptRest);
      ExactTokens(net, actions[1..], texts[1..], keptRest, w);
      forall i | 0 <= i < |texts|
        ensures Clean(texts[i], 0)
      {
        assert i > 0 ==> texts[i] == texts[1..][i - 1];
      }
    }
  }

  /** The comma is not white space, so what was trimmed comes after it. */
  lemma RestOfJoin(s: string, rest: string, kept: string, w: string) returns (keptRest: string)
    requires s + [','] + rest == kept + w && AllSpace(w) && ActionDispatch.NoReSpace(s + [','] + rest)
    ensures kept == s + ([','] + keptRest) && rest == keptRest + w && ActionDispatch.NoReSpace(s + ([','] + keptRest))
  {
    var all := s + [','] + rest;
    assert all[|s|] == ',';
    if |kept| <= |s| {
      CommaTrimmed(s, rest, kept, w);
    }
    keptRest := kept[|s| + 1..];
    assert kept == all[..|kept|];
    assert kept[..|s|] == s && kept[|s|] == ',';
    assert rest == all[|s| + 1..];
  }

  lemma CommaTrimmed(s: string, rest: string, kept: string, w: string)
    requires s + [','] + rest == kept + w && |kept| <= |s|
    ensures !AllSpace(w)
  {
    var all := s + [','] + rest;
    assert w[|s| - |kept|] == all[|s|] == ',';
  }

  // ---------------------------------------------------------------- the whole flow

  lemma {:induction false} AllParseable(net: Library, s: string, i: nat)
    requires ParseAll(net, s).Ok? && i < |ParseAll(net, s).value.0|
    ensures ActionRoundTrip.Parseable(ParseAll(net, s).value.0[i])
    decreases i
  {
    hide ActionDispatch.ParseAction, ScanToken, ActionRoundTrip.Parseable, ParseAll;
    var actions := ParseAll(net, s).value.0;
    FirstOfAll(net, s, actions);
    if i == 0 {
      ParsedIsParseable(net, ScanToken(s, 0, []).text, actions[0]);
    } else {
      AllParseable(net, ScanToken(s, 0, []).rest, i - 1);
    }
  }

  lemma {:induction false} TrimmedSuffix(s: string)
    ensures var t := TrimRight(s); t <= s && AllSpace(s[|t|..])
  {
    if s != [] && IsSpace(s[|s| - 1]) {
      var r := s[..|s| - 1];
      TrimmedSuffix(r);
      var t := TrimRight(s);
      assert t <= r && s[|t|..] == r[|t|..] + [s[|s| - 1]];
    } else {
      assert s[|s|..] == [];
    }
  }

  lemma {:induction false} JoinHolds(ts: seq<string>, i: nat, sub: string)
    requires i < |ts| && sub != [] && ',' !in sub && Contains(ts[i], sub)
    ensures Contains(Join(ts, ','), sub)
  {
    hide Contains;
    if |ts| > 1 {
      ContainsAcross(ts[0], ',', Join(ts[1..], ','), sub);
      if i > 0 {
        JoinHolds(ts[1..], i - 1, sub);
      }
    }
  }

  /** No text of an action starts with white space. */
  lemma TextStarts(net: Library, a: Action)
    requires MarshalAction(a).Ok? && ActionRoundTrip.Parseable(a) && ActionRoundTrip.WellBuilt(net, a)
    ensures MarshalAction(a).value != [] && !IsSpace(MarshalAction(a).value[0])
  {
    hide MarshalAction;
    if HasFreeText(a) {
      FreeTextHasNoSpace(a);
    } else {
      FixedTextPlain(net, a);
    }
  }

  /** If the joined texts are read back as the same actions, the actions are good. */
  lemma ReadBackIsGood(net: Library, actions: seq<Action>, texts: seq<string>)
    requires actions != [] && Readable(net, actions, texts)
    requires !Contains(Join(texts, ','), ACTIONS)
    requires var r := ParseAll(net, TrimSpace(Join(texts, ','))); r.Ok? && r.value.0 == actions
    ensures GoodActions(actions)
  {
    hide MarshalAction, ActionDispatch.ParseAction, ScanToken, Clean, ParseAll, Contains, TrimRight, Join, HasFreeText;
    forall i | 0 <= i < |texts|
      ensures texts[i] != [] && !IsSpace(texts[i][0])
    {
      TextStarts(net, actions[i]);
    }
    var tail := Join(texts, ',');
    JoinEnds(texts);
    assert TrimLeft(tail) == tail;
    var kept := TrimRight(tail);
    TrimmedSuffix(tail);
    assert tail == kept + tail[|kept|..];
    ExactTokens(net, actions, texts, kept, tail[|kept|..]);
    TrimRightParts(tail);
    forall i | 0 <= i < |actions|
      ensures GoodAction(actions[i])
    {
      if Contains(texts[i], ACTIONS) {
        JoinHolds(texts, i, ACTIONS);
      }
    }
  }

  lemma RestoredText(net: Library, f: Fields)
    requires Lawful(net) && MarshalFlow(net, f).Ok? && PlainHead(f)
    ensures var tail := Join(ActionTexts(f.actions).value, ',');
            exists head :: SplitOn(MarshalFlow(net, f).value, ACTIONS) == [head] + SplitOn(tail, ACTIONS)
  {
    hide MatchTexts, ActionTexts, FlowText, SplitOn, Split, TrimSpace, Join, Contains, HeadPiece, PlainMatch, HeadPieces;
    var texts := MatchTexts(net, f.matches).value;
    var pieces := HeadPieces(f, texts);
    forall i | 0 <= i < |pieces|
      ensures HeadPiece(pieces[i])
    {
      HeadPiecesGood(net, f, i);
    }
    HeadStarts(f, texts);
    HeadSplits(pieces);
    FlowTextParts(f, texts, ActionTexts(f.actions).value);
    SplitAtActions(Join(pieces, ',') + ",", Join(ActionTexts(f.actions).value, ','));
  }

  lemma ApplyActionsResult(net: Library, f: Fields, text: string)
    requires ApplyActions(net, f, text).error.None?
    ensures ParseAll(net, text).Ok? && ParseAll(net, text).value.0 == ApplyActions(net, f, text).flow.actions
  {
    hide ParseAll;
  }

  lemma RestoredIsGood(net: Library, f: Fields)
    requires Lawful(net) && WellBuiltActions(net, f.actions) && MarshalFlow(net, f).Ok? && Restored(net, f)
    ensures GoodActions(f.actions)
  {
    hide MatchTexts, ActionTexts, FlowText, SplitOn, Split, TrimSpace, Join, Contains, ParseAll, ApplyPieces, PlainHead;
    hide MarshalAction, ActionRoundTrip.Parseable, ActionRoundTrip.WellBuilt, GoodActions, ApplyActions;
    RestoredIsPlain(net, f);
    RestoredText(net, f);
    var texts := ActionTexts(f.actions).value;
    var tail := Join(texts, ',');
    var text := MarshalFlow(net, f).value;
    var head :| SplitOn(text, ACTIONS) == [head] + SplitOn(tail, ACTIONS);
    SplitOne(tail);
    assert SplitOn(text, ACTIONS)[1] == tail;
    var g := ApplyPieces(ZERO_FLOW.(matches := []), Split(TrimSpace(head), ',')).flow;
    ApplyActionsResult(net, g, TrimSpace(tail));
    ActionTextsOk(f.actions);
    forall i | 0 <= i < |f.actions|
      ensures ActionRoundTrip.Parseable(f.actions[i])
    {
      AllParseable(net, TrimSpace(tail), i);
    }
    ReadBackIsGood(net, f.actions, texts);
  }

  /**
    For every flow that marshals: reading its text into the zero flow succeeds, restores every field and
    the actions, and gives matches with the same texts, if and only if its protocol, the flags of its
    matches and its actions are plain.
   */
  lemma FlowRoundTrips(net: Library, f: Fields)
    requires Lawful(net) && WellBuiltActions(net, f.actions) && MarshalFlow(net, f).Ok?
    ensures Restored(net, f) <==> PlainHead(f) && GoodActions(f.actions)
  {
    hide Restored, PlainHead, GoodActions, WellBuiltActions, MarshalFlow;
    if PlainHead(f) && GoodActions(f.actions) {
      PlainFlowRestored(net, f);
    }
    if Restored(net, f) {
      RestoredIsPlain(net, f);
      RestoredIsGood(net, f);
    }
  }

  lemma NormalFlow(net: Library, protocol: string)
    ensures var f := ZERO_FLOW.(protocol := protocol, actions := [Normal]);
            && MarshalFlow(net, f).Ok? && WellBuiltActions(net, f.actions) && GoodActions(f.actions)
            && (PlainHead(f) <==> PlainProtocol(protocol))
  {
    hide FlowText, ActionRoundTrip.ArrowParseable;
    var one := [Normal];
    assert one[..|one| - 1] == [] && ActionTexts(one[..|one| - 1]) == Ok([]);
    assert ActionTexts(one).Ok?;
  }

  /** A flow for IP is restored; one whose protocol holds a comma is printed but not restored. */
  lemma RestoredOrNot(net: Library)
    requires Lawful(net)
    ensures var f := ZERO_FLOW.(protocol := "ip", actions := [Normal]); MarshalFlow(net, f).Ok? && Restored(net, f)
    ensures var f := ZERO_FLOW.(protocol := "ip,tcp", actions := [Normal]);
            MarshalFlow(net, f).Ok? && !Restored(net, f)
  {
    hide Restored, MarshalFlow, PlainHead, GoodActions, WellBuiltActions;
    NormalFlow(net, "ip");
    NormalFlow(net, "ip,tcp");
    assert "ip,tcp"[2] == ',';
    FlowRoundTrips(net, ZERO_FLOW.(protocol := "ip", actions := [Normal]));
    FlowRoundTrips(net, ZERO_FLOW.(protocol := "ip,tcp", actions := [Normal]));
  }

  /**
    A text whose actions are a bare prefix, such as `actions=output:`, is read without an error and leaves
    a flow without actions, which cannot be printed.
   */
  lemma BareActionsAreLost(net: Library, f: Fields, b: string)
    requires ActionEnds.Bare(b) && TrimSpace(b) == b
    ensures UnmarshalFlow(net, f, ACTIONS + b) == Outcome(f.(matches := [], actions := []), None)
    ensures MarshalFlow(net, f.(matches := [], actions := [])) == Err(NoActions)
  {
    hide SplitOn, Contains, ParseAll, ActionEnds.Bare;
    EmptyWithoutActions();
    SplitAtActions("", b);
    assert "" + ACTIONS + b == ACTIONS + b;
    ActionEnds.BareHasNoEquals(b);
    assert ACTIONS[7] == '=';
    ContainsNeeds(b, ACTIONS, '=');
    SplitOne(b);
    EmptyPiece(f.(matches := []));
    ActionEnds.BareIsClean(b);
    ActionEnds.BareEndsList(net, [], [], b, []);
    assert Join([] + [b], ',') + [] == b;
  }
}
