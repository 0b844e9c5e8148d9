/** What was read, printed and read again: the exact conditions at the action parser and at the flow parser. */
module ReadBack {
  import opened Results
  import opened Bits
  import opened Text
  import opened Net
  import opened Actions
  import opened Matches
  import opened Flows
  import opened ActionParser
  import opened FlowRoundTrip
  import opened FlowExact
  import opened ActionImage
  import ActionDispatch
  import ActionRoundTrip
  import MatchParser
  import MatchRoundTrip

  // ---------------------------------------------------------------- where a read action comes from

  /** Text that stands at the front or at the end of another holds nothing the other does not. */
  lemma ContainsInside(x: string, t: string, y: string, sub: string)
    requires Contains(t, sub)
    ensures Contains(x + t + y, sub)
  {
    hide OccursAt;
    var i :| 0 <= i <= |t| - |sub| && OccursAt(t, sub, i);
    OccursLeft(t, y, sub, i);
    OccursRight(x, t + y, sub, i);
    assert x + t + y == x + (t + y);
  }

  /** The rest after a token is the end of the text. */
  lemma {:induction false} RestIsSuffix(s: string, depth: nat, buf: string) returns (x: string)
    requires ScanToken(s, depth, buf).Token?
    ensures s == x + ScanToken(s, depth, buf).rest
    decreases |s|
  {
    if s == [] {
      x := [];
    } else if s[0] == EOF || (s[0] == ',' && depth == 0) {
      x := [s[0]];
    } else {
      var y := RestIsSuffix(s[1..], NextDepth(s[0], depth), buf + [s[0]]);
      x := [s[0]] + y;
      assert s == [s[0]] + s[1..];
    }
  }

  /** Every action of a list was read from a token that stands in the text. */
  lemma {:induction false} ActionToken(net: Library, s: string, i: nat) returns (x: string, t: string, y: string)
    requires ParseAll(net, s).Ok? && i < |ParseAll(net, s).value.0|
    ensures ActionDispatch.ParseAction(net, t) == Ok(ParseAll(net, s).value.0[i])
    ensures s == x + t + y && Clean(t, 0)
    decreases i
  {
    hide ActionDispatch.ParseAction, ScanToken, ParseAll, Clean;
    var actions := ParseAll(net, s).value.0;
    FirstOfAll(net, s, actions);
    var first, rest := ScanToken(s, 0, []).text, ScanToken(s, 0, []).rest;
    if i == 0 {
      TokenIsClean(s, 0, []);
      assert first[0..] == first;
      x, t, y := [], first, s[|first|..];
    } else {
      var front := RestIsSuffix(s, 0, []);
      x, t, y := ActionToken(net, rest, i - 1);
      assert s == front + x + t + y;
      x := front + x;
    }
  }

  // ---------------------------------------------------------------- actions

  /** The free text of the action, printed, is a token of the action parser. */
  predicate IsToken(a: Action) {
    HasFreeText(a) && MarshalAction(a).Ok? ==> Clean(MarshalAction(a).value, 0)
  }

  /** The action can be printed, and its text is read as the list of just this action. */
  predicate ComesBack(net: Library, a: Action) {
    && MarshalAction(a).Ok?
    && var r := ParseAll(net, MarshalAction(a).value);
       r.Ok? && r.value.0 == [a]
  }

  /** An action whose arguments come back through the dispatch comes back through the parser if its text is a token. */
  lemma PrintedComesBack(net: Library, a: Action)
    requires MarshalAction(a).Ok? && ActionRoundTrip.Parseable(a) && ActionRoundTrip.WellBuilt(net, a)
    ensures ComesBack(net, a) <==> IsToken(a)
    ensures IsToken(a) ==> ParseAll(net, MarshalAction(a).value) == Ok(([a], [MarshalAction(a).value]))
  {
    hide MarshalAction, ActionDispatch.ParseAction, ParseAll, Clean, ActionRoundTrip.Parseable, HasFreeText;
    var text := MarshalAction(a).value;
    TextHasNoSpace(net, a);
    JoinOne(text);
    if IsToken(a) {
      if !HasFreeText(a) {
        FixedIsClean(net, a);
      }
      ActionRoundTrip.RoundTrips(net, a);
      ParseTokens(net, [text], [a]);
    }
    if ComesBack(net, a) {
      assert text + [] == text;
      ExactTokens(net, [a], [text], text, []);
      assert [text][0] == text;
    }
  }

  lemma FixedIsClean(net: Library, a: Action)
    requires MarshalAction(a).Ok? && !HasFreeText(a)
    requires ActionRoundTrip.Parseable(a) && ActionRoundTrip.WellBuilt(net, a)
    ensures Clean(MarshalAction(a).value, 0)
  {
    hide MarshalAction, Clean;
    FixedTextPlain(net, a);
  }

  lemma JoinOne(p: string)
    ensures Join([p], ',') == p
  {
  }

  /**
    An action of a list that was read can be printed and comes back through the parser if and only if its
    numbers and addresses are in range and its free text is a token.
   */
  lemma ReadActionComesBack(net: Library, s: string, i: nat)
    requires Lawful(net) && ParseAll(net, s).Ok? && i < |ParseAll(net, s).value.0|
    ensures var a := ParseAll(net, s).value.0[i]; ComesBack(net, a) <==> InRange(a) && IsToken(a)
  {
    hide ParseAll, MarshalAction, ActionDispatch.ParseAction, ActionRoundTrip.Parseable, InRange, IsToken;
    var a := ParseAll(net, s).value.0[i];
    var _, t, _ := ActionToken(net, s, i);
    ParsedMarshals(net, t, a);
    ParsedIsParseable(net, t, a);
    ParsedWellBuilt(net, t, a);
    if MarshalAction(a).Ok? {
      PrintedComesBack(net, a);
    }
  }

  /** For instance: the greedy group of ct keeps a parenthesis that it should not, and the text printed makes the parser panic. */
  lemma ParenthesisedCt(net: Library)
    ensures ParseAll(net, "(ct(a))") == Ok(([ConnectionTracking("a)")], ["(ct(a))"]))
    ensures InRange(ConnectionTracking("a)")) && MarshalAction(ConnectionTracking("a)")) == Ok("ct(a))")
    ensures !IsToken(ConnectionTracking("a)")) && ParseAll(net, "ct(a))") == Err(Panics)
  {
    hide ParseAll, ActionDispatch.ParseAction, ScanToken, Clean;
    CtOfParenthesised(net);
    ScanParenthesised();
    ParseTokens(net, ["(ct(a))"], [ConnectionTracking("a)")]);
    JoinOne("(ct(a))");
    CtTexts();
    ScanUnbalanced();
    Panicking(net, "ct(a))");
  }

  lemma CtTexts()
    ensures "ct(" + ("a)" + ")") == "ct(a))" && "a)" != ""
  {
  }

  lemma Panicking(net: Library, s: string)
    requires ScanToken(s, 0, []) == StackUnderflow
    ensures ParseAll(net, s) == Err(Panics)
  {
    hide ScanToken;
  }

  lemma ScanParenthesised()
    ensures GoodTokens(["(ct(a))"])
  {
    var s := "(ct(a))";
    assert Clean(s[7..], 0);
    assert s[6..] == [s[6]] + s[7..] && Clean(s[6..], 1);
    assert s[5..] == [s[5]] + s[6..] && Clean(s[5..], 2);
    assert s[4..] == [s[4]] + s[5..] && Clean(s[4..], 2);
    assert s[3..] == [s[3]] + s[4..] && Clean(s[3..], 1);
    assert s[2..] == [s[2]] + s[3..] && Clean(s[2..], 1);
    assert s[1..] == [s[1]] + s[2..] && Clean(s[1..], 1);
    assert Clean(s, 0);
  }

  lemma ScanUnbalanced()
    ensures ScanToken("ct(a))", 0, []) == StackUnderflow && !Clean("ct(a))", 0)
  {
    assert "ct(a))"[1..] == "t(a))" && "t(a))"[1..] == "(a))" && "(a))"[1..] == "a))";
    assert "a))"[1..] == "))" && "))"[1..] == ")";
  }

  lemma CtOfParenthesised(net: Library)
    ensures ActionDispatch.ParseAction(net, "(ct(a))") == Ok(ConnectionTracking("a)"))
  {
    hide ActionDispatch.FirstVerb, ActionDispatch.ParseVerb, ActionDispatch.ParsePatterns, ActionDispatch.Groups;
    var s := "(ct(a))";
    assert s[0] == '(' && '(' in s;
    ActionRoundTrip.NotSimple(s, '(');
    var r := "a))";
    assert s[1..4] == "ct(" && s[4..] == r;
    assert s[0..3] == "(ct";
    ActionRoundTrip.CtGroups("a)");
    assert "a)" + ")" == r;
    assert ActionDispatch.MatchAt(ActionDispatch.CtPattern, s, 1) == Some(["a)"]);
    assert ActionDispatch.MatchAt(ActionDispatch.CtPattern, s, 0).None?;
    assert ActionDispatch.FindSubmatch(ActionDispatch.CtPattern, s, 1) == Some(["a)"]);
  }

  // ---------------------------------------------------------------- flows that were read

  predicate IsEthernet(mac: string) {
    ParseMAC(mac).Some? && |ParseMAC(mac).value| == 6
  }

  /** An Ethernet address, with a wildcard mask after a slash if there is one. */
  predicate IsMaskedEthernet(mac: string) {
    var i := IndexOf(mac, '/');
    IsEthernet(mac[..i]) && (i < |mac| ==> IsEthernet(mac[i + 1..]))
  }

  /** A CIDR block or an address of the family. */
  predicate IsAddress(net: Library, ip: string, v4: bool) {
    if net.parseCIDR(ip).Some? then net.parseCIDR(ip).value == v4
    else net.parseIP(ip).Some? && net.parseIP(ip).value.v4 == v4
  }

  /** The addresses and numbers that the printer of matches accepts; the parser accepts more. */
  predicate MatchInRange(net: Library, m: Match) {
    match m
    case DataLinkSource(mac) => IsMaskedEthernet(mac)
    case DataLinkDestination(mac) => IsMaskedEthernet(mac)
    case DataLinkVLAN(vid) => ValidVLANVID(vid) || vid == VLAN_NONE
    case NetworkSource(ip) => IsAddress(net, ip, true)
    case NetworkDestination(ip) => IsAddress(net, ip, true)
    case ARPSourceProtocolAddress(ip) => IsAddress(net, ip, true)
    case ARPTargetProtocolAddress(ip) => IsAddress(net, ip, true)
    case IPv6Source(ip) => IsAddress(net, ip, false)
    case IPv6Destination(ip) => IsAddress(net, ip, false)
    case NeighborDiscoveryTarget(ip) => IsAddress(net, ip, false)
    case NeighborDiscoverySourceLinkLayer(addr) => |addr| == 6
    case NeighborDiscoveryTargetLinkLayer(addr) => |addr| == 6
    case ARPSourceHardwareAddress(addr) => |addr| == 6
    case ARPTargetHardwareAddress(addr) => |addr| == 6
    case _ => true
  }

  /** There are actions; numbers and addresses are in range; and `drop` stands alone. */
  predicate FlowInRange(net: Library, f: Fields) {
    && f.actions != []
    && (forall i :: 0 <= i < |f.actions| ==> InRange(f.actions[i]))
    && (forall i :: 0 <= i < |f.matches| ==> MatchInRange(net, f.matches[i]))
    && (|f.actions| > 1 ==> Drop !in f.actions)
  }

  predicate AllTokens(actions: seq<Action>) {
    forall i :: 0 <= i < |actions| ==> IsToken(actions[i])
  }

  lemma MatchMarshals(net: Library, m: Match)
    ensures MarshalMatch(net, m).Ok? <==> MatchInRange(net, m)
  {
    hide ParseMAC, MacText, FormatInt, PortText, Masked, Hex0x, KeyText;
  }

  /** The text that a flow's actions were read from. */
  lemma ActionsText(net: Library, f: Fields, text: string) returns (s: string)
    requires UnmarshalFlow(net, f, text).error.None?
    ensures ParseAll(net, s).Ok? && ParseAll(net, s).value.0 == UnmarshalFlow(net, f, text).flow.actions
    ensures !Contains(s, ACTIONS)
  {
    hide ParseAll, ApplyPieces, SplitOn, Split, TrimSpace, Contains, ApplyActions;
    var halves := SplitOn(text, ACTIONS);
    s := TrimSpace(halves[1]);
    var o := ApplyPieces(f.(matches := []), Split(TrimSpace(halves[0]), ','));
    ApplyActionsResult(net, o.flow, s);
    SecondHalf(text);
    TrimInside(halves[1]);
  }

  /** Of two parts, the second holds no separator. */
  lemma SecondHalf(text: string)
    requires |SplitOn(text, ACTIONS)| == 2
    ensures !Contains(SplitOn(text, ACTIONS)[1], ACTIONS)
  {
    hide Contains;
    var i := FindFrom(text, ACTIONS, 0);
    if i.Some? {
      SplitOne(text[i.value + |ACTIONS|..]);
    }
  }

  lemma {:induction false} TrimLeftSuffix(s: string) returns (x: string)
    ensures s == x + TrimLeft(s)
  {
    hide IsSpace;
    x := [];
    if s != [] && IsSpace(s[0]) {
      var y := TrimLeftSuffix(s[1..]);
      x := [s[0]] + y;
      assert s == [s[0]] + s[1..];
    }
  }

  lemma TrimInside(s: string)
    ensures Contains(TrimSpace(s), ACTIONS) ==> Contains(s, ACTIONS)
  {
    hide Contains, TrimLeft, TrimRight;
    var x := TrimLeftSuffix(s);
    var t := TrimLeft(s);
    TrimRightParts(t);
    var y := t[|TrimRight(t)|..];
    assert s == x + TrimRight(t) + y;
    if Contains(TrimSpace(s), ACTIONS) {
      ContainsInside(x, TrimRight(t), y, ACTIONS);
    }
  }

  /** What is known of every action of a list that was read from a text without "actions=". */
  lemma ReadAction(net: Library, s: string, i: nat)
    requires Lawful(net) && ParseAll(net, s).Ok? && i < |ParseAll(net, s).value.0| && !Contains(s, ACTIONS)
    ensures var a := ParseAll(net, s).value.0[i];
            && ActionRoundTrip.Parseable(a) && ActionRoundTrip.WellBuilt(net, a)
            && (MarshalAction(a).Ok? <==> InRange(a))
            && (GoodAction(a) <==> IsToken(a))
  {
    hide ParseAll, MarshalAction, ActionDispatch.ParseAction, ActionRoundTrip.Parseable, InRange, Contains, Clean;
    hide HasFreeText;
    var a := ParseAll(net, s).value.0[i];
    var x, t, y := ActionToken(net, s, i);
    ParsedMarshals(net, t, a);
    ParsedIsParseable(net, t, a);
    ParsedWellBuilt(net, t, a);
    if HasFreeText(a) {
      var u, v := FreeTextOccurs(net, t, a);
      FreeTextHasNoSpace(a);
      if Contains(MarshalAction(a).value, ACTIONS) {
        ContainsInside(u, MarshalAction(a).value, v, ACTIONS);
        ContainsInside(x, t, y, ACTIONS);
      }
    }
  }

  /** Only `drop` is printed as "drop". */
  lemma OnlyDrop(net: Library, a: Action)
    requires ActionRoundTrip.Parseable(a) && ActionRoundTrip.WellBuilt(net, a)
    ensures MarshalAction(a) == Ok("drop") <==> a == Drop
  {
    hide ActionDispatch.ParseAction, ActionRoundTrip.Parseable;
    assert MarshalAction(Drop) == Ok("drop");
    ActionRoundTrip.NameRoundTrip(net, Drop);
    if MarshalAction(a) == Ok("drop") {
      ActionRoundTrip.RoundTrips(net, a);
    }
  }

  /** A flow that was read without an error can be printed if and only if it is in range. */
  lemma ReadFlowPrints(net: Library, text: string)
    requires Lawful(net) && UnmarshalFlow(net, ZERO_FLOW, text).error.None?
    ensures var f := UnmarshalFlow(net, ZERO_FLOW, text).flow; MarshalFlow(net, f).Ok? <==> FlowInRange(net, f)
  {
    hide UnmarshalFlow, ParseAll, Contains, ActionTexts, MatchTexts, MarshalAction, MarshalMatch, InRange;
    hide MatchInRange, FlowText, GoodAction, IsToken, ActionRoundTrip.Parseable;
    var f := UnmarshalFlow(net, ZERO_FLOW, text).flow;
    var s := ActionsText(net, ZERO_FLOW, text);
    ActionTextsOk(f.actions);
    MatchTextsOk(net, f.matches);
    forall i | 0 <= i < |f.actions|
      ensures MarshalAction(f.actions[i]).Ok? <==> InRange(f.actions[i])
      ensures MarshalAction(f.actions[i]) == Ok("drop") <==> f.actions[i] == Drop
    {
      ReadAction(net, s, i);
      OnlyDrop(net, f.actions[i]);
    }
    forall i | 0 <= i < |f.matches|
      ensures MarshalMatch(net, f.matches[i]).Ok? <==> MatchInRange(net, f.matches[i])
    {
      MatchMarshals(net, f.matches[i]);
    }
    if ActionTexts(f.actions).Ok? {
      DropTexts(f.actions, ActionTexts(f.actions).value);
    }
  }

  lemma DropTexts(actions: seq<Action>, texts: seq<string>)
    requires |actions| == |texts|
    requires forall i :: 0 <= i < |actions| ==> MarshalAction(actions[i]) == Ok(texts[i])
    requires forall i :: 0 <= i < |actions| ==> (MarshalAction(actions[i]) == Ok("drop") <==> actions[i] == Drop)
    ensures "drop" in texts <==> Drop in actions
  {
    hide MarshalAction;
    if "drop" in texts {
      var i :| 0 <= i < |texts| && texts[i] == "drop";
      assert actions[i] == Drop;
    }
    if Drop in actions {
      var i :| 0 <= i < |actions| && actions[i] == Drop;
      assert texts[i] == "drop";
    }
  }

  /** Its actions are good, for the flow round trip, exactly if their texts are tokens and do not end in white space. */
  lemma ReadActionsGood(net: Library, text: string)
    requires Lawful(net) && UnmarshalFlow(net, ZERO_FLOW, text).error.None?
    ensures var actions := UnmarshalFlow(net, ZERO_FLOW, text).flow.actions;
            && WellBuiltActions(net, actions)
            && (GoodActions(actions) <==> AllTokens(actions) && EndsPlain(actions))
  {
    hide UnmarshalFlow, ParseAll, Contains, GoodAction, IsToken, ActionRoundTrip.Parseable, EndsPlain, MarshalAction;
    hide InRange;
    var actions := UnmarshalFlow(net, ZERO_FLOW, text).flow.actions;
    var s := ActionsText(net, ZERO_FLOW, text);
    forall i | 0 <= i < |actions|
      ensures ActionRoundTrip.WellBuilt(net, actions[i]) && (GoodAction(actions[i]) <==> IsToken(actions[i]))
    {
      ReadAction(net, s, i);
    }
  }

  /**
    A flow that was read without an error, printed and read again: it is restored if and only if it is in
    range, every free text is a token, and the last one does not end in white space.
   */
  lemma ReadFlowRestored(net: Library, text: string)
    requires Lawful(net) && UnmarshalFlow(net, ZERO_FLOW, text).error.None?
    ensures var f := UnmarshalFlow(net, ZERO_FLOW, text).flow;
            && (MarshalFlow(net, f).Ok? ==> (Restored(net, f) <==> GoodActions(f.actions)))
            && (MarshalFlow(net, f).Ok? && Restored(net, f) <==>
                FlowInRange(net, f) && AllTokens(f.actions) && EndsPlain(f.actions))
  {
    hide UnmarshalFlow, MarshalFlow, Restored, PlainHead, GoodActions, WellBuiltActions, FlowInRange, AllTokens, EndsPlain;
    var f := UnmarshalFlow(net, ZERO_FLOW, text).flow;
    ReadFlowPrints(net, text);
    ReadActionsGood(net, text);
    ParsedHeadIsPlain(net, ZERO_FLOW, text);
    if MarshalFlow(net, f).Ok? {
      FlowRoundTrips(net, f);
    }
  }

  /** For instance: a text that is no address is read as a network source, which cannot be printed. */
  lemma NoAddressIsRead(net: Library, f: Fields, ip: string)
    requires PlainValue(ip) && net.parseIP(ip).None? && net.parseCIDR(ip).None?
    ensures ApplyPiece(f, "nw_src" + "=" + ip) == Outcome(f.(matches := f.matches + [NetworkSource(ip)]), None)
    ensures MarshalMatch(net, NetworkSource(ip)) == Err(MatchError.InvalidIPv4)
  {
    hide ApplyPiece, ApplyKey;
    assert MatchParser.LookupKey(KeyText(NwSrc)) == Some(NwSrc) by {
      MatchRoundTrip.LookupFinds(NwSrc);
    }
    MatchRoundTrip.KeyChars(NwSrc);
    PieceSplits(f, "nw_src", ip);
    MatchKeyApplies(f, NwSrc, ip);
  }

  /** The flow it stands in is read without an error, and cannot be printed. */
  lemma UnprintableFlow(net: Library, ip: string)
    requires PlainValue(ip) && net.parseIP(ip).None? && net.parseCIDR(ip).None?
    ensures var o := UnmarshalFlow(net, ZERO_FLOW, "nw_src" + "=" + ip + "," + ACTIONS + "normal");
            && o == Outcome(ZERO_FLOW.(matches := [NetworkSource(ip)], actions := [Normal]), None)
            && MarshalFlow(net, o.flow) == Err(InMatch(MatchError.InvalidIPv4))
  {
    hide SplitOn, Split, TrimSpace, ApplyPiece, ParseAll, HeadPiece, MarshalMatch, Join, Contains;
    var piece := "nw_src" + "=" + ip;
    var head := Join([piece], ',') + ",";
    JoinOne(piece);
    KeyValuePiece("nw_src", ip);
    HeadSplits([piece]);
    SplitAtActions(head, "normal");
    NormalText(net);
    NoAddressIsRead(net, ZERO_FLOW, ip);
    var g := ZERO_FLOW.(matches := [NetworkSource(ip)]);
    assert ZERO_FLOW.matches + [NetworkSource(ip)] == [NetworkSource(ip)];
    TwoPieces(ZERO_FLOW, piece, g);
    NormalAndMatch(net, ip);
  }

  lemma NormalText(net: Library)
    ensures SplitOn("normal", ACTIONS) == ["normal"] && TrimSpace("normal") == "normal"
    ensures ParseAll(net, "normal") == Ok(([Normal], ["normal"]))
  {
    hide ParseAll, SplitOn, TrimSpace;
    assert ACTIONS[7] == '=';
    ContainsNeeds("normal", ACTIONS, '=');
    SplitOne("normal");
    NothingToTrim("normal");
    PrintedComesBack(net, Normal);
  }

  lemma TwoPieces(f: Fields, piece: string, g: Fields)
    requires ApplyPiece(f, piece) == Outcome(g, None)
    ensures ApplyPieces(f, [piece] + [""]) == Outcome(g, None)
  {
    hide ApplyPiece;
    ApplyOne(f, piece);
    ApplyAppend(f, [piece], [""]);
    EmptyPiece(g);
  }

  lemma NormalAndMatch(net: Library, ip: string)
    requires MarshalMatch(net, NetworkSource(ip)) == Err(MatchError.InvalidIPv4)
    ensures MarshalFlow(net, ZERO_FLOW.(matches := [NetworkSource(ip)], actions := [Normal])) ==
            Err(InMatch(MatchError.InvalidIPv4))
  {
    hide MarshalMatch;
    var ms, actions := [NetworkSource(ip)], [Normal];
    assert ms[..|ms| - 1] == [] && MatchTexts(net, ms[..|ms| - 1]) == Ok([]);
    assert actions[..|actions| - 1] == [] && ActionTexts(actions[..|actions| - 1]) == Ok([]);
  }
}
