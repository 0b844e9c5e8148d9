/**
  The round trip of a whole flow: what `MarshalText` prints for a plain flow, `UnmarshalText` reads
  back into the same fields and actions and into matches with the same text.

  The text is a comma join of pieces, the last of which is `actions=` and the actions. The proof
  follows the parser. No piece of the head holds `actions=`, so the text splits where it should
  (`TextComesApart`). The head splits at its commas into its pieces, and each piece sets the field it
  was printed from (`HeadApplies`). The texts of the actions are tokens of the action parser, which
  gives the actions back (`ActionsParse`).

  The last part goes the other way: whatever is read, protocol and flags come out plain.
 */
module FlowRoundTrip {
  import opened Results
  import opened Bits
  import opened Text
  import opened Net
  import opened Actions
  import opened Matches
  import opened MatchParser
  import opened Flows
  import ActionDispatch
  import ActionImage
  import ActionParser
  import ActionRoundTrip
  import MatchRoundTrip

  // ---------------------------------------------------------------- well-formed flows

  /** Text that survives being cut at "," and "=" and trimmed. */
  predicate PlainValue(v: string) {
    ',' !in v && '=' !in v && TrimSpace(v) == v
  }

  predicate PlainProtocol(s: string) {
    ',' !in s && '=' !in s
  }

  /** Only the flags of ct_state and tcp_flags are free text. */
  predicate PlainMatch(m: Match) {
    m.ConnectionTrackingState? || m.TCPFlags? ==> |Concat(m.flags)| % 4 == 0 && PlainValue(Concat(m.flags))
  }

  /** A balanced text with its commas inside parentheses, no NUL, no "actions=" and no space in front. */
  predicate TokenText(t: string) {
    t != [] && ActionParser.Clean(t, 0) && !Contains(t, ACTIONS) && !IsSpace(t[0])
  }

  predicate PlainText(t: string) {
    TokenText(t) && NoSpace(t)
  }

  /** Only ct, load and set_field carry free text. */
  predicate GoodAction(a: Action) {
    ActionRoundTrip.Parseable(a) && (ActionImage.HasFreeText(a) && MarshalAction(a).Ok? ==> TokenText(MarshalAction(a).value))
  }

  /** The text of the last action does not end in white space. */
  predicate EndsPlain(actions: seq<Action>) {
    actions != [] ==>
      var a := actions[|actions| - 1];
      ActionImage.HasFreeText(a) && MarshalAction(a).Ok? ==> !IsSpace(MarshalAction(a).value[|MarshalAction(a).value| - 1])
  }

  predicate PlainHead(f: Fields) {
    PlainProtocol(f.protocol) && forall i :: 0 <= i < |f.matches| ==> PlainMatch(f.matches[i])
  }

  predicate GoodActions(actions: seq<Action>) {
    EndsPlain(actions) && forall i :: 0 <= i < |actions| ==> GoodAction(actions[i])
  }

  ghost predicate WellBuiltActions(net: Library, actions: seq<Action>) {
    forall i :: 0 <= i < |actions| ==> ActionRoundTrip.WellBuilt(net, actions[i])
  }

  // ---------------------------------------------------------------- match values are plain

  lemma NothingToTrim(s: string)
    requires s == [] || (!IsSpace(s[0]) && !IsSpace(s[|s| - 1]))
    ensures TrimSpace(s) == s
  {
  }

  /** The characters of printed numbers and addresses. */
  predicate ValueChar(c: char) {
    AddressChar(c) || c == 'x' || c == '-'
  }

  predicate ValueChars(s: string) {
    forall i :: 0 <= i < |s| ==> ValueChar(s[i])
  }

  lemma ValueCharsPlain(v: string)
    requires ValueChars(v)
    ensures PlainValue(v)
  {
    NothingToTrim(v);
  }

  lemma IntChars(n: int)
    ensures ValueChars(FormatInt(n))
  {
    FormatIntChars(n);
  }

  lemma HexChars(n: nat, width: nat)
    ensures ValueChars(Hex0x(n, width))
  {
    FormatHexPaddedDigits(n, width);
  }

  lemma MaskedChars(value: nat, mask: nat, width: nat)
    ensures ValueChars(Masked(value, mask, width))
  {
    HexChars(value, width);
    HexChars(mask, width);
  }

  lemma MacValueChars(a: HardwareAddr)
    ensures ValueChars(MacText(a))
  {
    MacChars(a);
  }

  lemma MacMaskChars(mac: string)
    requires MarshalMacMask(mac).Ok?
    ensures ValueChars(MarshalMacMask(mac).value)
  {
    hide ParseMAC, MacText;
    var i := IndexOf(mac, '/');
    MacValueChars(ParseMAC(mac[..i]).value);
    if i < |mac| {
      MacValueChars(ParseMAC(mac[i + 1..]).value);
    }
  }

  lemma AddressValueChars(net: Library, ip: string, v4: bool)
    requires Lawful(net) && MarshalAddress(net, ip, v4).Ok?
    ensures ValueChars(MarshalAddress(net, ip, v4).value)
  {
    if net.parseCIDR(ip).None? {
      assert Canonical(net, net.parseIP(ip).value);
    }
  }

  lemma NumericValueChars(net: Library, m: Match)
    requires || m.DataLinkType? || m.DataLinkVLAN? || m.ConjunctionID? || m.NetworkProtocol? || m.ICMPType?
             || m.TransportSourcePort? || m.TransportDestinationPort? || m.VLANTCI?
             || m.ConnectionTrackingMark? || m.ConnectionTrackingZone? || m.TunnelID?
    requires MarshalValue(net, m).Ok?
    ensures ValueChars(MarshalValue(net, m).value)
  {
    hide FormatInt, Hex0x, Masked;
    match m
    case DataLinkType(t) => HexChars(t, 4);
    case DataLinkVLAN(vid) => IntChars(vid);
    case ConjunctionID(id) => IntChars(id);
    case NetworkProtocol(num) => IntChars(num);
    case ICMPType(num) => IntChars(num);
    case TransportSourcePort(port, mask) =>
      IntChars(port);
      MaskedChars(port, mask, 4);
    case TransportDestinationPort(port, mask) =>
      IntChars(port);
      MaskedChars(port, mask, 4);
    case VLANTCI(tci, mask) => MaskedChars(tci, mask, 4);
    case ConnectionTrackingMark(mark, mask) => MaskedChars(mark, mask, 8);
    case ConnectionTrackingZone(zone) => IntChars(zone);
    case TunnelID(id, mask) => MaskedChars(id, mask, 0);
  }

  lemma AddressMatchChars(net: Library, m: Match)
    requires || m.DataLinkSource? || m.DataLinkDestination? || m.NetworkSource? || m.NetworkDestination?
             || m.IPv6Source? || m.IPv6Destination? || m.NeighborDiscoveryTarget?
             || m.NeighborDiscoverySourceLinkLayer? || m.NeighborDiscoveryTargetLinkLayer?
             || m.ARPSourceHardwareAddress? || m.ARPTargetHardwareAddress?
             || m.ARPSourceProtocolAddress? || m.ARPTargetProtocolAddress?
    requires Lawful(net) && MarshalValue(net, m).Ok?
    ensures ValueChars(MarshalValue(net, m).value)
  {
    hide MarshalMacMask, MarshalAddress, MacText, ValueChars;
    if m.DataLinkSource? || m.DataLinkDestination? {
      MacMaskChars(m.mac);
    } else if || m.NeighborDiscoverySourceLinkLayer? || m.NeighborDiscoveryTargetLinkLayer?
              || m.ARPSourceHardwareAddress? || m.ARPTargetHardwareAddress? {
      MacValueChars(m.addr);
    } else {
      AddressValueChars(net, m.ip, !(m.IPv6Source? || m.IPv6Destination? || m.NeighborDiscoveryTarget?));
    }
  }

  lemma MatchValuePlain(net: Library, m: Match)
    requires Lawful(net) && MarshalValue(net, m).Ok? && PlainMatch(m)
    ensures PlainValue(MarshalValue(net, m).value)
  {
    if m.ConnectionTrackingState? || m.TCPFlags? {
      assert MarshalValue(net, m).value == Concat(m.flags);
    } else {
      hide MarshalValue, PlainValue, ValueChars;
      if || m.DataLinkType? || m.DataLinkVLAN? || m.ConjunctionID? || m.NetworkProtocol? || m.ICMPType?
         || m.TransportSourcePort? || m.TransportDestinationPort? || m.VLANTCI?
         || m.ConnectionTrackingMark? || m.ConnectionTrackingZone? || m.TunnelID? {
        NumericValueChars(net, m);
      } else {
        AddressMatchChars(net, m);
      }
      ValueCharsPlain(MarshalValue(net, m).value);
    }
  }

  // ---------------------------------------------------------------- one piece

  lemma PieceSplits(f: Fields, key: string, value: string)
    requires '=' !in key && PlainValue(value)
    ensures ApplyPiece(f, key + "=" + value) == ApplyKey(f, key, value)
  {
    hide ApplyKey;
    var piece := key + "=" + value;
    assert piece[|key|] == '=';
    SplitFirst(key, value, '=');
    SplitSingle(value, '=');
  }

  predicate Reserved(key: string) {
    || key == "priority" || key == "cookie" || key == "actions" || key == "in_port" || key == "idle_timeout"
    || key == "table" || IgnoredKey(key)
  }

  /** Length and the first two characters tell the keys of matches from the others. */
  lemma KeyNotReserved(k: Key)
    ensures !Reserved(KeyText(k))
  {
    var s := KeyText(k);
    var a, b := s[0], s[1];
    assert (a == 'c' && b == 'o' ==> |s| == 7) && a != 'p' && a != 'h' && !(a == 'i' && b == 'n');
    assert !(a == 'i' && b == 'd') && !(a == 't' && b == 'a') && !(a == 'd' && b == 'u') && !(a == 'n' && b == '_');
    assert !(a == 'a' && b == 'c');
  }

  /** What the parser makes of the text of a match. */
  ghost function Reparse(net: Library, m: Match): Match
    requires MarshalMatch(net, m).Ok?
  {
    var r := ParseMatch(KeyText(KeyOf(m)), MarshalValue(net, m).value);
    if r.Ok? then r.value else m
  }

  lemma MatchKeyApplies(f: Fields, k: Key, value: string)
    requires ParseMatch(KeyText(k), value).Ok?
    ensures ApplyKey(f, KeyText(k), value) ==
            Outcome(f.(matches := f.matches + [ParseMatch(KeyText(k), value).value]), None)
  {
    hide ParseMatch, KeyText;
    MatchRoundTrip.KeyChars(k);
    NothingToTrim(KeyText(k));
    KeyNotReserved(k);
  }

  /** The piece of a match appends a match with the same text. */
  lemma MatchPiece(net: Library, f: Fields, m: Match)
    requires Lawful(net) && MarshalMatch(net, m).Ok? && PlainMatch(m)
    ensures MarshalMatch(net, Reparse(net, m)) == MarshalMatch(net, m)
    ensures MatchRoundTrip.SameMatch(net, m, Reparse(net, m))
    ensures ApplyPiece(f, MarshalMatch(net, m).value) == Outcome(f.(matches := f.matches + [Reparse(net, m)]), None)
  {
    hide ParseMatch, KeyText, MarshalValue, ApplyPiece, ApplyKey, KeyOf, MatchRoundTrip.SameMatch;
    var value := MarshalValue(net, m).value;
    MatchValuePlain(net, m);
    MatchRoundTrip.MatchRoundTrips(net, m);
    MatchRoundTrip.KeyChars(KeyOf(m));
    PieceSplits(f, KeyText(KeyOf(m)), value);
    MatchKeyApplies(f, KeyOf(m), value);
  }

  lemma NumberPiece(f: Fields, n: int64)
    ensures ApplyPiece(f, "priority" + "=" + FormatInt(n)) == Outcome(f.(priority := n), None)
    ensures ApplyPiece(f, "table" + "=" + FormatInt(n)) == Outcome(f.(table := n), None)
    ensures ApplyPiece(f, "idle_timeout" + "=" + FormatInt(n)) == Outcome(f.(idleTimeout := n), None)
  {
    hide FormatInt, ApplyPiece, ParseInt, PlainValue;
    IntRoundTrip(n);
    IntChars(n);
    ValueCharsPlain(FormatInt(n));
    NothingToTrim("priority");
    NothingToTrim("table");
    NothingToTrim("idle_timeout");
    PieceSplits(f, "priority", FormatInt(n));
    PieceSplits(f, "table", FormatInt(n));
    PieceSplits(f, "idle_timeout", FormatInt(n));
  }

  lemma PortPiece(f: Fields, n: int64)
    ensures ApplyPiece(f, "in_port" + "=" + (if n == PORT_LOCAL then "LOCAL" else FormatInt(n))) ==
            Outcome(f.(inPort := n), None)
  {
    hide FormatInt, ApplyPiece, ParseInt;
    NothingToTrim("in_port");
    if n == PORT_LOCAL {
      NothingToTrim("LOCAL");
      PieceSplits(f, "in_port", "LOCAL");
    } else {
      IntRoundTrip(n);
      IntChars(n);
      var s := FormatInt(n);
      ValueCharsPlain(s);
      assert ValueChar(s[0]);
      assert s != "LOCAL";
      PieceSplits(f, "in_port", s);
    }
  }

  lemma CookiePiece(f: Fields, n: uint64)
    ensures ApplyPiece(f, "cookie" + "=" + PaddedHex(n)) == Outcome(f.(cookie := n), None)
  {
    hide ApplyPiece, FormatHexPadded, PlainValue, DigitsValue;
    NothingToTrim("cookie");
    FormatHexPaddedDigits(n, 16);
    var s := PaddedHex(n);
    assert s[2..] == FormatHexPadded(n, 16);
    assert ValueChars(s);
    ValueCharsPlain(s);
    PieceSplits(f, "cookie", s);
  }

  // ---------------------------------------------------------------- the pieces one after the other

  lemma {:induction false} ApplyAppend(f: Fields, ps: seq<string>, qs: seq<string>)
    requires ApplyPieces(f, ps).error.None?
    ensures ApplyPieces(f, ps + qs) == ApplyPieces(ApplyPieces(f, ps).flow, qs)
    decreases |ps|
  {
    hide ApplyPiece;
    var all := ps + qs;
    if ps == [] {
      assert all == qs;
    } else {
      assert all[0] == ps[0] && all[1..] == ps[1..] + qs;
      ApplyAppend(ApplyPiece(f, ps[0]).flow, ps[1..], qs);
    }
  }

  lemma ApplyOne(f: Fields, p: string)
    ensures ApplyPieces(f, [p]) == ApplyPiece(f, p)
  {
    hide ApplyPiece;
  }

  ghost function ReparseAll(net: Library, ms: seq<Match>): (r: seq<Match>)
    requires forall i :: 0 <= i < |ms| ==> MarshalMatch(net, ms[i]).Ok?
    ensures |r| == |ms|
    ensures forall i :: 0 <= i < |ms| ==> r[i] == Reparse(net, ms[i])
  {
    seq(|ms|, i requires 0 <= i < |ms| => Reparse(net, ms[i]))
  }

  lemma {:induction false} MatchPieces(net: Library, f: Fields, ms: seq<Match>)
    requires Lawful(net) && MatchTexts(net, ms).Ok?
    requires forall i :: 0 <= i < |ms| ==> MarshalMatch(net, ms[i]).Ok? && PlainMatch(ms[i])
    ensures ApplyPieces(f, MatchTexts(net, ms).value) == Outcome(f.(matches := f.matches + ReparseAll(net, ms)), None)
    decreases |ms|
  {
    hide ApplyPiece, PlainMatch, MarshalMatch, Reparse;
    if ms == [] {
      assert f.matches + ReparseAll(net, ms) == f.matches;
    } else {
      var n := |ms| - 1;
      var texts := MatchTexts(net, ms[..n]).value;
      var t := MarshalMatch(net, ms[n]).value;
      MatchPieces(net, f, ms[..n]);
      ApplyAppend(f, texts, [t]);
      var g := ApplyPieces(f, texts).flow;
      ApplyOne(g, t);
      MatchPiece(net, g, ms[n]);
      assert ReparseAll(net, ms) == ReparseAll(net, ms[..n]) + [Reparse(net, ms[n])];
      assert f.matches + ReparseAll(net, ms) == f.matches + ReparseAll(net, ms[..n]) + [Reparse(net, ms[n])];
    }
  }

  /** The matches `rs` are the matches `ms` again, one by one. */
  predicate SameMatches(net: Library, ms: seq<Match>, rs: seq<Match>) {
    |rs| == |ms| && forall i :: 0 <= i < |ms| ==> MatchRoundTrip.SameMatch(net, ms[i], rs[i])
  }

  lemma ReparsedTexts(net: Library, ms: seq<Match>)
    requires Lawful(net) && MatchTexts(net, ms).Ok?
    requires forall i :: 0 <= i < |ms| ==> MarshalMatch(net, ms[i]).Ok? && PlainMatch(ms[i])
    ensures MatchTexts(net, ReparseAll(net, ms)) == MatchTexts(net, ms)
    ensures SameMatches(net, ms, ReparseAll(net, ms))
  {
    hide PlainMatch, MarshalMatch, Reparse, MatchTexts, MatchRoundTrip.SameMatch;
    var rs := ReparseAll(net, ms);
    MatchTextsOk(net, ms);
    MatchTextsOk(net, rs);
    forall i | 0 <= i < |ms|
      ensures MarshalMatch(net, rs[i]) == MarshalMatch(net, ms[i]) && MatchRoundTrip.SameMatch(net, ms[i], rs[i])
    {
      MatchPiece(net, ZERO_FLOW, ms[i]);
    }
    assert MatchTexts(net, rs).Ok?;
    assert MatchTexts(net, rs).value == MatchTexts(net, ms).value;
  }

  lemma ProtocolPiecesApply(f: Fields, g: Fields)
    requires PlainProtocol(f.protocol) && g.protocol == ""
    ensures ApplyPieces(g, ProtocolPieces(f)) == Outcome(g.(protocol := f.protocol), None)
  {
    if f.protocol != "" {
      ApplyOne(g, f.protocol);
    }
  }

  lemma PortPiecesApply(f: Fields, g: Fields)
    requires g.inPort == 0
    ensures ApplyPieces(g, PortPieces(f)) == Outcome(g.(inPort := f.inPort), None)
  {
    hide ApplyPiece, FormatInt;
    if f.inPort != 0 {
      ApplyOne(g, PortPieces(f)[0]);
      PortPiece(g, f.inPort);
      assert "in_port" + "=" == "in_port=";
    }
  }

  lemma CookiePiecesApply(f: Fields, g: Fields)
    requires g.cookie == 0
    ensures ApplyPieces(g, CookiePieces(f)) == Outcome(g.(cookie := f.cookie), None)
  {
    hide ApplyPiece, PaddedHex;
    if f.cookie != 0 {
      ApplyOne(g, CookiePieces(f)[0]);
      CookiePiece(g, f.cookie);
      assert "cookie" + "=" == "cookie=";
    }
  }

  lemma NumberPieces(f: Fields, g: Fields)
    ensures ApplyPieces(g, [PriorityPiece(f)]) == Outcome(g.(priority := f.priority), None)
    ensures ApplyPieces(g, [TablePiece(f), TimeoutPiece(f)]) ==
            Outcome(g.(table := f.table, idleTimeout := f.idleTimeout), None)
  {
    hide ApplyPiece, FormatInt;
    assert "priority" + "=" == "priority=" && "table" + "=" == "table=" && "idle_timeout" + "=" == "idle_timeout=";
    ApplyOne(g, PriorityPiece(f));
    NumberPiece(g, f.priority);
    var h := g.(table := f.table);
    NumberPiece(g, f.table);
    NumberPiece(h, f.idleTimeout);
    ApplyOne(g, TablePiece(f));
    ApplyOne(h, TimeoutPiece(f));
    ApplyAppend(g, [TablePiece(f)], [TimeoutPiece(f)]);
    assert [TablePiece(f)] + [TimeoutPiece(f)] == [TablePiece(f), TimeoutPiece(f)];
  }

  /** Reading the head of a flow into the zero flow restores everything but the actions. */
  lemma HeadApplies(net: Library, f: Fields)
    requires Lawful(net) && PlainProtocol(f.protocol) && MatchTexts(net, f.matches).Ok?
    requires forall i :: 0 <= i < |f.matches| ==> MarshalMatch(net, f.matches[i]).Ok? && PlainMatch(f.matches[i])
    ensures ApplyPieces(ZERO_FLOW, HeadPieces(f, MatchTexts(net, f.matches).value) + [""]) ==
            Outcome(f.(matches := ReparseAll(net, f.matches), actions := []), None)
  {
    hide ApplyPieces, ApplyPiece, MatchTexts, PriorityPiece, TablePiece, TimeoutPiece, ProtocolPieces, PortPieces, CookiePieces;
    hide MarshalMatch, PlainMatch;
    var texts := MatchTexts(net, f.matches).value;
    var ms := ReparseAll(net, f.matches);
    var g0 := ZERO_FLOW;
    var g1 := g0.(priority := f.priority);
    var g2 := g1.(protocol := f.protocol);
    var g3 := g2.(inPort := f.inPort);
    var g4 := g3.(matches := ms);
    var g5 := g4.(table := f.table, idleTimeout := f.idleTimeout);
    var g6 := g5.(cookie := f.cookie);
    var p1 := [PriorityPiece(f)];
    NumberPieces(f, g0);
    ProtocolPiecesApply(f, g1);
    ApplyAppend(g0, p1, ProtocolPieces(f));
    var p2 := p1 + ProtocolPieces(f);
    PortPiecesApply(f, g2);
    ApplyAppend(g0, p2, PortPieces(f));
    var p3 := p2 + PortPieces(f);
    MatchPieces(net, g3, f.matches);
    assert g3.matches + ms == ms;
    ApplyAppend(g0, p3, texts);
    var p4 := p3 + texts;
    NumberPieces(f, g4);
    ApplyAppend(g0, p4, [TablePiece(f), TimeoutPiece(f)]);
    var p5 := p4 + [TablePiece(f), TimeoutPiece(f)];
    CookiePiecesApply(f, g5);
    ApplyAppend(g0, p5, CookiePieces(f));
    var p6 := p5 + CookiePieces(f);
    EmptyPiece(g6);
    ApplyAppend(g0, p6, [""]);
  }

  lemma EmptyPiece(f: Fields)
    ensures ApplyPieces(f, [""]) == Outcome(f, None)
  {
    ApplyOne(f, "");
  }

  // ---------------------------------------------------------------- finding the actions

  predicate HeadPiece(p: string) {
    ',' !in p && !Contains(p, ACTIONS)
  }

  /** A `key=value` piece holds "actions=" only if its key ends with "actions". */
  lemma KeyValuePiece(key: string, value: string)
    requires '=' !in key && ',' !in key && '=' !in value && ',' !in value
    requires |key| >= 2 && (key[|key| - 1] != 's' || key[|key| - 2] != 'n')
    ensures HeadPiece(key + "=" + value)
  {
    var p := key + "=" + value;
    if Contains(p, ACTIONS) {
      var i :| 0 <= i <= |p| - |ACTIONS| && OccursAt(p, ACTIONS, i);
      ActionsInPiece(key, value, i);
    }
  }

  lemma ActionsInPiece(key: string, value: string, i: int)
    requires '=' !in key && '=' !in value && OccursAt(key + "=" + value, ACTIONS, i)
    ensures |key| >= 7 && key[|key| - 1] == 's' && key[|key| - 2] == 'n'
  {
    var p := key + "=" + value;
    OccursChars(p, ACTIONS, i);
    assert p[i + 7] == ACTIONS[7] == '=';
    assert p[i + 6] == ACTIONS[6] == 's' && p[i + 5] == ACTIONS[5] == 'n';
    assert i + 7 == |key|;
  }

  lemma KeyEnds(k: Key)
    ensures var s := KeyText(k); s[|s| - 1] != 's' || s[|s| - 2] != 'n'
  {
  }

  lemma MatchHeadPiece(net: Library, m: Match)
    requires Lawful(net) && MarshalMatch(net, m).Ok? && PlainMatch(m)
    ensures HeadPiece(MarshalMatch(net, m).value)
  {
    hide MarshalValue, KeyText, KeyOf, HeadPiece;
    MatchValuePlain(net, m);
    MatchRoundTrip.KeyChars(KeyOf(m));
    KeyEnds(KeyOf(m));
    KeyValuePiece(KeyText(KeyOf(m)), MarshalValue(net, m).value);
  }

  lemma NumberHeadPieces(f: Fields)
    ensures HeadPiece(PriorityPiece(f)) && HeadPiece(TablePiece(f)) && HeadPiece(TimeoutPiece(f))
  {
    hide HeadPiece, FormatInt;
    IntChars(f.priority);
    IntChars(f.table);
    IntChars(f.idleTimeout);
    KeyValuePiece("priority", FormatInt(f.priority));
    KeyValuePiece("table", FormatInt(f.table));
    KeyValuePiece("idle_timeout", FormatInt(f.idleTimeout));
    assert "priority" + "=" == "priority=" && "table" + "=" == "table=" && "idle_timeout" + "=" == "idle_timeout=";
  }

  lemma OptionalHeadPieces(f: Fields)
    requires PlainProtocol(f.protocol)
    ensures f.protocol != "" ==> HeadPiece(f.protocol)
    ensures f.inPort != 0 ==> HeadPiece(PortPieces(f)[0])
    ensures f.cookie != 0 ==> HeadPiece(CookiePieces(f)[0])
  {
    assert ACTIONS[7] == '=';
    ContainsNeeds(f.protocol, ACTIONS, '=');
    hide Contains, FormatInt, FormatHexPadded;
    var port := if f.inPort == PORT_LOCAL then "LOCAL" else FormatInt(f.inPort);
    IntChars(f.inPort);
    KeyValuePiece("in_port", port);
    FormatHexPaddedDigits(f.cookie, 16);
    KeyValuePiece("cookie", PaddedHex(f.cookie));
    assert "in_port" + "=" == "in_port=" && "cookie" + "=" == "cookie=";
  }

  lemma HeadPiecesGood(net: Library, f: Fields, i: nat)
    requires Lawful(net) && PlainProtocol(f.protocol) && MatchTexts(net, f.matches).Ok?
    requires forall j :: 0 <= j < |f.matches| ==> PlainMatch(f.matches[j])
    requires i < |HeadPieces(f, MatchTexts(net, f.matches).value)|
    ensures HeadPiece(HeadPieces(f, MatchTexts(net, f.matches).value)[i])
  {
    hide HeadPiece, MatchTexts, MarshalMatch, PlainMatch, PriorityPiece, TablePiece, TimeoutPiece;
    var texts := MatchTexts(net, f.matches).value;
    NumberHeadPieces(f);
    OptionalHeadPieces(f);
    MatchTextsOk(net, f.matches);
    var k := 1 + |ProtocolPieces(f)| + |PortPieces(f)|;
    if k <= i < k + |texts| {
      assert HeadPieces(f, texts)[i] == texts[i - k];
      MatchHeadPiece(net, f.matches[i - k]);
    }
  }

  /** The first "actions=" of the text is the one that starts the actions. */
  lemma SplitAtActions(head: string, tail: string)
    requires !Contains(head, ACTIONS)
    ensures SplitOn(head + ACTIONS + tail, ACTIONS) == [head] + SplitOn(tail, ACTIONS)
  {
    hide SplitOn, Contains;
    var s := head + ACTIONS + tail;
    var n := |head|;
    assert s[n..n + |ACTIONS|] == ACTIONS;
    assert OccursAt(s, ACTIONS, n);
    forall j | 0 <= j < n
      ensures !OccursAt(s, ACTIONS, j)
    {
      if OccursAt(s, ACTIONS, j) {
        NoEarlierActions(head, tail, j);
      }
    }
    assert s[..n] == head && s[n + |ACTIONS|..] == tail;
    SplitAtFirst(s, n);
  }

  lemma SplitAtFirst(s: string, n: nat)
    requires OccursAt(s, ACTIONS, n) && forall j :: 0 <= j < n ==> !OccursAt(s, ACTIONS, j)
    ensures SplitOn(s, ACTIONS) == [s[..n]] + SplitOn(s[n + |ACTIONS|..], ACTIONS)
  {
    assert FindFrom(s, ACTIONS, 0) == Some(n);
  }

  /** A text is a single part exactly when it does not hold the separator. */
  lemma SplitOne(s: string)
    ensures |SplitOn(s, ACTIONS)| == 1 <==> !Contains(s, ACTIONS)
    ensures !Contains(s, ACTIONS) ==> SplitOn(s, ACTIONS) == [s]
  {
    var i := FindFrom(s, ACTIONS, 0);
    if i.Some? {
      FoundContains(s, ACTIONS);
    }
  }

  lemma FoundContains(s: string, sub: string)
    requires FindFrom(s, sub, 0).Some?
    ensures Contains(s, sub)
  {
    assert OccursAt(s, sub, FindFrom(s, sub, 0).value);
  }

  lemma NoEarlierActions(head: string, tail: string, j: nat)
    requires OccursAt(head + ACTIONS + tail, ACTIONS, j) && j < |head|
    ensures Contains(head, ACTIONS)
  {
    var s := head + ACTIONS + tail;
    var n := |head|;
    OccursChars(s, ACTIONS, j);
    assert s[j + 7] == ACTIONS[7] == '=';
    assert forall k :: 0 <= k < 7 ==> s[n + k] == ACTIONS[k] != '=';
    assert j + 8 <= n;
    assert head[j..j + 8] == s[j..j + 8];
    assert OccursAt(head, ACTIONS, j);
  }

  // ---------------------------------------------------------------- action texts are plain

  lemma {:induction false} CleanRun(t: string, rest: string, depth: nat)
    requires '(' !in t && ')' !in t && ActionParser.EOF !in t && (depth > 0 || ',' !in t)
    ensures ActionParser.Clean(t + rest, depth) <==> ActionParser.Clean(rest, depth)
    decreases |t|
  {
    var s := t + rest;
    if t == [] {
      assert s == rest;
    } else {
      assert s[0] == t[0] && s[1..] == t[1..] + rest;
      CleanRun(t[1..], rest, depth);
    }
  }

  predicate FlatChar(c: char) {
    c != '(' && c != ')' && c != ActionParser.EOF && c != '=' && !IsSpace(c)
  }

  predicate Flat(t: string) {
    forall i :: 0 <= i < |t| ==> FlatChar(t[i])
  }

  lemma FlatText(t: string)
    requires t != [] && Flat(t) && ',' !in t
    ensures PlainText(t)
  {
    CleanRun(t, [], 0);
    assert t + [] == t;
    assert ACTIONS[7] == '=';
    ContainsNeeds(t, ACTIONS, '=');
  }

  lemma CallText(name: string, args: string)
    requires name != [] && Flat(name) && ',' !in name && Flat(args)
    ensures PlainText(name + ("(" + (args + ")")))
  {
    var tail := "(" + (args + ")");
    var t := name + tail;
    CleanRun(name, tail, 0);
    CleanRun(args, ")", 1);
    assert tail[1..] == args + ")";
    assert ")"[1..] == "";
    assert ActionParser.Clean(")", 1);
    assert '=' !in t;
    assert ACTIONS[7] == '=';
    ContainsNeeds(t, ACTIONS, '=');
  }

  lemma IntFlat(n: int)
    ensures Flat(FormatInt(n)) && ',' !in FormatInt(n)
  {
    FormatIntChars(n);
  }

  lemma MacFlat(a: HardwareAddr)
    ensures Flat(MacText(a)) && ',' !in MacText(a)
  {
    MacChars(a);
  }

  lemma AddressFlat(s: string)
    requires AddressText(s)
    ensures Flat(s) && ',' !in s
  {
  }

  predicate FlatPrefix(s: string) {
    s != [] && forall i :: 0 <= i < |s| ==> FlatChar(s[i]) && s[i] != ','
  }

  lemma AddressPrefixesFlat()
    ensures FlatPrefix("mod_dl_dst:") && FlatPrefix("mod_dl_src:")
    ensures FlatPrefix("mod_nw_dst:") && FlatPrefix("mod_nw_src:")
  {
  }

  lemma NumberPrefixesFlat()
    ensures FlatPrefix("mod_tp_dst:") && FlatPrefix("mod_tp_src:")
    ensures FlatPrefix("mod_vlan_vid:") && FlatPrefix("output:") && FlatPrefix("resubmit:")
  {
  }

  lemma Prefixed(prefix: string, arg: string)
    requires FlatPrefix(prefix) && Flat(arg) && ',' !in arg
    ensures PlainText(prefix + arg)
  {
    FlatText(prefix + arg);
  }

  lemma NamePlain(a: Action)
    requires a.Drop? || a.Flood? || a.InPort? || a.Local? || a.Normal? || a.StripVLAN?
    ensures PlainText(MarshalAction(a).value)
  {
    hide PlainText;
    FlatText(MarshalAction(a).value);
  }

  lemma PrefixedPlain(net: Library, a: Action)
    requires MarshalAction(a).Ok? && ActionRoundTrip.WellBuilt(net, a)
    requires || a.ModDataLinkDestination? || a.ModDataLinkSource? || a.ModNetworkDestination? || a.ModNetworkSource?
    ensures PlainText(MarshalAction(a).value)
  {
    hide PlainText, MacText, Flat, FlatPrefix;
    AddressPrefixesFlat();
    match a
    case ModDataLinkDestination(addr) =>
      MacFlat(addr);
      Prefixed("mod_dl_dst:", MacText(addr));
    case ModDataLinkSource(addr) =>
      MacFlat(addr);
      Prefixed("mod_dl_src:", MacText(addr));
    case ModNetworkDestination(ip) =>
      AddressFlat(ip.value.text);
      Prefixed("mod_nw_dst:", ip.value.text);
    case ModNetworkSource(ip) =>
      AddressFlat(ip.value.text);
      Prefixed("mod_nw_src:", ip.value.text);
  }

  lemma PrefixedNumberPlain(a: Action)
    requires MarshalAction(a).Ok?
    requires || a.ModTransportDestinationPort? || a.ModTransportSourcePort?
             || a.ModVLANVID? || a.Output? || a.ResubmitPort?
    ensures PlainText(MarshalAction(a).value)
  {
    hide PlainText, FormatInt, Flat, FlatPrefix;
    NumberPrefixesFlat();
    match a
    case ModTransportDestinationPort(port) =>
      IntFlat(port);
      Prefixed("mod_tp_dst:", FormatInt(port));
    case ModTransportSourcePort(port) =>
      IntFlat(port);
      Prefixed("mod_tp_src:", FormatInt(port));
    case ModVLANVID(vid) =>
      IntFlat(vid);
      Prefixed("mod_vlan_vid:", FormatInt(vid));
    case Output(port) =>
      IntFlat(port);
      Prefixed("output:", FormatInt(port));
    case ResubmitPort(port) =>
      IntFlat(port);
      Prefixed("resubmit:", FormatInt(port));
  }

  lemma ConjunctionPlain(id: int, number: int, size: int)
    ensures PlainText(ConjunctionText(id, number, size))
  {
    hide PlainText, FormatInt;
    var i, n, z := FormatInt(id), FormatInt(number), FormatInt(size);
    IntFlat(id);
    IntFlat(number);
    IntFlat(size);
    var args := i + "," + n + "/" + z;
    CallText("conjunction", args);
    assert "conjunction(" + (i + "," + (n + "/" + (z + ")"))) == "conjunction" + ("(" + (args + ")"));
  }

  lemma ResubmitPlain(port: int, table: int)
    ensures PlainText(ActionRoundTrip.ResubmitText(port, table))
  {
    hide PlainText, FormatInt;
    var p, t := OptionalInt(port), OptionalInt(table);
    IntFlat(port);
    IntFlat(table);
    var args := p + "," + t;
    CallText("resubmit", args);
    assert "resubmit(" + (p + ("," + (t + ")"))) == "resubmit" + ("(" + (args + ")"));
  }

  lemma CallPlain(a: Action)
    requires (a.Conjunction? || a.Resubmit?) && MarshalAction(a).Ok?
    ensures PlainText(MarshalAction(a).value)
  {
    hide PlainText, FormatInt;
    if a.Conjunction? {
      ConjunctionPlain(a.id, a.dimensionNumber, a.dimensionSize);
    } else {
      ResubmitPlain(a.port, a.table);
    }
  }

  lemma FixedTextPlain(net: Library, a: Action)
    requires MarshalAction(a).Ok? && !ActionImage.HasFreeText(a) && !a.SetTunnel? && ActionRoundTrip.WellBuilt(net, a)
    ensures PlainText(MarshalAction(a).value)
  {
    hide PlainText, MarshalAction;
    if a.Drop? || a.Flood? || a.InPort? || a.Local? || a.Normal? || a.StripVLAN? {
      NamePlain(a);
    } else if a.Conjunction? || a.Resubmit? {
      CallPlain(a);
    } else if || a.ModTransportDestinationPort? || a.ModTransportSourcePort?
              || a.ModVLANVID? || a.Output? || a.ResubmitPort? {
      PrefixedNumberPlain(a);
    } else {
      PrefixedPlain(net, a);
    }
  }

  // ---------------------------------------------------------------- the actions

  predicate EndsInSpace(t: string) {
    t != [] && IsSpace(t[|t| - 1])
  }

  lemma ActionsParse(net: Library, actions: seq<Action>)
    requires actions != [] && ActionTexts(actions).Ok?
    requires GoodActions(actions) && WellBuiltActions(net, actions)
    ensures var texts := ActionTexts(actions).value;
            && ActionParser.ParseAll(net, Join(texts, ',')) == Ok((actions, texts))
            && (forall i :: 0 <= i < |actions| ==> TokenText(texts[i]))
            && !EndsInSpace(texts[|texts| - 1])
  {
    hide MarshalAction, ActionTexts, TokenText, GoodAction, ActionParser.ParseAll, EndsInSpace, EndsPlain;
    var texts := ActionTexts(actions).value;
    ActionTextsOk(actions);
    forall i | 0 <= i < |actions|
      ensures TokenText(texts[i]) && ActionParser.Clean(texts[i], 0) && texts[i] != []
      ensures ActionDispatch.ParseAction(net, texts[i]) == Ok(actions[i])
    {
      OneAction(net, actions[i]);
    }
    ActionParser.ParseTokens(net, texts, actions);
    LastText(net, actions, texts[|texts| - 1]);
  }

  lemma LastText(net: Library, actions: seq<Action>, text: string)
    requires actions != [] && EndsPlain(actions) && MarshalAction(actions[|actions| - 1]) == Ok(text)
    requires GoodAction(actions[|actions| - 1]) && ActionRoundTrip.WellBuilt(net, actions[|actions| - 1])
    ensures !EndsInSpace(text)
  {
    hide TokenText, MarshalAction;
    if !ActionImage.HasFreeText(actions[|actions| - 1]) {
      FixedTextPlain(net, actions[|actions| - 1]);
    }
  }

  lemma OneAction(net: Library, a: Action)
    requires MarshalAction(a).Ok? && GoodAction(a) && ActionRoundTrip.WellBuilt(net, a)
    ensures var t := MarshalAction(a).value;
            TokenText(t) && ActionParser.Clean(t, 0) && t != [] && ActionDispatch.ParseAction(net, t) == Ok(a)
  {
    hide MarshalAction, ActionDispatch.ParseAction;
    if !ActionImage.HasFreeText(a) {
      FixedTextPlain(net, a);
    }
    ActionRoundTrip.RoundTrips(net, a);
  }

  lemma {:induction false} JoinEnds(ts: seq<string>)
    requires ts != [] && forall i :: 0 <= i < |ts| ==> ts[i] != []
    ensures var s := Join(ts, ',');
            s != [] && s[0] == ts[0][0] && s[|s| - 1] == ts[|ts| - 1][|ts[|ts| - 1]| - 1]
  {
    if |ts| > 1 {
      JoinEnds(ts[1..]);
      var rest := Join(ts[1..], ',');
      assert ts[1..][|ts| - 2] == ts[|ts| - 1];
      assert Join(ts, ',') == ts[0] + [','] + rest;
    }
  }

  lemma PlainJoin(ts: seq<string>)
    requires ts != [] && !EndsInSpace(ts[|ts| - 1])
    requires forall i :: 0 <= i < |ts| ==> TokenText(ts[i])
    ensures var s := Join(ts, ','); s != [] && TrimSpace(s) == s && !Contains(s, ACTIONS)
  {
    hide Contains, ActionParser.Clean, Join, TrimSpace, IsSpace;
    JoinEnds(ts);
    JoinWithoutActions(ts);
    NothingToTrim(Join(ts, ','));
  }

  lemma JoinWithoutActions(ts: seq<string>)
    requires forall i :: 0 <= i < |ts| ==> !Contains(ts[i], ACTIONS)
    ensures !Contains(Join(ts, ','), ACTIONS)
  {
    hide Contains, Join;
    JoinContains(ts, ',', ACTIONS);
  }

  // ---------------------------------------------------------------- the flow

  /** The head of the text, up to the actions, splits into its pieces and an empty last one. */
  lemma HeadSplits(pieces: seq<string>)
    requires pieces != [] && forall i :: 0 <= i < |pieces| ==> HeadPiece(pieces[i])
    requires pieces[0] != [] && !IsSpace(pieces[0][0])
    ensures var head := Join(pieces, ',') + ",";
            && !Contains(head, ACTIONS) && TrimSpace(head) == head
            && Split(head, ',') == pieces + [""]
  {
    hide HeadPiece, Contains, Join, TrimSpace, Split, NoneHas;
    HeadIsJoin(pieces);
    PiecesHaveNoComma(pieces);
    SplitJoin(pieces + [""], ',');
    EmptyWithoutActions();
    assert !Contains(Join(pieces + [""], ','), ACTIONS) by {
      PiecesWithoutActions(pieces);
      JoinWithoutActions(pieces + [""]);
    }
    HeadIsTrimmed(pieces);
  }

  lemma HeadIsJoin(pieces: seq<string>)
    requires pieces != []
    ensures Join(pieces, ',') + "," == Join(pieces + [""], ',')
  {
    hide Join;
    JoinAppend(pieces, "", ',');
  }

  lemma HeadIsTrimmed(pieces: seq<string>)
    requires pieces != [] && pieces[0] != [] && !IsSpace(pieces[0][0])
    ensures TrimSpace(Join(pieces, ',') + ",") == Join(pieces, ',') + ","
  {
    hide Join, TrimSpace;
    var head := Join(pieces, ',') + ",";
    JoinStarts(pieces);
    NothingToTrim(head);
  }

  lemma PiecesHaveNoComma(pieces: seq<string>)
    requires forall i :: 0 <= i < |pieces| ==> HeadPiece(pieces[i])
    ensures NoneHas(pieces + [""], ',')
  {
    hide Contains;
  }

  lemma PiecesWithoutActions(pieces: seq<string>)
    requires (forall i :: 0 <= i < |pieces| ==> HeadPiece(pieces[i])) && !Contains("", ACTIONS)
    ensures forall i :: 0 <= i < |pieces + [""]| ==> !Contains((pieces + [""])[i], ACTIONS)
  {
    hide Contains;
  }

  lemma EmptyWithoutActions()
    ensures !Contains("", ACTIONS)
  {
    assert ACTIONS[7] == '=';
    ContainsNeeds("", ACTIONS, '=');
  }

  lemma JoinStarts(ps: seq<string>)
    requires ps != [] && ps[0] != []
    ensures Join(ps, ',') != [] && Join(ps, ',')[0] == ps[0][0]
  {
  }

  lemma FlowTextParts(f: Fields, matches: seq<string>, actions: seq<string>)
    ensures FlowText(f, matches, actions) == Join(HeadPieces(f, matches), ',') + "," + ACTIONS + Join(actions, ',')
  {
    hide HeadPieces, Join;
    JoinAppend(HeadPieces(f, matches), ACTIONS + Join(actions, ','), ',');
  }

  /** The text of a well-formed flow comes apart into the pieces of its head and its actions. */
  lemma TextComesApart(net: Library, f: Fields)
    requires Lawful(net) && PlainHead(f) && GoodActions(f.actions) && WellBuiltActions(net, f.actions) && MarshalFlow(net, f).Ok?
    ensures var head := HeadPieces(f, MatchTexts(net, f.matches).value);
            var actions := Join(ActionTexts(f.actions).value, ',');
            var halves := SplitOn(MarshalFlow(net, f).value, ACTIONS);
            && |halves| == 2 && halves[1] == actions != "" && TrimSpace(actions) == actions
            && Split(TrimSpace(halves[0]), ',') == head + [""]
  {
    hide MatchTexts, ActionTexts, FlowText, SplitOn, Split, TrimSpace, Join, Contains, HeadPiece, PlainText;
    hide GoodAction, EndsPlain, EndsInSpace, TokenText, PlainMatch, HeadPieces;
    var texts := MatchTexts(net, f.matches).value;
    var head := HeadPieces(f, texts);
    var actions := ActionTexts(f.actions).value;
    forall i | 0 <= i < |head|
      ensures HeadPiece(head[i])
    {
      HeadPiecesGood(net, f, i);
    }
    HeadStarts(f, texts);
    HeadSplits(head);
    ActionsParse(net, f.actions);
    PlainJoin(actions);
    FlowTextParts(f, texts, actions);
    SplitAtActions(Join(head, ',') + ",", Join(actions, ','));
    SplitOne(Join(actions, ','));
  }

  lemma HeadStarts(f: Fields, matches: seq<string>)
    ensures HeadPieces(f, matches)[0] != [] && HeadPieces(f, matches)[0][0] == 'p'
  {
  }

  /**
    Reading the text of `f` into the zero flow succeeds, restores every field and the actions, and gives
    the same matches with the same texts, so that printing again gives the same text.
   */
  ghost predicate Restored(net: Library, f: Fields)
    requires MarshalFlow(net, f).Ok?
  {
    var o := UnmarshalFlow(net, ZERO_FLOW, MarshalFlow(net, f).value);
    && o.error.None?
    && o.flow.(matches := []) == f.(matches := [])
    && SameMatches(net, f.matches, o.flow.matches)
    && MatchTexts(net, o.flow.matches) == MatchTexts(net, f.matches)
    && MarshalFlow(net, o.flow) == MarshalFlow(net, f)
  }

  lemma PlainFlowRestored(net: Library, f: Fields)
    requires Lawful(net) && PlainHead(f) && GoodActions(f.actions) && WellBuiltActions(net, f.actions) && MarshalFlow(net, f).Ok?
    ensures Restored(net, f)
  {
    hide MatchTexts, ActionTexts, SplitOn, Split, TrimSpace, Join, HeadPieces, ApplyPieces, ActionParser.ParseAll;
    hide GoodAction, EndsPlain, EndsInSpace, TokenText, PlainMatch, FlowText, MarshalMatch, SameMatches;
    var matches := MatchTexts(net, f.matches);
    TextComesApart(net, f);
    MatchTextsOk(net, f.matches);
    HeadApplies(net, f);
    ActionsParse(net, f.actions);
    ReparsedTexts(net, f.matches);
    var o := UnmarshalFlow(net, ZERO_FLOW, MarshalFlow(net, f).value);
    assert o.flow == f.(matches := ReparseAll(net, f.matches));
    SameHead(f, o.flow, matches.value);
  }

  /** The matches enter the text by their texts only. */
  lemma SameHead(f: Fields, g: Fields, texts: seq<string>)
    requires f.(matches := []) == g.(matches := [])
    ensures HeadPieces(f, texts) == HeadPieces(g, texts)
    ensures forall actions :: FlowText(f, texts, actions) == FlowText(g, texts, actions)
  {
    hide FormatInt, PaddedHex;
  }

  // ---------------------------------------------------------------- what the parser can produce

  lemma {:induction false} SplitPieces(s: string, sep: char, i: nat)
    requires i < |Split(s, sep)|
    ensures sep !in Split(s, sep)[i]
    ensures forall c :: c in Split(s, sep)[i] ==> c in s
    decreases |s|
  {
    var k := IndexOf(s, sep);
    if k < |s| && i > 0 {
      SplitPieces(s[k + 1..], sep, i - 1);
    } else if k == |s| {
      assert s[..k] == s;
    }
  }

  lemma {:induction false} TrimLeftParts(s: string)
    ensures var t := TrimLeft(s); (t == [] || !IsSpace(t[0])) && forall c :: c in t ==> c in s
  {
    if s != [] && IsSpace(s[0]) {
      TrimLeftParts(s[1..]);
    }
  }

  lemma {:induction false} TrimRightParts(s: string)
    ensures var t := TrimRight(s); t <= s && (t == [] || !IsSpace(t[|t| - 1]))
  {
    if s != [] && IsSpace(s[|s| - 1]) {
      TrimRightParts(s[..|s| - 1]);
    }
  }

  lemma TrimIdempotent(s: string)
    ensures TrimSpace(TrimSpace(s)) == TrimSpace(s)
    ensures forall c :: c in TrimSpace(s) ==> c in s
  {
    TrimLeftParts(s);
    TrimRightParts(TrimLeft(s));
    NothingToTrim(TrimSpace(s));
  }

  lemma ParsedMatchPlain(key: string, value: string)
    requires ParseMatch(key, value).Ok? && PlainValue(value)
    ensures PlainMatch(ParseMatch(key, value).value)
  {
    hide LookupKey, PlainValue, ParseHardware, ParseIntMatch, ParsePortMatch, ParseMaskedMatch, ParseHex, ParseVlan;
    MatchRoundTrip.ChunksRejoin(value);
    var k := LookupKey(key).value;
    var m := ParseMatch(key, value).value;
    if k.CtState? || k.TcpFlagsKey? {
      assert Concat(m.flags) == value;
    } else {
      NoFlags(k, value);
    }
  }

  lemma NoFlags(k: Key, value: string)
    requires !k.CtState? && !k.TcpFlagsKey? && ParseByKey(k, value).Ok?
    ensures var m := ParseByKey(k, value).value; !m.ConnectionTrackingState? && !m.TCPFlags?
  {
    hide ParseMAC, ParseClampInt, ParsePort, ParseMasked, ParseHex, ParseVlan;
  }

  lemma ApplyKeyKeepsPlain(f: Fields, key: string, value: string)
    requires PlainHead(f) && PlainValue(value)
    ensures PlainHead(ApplyKey(f, key, value).flow)
  {
    hide ParseMatch, ParseInt, ParseUintPrefixed, TrimSpace, PlainValue, PlainMatch;
    if ParseMatch(key, value).Ok? {
      ParsedMatchPlain(key, value);
    }
  }

  lemma ApplyPieceKeepsPlain(f: Fields, piece: string)
    requires PlainHead(f) && ',' !in piece
    ensures PlainHead(ApplyPiece(f, piece).flow)
  {
    hide ApplyKey, PlainMatch, TrimSpace, Split;
    var kv := Split(piece, '=');
    if |kv| == 2 {
      SplitPieces(piece, '=', 1);
      TrimIdempotent(kv[1]);
      ApplyKeyKeepsPlain(f, kv[0], TrimSpace(kv[1]));
    }
  }

  lemma {:induction false} ApplyPiecesKeepsPlain(f: Fields, pieces: seq<string>)
    requires PlainHead(f) && NoneHas(pieces, ',')
    ensures PlainHead(ApplyPieces(f, pieces).flow)
    decreases |pieces|
  {
    hide ApplyPiece, PlainHead;
    if pieces != [] {
      ApplyPieceKeepsPlain(f, pieces[0]);
      ApplyPiecesKeepsPlain(ApplyPiece(f, pieces[0]).flow, pieces[1..]);
    }
  }

  /**
    Whatever text is read, with or without an error, the protocol and the matches it sets are plain. Only a
    text refused for its lack of actions sets nothing.
   */
  lemma ParsedHeadIsPlain(net: Library, f: Fields, text: string)
    requires PlainProtocol(f.protocol)
    ensures var o := UnmarshalFlow(net, f, text); PlainHead(o.flow) || o == Outcome(f, Some(NoActions))
  {
    hide ActionParser.ParseAll, ApplyPieces, SplitOn, Split, TrimSpace, PlainMatch;
    var halves := SplitOn(text, ACTIONS);
    if |halves| == 2 {
      var pieces := Split(TrimSpace(halves[0]), ',');
      forall i | 0 <= i < |pieces|
        ensures ',' !in pieces[i]
      {
        SplitPieces(TrimSpace(halves[0]), ',', i);
      }
      ApplyPiecesKeepsPlain(f.(matches := []), pieces);
    }
  }

  lemma SameTextSamePlain(net: Library, m: Match, n: Match)
    requires MarshalMatch(net, m).Ok? && MarshalMatch(net, n) == MarshalMatch(net, m) && PlainMatch(n)
    ensures PlainMatch(m)
  {
    hide PlainValue, KeyText, MarshalMacMask, MarshalAddress, MarshalHardware, PortText, Masked, Hex0x, FormatInt;
    if m.ConnectionTrackingState? || m.TCPFlags? {
      var j, k := KeyOf(m), KeyOf(n);
      SameKeySameValue(KeyText(j), Concat(m.flags), KeyText(k), MarshalValue(net, n).value, j, k);
    }
  }

  lemma SameKeySameValue(key: string, value: string, key': string, value': string, j: Key, k: Key)
    requires key == KeyText(j) && key' == KeyText(k) && key + "=" + value == key' + "=" + value'
    ensures j == k && value == value'
  {
    hide KeyText;
    MatchRoundTrip.KeyChars(j);
    MatchRoundTrip.KeyChars(k);
    var s := key + "=" + value;
    assert s[|key|] == '=' && s[|key'|] == '=';
    assert forall i :: 0 <= i < |key| ==> s[i] == key[i];
    assert forall i :: 0 <= i < |key'| ==> s[i] == key'[i];
    assert |key| == |key'|;
    assert key == s[..|key|] && key' == s[..|key'|];
    MatchRoundTrip.KeysDiffer(j, k);
    assert value == s[|key| + 1..] && value' == s[|key'| + 1..];
  }

  lemma RestoredIsPlain(net: Library, f: Fields)
    requires MarshalFlow(net, f).Ok? && Restored(net, f)
    ensures PlainHead(f)
  {
    hide MatchTexts, ActionTexts, FlowText, PlainMatch, MarshalMatch, UnmarshalFlow, SameMatches;
    var o := UnmarshalFlow(net, ZERO_FLOW, MarshalFlow(net, f).value);
    ParsedHeadIsPlain(net, ZERO_FLOW, MarshalFlow(net, f).value);
    MatchTextsOk(net, f.matches);
    MatchTextsOk(net, o.flow.matches);
    forall i | 0 <= i < |f.matches|
      ensures PlainMatch(f.matches[i])
    {
      SameTextSamePlain(net, f.matches[i], o.flow.matches[i]);
    }
  }
}
