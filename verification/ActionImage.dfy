/**
  What the dispatch can return: for any text, actions whose arguments are `Parseable`; which of them can be
  printed and come back; and that the free text of an action stands, word for word, in the text it was read from.
 */
module ActionImage {
  import opened Results
  import opened Bits
  import opened Text
  import opened Net
  import opened Actions
  import opened ActionDispatch
  import opened ActionRoundTrip

  // ---------------------------------------------------------------- matches inside longer texts

  /** What matches at the start of a text matches at the start of a longer one. */
  lemma GroupsExtend(p: Pattern, r: string, y: string)
    requires Groups(p, r).Some?
    ensures Groups(p, r + y).Some?
  {
    match p
    case CtPattern => CtExtends(r, y);
    case ResubmitPattern => ResubmitExtends(r, y);
    case ResubmitPortPattern => DigitsExtend(r, y);
    case LoadPattern => ArrowExtends(r, y);
    case SetFieldPattern => ArrowExtends(r, y);
  }

  lemma {:induction false} RunExtends(r: string, y: string)
    ensures RunLength(r + y) >= RunLength(r)
  {
    if RunLength(r) > 0 {
      assert (r + y)[0] == r[0] && (r + y)[1..] == r[1..] + y;
      RunExtends(r[1..], y);
    }
  }

  lemma CtExtends(r: string, y: string)
    requires Groups(CtPattern, r).Some?
    ensures Groups(CtPattern, r + y).Some?
  {
    RunExtends(r, y);
    var j := LastParen(r, RunLength(r)).value;
    assert (r + y)[j] == ')';
  }

  lemma DigitsExtend(r: string, y: string)
    requires DigitRun(r) > 0
    ensures DigitRun(r + y) > 0
  {
    assert (r + y)[0] == r[0];
  }

  lemma ResubmitExtends(r: string, y: string)
    requires Groups(ResubmitPattern, r).Some?
    ensures Groups(ResubmitPattern, r + y).Some?
  {
    var long := r + y;
    var m := DigitRun(r);
    assert forall k :: 0 <= k < |r| ==> long[k] == r[k];
    DigitRunAt(long, m);
    var q := r[m + 1..];
    assert long[m + 1..] == q + y;
    var e := DigitRun(q);
    assert q[e] == ')';
    DigitRunAt(q + y, e);
  }

  lemma ArrowExtends(r: string, y: string)
    requires ArrowGroups(r).Some?
    ensures ArrowGroups(r + y).Some?
  {
    RunExtends(r, y);
    var j := LastArrow(r, RunLength(r) - 2).value;
    assert ArrowAt(r + y, j);
  }

  lemma {:induction false} FoundIfMatch(p: Pattern, s: string, i: nat, k: nat)
    requires i <= k <= |s| && MatchAt(p, s, k).Some?
    ensures FindSubmatch(p, s, i).Some?
    decreases k - i
  {
    if i < k {
      FoundIfMatch(p, s, i + 1, k);
    }
  }

  /** Where a pattern is found: the text before its keyword, and the text after it. */
  lemma FoundParts(p: Pattern, t: string) returns (x: string, r: string)
    requires FindSubmatch(p, t, 0).Some?
    ensures t == x + Keyword(p) + r && Groups(p, r) == FindSubmatch(p, t, 0)
  {
    hide FindSubmatch, Groups, Keyword;
    var k := FoundAt(p, t, 0);
    var n := |Keyword(p)|;
    x, r := t[..k], t[k + n..];
    assert t[k..k + n] == Keyword(p);
  }

  lemma MatchesAt(p: Pattern, x: string, r: string)
    requires Groups(p, r).Some?
    ensures FindSubmatch(p, x + Keyword(p) + r, 0).Some?
  {
    hide FindSubmatch, Groups, Keyword;
    var t, k, n := x + Keyword(p) + r, |x|, |Keyword(p)|;
    assert t[k..k + n] == Keyword(p) && t[k + n..] == r;
    FoundIfMatch(p, t, 0, k);
  }

  /** A pattern found in a text is found in every text around it. */
  lemma FoundAround(p: Pattern, x: string, s: string, y: string)
    requires FindSubmatch(p, s, 0).Some?
    ensures FindSubmatch(p, x + s + y, 0).Some?
  {
    hide FindSubmatch, Groups, Keyword;
    var before, r := FoundParts(p, s);
    GroupsExtend(p, r, y);
    MatchesAt(p, x + before, r + y);
    assert x + (before + Keyword(p) + r) + y == x + before + Keyword(p) + (r + y);
  }

  // ---------------------------------------------------------------- captured texts

  /** The parts of a text around a captured argument list of ct. */
  lemma CtFound(t: string, args: string) returns (x: string, y: string)
    requires FindSubmatch(CtPattern, t, 0) == Some([args])
    ensures args != "" && NoReSpace(args) && t == x + ("ct(" + (args + ")")) + y
  {
    hide FindSubmatch, Groups;
    SubmatchHasNoSpace(CtPattern, t);
    assert [args][0] == args;
    var r;
    x, r := FoundParts(CtPattern, t);
    y := CtCaptured(r, args);
    assert x + "ct(" + (args + ")" + y) == x + ("ct(" + (args + ")")) + y;
  }

  lemma CtCaptured(r: string, args: string) returns (y: string)
    requires Groups(CtPattern, r) == Some([args])
    ensures args != "" && r == args + ")" + y
  {
    var j := LastParen(r, RunLength(r)).value;
    assert args == [args][0] == r[..j];
    y := r[j + 1..];
  }

  lemma ArrowFound(p: Pattern, t: string, value: string, field: string) returns (x: string, y: string)
    requires p.LoadPattern? || p.SetFieldPattern?
    requires FindSubmatch(p, t, 0) == Some([value, field])
    ensures value != "" && field != "" && NoReSpace(value) && NoReSpace(field) && !HasInnerArrow(field)
    ensures t == x + ArrowText(Keyword(p), value, field) + y
  {
    hide FindSubmatch, ArrowGroups, Keyword, HasInnerArrow;
    SubmatchHasNoSpace(p, t);
    assert [value, field][0] == value && [value, field][1] == field;
    var r;
    x, r := FoundParts(p, t);
    y := ArrowCaptured(r, value, field);
    assert x + Keyword(p) + (value + ("->" + field) + y) == x + (Keyword(p) + (value + ("->" + field))) + y;
  }

  lemma ArrowCaptured(r: string, value: string, field: string) returns (y: string)
    requires ArrowGroups(r) == Some([value, field])
    ensures value != "" && field != "" && !HasInnerArrow(field) && r == value + ("->" + field) + y
  {
    var e := RunLength(r);
    var j := LastArrow(r, e - 2).value;
    assert value == [value, field][0] == r[..j] && field == [value, field][1] == r[j + 2..e];
    y := r[e..];
    assert r[j..j + 2] == "->";
    forall i | 0 <= i < |field| - 2
      ensures !ArrowAt(field, i)
    {
      assert field[i] == r[j + 2 + i] && field[i + 1] == r[j + 2 + i + 1];
      assert !ArrowAt(r, j + 2 + i);
    }
  }

  // ---------------------------------------------------------------- what comes out of the dispatch

  predicate HasFreeText(a: Action) {
    a.ConnectionTracking? || a.Load? || a.SetField?
  }

  /** Where each kind of free text comes from. */
  lemma FreeTextBranch(net: Library, t: string, a: Action)
    requires ParseAction(net, t) == Ok(a) && HasFreeText(a)
    ensures a.ConnectionTracking? ==> FindSubmatch(CtPattern, t, 0) == Some([a.args])
    ensures a.Load? ==> FindSubmatch(LoadPattern, t, 0) == Some([a.value, a.field]) && NotTakenEarlier(LoadPattern, t)
    ensures a.SetField? ==>
              FindSubmatch(SetFieldPattern, t, 0) == Some([a.value, a.field]) && NotTakenEarlier(SetFieldPattern, t)
  {
    hide FindSubmatch, FirstVerb, ParseInt, OptionalAtoi, ScanMac, ScanIPv4, ScanCharInt, ScanInt, ScanUint16;
    var ct := FindSubmatch(CtPattern, t, 0);
    var load, setField := FindSubmatch(LoadPattern, t, 0), FindSubmatch(SetFieldPattern, t, 0);
    assert ct.Some? ==> ct.value == [ct.value[0]];
    assert load.Some? ==> load.value == [load.value[0], load.value[1]];
    assert setField.Some? ==> setField.value == [setField.value[0], setField.value[1]];
  }

  lemma EarlierInside(p: Pattern, x: string, s: string, y: string)
    requires (p.LoadPattern? || p.SetFieldPattern?) && NotTakenEarlier(p, x + s + y)
    ensures NotTakenEarlier(p, s)
  {
    hide FindSubmatch;
    if FindSubmatch(CtPattern, s, 0).Some? {
      FoundAround(CtPattern, x, s, y);
    }
    if FindSubmatch(ResubmitPattern, s, 0).Some? {
      FoundAround(ResubmitPattern, x, s, y);
    }
    if FindSubmatch(ResubmitPortPattern, s, 0).Some? {
      FoundAround(ResubmitPortPattern, x, s, y);
    }
    if FindSubmatch(LoadPattern, s, 0).Some? {
      FoundAround(LoadPattern, x, s, y);
    }
  }

  /** An action with free text marshals, and its text stands in the text it was read from. */
  lemma FreeTextOccurs(net: Library, t: string, a: Action) returns (x: string, y: string)
    requires ParseAction(net, t) == Ok(a) && HasFreeText(a)
    ensures MarshalAction(a).Ok? && Parseable(a)
    ensures t == x + MarshalAction(a).value + y
  {
    hide ParseAction, FindSubmatch, ArrowText, NotTakenEarlier;
    FreeTextBranch(net, t, a);
    if a.ConnectionTracking? {
      x, y := CtFound(t, a.args);
    } else {
      var p := if a.Load? then LoadPattern else SetFieldPattern;
      x, y := ArrowFound(p, t, a.value, a.field);
      EarlierInside(p, x, ArrowText(Keyword(p), a.value, a.field), y);
    }
  }

  lemma DigitsNotNegative(s: string)
    requires AllDigits(s, Dec) && OptionalAtoi(s).Ok?
    ensures OptionalAtoi(s).value >= 0
  {
    if s != "" {
      assert IsDigit(s[0], Dec);
    }
  }

  lemma ResubmitNotNegative(t: string)
    requires FindSubmatch(ResubmitPattern, t, 0).Some?
    ensures var g := FindSubmatch(ResubmitPattern, t, 0).value; AllDigits(g[0], Dec) && AllDigits(g[1], Dec)
  {
    hide FindSubmatch, Groups;
    var _, r := FoundParts(ResubmitPattern, t);
    CapturedDigits(r);
  }

  lemma CapturedDigits(r: string)
    requires Groups(ResubmitPattern, r).Some?
    ensures var g := Groups(ResubmitPattern, r).value; AllDigits(g[0], Dec) && AllDigits(g[1], Dec)
  {
  }

  lemma ResubmitPortDigits(t: string)
    requires FindSubmatch(ResubmitPortPattern, t, 0).Some?
    ensures AllDigits(FindSubmatch(ResubmitPortPattern, t, 0).value[0], Dec)
    ensures FindSubmatch(ResubmitPortPattern, t, 0).value[0] != ""
  {
    hide FindSubmatch;
    var _, _ := FoundParts(ResubmitPortPattern, t);
  }

  lemma OptionalIsInt(s: string)
    requires s != ""
    ensures OptionalAtoi(s) == ParseInt(s)
  {
  }

  /** The ports and tables that the resubmit patterns capture are not negative. */
  lemma ParsedResubmit(net: Library, t: string, a: Action)
    requires ParseAction(net, t) == Ok(a) && (a.Resubmit? || a.ResubmitPort?)
    ensures a.port >= 0 && (a.Resubmit? ==> a.table >= 0)
  {
    hide FindSubmatch, FirstVerb, ParseInt, ScanMac, ScanIPv4, ScanCharInt, ScanInt, ScanUint16, OptionalAtoi;
    if a.Resubmit? {
      var g := FindSubmatch(ResubmitPattern, t, 0);
      ResubmitNotNegative(t);
      DigitsNotNegative(g.value[0]);
      DigitsNotNegative(g.value[1]);
    } else {
      var g := FindSubmatch(ResubmitPortPattern, t, 0);
      ResubmitPortDigits(t);
      OptionalIsInt(g.value[0]);
      DigitsNotNegative(g.value[0]);
    }
  }

  lemma NeverTunnel(net: Library, t: string)
    ensures ParseAction(net, t).Ok? ==> !ParseAction(net, t).value.SetTunnel?
  {
    hide FindSubmatch, FirstVerb, ParseInt, ScanMac, ScanIPv4, ScanInt, ScanUint16, OptionalAtoi, ScanCharInt;
  }

  /** Whatever text is read, the arguments of the action that comes out are `Parseable`. */
  lemma ParsedIsParseable(net: Library, t: string, a: Action)
    requires ParseAction(net, t) == Ok(a)
    ensures Parseable(a)
  {
    hide ParseAction;
    NeverTunnel(net, t);
    if HasFreeText(a) {
      var _, _ := FreeTextOccurs(net, t, a);
    } else if a.Resubmit? {
      ParsedResubmit(net, t, a);
    }
  }

  // ---------------------------------------------------------------- parsed actions and their own text

  /** The numbers and addresses that the printer accepts; the parser accepts more. */
  predicate InRange(a: Action) {
    match a
    case ModDataLinkDestination(addr) => |addr| == ETHERNET_ADDR_LEN
    case ModDataLinkSource(addr) => |addr| == ETHERNET_ADDR_LEN
    case ModVLANVID(vid) => ValidVLANVID(vid)
    case Conjunction(_, number, size) => number <= size
    case Output(port) => port >= 0
    case Resubmit(port, table) => port != 0 || table != 0
    case ResubmitPort(port) => port <= 0xffff_feff
    case _ => true
  }

  lemma ParsedAddress(net: Library, t: string, a: Action)
    requires ParseAction(net, t) == Ok(a) && (a.ModNetworkDestination? || a.ModNetworkSource?)
    ensures a.ip.Some? && a.ip.value.v4
    ensures Lawful(net) ==> Canonical(net, a.ip.value)
  {
    hide FindSubmatch, FirstVerb, ParseInt, ScanMac, ScanCharInt, ScanInt, ScanUint16, OptionalAtoi, ScanString;
    hide SimpleAction, ParsePatterns;
    PatternsGiveNoAddress(t);
  }

  lemma PatternsGiveNoAddress(t: string)
    ensures SimpleAction(t).Some? ==>
              !SimpleAction(t).value.ModNetworkDestination? && !SimpleAction(t).value.ModNetworkSource?
    ensures ParsePatterns(t).Ok? ==>
              !ParsePatterns(t).value.ModNetworkDestination? && !ParsePatterns(t).value.ModNetworkSource?
  {
    hide FindSubmatch, ParseInt, OptionalAtoi;
  }

  lemma ParsedWellBuilt(net: Library, t: string, a: Action)
    requires Lawful(net) && ParseAction(net, t) == Ok(a)
    ensures WellBuilt(net, a)
  {
    hide ParseAction;
    if a.ModNetworkDestination? || a.ModNetworkSource? {
      ParsedAddress(net, t, a);
    }
  }

  /** An action that was read can be printed if and only if its numbers and addresses are in range. */
  lemma ParsedMarshals(net: Library, t: string, a: Action)
    requires ParseAction(net, t) == Ok(a)
    ensures MarshalAction(a).Ok? <==> InRange(a)
  {
    hide ParseAction;
    if HasFreeText(a) {
      var _, _ := FreeTextOccurs(net, t, a);
    } else if a.ModNetworkDestination? || a.ModNetworkSource? {
      ParsedAddress(net, t, a);
    } else if a.ResubmitPort? {
      ParsedResubmit(net, t, a);
    }
  }

  /**
    Whatever text is read, the action that comes out can be printed and comes back from its own text, through
    the dispatch, if and only if its numbers and addresses are in range.
   */
  lemma ParsedComesBack(net: Library, t: string, a: Action)
    requires Lawful(net) && ParseAction(net, t) == Ok(a)
    ensures InRange(a) <==> MarshalAction(a).Ok? && ParseAction(net, MarshalAction(a).value) == Ok(a)
  {
    hide ParseAction, MarshalAction, InRange, Parseable;
    ParsedMarshals(net, t, a);
    if MarshalAction(a).Ok? {
      ParsedIsParseable(net, t, a);
      ParsedWellBuilt(net, t, a);
      RoundTrips(net, a);
    }
  }

  /** For instance: a negative output port is read but cannot be printed. */
  lemma NegativeOutput(net: Library)
    ensures ParseAction(net, "output:-1") == Ok(Output(-1)) && MarshalAction(Output(-1)) == Err(OutputNegativePort)
  {
    hide ParseAction;
    assert FormatInt(-1) == "-1" && Prefix(Out) + "-1" == "output:-1";
    IntDispatch(net, Out, -1);
  }

  /** Of the actions that can be printed, the parser returns exactly the `Parseable` ones. */
  lemma ReturnedExactly(net: Library, a: Action)
    requires MarshalAction(a).Ok? && WellBuilt(net, a)
    ensures (exists t :: ParseAction(net, t) == Ok(a)) <==> Parseable(a)
  {
    hide ParseAction, MarshalAction, Parseable;
    if t :| ParseAction(net, t) == Ok(a) {
      ParsedIsParseable(net, t, a);
    }
    RoundTrips(net, a);
    if Parseable(a) {
      assert ParseAction(net, MarshalAction(a).value) == Ok(a);
    }
  }

  // ---------------------------------------------------------------- longer texts

  lemma LaterParen(r: string, n: nat)
    requires NoReSpace(r) && 0 < n < |r| && ')' in r[n..]
    ensures Groups(CtPattern, r).Some? && |Groups(CtPattern, r).value[0]| >= n
  {
    RunWhole(r);
    var k :| 0 <= k < |r[n..]| && r[n..][k] == ')';
    assert r[n + k] == ')';
  }

  lemma WholeCapture(r: string)
    requires NoReSpace(r) && ArrowGroups(r).Some?
    ensures var g := ArrowGroups(r).value; |g[0]| + 2 + |g[1]| == |r|
  {
    RunWhole(r);
  }

  /**
    A text without white space that goes on after the text of a ct, load or set_field action, with a
    closing parenthesis in the rest, does not give that action: the greedy groups take more.
   */
  lemma LongerDiffers(net: Library, a: Action, u: string)
    requires HasFreeText(a) && MarshalAction(a).Ok? && ')' in u
    requires NoReSpace(MarshalAction(a).value + ([','] + u))
    ensures ParseAction(net, MarshalAction(a).value + ([','] + u)) != Ok(a)
  {
    hide ParseAction, FindSubmatch, Groups, ArrowText;
    var t := MarshalAction(a).value + ([','] + u);
    if ParseAction(net, t) == Ok(a) {
      FreeTextBranch(net, t, a);
      if a.ConnectionTracking? {
        CtTakesMore(a.args, u);
      } else {
        ArrowTakesMore(if a.Load? then LoadPattern else SetFieldPattern, a.value, a.field, u);
      }
    }
  }

  lemma CtTakesMore(args: string, u: string)
    requires args != "" && ')' in u
    requires NoReSpace("ct(" + (args + ")") + ([','] + u))
    ensures FindSubmatch(CtPattern, "ct(" + (args + ")") + ([','] + u), 0) != Some([args])
  {
    var t := "ct(" + (args + ")") + ([','] + u);
    var r := args + ")" + [','] + u;
    assert t == Keyword(CtPattern) + r && r == t[3..];
    var n := |args| + 2;
    assert r[n..] == u;
    LaterParen(r, n);
    FoundAtStart(CtPattern, r);
    assert |[args][0]| < n;
  }

  lemma ArrowTakesMore(p: Pattern, value: string, field: string, u: string)
    requires (p.LoadPattern? || p.SetFieldPattern?) && value != "" && field != ""
    requires NoReSpace(ArrowText(Keyword(p), value, field) + ([','] + u))
    ensures FindSubmatch(p, ArrowText(Keyword(p), value, field) + ([','] + u), 0) != Some([value, field])
  {
    var t := ArrowText(Keyword(p), value, field) + ([','] + u);
    var r := ArrowArgs(value, field) + ([','] + u);
    assert t == Keyword(p) + r;
    assert r == t[|Keyword(p)|..];
    ArrowCaptureSome(value, field, u);
    WholeCapture(r);
    assert Groups(p, r) == ArrowGroups(r);
    FoundAtStart(p, r);
    var g := ArrowGroups(r).value;
    assert |[value, field][0]| + 2 + |[value, field][1]| < |r|;
  }

  lemma ArrowCaptureSome(value: string, field: string, u: string)
    requires value != "" && field != "" && NoReSpace(ArrowArgs(value, field) + ([','] + u))
    ensures ArrowGroups(ArrowArgs(value, field) + ([','] + u)).Some?
  {
    var s := ArrowArgs(value, field);
    assert forall k :: 0 <= k < |s| ==> (s + ([','] + u))[k] == s[k];
    ArrowArgsShape(value, field);
    RunWhole(s);
    assert ArrowAt(s, |value|);
    ArrowExtends(s, [','] + u);
  }
}
