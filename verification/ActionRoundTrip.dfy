/**
  Which actions survive being printed and parsed again. `RoundTrips` gives the exact condition, for
  every action that marshals; everything before it shows that the first branch of the dispatch to
  fire on an action's text is its own.
 */
module ActionRoundTrip {
  import opened Results
  import opened Bits
  import opened Text
  import opened Net
  import opened Actions
  import opened ActionDispatch

  // ---------------------------------------------------------------- branches that do not fire

  lemma NotSimple(s: string, c: char)
    requires c in s && (c == ':' || c == '(')
    ensures SimpleAction(s).None?
  {
    var i :| 0 <= i < |s| && s[i] == c;
    var l := ToLower(s);
    assert l[i] == c;
    assert c in l;
    assert c !in "drop" && c !in "flood" && c !in "in_port" && c !in "local";
    assert c !in "normal" && c !in "strip_vlan";
  }

  /** Where the leftmost match is. */
  lemma {:induction false} FoundAt(p: Pattern, s: string, i: nat) returns (k: nat)
    requires i <= |s| && FindSubmatch(p, s, i).Some?
    ensures i <= k <= |s| && MatchAt(p, s, k) == FindSubmatch(p, s, i)
    decreases |s| - i
  {
    if MatchAt(p, s, i).Some? {
      k := i;
    } else {
      k := FoundAt(p, s, i + 1);
    }
  }

  lemma FoundHasKeyword(p: Pattern, s: string)
    requires FindSubmatch(p, s, 0).Some?
    ensures Contains(s, Keyword(p))
  {
    var k := FoundAt(p, s, 0);
    assert OccursAt(s, Keyword(p), k);
  }

  /** A pattern is not found in text without its keyword. */
  lemma KeywordMissing(p: Pattern, s: string)
    requires !Contains(s, Keyword(p))
    ensures FindSubmatch(p, s, 0).None?
  {
    if FindSubmatch(p, s, 0).Some? {
      FoundHasKeyword(p, s);
    }
  }

  lemma NoParenNoCt(s: string)
    requires '(' !in s
    ensures FindSubmatch(CtPattern, s, 0).None? && FindSubmatch(ResubmitPattern, s, 0).None?
  {
    assert Keyword(CtPattern)[2] == '(' && Keyword(ResubmitPattern)[8] == '(';
    ContainsNeeds(s, Keyword(CtPattern), '(');
    ContainsNeeds(s, Keyword(ResubmitPattern), '(');
    KeywordMissing(CtPattern, s);
    KeywordMissing(ResubmitPattern, s);
  }

  lemma CtChars(s: string, k: nat)
    requires OccursAt(s, "ct(", k)
    ensures k + 2 < |s| && s[k] == 'c' && s[k + 1] == 't' && s[k + 2] == '('
  {
    OccursChars(s, "ct(", k);
    assert s[k] == "ct("[0] && s[k + 1] == "ct("[1] && s[k + 2] == "ct("[2];
  }

  /** The only parenthesis is not preceded by "ct". */
  lemma OneParenNoCt(s: string, m: nat)
    requires 2 <= m < |s| && (s[m - 2] != 'c' || s[m - 1] != 't')
    requires forall k :: 0 <= k < |s| && k != m ==> s[k] != '('
    ensures FindSubmatch(CtPattern, s, 0).None?
  {
    if Contains(s, "ct(") {
      var k :| 0 <= k <= |s| - |"ct("| && OccursAt(s, "ct(", k);
      CtChars(s, k);
    }
    KeywordMissing(CtPattern, s);
  }

  /** No two prefixes of the dispatch start the same text. */
  lemma PrefixUnique(v: Verb, w: Verb, s: string)
    requires Prefix(v) <= s && Prefix(w) <= s
    ensures v == w
  {
    assert Prefix(v)[0] == s[0] && Prefix(w)[0] == s[0];
    assert Prefix(v)[4] == s[4] && Prefix(w)[4] == s[4];
    if |Prefix(v)| > 7 && |Prefix(w)| > 7 {
      assert Prefix(v)[7] == s[7] && Prefix(w)[7] == s[7];
    }
  }

  lemma VerbFound(v: Verb, rest: string)
    ensures FirstVerb(Prefix(v) + rest) == Some(v)
  {
    var s := Prefix(v) + rest;
    assert Prefix(v) <= s;
    var f := FirstVerb(s);
    assert f.Some?;
    PrefixUnique(v, f.value, s);
  }

  lemma PrefixStarts(v: Verb)
    ensures Prefix(v)[0] == 'm' || Prefix(v)[0] == 'o' || (Prefix(v)[0] == 'c' && Prefix(v)[1] == 'o')
  {
  }

  /** Text that starts like no prefix does. */
  lemma NoVerb(s: string)
    requires s != [] && s[0] != 'm' && s[0] != 'o'
    requires s[0] != 'c' || (|s| > 1 && s[1] != 'o')
    ensures FirstVerb(s).None?
  {
    var f := FirstVerb(s);
    if f.Some? {
      PrefixStarts(f.value);
    }
  }

  // ---------------------------------------------------------------- scanning printed arguments

  lemma {:induction false} DigitRunAt(r: string, e: nat)
    requires e <= |r|
    requires forall k :: 0 <= k < e ==> IsDigit(r[k], Dec)
    requires e < |r| ==> !IsDigit(r[e], Dec)
    ensures DigitRun(r) == e
    decreases e
  {
    if 0 < e {
      assert forall k :: 0 <= k < |r[1..]| ==> r[1..][k] == r[k + 1];
      DigitRunAt(r[1..], e - 1);
    }
  }

  lemma DigitsScan(n: nat, rest: string)
    requires rest == [] || !IsDigit(rest[0], Dec)
    ensures ScanDigits(FormatNat(n, Dec) + rest) == Ok((n, rest))
  {
    FormatNatDigits(n, Dec);
    var d := FormatNat(n, Dec);
    var s := d + rest;
    DigitRunAt(s, |d|);
    assert s[..|d|] == d && s[|d|..] == rest;
  }

  lemma NothingToSkip(s: string)
    requires s != [] && !IsSpace(s[0])
    ensures SkipSpace(s) == Some(s)
  {
  }

  lemma IntScan(n: int64, rest: string)
    requires rest == [] || !IsDigit(rest[0], Dec)
    ensures ScanInt(FormatInt(n) + rest) == Ok((n, rest))
  {
    hide FormatNat, ScanDigits, SkipSpace, DigitsValue;
    var m: nat := if n < 0 then 0 - n else n;
    var d := FormatNat(m, Dec) + rest;
    var s := FormatInt(n) + rest;
    DigitsScan(m, rest);
    if n < 0 {
      assert s == ['-'] + d;
      assert s[1..] == d;
    } else {
      FormatNatDigits(n, Dec);
      assert IsDigit(d[0], Dec);
    }
    NothingToSkip(s);
  }

  lemma Uint16Scan(n: uint16)
    ensures ScanUint16(FormatInt(n)) == Ok(n)
  {
    DigitsScan(n, []);
    FormatNatDigits(n, Dec);
    var s := FormatNat(n, Dec);
    assert s + [] == s;
    assert IsDigit(s[0], Dec);
    NothingToSkip(s);
  }

  lemma {:induction false} TokenWhole(s: string)
    requires NoSpace(s)
    ensures Token(s) == s
  {
    if s != [] {
      assert NoSpace(s[1..]);
      TokenWhole(s[1..]);
    }
  }

  lemma StringScan(s: string)
    requires s != [] && NoSpace(s)
    ensures ScanString(s) == Ok(s)
  {
    TokenWhole(s);
    NothingToSkip(s);
  }

  /** Printed integers have no parenthesis, colon, comma or white space. */
  lemma IntPlain(n: int)
    ensures '(' !in FormatInt(n) && ')' !in FormatInt(n) && ':' !in FormatInt(n) && ',' !in FormatInt(n)
    ensures NoSpace(FormatInt(n))
  {
    FormatIntChars(n);
  }

  // ---------------------------------------------------------------- actions with a prefix

  /** A prefixed text without parentheses reaches its own branch. */
  lemma PrefixedDispatch(net: Library, v: Verb, arg: string)
    requires !v.Conj? && '(' !in arg
    ensures ParseAction(net, Prefix(v) + arg) == ParseVerb(net, v, arg)
  {
    hide SimpleAction, FindSubmatch, FirstVerb, ParseVerb, ParsePatterns;
    var s := Prefix(v) + arg;
    assert ':' in Prefix(v) && '(' !in Prefix(v) by {
      assert Prefix(v)[|Prefix(v)| - 1] == ':';
    }
    assert ':' in s;
    NotSimple(s, ':');
    NoParenNoCt(s);
    VerbFound(v, arg);
    assert s[|Prefix(v)|..] == arg;
  }

  lemma MacDispatch(net: Library, v: Verb, addr: HardwareAddr)
    requires |addr| == 6 && (v.DlDst? || v.DlSrc?)
    ensures ParseAction(net, Prefix(v) + MacText(addr)) ==
            Ok(if v.DlDst? then ModDataLinkDestination(addr) else ModDataLinkSource(addr))
  {
    hide ParseAction;
    MacChars(addr);
    MacRoundTrip(addr);
    StringScan(MacText(addr));
    PrefixedDispatch(net, v, MacText(addr));
  }

  lemma IPDispatch(net: Library, v: Verb, ip: Addr)
    requires Canonical(net, ip) && ip.v4 && (v.NwDst? || v.NwSrc?)
    ensures ParseAction(net, Prefix(v) + ip.text) ==
            Ok(if v.NwDst? then ModNetworkDestination(Some(ip)) else ModNetworkSource(Some(ip)))
  {
    hide ParseAction;
    assert forall i :: 0 <= i < |ip.text| ==> AddressChar(ip.text[i]);
    StringScan(ip.text);
    PrefixedDispatch(net, v, ip.text);
  }

  lemma IntDispatch(net: Library, v: Verb, n: int64)
    requires v.Vlan? || v.Out?
    ensures ParseAction(net, Prefix(v) + FormatInt(n)) == Ok(if v.Vlan? then ModVLANVID(n) else Output(n))
  {
    hide ParseAction;
    IntPlain(n);
    IntScan(n, []);
    assert FormatInt(n) + [] == FormatInt(n);
    PrefixedDispatch(net, v, FormatInt(n));
  }

  lemma PortDispatch(net: Library, v: Verb, n: uint16)
    requires v.TpDst? || v.TpSrc?
    ensures ParseAction(net, Prefix(v) + FormatInt(n)) ==
            Ok(if v.TpDst? then ModTransportDestinationPort(n) else ModTransportSourcePort(n))
  {
    hide ParseAction;
    IntPlain(n);
    Uint16Scan(n);
    PrefixedDispatch(net, v, FormatInt(n));
  }

  /** The format after the keyword: (%d,%d/%d). */
  lemma ConjunctionScan(id: int64, number: int64, size: int64, first: string, second: string, third: string)
    requires first == FormatInt(id) + ("," + second)
    requires second == FormatInt(number) + ("/" + third)
    requires third == FormatInt(size) + ")"
    ensures ScanConjunction("(" + first) == Ok(Conjunction(id, number, size))
  {
    assert ("(" + first)[1..] == first;
    assert ScanCharInt('(', "(" + first) == Ok((id, "," + second)) by {
      IntScan(id, "," + second);
    }
    assert ("," + second)[1..] == second;
    assert ScanCharInt(',', "," + second) == Ok((number, "/" + third)) by {
      IntScan(number, "/" + third);
    }
    assert ("/" + third)[1..] == third;
    assert ScanCharInt('/', "/" + third) == Ok((size, ")")) by {
      IntScan(size, ")");
    }
  }

  lemma ConjunctionDispatch(net: Library, id: int64, number: int64, size: int64)
    ensures ParseAction(net, ConjunctionText(id, number, size)) == Ok(Conjunction(id, number, size))
  {
    hide ParseAction, ScanConjunction, FormatInt;
    var third := FormatInt(size) + ")";
    var second := FormatInt(number) + ("/" + third);
    var first := FormatInt(id) + ("," + second);
    ConjunctionScan(id, number, size, first, second, third);
    assert '(' !in first by {
      IntPlain(id);
      IntPlain(number);
      IntPlain(size);
    }
    var s := ConjunctionText(id, number, size);
    assert s == "conjunction(" + first by {
      assert FormatInt(number) + "/" + third == second;
      assert FormatInt(id) + "," + second == first;
    }
    ConjunctionReaches(net, first);
  }

  lemma ConjunctionReaches(net: Library, first: string)
    requires '(' !in first
    ensures ParseAction(net, "conjunction(" + first) == ScanConjunction("(" + first)
  {
    hide SimpleAction, FindSubmatch, FirstVerb, ScanConjunction, ParsePatterns;
    var s := "conjunction(" + first;
    assert s == Prefix(Conj) + ("(" + first);
    assert s[11] == '(' && s[10] == 'n';
    NotSimple(s, '(');
    OneParenNoCt(s, 11);
    VerbFound(Conj, "(" + first);
    assert s[|Prefix(Conj)|..] == "(" + first;
  }

  // ---------------------------------------------------------------- actions found by a pattern

  lemma {:induction false} RunWhole(r: string)
    requires NoReSpace(r)
    ensures RunLength(r) == |r|
  {
    if r != [] {
      assert forall k :: 0 <= k < |r[1..]| ==> r[1..][k] == r[k + 1];
      RunWhole(r[1..]);
    }
  }

  /** A pattern that matches right after its keyword, at the start of the text, is found there. */
  lemma FoundAtStart(p: Pattern, r: string)
    requires Groups(p, r).Some?
    ensures FindSubmatch(p, Keyword(p) + r, 0) == Groups(p, r)
  {
    var s := Keyword(p) + r;
    assert s[0..|Keyword(p)|] == Keyword(p);
    assert s[|Keyword(p)|..] == r;
    assert MatchAt(p, s, 0) == Groups(p, r);
  }

  lemma CtGroups(args: string)
    requires args != "" && NoReSpace(args)
    ensures Groups(CtPattern, args + ")") == Some([args])
  {
    var r := args + ")";
    RunWhole(r);
    assert r[|args|] == ')';
    assert r[..|args|] == args;
  }

  /** `ct(args)` parses back exactly when its arguments hold no white space. */
  lemma CtDispatch(net: Library, args: string)
    requires args != ""
    ensures ParseAction(net, "ct(" + (args + ")")) == Ok(ConnectionTracking(args)) <==> NoReSpace(args)
  {
    var s := "ct(" + (args + ")");
    assert s[2] == '(' && s[0] == 'c' && s[1] == 't';
    NotSimple(s, '(');
    if NoReSpace(args) {
      CtGroups(args);
      FoundAtStart(CtPattern, args + ")");
    } else {
      NoVerb(s);
      if FindSubmatch(CtPattern, s, 0).Some? {
        SubmatchHasNoSpace(CtPattern, s);
      } else {
        PatternsGiveNoCt(s);
      }
    }
  }

  lemma PatternsGiveNoCt(s: string)
    ensures ParsePatterns(s).Ok? ==> !ParsePatterns(s).value.ConnectionTracking?
  {
  }

  /** What the \S+ groups capture holds no white space. */
  lemma SubmatchHasNoSpace(p: Pattern, s: string)
    requires p.CtPattern? || p.LoadPattern? || p.SetFieldPattern?
    requires FindSubmatch(p, s, 0).Some?
    ensures NoReSpace(FindSubmatch(p, s, 0).value[0])
    ensures !p.CtPattern? ==> NoReSpace(FindSubmatch(p, s, 0).value[1])
  {
    var k := FoundAt(p, s, 0);
    GroupsHaveNoSpace(p, s[k + |Keyword(p)|..]);
  }

  lemma GroupsHaveNoSpace(p: Pattern, r: string)
    requires p.CtPattern? || p.LoadPattern? || p.SetFieldPattern?
    requires Groups(p, r).Some?
    ensures NoReSpace(Groups(p, r).value[0])
    ensures !p.CtPattern? ==> NoReSpace(Groups(p, r).value[1])
  {
  }

  lemma ResubmitPortDispatch(net: Library, port: int64)
    requires port >= 0
    ensures ParseAction(net, "resubmit:" + FormatInt(port)) == Ok(ResubmitPort(port))
  {
    hide SimpleAction, FindSubmatch, FirstVerb, ParseVerb;
    var d := FormatInt(port);
    var s := "resubmit:" + d;
    assert s[8] == ':' && s[0] == 'r';
    NotSimple(s, ':');
    IntPlain(port);
    NoParenNoCt(s);
    NoVerb(s);
    FormatIntChars(port);
    DigitRunAt(d, |d|);
    assert d[..|d|] == d;
    assert Groups(ResubmitPortPattern, d) == Some([d]);
    FoundAtStart(ResubmitPortPattern, d);
    IntRoundTrip(port);
  }

  function ResubmitText(port: int, table: int): string {
    "resubmit(" + (OptionalInt(port) + ("," + (OptionalInt(table) + ")")))
  }

  lemma OptionalDigits(n: int64)
    requires n >= 0
    ensures AllDigits(OptionalInt(n), Dec) && OptionalAtoi(OptionalInt(n)) == Ok(n)
  {
    FormatIntChars(n);
    IntRoundTrip(n);
  }

  /** The parts of the dispatch that every `resubmit(` text passes without firing. */
  lemma ResubmitReachesPatterns(net: Library, rest: string)
    requires '(' !in rest
    ensures ParseAction(net, "resubmit(" + rest) == ParsePatterns("resubmit(" + rest)
  {
    hide SimpleAction, FindSubmatch, FirstVerb, ParseVerb, ParsePatterns;
    var s := "resubmit(" + rest;
    assert s[0] == 'r' && s[6] == 'i' && s[7] == 't' && s[8] == '(';
    NotSimple(s, '(');
    OneParenNoCt(s, 8);
    NoVerb(s);
  }

  function ResubmitArgs(p: string, t: string): string {
    p + ("," + (t + ")"))
  }

  lemma ResubmitGroups(p: string, t: string)
    requires AllDigits(p, Dec) && AllDigits(t, Dec)
    ensures Groups(ResubmitPattern, ResubmitArgs(p, t)) == Some([p, t])
  {
    hide DigitRun;
    var r := ResubmitArgs(p, t);
    DigitsThen(p, "," + (t + ")"));
    DigitsThen(t, ")");
    assert r[|p|] == ',' && r[|p| + 1..] == t + ")";
    assert r[|p| + 1..|p| + 1 + |t|] == t;
  }

  /** The run of digits at the start of a text ends at the first other character. */
  lemma DigitsThen(d: string, rest: string)
    requires AllDigits(d, Dec) && rest != [] && !IsDigit(rest[0], Dec)
    ensures DigitRun(d + rest) == |d| && (d + rest)[..|d|] == d && (d + rest)[|d|..] == rest
  {
    DigitRunAt(d + rest, |d|);
  }

  lemma ResubmitParses(net: Library, port: int64, table: int64)
    requires port >= 0 && table >= 0
    ensures ParseAction(net, ResubmitText(port, table)) == Ok(Resubmit(port, table))
  {
    hide ParseAction;
    var p, t := OptionalInt(port), OptionalInt(table);
    OptionalDigits(port);
    OptionalDigits(table);
    assert '(' !in ResubmitArgs(p, t) by {
      IntPlain(port);
      IntPlain(table);
    }
    ResubmitReachesPatterns(net, ResubmitArgs(p, t));
    ResubmitGroups(p, t);
    FoundAtStart(ResubmitPattern, ResubmitArgs(p, t));
  }

  lemma NegativeGroups(p: string, t: string)
    requires (p != [] && p[0] == '-') || (AllDigits(p, Dec) && t != [] && t[0] == '-')
    ensures Groups(ResubmitPattern, ResubmitArgs(p, t)).None?
  {
    var r := ResubmitArgs(p, t);
    if p != [] && p[0] == '-' {
      DigitRunAt(r, 0);
    } else {
      assert r[..|p|] == p && r[|p|] == ',';
      DigitRunAt(r, |p|);
      var q := r[|p| + 1..];
      assert q == t + ")";
      DigitRunAt(q, 0);
    }
  }

  /** The keyword of a `resubmit(` text occurs at its start only. */
  lemma ResubmitOccursOnce(rest: string, k: nat)
    requires '(' !in rest && OccursAt("resubmit(" + rest, "resubmit(", k)
    ensures k == 0
  {
    var s := "resubmit(" + rest;
    OccursChars(s, "resubmit(", k);
    assert s[k + 8] == "resubmit("[8] == '(';
  }

  /** A negative port or table makes the text unreadable. */
  lemma ResubmitNegative(net: Library, port: int64, table: int64)
    requires port < 0 || table < 0
    ensures ParseAction(net, ResubmitText(port, table)) == Err(NoActionMatched)
  {
    hide ParseAction;
    var p, t := OptionalInt(port), OptionalInt(table);
    var rest := ResubmitArgs(p, t);
    var s := "resubmit(" + rest;
    assert '(' !in rest && ':' !in rest by {
      IntPlain(port);
      IntPlain(table);
    }
    ResubmitReachesPatterns(net, rest);
    NoColonNoPattern(s);
    if port >= 0 {
      OptionalDigits(port);
    }
    NegativeGroups(p, t);
    assert s[9..] == rest;
    if FindSubmatch(ResubmitPattern, s, 0).Some? {
      var k := FoundAt(ResubmitPattern, s, 0);
      ResubmitOccursOnce(rest, k);
    }
  }

  lemma NoColonNoPattern(s: string)
    requires ':' !in s
    ensures FindSubmatch(ResubmitPortPattern, s, 0).None?
    ensures FindSubmatch(LoadPattern, s, 0).None? && FindSubmatch(SetFieldPattern, s, 0).None?
  {
    assert Keyword(ResubmitPortPattern)[8] == ':' && Keyword(LoadPattern)[4] == ':' && Keyword(SetFieldPattern)[9] == ':';
    ContainsNeeds(s, Keyword(ResubmitPortPattern), ':');
    ContainsNeeds(s, Keyword(LoadPattern), ':');
    ContainsNeeds(s, Keyword(SetFieldPattern), ':');
    KeywordMissing(ResubmitPortPattern, s);
    KeywordMissing(LoadPattern, s);
    KeywordMissing(SetFieldPattern, s);
  }

  // ---------------------------------------------------------------- load and set_field

  /** "->" inside `field` with something after it: the greedy first group would swallow it. */
  predicate HasInnerArrow(field: string) {
    exists i :: 0 <= i < |field| - 2 && ArrowAt(field, i)
  }

  /** The texts of both kinds, and the patterns the dispatch tries before the kind's own. */
  predicate NotTakenEarlier(p: Pattern, s: string)
    requires p.LoadPattern? || p.SetFieldPattern?
  {
    && FindSubmatch(CtPattern, s, 0).None?
    && FindSubmatch(ResubmitPattern, s, 0).None?
    && FindSubmatch(ResubmitPortPattern, s, 0).None?
    && (p.SetFieldPattern? ==> FindSubmatch(LoadPattern, s, 0).None?)
  }

  function ArrowAction(p: Pattern, value: string, field: string): Action
    requires p.LoadPattern? || p.SetFieldPattern?
  {
    if p.LoadPattern? then Load(value, field) else SetField(value, field)
  }

  predicate ArrowParseable(p: Pattern, value: string, field: string)
    requires p.LoadPattern? || p.SetFieldPattern?
  {
    && NoReSpace(value) && NoReSpace(field) && !HasInnerArrow(field)
    && NotTakenEarlier(p, ArrowText(Keyword(p), value, field))
  }

  function ArrowArgs(value: string, field: string): string {
    value + ("->" + field)
  }

  /** The separating arrow, the text around it, and what comes after it. */
  lemma ArrowArgsShape(value: string, field: string)
    ensures var r := ArrowArgs(value, field); var m := |value|;
            && |r| == m + 2 + |field| && ArrowAt(r, m) && r[..m] == value && r[m + 2..] == field
            && forall k :: m < k < |r| - 2 ==> (ArrowAt(r, k) <==> k >= m + 2 && ArrowAt(field, k - m - 2))
  {
    var r := ArrowArgs(value, field);
    var m := |value|;
    assert r[m] == '-' && r[m + 1] == '>';
    assert forall i :: 0 <= i < |field| ==> r[m + 2 + i] == field[i];
    assert r[..m] == value && r[m + 2..] == field;
  }

  /** The greedy groups capture the value and the field, unless the field has an inner arrow. */
  lemma ArrowCapture(value: string, field: string)
    requires value != "" && field != "" && NoReSpace(value) && NoReSpace(field)
    ensures ArrowGroups(ArrowArgs(value, field)).Some?
    ensures ArrowGroups(ArrowArgs(value, field)) == Some([value, field]) <==> !HasInnerArrow(field)
  {
    var r := ArrowArgs(value, field);
    var m := |value|;
    ArrowArgsShape(value, field);
    RunWhole(r);
    var j := LastArrow(r, |r| - 2);
    assert j.Some? && m <= j.value;
    if HasInnerArrow(field) {
      var i :| 0 <= i < |field| - 2 && ArrowAt(field, i);
      assert ArrowAt(r, m + 2 + i);
      assert |r[..j.value]| > |value|;
    } else {
      assert j.value == m;
      assert r[m + 2..|r|] == field;
    }
  }

  /** Which branch a text with an arrow reaches. */
  lemma ArrowReaches(net: Library, p: Pattern, value: string, field: string)
    requires p.LoadPattern? || p.SetFieldPattern?
    ensures var s := ArrowText(Keyword(p), value, field);
            ParseAction(net, s) ==
            if FindSubmatch(CtPattern, s, 0).Some? then Ok(ConnectionTracking(FindSubmatch(CtPattern, s, 0).value[0]))
            else ParsePatterns(s)
  {
    hide SimpleAction, FindSubmatch, FirstVerb, ParseVerb, ParsePatterns;
    var s := ArrowText(Keyword(p), value, field);
    assert Keyword(p)[|Keyword(p)| - 1] == ':';
    assert s[|Keyword(p)| - 1] == ':';
    NotSimple(s, ':');
    assert s[0] == Keyword(p)[0];
    NoVerb(s);
  }

  /** Once the earlier patterns have passed the text on, the kind's own pattern decides. */
  lemma OwnPattern(p: Pattern, s: string, value: string, field: string)
    requires p.LoadPattern? || p.SetFieldPattern?
    requires FindSubmatch(CtPattern, s, 0).None?
    ensures ParsePatterns(s) == Ok(ArrowAction(p, value, field)) <==>
            NotTakenEarlier(p, s) && FindSubmatch(p, s, 0) == Some([value, field])
  {
    hide FindSubmatch, OptionalAtoi, ParseInt;
    var found := FindSubmatch(p, s, 0);
    assert found.Some? ==> found.value == [found.value[0], found.value[1]];
  }

  lemma ArrowOwnBranch(net: Library, p: Pattern, value: string, field: string)
    requires p.LoadPattern? || p.SetFieldPattern?
    ensures var s := ArrowText(Keyword(p), value, field);
            ParseAction(net, s) == Ok(ArrowAction(p, value, field)) <==>
            NotTakenEarlier(p, s) && FindSubmatch(p, s, 0) == Some([value, field])
  {
    hide ParseAction, FindSubmatch, ParsePatterns, ArrowText;
    ArrowReaches(net, p, value, field);
    var s := ArrowText(Keyword(p), value, field);
    if FindSubmatch(CtPattern, s, 0).None? {
      OwnPattern(p, s, value, field);
    }
  }

  /** `load` and `set_field` parse back exactly under `ArrowParseable`. */
  lemma ArrowDispatch(net: Library, p: Pattern, value: string, field: string)
    requires p.LoadPattern? || p.SetFieldPattern?
    requires value != "" && field != ""
    ensures ParseAction(net, ArrowText(Keyword(p), value, field)) == Ok(ArrowAction(p, value, field)) <==>
            ArrowParseable(p, value, field)
  {
    hide ParseAction;
    var s := ArrowText(Keyword(p), value, field);
    ArrowOwnBranch(net, p, value, field);
    if NoReSpace(value) && NoReSpace(field) {
      ArrowCapture(value, field);
      assert Groups(p, ArrowArgs(value, field)) == ArrowGroups(ArrowArgs(value, field));
      FoundAtStart(p, ArrowArgs(value, field));
    } else if FindSubmatch(p, s, 0).Some? {
      SubmatchHasNoSpace(p, s);
    }
  }

  // ---------------------------------------------------------------- the whole dispatch

  /** `set_tunnel` is printed but has no branch in the parser. */
  lemma TunnelDoesNotParse(net: Library, id: uint64)
    ensures ParseAction(net, "set_tunnel:0x" + FormatNat(id, Hex)) == Err(NoActionMatched)
  {
    var d := FormatNat(id, Hex);
    var s := "set_tunnel:0x" + d;
    FormatNatDigits(id, Hex);
    assert s[10] == ':' && s[0] == 's';
    NotSimple(s, ':');
    NoParenNoCt(s);
    NoVerb(s);
    TunnelKeyword(ResubmitPortPattern, d);
    TunnelKeyword(LoadPattern, d);
    TunnelKeyword(SetFieldPattern, d);
  }

  /** The only colon of a `set_tunnel` text follows an "l", unlike the colon of any keyword. */
  lemma TunnelKeyword(p: Pattern, d: string)
    requires AllDigitChars(d) && (p.ResubmitPortPattern? || p.LoadPattern? || p.SetFieldPattern?)
    ensures FindSubmatch(p, "set_tunnel:0x" + d, 0).None?
  {
    var s := "set_tunnel:0x" + d;
    var kw := Keyword(p);
    assert s[9] == 'l' && forall k :: 0 <= k < |s| && s[k] == ':' ==> k == 10;
    assert kw[|kw| - 1] == ':' && kw[|kw| - 2] != 'l';
    if Contains(s, kw) {
      var i :| 0 <= i <= |s| - |kw| && OccursAt(s, kw, i);
      LastTwoChars(s, kw, i);
    }
    KeywordMissing(p, s);
  }

  lemma LastTwoChars(s: string, kw: string, i: nat)
    requires |kw| >= 2 && OccursAt(s, kw, i)
    ensures s[i + |kw| - 1] == kw[|kw| - 1] && s[i + |kw| - 2] == kw[|kw| - 2]
  {
    OccursChars(s, kw, i);
  }

  /** The actions that come back unchanged from their own text. */
  predicate Parseable(a: Action) {
    match a
    case ConnectionTracking(args) => NoReSpace(args)
    case Resubmit(port, table) => port >= 0 && table >= 0
    case Load(value, field) => ArrowParseable(LoadPattern, value, field)
    case SetField(value, field) => ArrowParseable(SetFieldPattern, value, field)
    case SetTunnel(_) => false
    case _ => true
  }

  /** The IP address of the action, if it has one, is a parsed IPv4 address, as its constructor makes it. */
  ghost predicate WellBuilt(net: Library, a: Action) {
    a.ModNetworkDestination? || a.ModNetworkSource? ==>
      a.ip.Some? ==> Canonical(net, a.ip.value) && a.ip.value.v4
  }

  lemma NameRoundTrip(net: Library, a: Action)
    requires a.Drop? || a.Flood? || a.InPort? || a.Local? || a.Normal? || a.StripVLAN?
    ensures ParseAction(net, MarshalAction(a).value) == Ok(a)
  {
    var s := MarshalAction(a).value;
    assert ToLower(s) == s;
  }

  lemma PrefixedRoundTrip(net: Library, a: Action)
    requires MarshalAction(a).Ok? && WellBuilt(net, a)
    requires || a.ModDataLinkDestination? || a.ModDataLinkSource? || a.ModNetworkDestination?
             || a.ModNetworkSource? || a.ModTransportDestinationPort? || a.ModTransportSourcePort?
             || a.ModVLANVID? || a.Output? || a.Conjunction?
    ensures ParseAction(net, MarshalAction(a).value) == Ok(a)
  {
    hide ParseAction;
    if a.ModDataLinkDestination? {
      MacDispatch(net, DlDst, a.addr);
    } else if a.ModDataLinkSource? {
      MacDispatch(net, DlSrc, a.addr);
    } else if a.ModNetworkDestination? {
      IPDispatch(net, NwDst, a.ip.value);
    } else if a.ModNetworkSource? {
      IPDispatch(net, NwSrc, a.ip.value);
    } else if a.ModTransportDestinationPort? {
      PortDispatch(net, TpDst, a.tp);
    } else if a.ModTransportSourcePort? {
      PortDispatch(net, TpSrc, a.tp);
    } else if a.ModVLANVID? {
      IntDispatch(net, Vlan, a.vid);
    } else if a.Output? {
      IntDispatch(net, Out, a.port);
    } else {
      ConjunctionDispatch(net, a.id, a.dimensionNumber, a.dimensionSize);
    }
  }

  lemma PatternRoundTrip(net: Library, a: Action)
    requires MarshalAction(a).Ok?
    requires || a.ConnectionTracking? || a.Resubmit? || a.ResubmitPort? || a.Load? || a.SetField? || a.SetTunnel?
    ensures ParseAction(net, MarshalAction(a).value) == Ok(a) <==> Parseable(a)
  {
    hide ParseAction;
    if a.ConnectionTracking? {
      CtDispatch(net, a.args);
    } else if a.Resubmit? {
      if a.port >= 0 && a.table >= 0 {
        ResubmitParses(net, a.port, a.table);
      } else {
        ResubmitNegative(net, a.port, a.table);
      }
    } else if a.ResubmitPort? {
      ResubmitPortDispatch(net, a.port);
    } else if a.Load? {
      ArrowDispatch(net, LoadPattern, a.value, a.field);
    } else if a.SetField? {
      ArrowDispatch(net, SetFieldPattern, a.value, a.field);
    } else {
      TunnelDoesNotParse(net, a.tunnelID);
    }
  }

  /** For every action that marshals: parsing its text gives the action back if and only if it is `Parseable`. */
  lemma RoundTrips(net: Library, a: Action)
    requires MarshalAction(a).Ok? && WellBuilt(net, a)
    ensures ParseAction(net, MarshalAction(a).value) == Ok(a) <==> Parseable(a)
  {
    hide ParseAction;
    if a.Drop? || a.Flood? || a.InPort? || a.Local? || a.Normal? || a.StripVLAN? {
      NameRoundTrip(net, a);
    } else if || a.ConnectionTracking? || a.Resubmit? || a.ResubmitPort? || a.Load? || a.SetField? || a.SetTunnel? {
      PatternRoundTrip(net, a);
    } else {
      PrefixedRoundTrip(net, a);
    }
  }
}
