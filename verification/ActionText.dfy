/** The exact text of every action and the exact cause of every error, and texts that are read though they are not printed. */
module ActionText {
  import opened Results
  import opened Bits
  import opened Text
  import opened Numerals
  import opened Net
  import opened Actions
  import opened ActionDispatch
  import opened ActionRoundTrip
  import opened ActionImage
  import ActionEnds

  // ---------------------------------------------------------------- printing

  /** What Open vSwitch is sent for an action. */
  ghost predicate TextIs(a: Action, s: string) {
    match a
    case Drop => s == "drop"
    case Flood => s == "flood"
    case InPort => s == "in_port"
    case Local => s == "local"
    case Normal => s == "normal"
    case StripVLAN => s == "strip_vlan"
    case ConnectionTracking(args) => s == "ct(" + args + ")"
    case ModDataLinkDestination(addr) => s == "mod_dl_dst:" + MacText(addr)
    case ModDataLinkSource(addr) => s == "mod_dl_src:" + MacText(addr)
    case ModNetworkDestination(ip) => ip.Some? && s == "mod_nw_dst:" + ip.value.text
    case ModNetworkSource(ip) => ip.Some? && s == "mod_nw_src:" + ip.value.text
    case ModTransportDestinationPort(port) => s == "mod_tp_dst:" + FormatInt(port)
    case ModTransportSourcePort(port) => s == "mod_tp_src:" + FormatInt(port)
    case ModVLANVID(vid) => s == "mod_vlan_vid:" + FormatInt(vid)
    case Conjunction(id, number, size) =>
      s == "conjunction(" + FormatInt(id) + "," + FormatInt(number) + "/" + FormatInt(size) + ")"
    case Output(port) => s == "output:" + FormatInt(port)
    case Resubmit(port, table) =>
      s == "resubmit(" + (if port == 0 then "" else FormatInt(port)) + "," + (if table == 0 then "" else FormatInt(table)) + ")"
    case ResubmitPort(port) => s == "resubmit:" + FormatInt(port)
    case Load(value, field) => s == "load:" + value + "->" + field
    case SetField(value, field) => s == "set_field:" + value + "->" + field
    case SetTunnel(id) => exists h: string :: IsNumeral(h, id, Hex) && s == "set_tunnel:0x" + h
  }

  /** Every action that marshals has the text that `TextIs` spells out. */
  lemma ActionTextIs(a: Action)
    requires MarshalAction(a).Ok?
    ensures TextIs(a, MarshalAction(a).value)
  {
    if a.SetTunnel? {
      hide IsNumeral, FormatNat;
      FormatNatCanonical(a.tunnelID, Hex);
      assert MarshalAction(a).value == "set_tunnel:0x" + FormatNat(a.tunnelID, Hex);
    } else if a.Conjunction? || a.Resubmit? {
      CallTextIs(a);
    } else {
      SimpleTextIs(a);
    }
  }

  lemma CallTextIs(a: Action)
    requires (a.Conjunction? || a.Resubmit?) && MarshalAction(a).Ok?
    ensures TextIs(a, MarshalAction(a).value)
  {
    hide FormatInt;
    if a.Conjunction? {
      Associates("conjunction(", FormatInt(a.id), ",", FormatInt(a.dimensionNumber), "/" + (FormatInt(a.dimensionSize) + ")"));
      var front := "conjunction(" + FormatInt(a.id) + "," + FormatInt(a.dimensionNumber);
      assert front + ("/" + (FormatInt(a.dimensionSize) + ")")) == front + "/" + FormatInt(a.dimensionSize) + ")";
    } else {
      Associates("resubmit(", OptionalInt(a.port), ",", OptionalInt(a.table), ")");
    }
  }

  lemma Associates(a: string, b: string, c: string, d: string, e: string)
    ensures a + (b + (c + (d + e))) == a + b + c + d + e
  {
  }

  lemma SimpleTextIs(a: Action)
    requires !a.Conjunction? && !a.Resubmit? && !a.SetTunnel? && MarshalAction(a).Ok?
    ensures TextIs(a, MarshalAction(a).value)
  {
    hide FormatInt, MacText;
    if a.ConnectionTracking? {
      assert "ct(" + (a.args + ")") == "ct(" + a.args + ")";
    } else if a.Load? {
      assert "load:" + (a.value + ("->" + a.field)) == "load:" + a.value + "->" + a.field;
    } else if a.SetField? {
      assert "set_field:" + (a.value + ("->" + a.field)) == "set_field:" + a.value + "->" + a.field;
    }
  }

  /** Each error, and exactly when an action gives it. */
  lemma ActionErrors(a: Action)
    ensures MarshalAction(a) == Err(CTNoArguments) <==> a == ConnectionTracking("")
    ensures MarshalAction(a) == Err(HardwareAddrLength) <==>
            (a.ModDataLinkDestination? || a.ModDataLinkSource?) && |a.addr| != 6
    ensures MarshalAction(a) == Err(InvalidIPv4) <==> a == ModNetworkDestination(None) || a == ModNetworkSource(None)
    ensures MarshalAction(a) == Err(InvalidVLANVID) <==> a.ModVLANVID? && (a.vid < 0 || a.vid > 4095)
    ensures MarshalAction(a) == Err(DimensionTooLarge) <==> a.Conjunction? && a.dimensionNumber > a.dimensionSize
    ensures MarshalAction(a) == Err(OutputNegativePort) <==> a.Output? && a.port < 0
    ensures MarshalAction(a) == Err(ResubmitPortTableZero) <==> a == Resubmit(0, 0)
    ensures MarshalAction(a) == Err(ResubmitPortInvalid) <==> a.ResubmitPort? && (a.port < 0 || a.port > 0xffff_feff)
    ensures MarshalAction(a) == Err(LoadSetFieldZero) <==> (a.Load? || a.SetField?) && (a.value == "" || a.field == "")
  {
    hide FormatInt, MacText, FormatNat;
  }

  // ---------------------------------------------------------------- names in any case

  /** `s` is the lower-case name with any of its letters in upper case. */
  predicate AnyCase(s: string, name: string) {
    && |s| == |name|
    && forall i :: 0 <= i < |s| ==>
         s[i] == name[i] || ('a' <= name[i] <= 'z' && s[i] as int + 32 == name[i] as int)
  }

  predicate LowerName(name: string) {
    forall i :: 0 <= i < |name| ==> !('A' <= name[i] <= 'Z')
  }

  lemma AnyCaseLowers(s: string, name: string)
    requires LowerName(name)
    ensures ToLower(s) == name <==> AnyCase(s, name)
  {
    if ToLower(s) == name {
      forall i | 0 <= i < |s|
        ensures s[i] == name[i] || ('a' <= name[i] <= 'z' && s[i] as int + 32 == name[i] as int)
      {
        assert ToLower(s)[i] == LowerChar(s[i]);
      }
    }
  }

  lemma Names()
    ensures LowerName("drop") && LowerName("flood") && LowerName("in_port")
    ensures LowerName("local") && LowerName("normal") && LowerName("strip_vlan")
  {
  }

  lemma OnlyNames(net: Library, s: string)
    requires SimpleAction(s).None? && ParseAction(net, s).Ok?
    ensures var a := ParseAction(net, s).value;
            !a.Drop? && !a.Flood? && !a.InPort? && !a.Local? && !a.Normal? && !a.StripVLAN?
  {
    hide SimpleAction, FindSubmatch, FirstVerb, ParseInt, ScanMac, ScanIPv4, ScanCharInt, ScanInt, ScanUint16, OptionalAtoi;
  }

  lemma NameReads(net: Library, s: string)
    ensures ParseAction(net, s) == Ok(Drop) <==> ToLower(s) == "drop"
    ensures ParseAction(net, s) == Ok(Flood) <==> ToLower(s) == "flood"
    ensures ParseAction(net, s) == Ok(InPort) <==> ToLower(s) == "in_port"
    ensures ParseAction(net, s) == Ok(Local) <==> ToLower(s) == "local"
    ensures ParseAction(net, s) == Ok(Normal) <==> ToLower(s) == "normal"
    ensures ParseAction(net, s) == Ok(StripVLAN) <==> ToLower(s) == "strip_vlan"
  {
    if SimpleAction(s).Some? {
      hide FindSubmatch, FirstVerb, ParseVerb, ParsePatterns, ToLower;
    } else {
      hide ParseAction, ToLower;
      if ParseAction(net, s).Ok? {
        OnlyNames(net, s);
      }
    }
  }

  /** The six names, and nothing else, are read as their actions, in any case of their letters. */
  lemma NamesInAnyCase(net: Library, s: string)
    ensures ParseAction(net, s) == Ok(Drop) <==> AnyCase(s, "drop")
    ensures ParseAction(net, s) == Ok(Flood) <==> AnyCase(s, "flood")
    ensures ParseAction(net, s) == Ok(InPort) <==> AnyCase(s, "in_port")
    ensures ParseAction(net, s) == Ok(Local) <==> AnyCase(s, "local")
    ensures ParseAction(net, s) == Ok(Normal) <==> AnyCase(s, "normal")
    ensures ParseAction(net, s) == Ok(StripVLAN) <==> AnyCase(s, "strip_vlan")
  {
    hide ParseAction, AnyCase, ToLower, LowerName;
    Names();
    NameReads(net, s);
    AnyCaseLowers(s, "drop");
    AnyCaseLowers(s, "flood");
    AnyCaseLowers(s, "in_port");
    AnyCaseLowers(s, "local");
    AnyCaseLowers(s, "normal");
    AnyCaseLowers(s, "strip_vlan");
  }

  // ---------------------------------------------------------------- blanks, signs and other forms

  lemma IntAfterBlanks(w: string, n: int64, rest: string)
    requires ActionEnds.Blanks(w) && (rest == [] || !IsDigit(rest[0], Dec))
    ensures ScanInt(w + (FormatInt(n) + rest)) == Ok((n, rest))
    ensures n >= 0 ==> ScanInt(w + ("+" + FormatInt(n) + rest)) == Ok((n, rest))
  {
    hide SkipSpace, FormatNat, ScanDigits, DigitsValue;
    var s := FormatInt(n) + rest;
    IntScan(n, rest);
    IntStarts(n);
    ActionEnds.SkipsBlanks(w, s);
    ActionEnds.SkipsBlanks([], s);
    assert [] + s == s;
    if n >= 0 {
      var p := "+" + FormatInt(n) + rest;
      ActionEnds.SkipsBlanks(w, p);
      assert p[1..] == FormatNat(n, Dec) + rest;
      DigitsScan(n, rest);
    }
  }

  lemma IntStarts(n: int)
    ensures !IsSpace(FormatInt(n)[0])
  {
    FormatIntChars(n);
  }

  /** Blanks and a plus sign before the number of a port or a VLAN ID are skipped, and so is what follows it. */
  lemma IntArguments(net: Library, w: string, n: int64, rest: string)
    requires ActionEnds.Blanks(w) && '(' !in rest && (rest == [] || !IsDigit(rest[0], Dec))
    ensures ParseAction(net, "output:" + (w + (FormatInt(n) + rest))) == Ok(Output(n))
    ensures ParseAction(net, "mod_vlan_vid:" + (w + (FormatInt(n) + rest))) == Ok(ModVLANVID(n))
    ensures n >= 0 ==> ParseAction(net, "output:" + (w + ("+" + FormatInt(n) + rest))) == Ok(Output(n))
  {
    hide ParseAction, ScanInt, FormatInt;
    IntAfterBlanks(w, n, rest);
    IntPlain(n);
    PrefixedDispatch(net, Out, w + (FormatInt(n) + rest));
    PrefixedDispatch(net, Vlan, w + (FormatInt(n) + rest));
    PrefixedDispatch(net, Out, w + ("+" + FormatInt(n) + rest));
  }

  // ---------------------------------------------------------------- arguments end at white space, ports at their digits

  lemma {:induction false} TokenEnds(t: string, rest: string)
    requires NoSpace(t) && (rest == [] || IsSpace(rest[0]))
    ensures Token(t + rest) == t
  {
    if t == [] {
      assert t + rest == rest;
    } else {
      assert (t + rest)[0] == t[0] && (t + rest)[1..] == t[1..] + rest;
      TokenEnds(t[1..], rest);
    }
  }

  lemma StringAfterBlanks(w: string, t: string, rest: string)
    requires ActionEnds.Blanks(w) && t != [] && NoSpace(t) && (rest == [] || IsSpace(rest[0]))
    ensures ScanString(w + (t + rest)) == Ok(t)
  {
    hide SkipSpace, Token;
    ActionEnds.SkipsBlanks(w, t + rest);
    TokenEnds(t, rest);
  }

  /** An address goes from the first character after the blanks to the next white space; only IPv4 addresses are taken. */
  lemma AddressArguments(net: Library, w: string, t: string, rest: string)
    requires ActionEnds.Blanks(w) && t != [] && NoSpace(t) && (rest == [] || IsSpace(rest[0]))
    requires '(' !in t && '(' !in rest
    ensures var mac := ParseMAC(t); var arg := w + (t + rest);
            if mac.Some? then
              && ParseAction(net, "mod_dl_dst:" + arg) == Ok(ModDataLinkDestination(mac.value))
              && ParseAction(net, "mod_dl_src:" + arg) == Ok(ModDataLinkSource(mac.value))
            else
              && ParseAction(net, "mod_dl_dst:" + arg) == Err(BadAddress)
              && ParseAction(net, "mod_dl_src:" + arg) == Err(BadAddress)
    ensures var ip := net.parseIP(t); var arg := w + (t + rest);
            if ip.Some? && ip.value.v4 then
              && ParseAction(net, "mod_nw_dst:" + arg) == Ok(ModNetworkDestination(ip))
              && ParseAction(net, "mod_nw_src:" + arg) == Ok(ModNetworkSource(ip))
            else
              && ParseAction(net, "mod_nw_dst:" + arg) == Err(BadAddress)
              && ParseAction(net, "mod_nw_src:" + arg) == Err(BadAddress)
  {
    hide ParseAction, ScanString, ParseMAC;
    var arg := w + (t + rest);
    StringAfterBlanks(w, t, rest);
    PrefixedDispatch(net, DlDst, arg);
    PrefixedDispatch(net, DlSrc, arg);
    PrefixedDispatch(net, NwDst, arg);
    PrefixedDispatch(net, NwSrc, arg);
  }

  lemma PortAfterBlanks(w: string, n: nat, rest: string)
    requires ActionEnds.Blanks(w) && (rest == [] || !IsDigit(rest[0], Dec))
    ensures ScanUint16(w + (FormatInt(n) + rest)) == if n <= 65535 then Ok(n) else Err(BadFormat)
    ensures ScanUint16(w + ("+" + FormatInt(n) + rest)).Err? && ScanUint16(w + ("-" + FormatInt(n) + rest)).Err?
  {
    hide SkipSpace, FormatNat, DigitsValue;
    var s := FormatInt(n) + rest;
    IntStarts(n);
    DigitsScan(n, rest);
    ActionEnds.SkipsBlanks(w, s);
    ActionEnds.SkipsBlanks(w, "+" + FormatInt(n) + rest);
    ActionEnds.SkipsBlanks(w, "-" + FormatInt(n) + rest);
  }

  /** A transport port is read if it fits sixteen bits and has no sign; what follows its digits is skipped. */
  lemma PortArguments(net: Library, w: string, n: nat, rest: string)
    requires ActionEnds.Blanks(w) && '(' !in rest && (rest == [] || !IsDigit(rest[0], Dec))
    ensures var arg := w + (FormatInt(n) + rest);
            if n <= 65535 then
              && ParseAction(net, "mod_tp_dst:" + arg) == Ok(ModTransportDestinationPort(n))
              && ParseAction(net, "mod_tp_src:" + arg) == Ok(ModTransportSourcePort(n))
            else
              && ParseAction(net, "mod_tp_dst:" + arg) == Err(BadFormat)
              && ParseAction(net, "mod_tp_src:" + arg) == Err(BadFormat)
    ensures ParseAction(net, "mod_tp_dst:" + (w + ("+" + FormatInt(n) + rest))).Err?
    ensures ParseAction(net, "mod_tp_src:" + (w + ("-" + FormatInt(n) + rest))).Err?
  {
    hide ParseAction, ScanUint16, FormatInt;
    PortAfterBlanks(w, n, rest);
    IntPlain(n);
    PrefixedDispatch(net, TpDst, w + (FormatInt(n) + rest));
    PrefixedDispatch(net, TpSrc, w + (FormatInt(n) + rest));
    PrefixedDispatch(net, TpDst, w + ("+" + FormatInt(n) + rest));
    PrefixedDispatch(net, TpSrc, w + ("-" + FormatInt(n) + rest));
  }

  /** The arguments of `ct` come back unless they hold a tab, a newline, a form feed, a carriage return or a space. */
  lemma CtArguments(net: Library, args: string)
    requires args != ""
    ensures ParseAction(net, "ct(" + (args + ")")) == Ok(ConnectionTracking(args)) <==>
            forall i :: 0 <= i < |args| ==> args[i] as int !in {9, 10, 12, 13, 32}
  {
    hide ParseAction;
    CtDispatch(net, args);
    assert '\t' as int == 9 && '\n' as int == 10 && '\r' as int == 13 && ' ' as int == 32;
    forall i | 0 <= i < |args|
      ensures ReSpace(args[i]) <==> args[i] as int in {9, 10, 12, 13, 32}
    {
      assert args[i] as int == 9 ==> args[i] == '\t';
      assert args[i] as int == 10 ==> args[i] == '\n';
      assert args[i] as int == 13 ==> args[i] == '\r';
      assert args[i] as int == 32 ==> args[i] == ' ';
    }
  }

  // ---------------------------------------------------------------- conjunction

  /** The three numbers of `conjunction(` need their closing parenthesis; what follows it is skipped. */
  lemma ConjunctionArguments(net: Library, id: int64, number: int64, size: int64, rest: string)
    requires '(' !in rest && (rest == [] || !IsDigit(rest[0], Dec))
    ensures ParseAction(net, "conjunction(" + (FormatInt(id) + ("," + (FormatInt(number) + ("/" + (FormatInt(size) + rest)))))) ==
            if rest != [] && rest[0] == ')' then Ok(Conjunction(id, number, size)) else Err(BadFormat)
  {
    hide ParseAction, ScanInt, FormatInt;
    var third := FormatInt(size) + rest;
    var second := FormatInt(number) + ("/" + third);
    var first := FormatInt(id) + ("," + second);
    IntScan(id, "," + second);
    IntScan(number, "/" + third);
    IntScan(size, rest);
    assert ("(" + first)[1..] == first && ("," + second)[1..] == second && ("/" + third)[1..] == third;
    assert '(' !in first by {
      IntPlain(id);
      IntPlain(number);
      IntPlain(size);
    }
    ConjunctionReaches(net, first);
  }

  // ---------------------------------------------------------------- which pattern wins

  /** `ct(...)` anywhere in a text makes it a connection-tracking action, whatever prefix it starts with. */
  lemma CtAnywhere(net: Library, x: string, args: string, y: string)
    requires args != "" && NoReSpace(args)
    ensures var r := ParseAction(net, x + ("ct(" + (args + ")")) + y); r.Ok? && r.value.ConnectionTracking?
  {
    hide FindSubmatch, SimpleAction, FirstVerb, ParseVerb, ParsePatterns;
    var s := "ct(" + (args + ")");
    CtGroups(args);
    FoundAtStart(CtPattern, args + ")");
    FoundAround(CtPattern, x, s, y);
    assert (x + s + y)[|x| + 2] == s[2] == '(';
    NotSimple(x + s + y, '(');
  }

  /** Without that and without a prefix, `resubmit(...)` anywhere wins over the patterns with a colon. */
  lemma ResubmitAnywhere(net: Library, x: string, p: string, t: string, y: string)
    requires AllDigits(p, Dec) && AllDigits(t, Dec)
    requires var s := x + ("resubmit(" + ResubmitArgs(p, t)) + y;
             FirstVerb(s).None? && FindSubmatch(CtPattern, s, 0).None?
    ensures var r := ParseAction(net, x + ("resubmit(" + ResubmitArgs(p, t)) + y);
            if r.Ok? then r.value.Resubmit? else r == Err(BadNumber)
  {
    hide FindSubmatch, SimpleAction, FirstVerb, ParseVerb, OptionalAtoi, ParseInt, Groups, ResubmitArgs;
    var s := "resubmit(" + ResubmitArgs(p, t);
    ResubmitGroups(p, t);
    FoundAtStart(ResubmitPattern, ResubmitArgs(p, t));
    FoundAround(ResubmitPattern, x, s, y);
    assert (x + s + y)[|x| + 8] == s[8] == '(';
    NotSimple(x + s + y, '(');
  }

  // ---------------------------------------------------------------- other forms of addresses

  /** Two hexadecimal digits, in either case, make a byte. */
  lemma HexByteReads(c: char, d: char)
    ensures IsDigit(c, Hex) && IsDigit(d, Hex) ==>
              ParseHexByte([c, d]) == Some(16 * DigitValue(c).value + DigitValue(d).value)
    ensures !(IsDigit(c, Hex) && IsDigit(d, Hex)) ==> ParseHexByte([c, d]) == None
  {
  }

  /** The bytes of an address with a separator between them. */
  function PairText(a: HardwareAddr, sep: char): string {
    if a == [] then [] else if |a| == 1 then HexByte(a[0]) else HexByte(a[0]) + [sep] + PairText(a[1..], sep)
  }

  lemma {:induction false} PairsRead(a: HardwareAddr, sep: char)
    requires a != []
    ensures ParsePairs(PairText(a, sep), sep) == Some(a) && |PairText(a, sep)| == 3 * |a| - 1
  {
    var s := PairText(a, sep);
    if |a| == 1 {
      assert s[..2] == HexByte(a[0]) && [a[0]] == a;
    } else {
      PairsRead(a[1..], sep);
      assert s[..2] == HexByte(a[0]) && s[2] == sep && s[3..] == PairText(a[1..], sep);
      assert [a[0]] + a[1..] == a;
    }
  }

  /** Two bytes, then dots between groups of two bytes. */
  function GroupText(a: HardwareAddr): string
    requires |a| % 2 == 0
  {
    if a == [] then []
    else if |a| == 2 then HexByte(a[0]) + HexByte(a[1])
    else HexByte(a[0]) + HexByte(a[1]) + "." + GroupText(a[2..])
  }

  lemma {:induction false} GroupsRead(a: HardwareAddr)
    requires a != [] && |a| % 2 == 0
    ensures ParseGroups(GroupText(a)) == Some(a) && 2 * |GroupText(a)| == 5 * |a| - 2
    decreases |a|
  {
    var s := GroupText(a);
    assert s[..2] == HexByte(a[0]) && s[2..4] == HexByte(a[1]);
    if |a| == 2 {
      assert [a[0], a[1]] == a;
    } else {
      GroupsRead(a[2..]);
      assert s[4] == '.' && s[5..] == GroupText(a[2..]);
      assert [a[0], a[1]] + a[2..] == a;
    }
  }

  /** Addresses of 6, 8 and 20 bytes, with colons, dashes or dots. */
  lemma MacForms(a: HardwareAddr)
    requires |a| == 6 || |a| == 8 || |a| == 20
    ensures ParseMAC(PairText(a, ':')) == Some(a) && ParseMAC(PairText(a, '-')) == Some(a)
    ensures ParseMAC(GroupText(a)) == Some(a)
  {
    hide ParsePairs, ParseGroups, GroupText, PairText;
    PairsRead(a, ':');
    PairsRead(a, '-');
    GroupsRead(a);
    SeparatorAt(a);
  }

  lemma SeparatorAt(a: HardwareAddr)
    requires |a| >= 6 && |a| % 2 == 0
    ensures PairText(a, ':')[..3] == HexByte(a[0]) + ":" && PairText(a, '-')[..3] == HexByte(a[0]) + "-"
    ensures |PairText(a, ':')| > 2 && PairText(a, ':')[2] == ':' && |PairText(a, '-')| > 2 && PairText(a, '-')[2] == '-'
    ensures |GroupText(a)| > 4 && GroupText(a)[4] == '.' && IsDigitChar(GroupText(a)[2])
  {
    assert GroupText(a)[2] == HexByte(a[1])[0];
  }

  lemma {:induction false} PairsLength(s: string, sep: char)
    requires ParsePairs(s, sep).Some?
    ensures 3 * |ParsePairs(s, sep).value| == |s| + 1
    decreases |s|
  {
    if |s| > 2 {
      PairsLength(s[3..], sep);
    }
  }

  lemma {:induction false} GroupsLength(s: string)
    requires ParseGroups(s).Some?
    ensures 5 * |ParseGroups(s).value| == 2 * (|s| + 1)
    decreases |s|
  {
    if |s| > 4 {
      GroupsLength(s[5..]);
    }
  }

  /** No other length is read. */
  lemma MacLengths(s: string)
    requires ParseMAC(s).Some?
    ensures var n := |ParseMAC(s).value|; n == 6 || n == 8 || n == 20
  {
    hide ParsePairs, ParseGroups;
    if s[2] == ':' || s[2] == '-' {
      PairsLength(s, s[2]);
    } else {
      GroupsLength(s);
    }
  }
}
