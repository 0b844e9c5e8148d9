/** When a list of actions ends early. */
module ActionEnds {
  import opened Results
  import opened Bits
  import opened Text
  import opened Net
  import opened Actions
  import opened ActionDispatch
  import opened ActionParser
  import opened ActionRoundTrip

  // The parser takes the `io.EOF` of an action's own scan for the end of its input: an action that is
  // only a prefix, such as `output:`, ends the list without an error, and the rest of the text is
  // dropped. This module says exactly when that happens.

  // ---------------------------------------------------------------- bare prefixes

  /** White space that the scan skips. */
  predicate Blanks(s: string) {
    forall i :: 0 <= i < |s| ==> IsSpace(s[i]) && s[i] != '\n'
  }

  predicate IsSign(c: char) {
    c == '+' || c == '-'
  }

  /** Blanks, or for the verbs that read an int, blanks and a sign. */
  predicate BareArg(v: Verb, arg: string) {
    || Blanks(arg)
    || ((v.Vlan? || v.Out?) && arg != [] && IsSign(arg[|arg| - 1]) && Blanks(arg[..|arg| - 1]))
  }

  /** A `mod_*:` or `output:` prefix with nothing to read after it. */
  predicate Bare(t: string) {
    var v := FirstVerb(t);
    v.Some? && !v.value.Conj? && BareArg(v.value, t[|Prefix(v.value)|..])
  }

  /** The blanks that the scan skips, and what it comes to. */
  lemma {:induction false} SkipParts(s: string)
    ensures var t := SkipSpace(s);
            t.Some? ==>
              && |t.value| <= |s| && s[|s| - |t.value|..] == t.value && Blanks(s[..|s| - |t.value|])
              && (t.value == [] || !IsSpace(t.value[0]))
  {
    if s != [] && s[0] != '\n' && IsSpace(s[0]) {
      SkipParts(s[1..]);
      var t := SkipSpace(s);
      if t.Some? {
        var n := |s| - |t.value|;
        assert s[1..][..n - 1] == s[1..n];
        assert s[..n] == [s[0]] + s[1..n];
      }
    }
  }

  lemma {:induction false} SkipsBlanks(s: string, rest: string)
    requires Blanks(s) && (rest == [] || !IsSpace(rest[0]))
    ensures SkipSpace(s + rest) == Some(rest)
  {
    if s == [] {
      assert s + rest == rest;
    } else {
      assert (s + rest)[0] == s[0] && (s + rest)[1..] == s[1..] + rest;
      SkipsBlanks(s[1..], rest);
    }
  }

  /** The scan meets the end of the text after nothing but blanks. */
  lemma SkipsAll(s: string)
    ensures SkipSpace(s) == Some([]) <==> Blanks(s)
  {
    SkipParts(s);
    assert s[..|s|] == s && s + [] == s;
    if Blanks(s) {
      SkipsBlanks(s, []);
    }
  }

  lemma IntEnds(s: string)
    ensures ScanInt(s) == Err(EndOfInput) <==> BareArg(Out, s)
  {
    hide DigitsValue, SkipSpace;
    SkipsAll(s);
    SkipParts(s);
    var t := SkipSpace(s);
    if t.Some? && t.value != [] && IsSign(t.value[0]) && t.value[1..] == [] {
      assert t.value == [s[|s| - 1]];
    }
    if !Blanks(s) && BareArg(Out, s) {
      var n := |s| - 1;
      SkipsBlanks(s[..n], [s[n]]);
      assert s[..n] + [s[n]] == s;
    }
  }

  /** A prefix runs into the end of its text exactly when there is nothing to read after it. */
  lemma ArgEnds(net: Library, v: Verb, arg: string)
    requires !v.Conj?
    ensures ParseVerb(net, v, arg) == Err(EndOfInput) <==> BareArg(v, arg)
  {
    hide ParseMAC, SkipSpace, ScanInt, DigitsValue;
    SkipsAll(arg);
    IntEnds(arg);
  }

  // ---------------------------------------------------------------- conjunctions

  lemma DigitsTake(s: string) returns (x: string)
    requires ScanDigits(s).Ok?
    ensures s == x + ScanDigits(s).value.1 && ')' !in x
  {
    hide DigitsValue;
    var e := DigitRun(s);
    x := s[..e];
  }

  /** A sign, if there is one, and the text after it. */
  function Signed(t: string): (r: (string, string))
    ensures t == r.0 + r.1 && ')' !in r.0
  {
    if t != [] && IsSign(t[0]) then ([t[0]], t[1..]) else ([], t)
  }

  /** What the verb %d takes off the front of the text. */
  lemma IntTakes(s: string) returns (x: string)
    requires ScanInt(s).Ok?
    ensures s == x + ScanInt(s).value.1 && ')' !in x
  {
    hide SkipSpace, ScanDigits;
    SkipParts(s);
    var t := SkipSpace(s).value;
    var y := DigitsTake(Signed(t).1);
    x := s[..|s| - |t|] + Signed(t).0 + y;
  }

  lemma CharIntTakes(c: char, s: string)
    requires c != ')'
    ensures ScanCharInt(c, s) == Err(EndOfInput) ==> s != [] && s[0] == c && ')' !in s
    ensures ScanCharInt(c, s).Ok? ==>
              && s != [] && s[0] == c
              && (')' in s ==> ')' in ScanCharInt(c, s).value.1)
  {
    hide ScanInt;
    if s != [] && s[0] == c {
      assert s == [c] + s[1..];
      IntEnds(s[1..]);
      if ScanInt(s[1..]).Ok? {
        var _ := IntTakes(s[1..]);
      } else if ScanInt(s[1..]) == Err(EndOfInput) {
        BareHasNoParen(Out, s[1..]);
      }
    }
  }

  lemma BareHasNoParen(v: Verb, arg: string)
    requires BareArg(v, arg)
    ensures '(' !in arg && ')' !in arg && ',' !in arg && EOF !in arg
  {
    if arg != [] {
      assert arg == arg[..|arg| - 1] + [arg[|arg| - 1]];
    }
  }

  /** A conjunction runs into the end of its text only if a parenthesis stays open. */
  lemma ConjunctionEnds(s: string)
    requires ScanConjunction(s) == Err(EndOfInput)
    ensures '(' in s && ')' !in s
  {
    hide ScanCharInt;
    CharIntTakes('(', s);
    var id := ScanCharInt('(', s);
    if id.Ok? {
      CharIntTakes(',', id.value.1);
      var number := ScanCharInt(',', id.value.1);
      if number.Ok? {
        CharIntTakes('/', number.value.1);
      }
    }
  }

  lemma {:induction false} OpenIsClosed(t: string, depth: nat)
    requires Clean(t, depth) && '(' in t
    ensures ')' in t
    decreases |t|
  {
    if t[0] == '(' {
      MustClose(t[1..], depth + 1);
    } else {
      assert t == [t[0]] + t[1..];
      OpenIsClosed(t[1..], NextDepth(t[0], depth));
    }
  }

  // ---------------------------------------------------------------- one token

  lemma EndsInVerb(net: Library, t: string)
    requires ParseAction(net, t) == Err(EndOfInput)
    ensures var v := FirstVerb(t);
            v.Some? && ParseVerb(net, v.value, t[|Prefix(v.value)|..]) == Err(EndOfInput)
  {
    hide SimpleAction, FindSubmatch, FirstVerb, ParseVerb, OptionalAtoi, ParseInt;
  }

  lemma BareReachesVerb(net: Library, t: string)
    requires Bare(t)
    ensures ParseAction(net, t) == ParseVerb(net, FirstVerb(t).value, t[|Prefix(FirstVerb(t).value)|..])
  {
    hide ParseAction, FirstVerb, ParseVerb;
    var v := FirstVerb(t).value;
    var arg := t[|Prefix(v)|..];
    BareHasNoParen(v, arg);
    assert t == Prefix(v) + arg;
    PrefixedDispatch(net, v, arg);
  }

  /** A token of the scanner runs into the end of its text exactly when it is a bare prefix. */
  lemma EndsEarly(net: Library, t: string)
    requires Clean(t, 0)
    ensures ParseAction(net, t) == Err(EndOfInput) <==> Bare(t)
  {
    hide ParseAction, FirstVerb, ParseVerb, BareArg;
    if Bare(t) {
      var v := FirstVerb(t).value;
      BareReachesVerb(net, t);
      ArgEnds(net, v, t[|Prefix(v)|..]);
    }
    if ParseAction(net, t) == Err(EndOfInput) {
      EndsInVerb(net, t);
      var v := FirstVerb(t).value;
      var arg := t[|Prefix(v)|..];
      if v.Conj? {
        OpenConjunction(net, t, arg);
      } else {
        ArgEnds(net, v, arg);
      }
    }
  }

  lemma OpenConjunction(net: Library, t: string, arg: string)
    requires t == Prefix(Conj) + arg && ParseVerb(net, Conj, arg) == Err(EndOfInput)
    ensures !Clean(t, 0)
  {
    hide ScanConjunction;
    ConjunctionEnds(arg);
    assert ')' !in Prefix(Conj);
    assert '(' in t && ')' !in t;
    if Clean(t, 0) {
      OpenIsClosed(t, 0);
    }
  }

  lemma BareIsClean(t: string)
    requires Bare(t)
    ensures |t| >= 7 && Clean(t, 0) && EOF !in t
  {
    var v := FirstVerb(t).value;
    var arg := t[|Prefix(v)|..];
    assert t == Prefix(v) + arg;
    BareHasNoParen(v, arg);
    PrefixPlain(v);
    FlatIsClean(t, 0);
  }

  lemma BareHasNoEquals(t: string)
    requires Bare(t)
    ensures '=' !in t
  {
    var v := FirstVerb(t).value;
    var arg := t[|Prefix(v)|..];
    assert t == Prefix(v) + arg;
    if arg != [] {
      assert arg == arg[..|arg| - 1] + [arg[|arg| - 1]];
    }
    PrefixNoEquals(v);
  }

  lemma PrefixNoEquals(v: Verb)
    ensures '=' !in Prefix(v)
  {
  }

  lemma PrefixPlain(v: Verb)
    ensures |Prefix(v)| >= 7
    ensures forall i :: 0 <= i < |Prefix(v)| ==>
              var c := Prefix(v)[i]; c != '(' && c != ')' && c != ',' && c != EOF
  {
  }

  lemma {:induction false} FlatIsClean(t: string, depth: nat)
    requires depth == 0 && '(' !in t && ')' !in t && ',' !in t && EOF !in t
    ensures Clean(t, depth)
    decreases |t|
  {
    if t != [] {
      FlatIsClean(t[1..], depth);
    }
  }

  // ---------------------------------------------------------------- the whole list

  /** The tokens before the first bare prefix, or all of them up to where the scanner stops. */
  function BeforeBare(s: string): seq<string>
    decreases |s|
  {
    match ScanToken(s, 0, [])
    case Token(t, rest) => if Bare(t) then [] else [t] + BeforeBare(rest)
    case _ => []
  }

  /** The scanner comes to a bare prefix. */
  predicate MeetsBare(s: string)
    decreases |s|
  {
    match ScanToken(s, 0, [])
    case Token(t, rest) => Bare(t) || MeetsBare(rest)
    case _ => false
  }

  /** In a text that the scanner cuts to the end, that means that one of the tokens is bare. */
  lemma {:induction false} MeetsBareToken(s: string)
    requires Tokens(s).Some?
    ensures MeetsBare(s) ==> exists i :: 0 <= i < |Tokens(s).value| && Bare(Tokens(s).value[i])
    ensures (exists i :: 0 <= i < |Tokens(s).value| && Bare(Tokens(s).value[i])) ==> MeetsBare(s)
    decreases |s|
  {
    hide ScanToken, Bare;
    if ScanToken(s, 0, []).Token? {
      var Token(t, rest) := ScanToken(s, 0, []);
      MeetsBareToken(rest);
      var ts := Tokens(s).value;
      assert ts == [t] + Tokens(rest).value && ts[0] == t;
      if MeetsBare(rest) {
        var i :| 0 <= i < |Tokens(rest).value| && Bare(Tokens(rest).value[i]);
        assert Bare(ts[i + 1]);
      }
      if i :| 0 <= i < |ts| && Bare(ts[i]) {
        assert i > 0 ==> Tokens(rest).value[i - 1] == ts[i];
      }
    }
  }

  lemma TokenEndsEarly(net: Library, s: string)
    requires ScanToken(s, 0, []).Token?
    ensures ParseAction(net, ScanToken(s, 0, []).text) == Err(EndOfInput) <==> Bare(ScanToken(s, 0, []).text)
  {
    hide ParseAction, Bare, ScanToken;
    TokenIsClean(s, 0, []);
    var t := ScanToken(s, 0, []).text;
    assert t[0..] == t;
    EndsEarly(net, t);
  }

  /** The empty text is no action, so a list that parses has no empty piece. */
  lemma EmptyIsNoAction(net: Library)
    ensures ParseAction(net, "").Err? && !Bare("")
  {
    hide FindSubmatch, ParseVerb, ParseInt, OptionalAtoi;
    NoParenNoCt("");
    NoColonNoPattern("");
    EmptyHasNoVerb();
  }

  lemma EmptyHasNoVerb()
    ensures FirstVerb("").None? && SimpleAction("").None?
  {
    if FirstVerb("").Some? {
      PrefixPlain(FirstVerb("").value);
    }
  }

  /** What a successful parse returns as raw texts: the tokens before the first bare prefix. */
  lemma {:induction false} ParsedTokens(net: Library, s: string)
    requires ParseAll(net, s).Ok?
    ensures ParseAll(net, s).value.1 == BeforeBare(s)
    ensures !MeetsBare(s) ==> Tokens(s) == Some(BeforeBare(s))
    ensures forall i :: 0 <= i < |BeforeBare(s)| ==> BeforeBare(s)[i] != []
    decreases |s|
  {
    hide ParseAction, ScanToken, Bare;
    EmptyIsNoAction(net);
    if ScanToken(s, 0, []).Token? {
      TokenEndsEarly(net, s);
      if !Bare(ScanToken(s, 0, []).text) {
        ParsedTokens(net, ScanToken(s, 0, []).rest);
      }
    }
  }

  /** A bare prefix and what follows it are missing from the raw texts. */
  lemma {:induction false} BareIsDropped(s: string)
    requires EOF !in s && MeetsBare(s)
    ensures |s| > |Join(BeforeBare(s), ',')| + 1
    decreases |s|
  {
    hide ScanToken, Bare;
    var Token(t, rest) := ScanToken(s, 0, []);
    ScanIsPrefix(s, 0, []);
    assert [] + s == s;
    if Bare(t) {
      BareIsClean(t);
    } else {
      BareIsDropped(rest);
      var raw := BeforeBare(s);
      assert raw[1..] == BeforeBare(rest);
      assert |Join(raw, ',')| <= |t| + 1 + |Join(raw[1..], ',')|;
    }
  }

  /**
    When a text parses, its raw texts rejoin to it, up to one trailing comma, if and only if the scanner
    meets no bare prefix; and then they are its tokens.
   */
  lemma ParsedRejoins(net: Library, s: string)
    requires EOF !in s && ParseAll(net, s).Ok?
    ensures var raw := ParseAll(net, s).value.1;
            && raw == BeforeBare(s)
            && (s == Join(raw, ',') || s == Join(raw, ',') + [','] <==> !MeetsBare(s))
            && (!MeetsBare(s) ==> Tokens(s) == Some(raw))
  {
    hide ParseAll, Tokens;
    ParsedTokens(net, s);
    if MeetsBare(s) {
      BareIsDropped(s);
    } else {
      TokensRejoin(s);
    }
  }

  /** A bare prefix after any tokens ends the list: it and everything after it are dropped without an error. */
  lemma {:induction false} BareEndsList(net: Library, ts: seq<string>, actions: seq<Action>, b: string, tail: string)
    requires GoodTokens(ts) && |actions| == |ts| && Bare(b) && (tail == [] || tail[0] == ',')
    requires forall i :: 0 <= i < |ts| ==> ParseAction(net, ts[i]) == Ok(actions[i])
    ensures ParseAll(net, Join(ts + [b], ',') + tail) == Ok((actions, ts))
    decreases |ts|
  {
    hide ParseAction, Bare;
    BareIsClean(b);
    if ts == [] {
      EndsEarly(net, b);
      assert [] + [b] == [b] && [] + b == b;
      ScanClean(b, 0, [], tail);
      assert actions == [];
    } else {
      var s, all := Join(ts + [b], ',') + tail, ts + [b];
      var rest := Join(ts[1..] + [b], ',') + tail;
      assert all[0] == ts[0] && all[1..] == ts[1..] + [b];
      assert s == ts[0] + ([','] + rest);
      assert [] + ts[0] == ts[0] && ([','] + rest)[1..] == rest;
      ScanClean(ts[0], 0, [], [','] + rest);
      BareEndsList(net, ts[1..], actions[1..], b, tail);
      assert [ts[0]] + ts[1..] == ts && [actions[0]] + actions[1..] == actions;
    }
  }

  /** For instance: the second output has no port, and the `drop` after it is lost. */
  lemma OutputEnds(net: Library)
    ensures ParseAll(net, "output:1,output:,drop") == Ok(([Output(1)], ["output:1"]))
  {
    hide *;
    OneOutput(net);
    BareOutput();
    BareEndsList(net, ["output:1"], [Output(1)], "output:", ",drop");
    OutputTexts();
  }

  lemma OneOutput(net: Library)
    ensures ParseAction(net, "output:1") == Ok(Output(1)) && GoodTokens(["output:1"])
  {
    hide ParseAction;
    assert FormatInt(1) == "1" && Prefix(Out) + "1" == "output:1";
    IntDispatch(net, Out, 1);
    FlatIsClean("output:1", 0);
  }

  lemma OutputTexts()
    ensures Join(["output:1"] + ["output:"], ',') + ",drop" == "output:1,output:,drop"
  {
    var ts := ["output:1"] + ["output:"];
    assert ts[0] == "output:1" && ts[1..] == ["output:"];
    assert "output:1" + [','] + "output:" + ",drop" == "output:1,output:,drop";
  }

  lemma BareOutput()
    ensures Bare("output:")
  {
    VerbFound(Out, "");
    assert Prefix(Out) + "" == "output:" && "output:"[|Prefix(Out)|..] == "";
  }
}
