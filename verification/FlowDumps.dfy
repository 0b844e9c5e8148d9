/** Reading the flows that Open vSwitch dumps: statistics are skipped, white space does not matter, and numbers come in several forms. */
module FlowDumps {
  import opened Results
  import opened Bits
  import opened Text
  import opened Numerals
  import opened Net
  import opened Flows
  import opened FlowRoundTrip
  import ActionParser
  import ActionEnds
  import MatchParser

  // ---------------------------------------------------------------- one piece

  predicate NoEquals(s: string) {
    '=' !in s
  }

  /** A `key=value` piece with white space around key and value is what its key makes of its value. */
  lemma SpacedPiece(f: Fields, v: string, key: string, w: string, x: string, value: string, y: string)
    requires AllSpaces(v) && AllSpaces(w) && AllSpaces(x) && AllSpaces(y)
    requires NoEquals(key) && NoEquals(value)
    requires key != "" && !IsSpace(key[0]) && !IsSpace(key[|key| - 1])
    requires value == "" || (!IsSpace(value[0]) && !IsSpace(value[|value| - 1]))
    ensures ApplyPiece(f, v + key + w + "=" + (x + value + y)) == ApplyKey(f, v + key + w, value)
    ensures TrimSpace(v + key + w) == key
  {
    hide ApplyKey, TrimSpace;
    Trims(v, key, w);
    Trims(x, value, y);
    var front, back := v + key + w, x + value + y;
    assert NoEquals(front) && NoEquals(back);
    SplitFirst(front, back, '=');
    SplitSingle(back, '=');
    var piece := front + "=" + back;
    assert piece == front + ['='] + back && piece[|front|] == '=';
  }

  /** The statistics of a dumped flow. */
  predicate IsStatistic(key: string) {
    key == "duration" || key == "n_packets" || key == "n_bytes" || key == "hard_age" || key == "idle_age"
  }

  /** A piece with one "=" and the name of a statistic, with any white space around it, as its key. */
  ghost predicate StatisticPiece(p: string) {
    exists v: string, key: string, w: string, value: string :: StatisticParts(p, v, key, w, value)
  }

  predicate StatisticParts(p: string, v: string, key: string, w: string, value: string) {
    && AllSpaces(v) && IsStatistic(key) && AllSpaces(w) && NoEquals(value) && ',' !in value
    && p == v + key + w + "=" + value
  }

  lemma StatisticKey(key: string)
    requires IsStatistic(key)
    ensures NoEquals(key) && ',' !in key && |key| >= 2 && !IsSpace(key[0]) && !IsSpace(key[|key| - 1])
    ensures key[|key| - 1] != 's' || key[|key| - 2] != 'n'
  {
  }

  /** It sets nothing and gives no error. */
  lemma StatisticIsSkipped(f: Fields, p: string)
    requires StatisticPiece(p)
    ensures ApplyPiece(f, p) == Outcome(f, None)
  {
    hide ApplyKey, TrimSpace, IsStatistic;
    var v, key, w, value :| StatisticParts(p, v, key, w, value);
    StatisticKey(key);
    var front := v + key + w;
    Trims(v, key, w);
    assert NoEquals(front);
    SplitFirst(front, value, '=');
    SplitSingle(value, '=');
    assert p == front + ['='] + value && p[|front|] == '=';
    KeySkipped(f, front, key, TrimSpace(value));
  }

  lemma KeySkipped(f: Fields, rawKey: string, key: string, value: string)
    requires TrimSpace(rawKey) == key && IsStatistic(key)
    ensures ApplyKey(f, rawKey, value) == Outcome(f, None)
  {
    hide TrimSpace;
  }

  // ---------------------------------------------------------------- numbers

  /** Numbers are read with white space around key and number. */
  lemma SpacedNumbers(f: Fields, v: string, w: string, x: string, y: string, n: int64)
    requires AllSpaces(v) && AllSpaces(w) && AllSpaces(x) && AllSpaces(y)
    ensures ApplyPiece(f, v + "priority" + w + "=" + (x + FormatInt(n) + y)) == Outcome(f.(priority := n), None)
    ensures ApplyPiece(f, v + "table" + w + "=" + (x + FormatInt(n) + y)) == Outcome(f.(table := n), None)
    ensures ApplyPiece(f, v + "idle_timeout" + w + "=" + (x + FormatInt(n) + y)) == Outcome(f.(idleTimeout := n), None)
    ensures ApplyPiece(f, v + "in_port" + w + "=" + (x + FormatInt(n) + y)) == Outcome(f.(inPort := n), None)
  {
    hide FormatInt, ApplyPiece, ParseInt, TrimSpace;
    IntRoundTrip(n);
    PlainNumber(n);
    SpacedPiece(f, v, "priority", w, x, FormatInt(n), y);
    SpacedPiece(f, v, "table", w, x, FormatInt(n), y);
    SpacedPiece(f, v, "idle_timeout", w, x, FormatInt(n), y);
    SpacedPiece(f, v, "in_port", w, x, FormatInt(n), y);
  }

  lemma PlainNumber(n: int)
    ensures var s := FormatInt(n);
            NoEquals(s) && !IsSpace(s[0]) && !IsSpace(s[|s| - 1]) && TrimSpace(s) == s && s != "LOCAL"
  {
    FormatIntChars(n);
    NothingToTrim(FormatInt(n));
    assert "LOCAL"[0] == 'L';
  }

  /** The local port is -1: it is read from LOCAL, in capitals only, and printed as LOCAL. */
  lemma LocalPort(f: Fields, v: string, w: string, x: string, y: string)
    requires AllSpaces(v) && AllSpaces(w) && AllSpaces(x) && AllSpaces(y)
    ensures ApplyPiece(f, v + "in_port" + w + "=" + (x + "LOCAL" + y)) == Outcome(f.(inPort := -1), None)
    ensures PortPieces(f.(inPort := -1)) == ["in_port=LOCAL"] && PortPieces(f.(inPort := 0)) == []
    ensures forall n: int64 :: n != -1 && n != 0 ==> PortPieces(f.(inPort := n)) == ["in_port=" + FormatInt(n)]
  {
    hide ApplyPiece, TrimSpace, FormatInt;
    NothingToTrim("LOCAL");
    SpacedPiece(f, v, "in_port", w, x, "LOCAL", y);
    assert "in_port=" + "LOCAL" == "in_port=LOCAL";
  }

  /** A cookie is read in decimal, hexadecimal and octal. */
  lemma CookieForms(f: Fields, n: uint64)
    ensures ApplyPiece(f, "cookie" + "=" + FormatInt(n)) == Outcome(f.(cookie := n), None)
    ensures ApplyPiece(f, "cookie" + "=" + ("0x" + FormatNat(n, Hex))) == Outcome(f.(cookie := n), None)
    ensures ApplyPiece(f, "cookie" + "=" + ("0" + FormatNat(n, Oct))) == Outcome(f.(cookie := n), None)
  {
    hide ApplyPiece, ParseUintPrefixed, FormatNat, FormatInt, PlainValue, TrimSpace;
    PrefixedReads(n);
    PlainNumerals(n);
    NothingToTrim("cookie");
    PieceSplits(f, "cookie", FormatInt(n));
    PieceSplits(f, "cookie", "0x" + FormatNat(n, Hex));
    PieceSplits(f, "cookie", "0" + FormatNat(n, Oct));
  }

  lemma PlainNumerals(n: nat)
    ensures PlainValue(FormatInt(n)) && PlainValue("0x" + FormatNat(n, Hex)) && PlainValue("0" + FormatNat(n, Oct))
  {
    hide PlainValue, FormatNat;
    FormatIntChars(n);
    FormatNatDigits(n, Hex);
    FormatNatDigits(n, Oct);
    ValueCharsPlain(FormatInt(n));
    ValueCharsPlain("0x" + FormatNat(n, Hex));
    ValueCharsPlain("0" + FormatNat(n, Oct));
  }

  /** A cookie is printed with 0x and exactly sixteen hexadecimal digits, and not at all if it is 0. */
  lemma CookieText(f: Fields)
    ensures f.cookie == 0 ==> CookiePieces(f) == []
    ensures f.cookie != 0 ==> exists h: string :: HexOf(h, f.cookie, 16) && CookiePieces(f) == ["cookie=0x" + h]
  {
    hide FormatHexPadded, HexOf, Pow2;
    if f.cookie != 0 {
      HexWidths();
      HexPaddedExact(f.cookie, 16);
      var h := FormatHexPadded(f.cookie, 16);
      assert "cookie=" + ("0x" + h) == "cookie=0x" + h;
    }
  }

  /** A number that cannot be read stops the reading, and leaves the fields set before. */
  lemma BadNumbers(f: Fields, value: string)
    requires PlainValue(value) && ParseInt(value).Err?
    ensures ApplyPiece(f, "priority" + "=" + value) == Outcome(f, Some(BadNumber(value)))
    ensures ApplyPiece(f, "table" + "=" + value) == Outcome(f, Some(BadNumber(value)))
    ensures ApplyPiece(f, "idle_timeout" + "=" + value) == Outcome(f, Some(BadNumber(value)))
    ensures value != "LOCAL" ==> ApplyPiece(f, "in_port" + "=" + value) == Outcome(f, Some(BadNumber(value)))
    ensures ParseUintPrefixed(value).Err? ==> ApplyPiece(f, "cookie" + "=" + value) == Outcome(f, Some(BadNumber(value)))
  {
    hide ApplyPiece, ParseInt, ParseUintPrefixed, TrimSpace;
    KeysTrimmed();
    PieceSplits(f, "priority", value);
    PieceSplits(f, "table", value);
    PieceSplits(f, "idle_timeout", value);
    PieceSplits(f, "in_port", value);
    PieceSplits(f, "cookie", value);
  }

  lemma KeysTrimmed()
    ensures TrimSpace("priority") == "priority" && TrimSpace("table") == "table" && TrimSpace("cookie") == "cookie"
    ensures TrimSpace("idle_timeout") == "idle_timeout" && TrimSpace("in_port") == "in_port"
  {
    hide TrimSpace;
    NothingToTrim("priority");
    NothingToTrim("table");
    NothingToTrim("cookie");
    NothingToTrim("idle_timeout");
    NothingToTrim("in_port");
  }

  // ---------------------------------------------------------------- the pieces of a text

  /** The pieces with the white space at both ends of the whole text trimmed. */
  function TrimEnds(ps: seq<string>): (r: seq<string>)
    requires ps != []
    ensures |r| == |ps|
  {
    if |ps| == 1 then [TrimSpace(ps[0])]
    else [TrimLeft(ps[0])] + ps[1..|ps| - 1] + [TrimRight(ps[|ps| - 1])]
  }

  lemma {:induction false} TrimLeftUpTo(p: string, c: char, rest: string)
    requires !IsSpace(c)
    ensures TrimLeft(p + [c] + rest) == TrimLeft(p) + [c] + rest
    decreases |p|
  {
    var s := p + [c] + rest;
    if p == [] {
      assert s[0] == c;
      assert TrimLeft(s) == s;
    } else {
      assert s[0] == p[0] && s[1..] == p[1..] + [c] + rest;
      TrimLeftUpTo(p[1..], c, rest);
    }
  }

  lemma {:induction false} TrimRightDownTo(front: string, c: char, p: string)
    requires !IsSpace(c)
    ensures TrimRight(front + [c] + p) == front + [c] + TrimRight(p)
    decreases |p|
  {
    var s := front + [c] + p;
    if p == [] {
      assert s[|s| - 1] == c;
      assert TrimRight(s) == s && TrimRight(p) == [];
    } else {
      assert s[|s| - 1] == p[|p| - 1] && s[..|s| - 1] == front + [c] + p[..|p| - 1];
      TrimRightDownTo(front, c, p[..|p| - 1]);
    }
  }

  lemma TrimJoin(ps: seq<string>)
    requires ps != []
    ensures TrimSpace(Join(ps, ',')) == Join(TrimEnds(ps), ',')
  {
    hide TrimLeft, TrimRight, Join;
    if |ps| == 1 {
      SingleJoin(ps[0]);
      SingleJoin(TrimSpace(ps[0]));
      assert ps == [ps[0]];
    } else {
      var n := |ps| - 1;
      var qs := [TrimLeft(ps[0])] + ps[1..];
      JoinFirst(ps);
      JoinFirst(qs);
      assert qs[1..] == ps[1..];
      TrimLeftUpTo(ps[0], ',', Join(ps[1..], ','));
      assert TrimLeft(Join(ps, ',')) == Join(qs, ',');
      var front := qs[..n];
      assert front != [] && qs == front + [ps[n]];
      JoinAppend(front, ps[n], ',');
      JoinAppend(front, TrimRight(ps[n]), ',');
      TrimRightDownTo(Join(front, ','), ',', ps[n]);
      assert TrimEnds(ps) == front + [TrimRight(ps[n])];
    }
  }

  lemma SingleJoin(p: string)
    ensures Join([p], ',') == p
  {
  }

  lemma JoinFirst(ps: seq<string>)
    requires |ps| > 1
    ensures Join(ps, ',') == ps[0] + [','] + Join(ps[1..], ',')
  {
  }

  lemma TrimEndsNoComma(ps: seq<string>)
    requires ps != [] && NoneHas(ps, ',')
    ensures NoneHas(TrimEnds(ps), ',')
  {
    var n := |ps| - 1;
    TrimLeftParts(ps[0]);
    TrimRightParts(ps[n]);
    TrimIdempotent(ps[0]);
  }

  /** A text is read from the pieces of its head and from what follows the first "actions=". */
  lemma TextReads(net: Library, f: Fields, ps: seq<string>, tail: string)
    requires ps != [] && NoneHas(ps, ',') && !Contains(Join(ps, ','), ACTIONS)
    ensures UnmarshalFlow(net, f, Join(ps, ',') + ACTIONS + tail) ==
            if |SplitOn(tail, ACTIONS)| != 1 || tail == "" then Outcome(f, Some(NoActions))
            else
              var o := ApplyPieces(f.(matches := []), TrimEnds(ps));
              if o.error.Some? then o else ApplyActions(net, o.flow, TrimSpace(tail))
  {
    hide SplitOn, Split, TrimSpace, Join, ApplyPieces, ApplyActions, TrimEnds, NoneHas, Contains;
    var head := Join(ps, ',');
    SplitAtActions(head, tail);
    SplitOne(tail);
    TrimJoin(ps);
    TrimEndsNoComma(ps);
    SplitJoin(TrimEnds(ps), ',');
  }

  // ---------------------------------------------------------------- statistics anywhere

  lemma {:induction false} SkippedPiece(f: Fields, a: seq<string>, p: string, b: seq<string>)
    requires forall g :: ApplyPiece(g, p) == Outcome(g, None)
    ensures ApplyPieces(f, a + [p] + b) == ApplyPieces(f, a + b)
    decreases |a|
  {
    hide ApplyPiece;
    var extended, without := a + [p] + b, a + b;
    if a == [] {
      assert extended[0] == p && extended[1..] == b && without == b;
      assert ApplyPiece(f, p) == Outcome(f, None);
    } else {
      assert extended[0] == a[0] && extended[1..] == a[1..] + [p] + b;
      assert without[0] == a[0] && without[1..] == a[1..] + b;
      SkippedPiece(ApplyPiece(f, a[0]).flow, a[1..], p, b);
    }
  }

  lemma StatisticTrimmed(p: string)
    requires StatisticPiece(p)
    ensures StatisticPiece(TrimLeft(p)) && StatisticPiece(TrimRight(p))
  {
    hide IsStatistic, TrimLeft, TrimRight;
    var v, key, w, value :| StatisticParts(p, v, key, w, value);
    StatisticKey(key);
    var t := key + w + "=" + value;
    assert p == v + t && t[0] == key[0];
    TrimsLeft(v, t);
    assert t == [] + key + w + "=" + value;
    assert StatisticParts(t, [], key, w, value);
    TrimRightDownTo(v + key + w, '=', value);
    TrimRightParts(value);
    assert p == (v + key + w) + ['='] + value;
    assert StatisticParts(TrimRight(p), v, key, w, TrimRight(value));
  }

  /** It holds no comma and never "actions=". */
  lemma StatisticIsHeadPiece(p: string)
    requires StatisticPiece(p)
    ensures HeadPiece(p)
  {
    hide IsStatistic;
    var v, key, w, value :| StatisticParts(p, v, key, w, value);
    StatisticKey(key);
    var front := v + key + w;
    if w != [] {
      assert front[|front| - 1] == w[|w| - 1];
    } else {
      assert front[|front| - 1] == key[|key| - 1] && front[|front| - 2] == key[|key| - 2];
    }
    KeyValuePiece(front, value);
  }

  lemma TrimEndsFirst(p: string, b: seq<string>)
    requires b != [] && b[0] == TrimLeft(b[0])
    ensures var b' := b[..|b| - 1] + [TrimRight(b[|b| - 1])];
            TrimEnds([p] + b) == [TrimLeft(p)] + b' && TrimEnds(b) == b'
  {
    hide TrimLeft, TrimRight;
    var all := [p] + b;
    assert all[1..|all| - 1] == b[..|b| - 1] && all[|all| - 1] == b[|b| - 1];
    if |b| > 1 {
      assert b[..|b| - 1] == [b[0]] + b[1..|b| - 1];
    }
  }

  lemma TrimEndsLast(a: seq<string>, p: string)
    requires a != [] && a[|a| - 1] == TrimRight(a[|a| - 1])
    ensures var a' := [TrimLeft(a[0])] + a[1..];
            TrimEnds(a + [p]) == a' + [TrimRight(p)] && TrimEnds(a) == a'
  {
    hide TrimLeft, TrimRight;
    var all := a + [p];
    assert all[1..|all| - 1] == a[1..] && all[|all| - 1] == p;
    TrimmedRight(a[|a| - 1]);
    if |a| > 1 {
      assert a[1..] == a[1..|a| - 1] + [a[|a| - 1]];
    }
  }

  lemma TrimEndsBetween(a: seq<string>, m: seq<string>, b: seq<string>)
    requires a != [] && b != []
    ensures TrimEnds(a + m + b) == [TrimLeft(a[0])] + a[1..] + m + (b[..|b| - 1] + [TrimRight(b[|b| - 1])])
  {
    hide TrimLeft, TrimRight;
    var all := a + m + b;
    assert all[0] == a[0] && all[|all| - 1] == b[|b| - 1];
    assert all[1..|all| - 1] == a[1..] + m + b[..|b| - 1];
  }

  /** Trimming the ends of the pieces with and without `p`. */
  lemma TrimEndsWithout(a: seq<string>, p: string, b: seq<string>) returns (a': seq<string>, p': string, b': seq<string>)
    requires a + b != [] && StatisticPiece(p)
    requires a == [] ==> b[0] == TrimLeft(b[0])
    requires b == [] ==> a[|a| - 1] == TrimRight(a[|a| - 1])
    ensures StatisticPiece(p') && TrimEnds(a + [p] + b) == a' + [p'] + b' && TrimEnds(a + b) == a' + b'
  {
    hide TrimLeft, TrimRight, StatisticPiece, TrimEnds;
    StatisticTrimmed(p);
    if a == [] {
      TrimEndsFirst(p, b);
      a', p', b' := [], TrimLeft(p), b[..|b| - 1] + [TrimRight(b[|b| - 1])];
      assert a + [p] + b == [p] + b && a + b == b && a' + b' == b' && a' + [p'] + b' == [p'] + b';
    } else if b == [] {
      TrimEndsLast(a, p);
      a', p', b' := [TrimLeft(a[0])] + a[1..], TrimRight(p), [];
      assert a + [p] + b == a + [p] && a + b == a && a' + b' == a' && a' + [p'] + b' == a' + [p'];
    } else {
      TrimEndsBetween(a, [p], b);
      TrimEndsBetween(a, [], b);
      a', p', b' := [TrimLeft(a[0])] + a[1..], p, b[..|b| - 1] + [TrimRight(b[|b| - 1])];
      assert a + [] + b == a + b && a' + [] + b' == a' + b';
    }
  }

  lemma TrimmedRight(s: string)
    requires s == TrimRight(s)
    ensures TrimSpace(s) == TrimLeft(s)
  {
    TrimRightParts(s);
    KeepsLast(s);
  }

  lemma {:induction false} KeepsLast(s: string)
    ensures s != [] && !IsSpace(s[|s| - 1]) ==> TrimLeft(s) != [] && TrimLeft(s)[|TrimLeft(s)| - 1] == s[|s| - 1]
  {
    if |s| > 1 && IsSpace(s[0]) {
      KeepsLast(s[1..]);
    }
  }

  /**
    Statistics change nothing: putting such a piece anywhere between, before or after the pieces of the head
    leaves what is read, and any error, as it was. At the ends the neighbouring piece must not depend on
    being trimmed.
   */
  lemma StatisticsAnywhere(net: Library, f: Fields, a: seq<string>, p: string, b: seq<string>, tail: string)
    requires a + b != [] && StatisticPiece(p)
    requires forall i :: 0 <= i < |a| ==> HeadPiece(a[i])
    requires forall i :: 0 <= i < |b| ==> HeadPiece(b[i])
    requires a == [] ==> b[0] == TrimLeft(b[0])
    requires b == [] ==> a[|a| - 1] == TrimRight(a[|a| - 1])
    ensures UnmarshalFlow(net, f, Join(a + [p] + b, ',') + ACTIONS + tail) ==
            UnmarshalFlow(net, f, Join(a + b, ',') + ACTIONS + tail)
  {
    hide UnmarshalFlow, Join, SplitOn, TrimSpace, TrimLeft, TrimRight, ApplyPieces, ApplyActions, TrimEnds;
    hide StatisticPiece, HeadPiece, NoneHas;
    StatisticIsHeadPiece(p);
    HeadPiecesJoin(a + [p] + b);
    HeadPiecesJoin(a + b);
    TextReads(net, f, a + [p] + b, tail);
    TextReads(net, f, a + b, tail);
    var a', p', b' := TrimEndsWithout(a, p, b);
    forall g
      ensures ApplyPiece(g, p') == Outcome(g, None)
    {
      StatisticIsSkipped(g, p');
    }
    SkippedPiece(f.(matches := []), a', p', b');
  }

  lemma HeadPiecesJoin(ps: seq<string>)
    requires forall i :: 0 <= i < |ps| ==> HeadPiece(ps[i])
    ensures NoneHas(ps, ',') && !Contains(Join(ps, ','), ACTIONS)
  {
    hide Contains, Join;
    JoinWithoutActions(ps);
  }

  // ---------------------------------------------------------------- drop beside other actions

  /**
    Reading fails with this error exactly if everything else is read: the head without an error, and a list of
    more than one action, one of whose tokens, before any bare prefix, is "drop" in lower case.
   */
  lemma DropBesideOthers(net: Library, f: Fields, ps: seq<string>, tail: string)
    requires ps != [] && NoneHas(ps, ',') && !Contains(Join(ps, ','), ACTIONS)
    requires tail != "" && !Contains(tail, ACTIONS)
    ensures var o := UnmarshalFlow(net, f, Join(ps, ',') + ACTIONS + tail); var s := TrimSpace(tail);
            o.error == Some(ActionsWithDrop) <==>
            && ApplyPieces(f.(matches := []), TrimEnds(ps)).error.None? && ActionParser.ParseAll(net, s).Ok?
            && |ActionEnds.BeforeBare(s)| > 1 && exists i :: 0 <= i < |ActionEnds.BeforeBare(s)| && ActionEnds.BeforeBare(s)[i] == "drop"
  {
    hide UnmarshalFlow, Join, SplitOn, TrimSpace, ApplyPieces, TrimEnds, Contains, ActionParser.ParseAll, ActionEnds.BeforeBare;
    TextReads(net, f, ps, tail);
    SplitOne(tail);
    var s := TrimSpace(tail);
    var o := ApplyPieces(f.(matches := []), TrimEnds(ps));
    PiecesNeverDrop(f.(matches := []), TrimEnds(ps));
    if ActionParser.ParseAll(net, s).Ok? {
      ActionEnds.ParsedTokens(net, s);
    }
  }

  lemma {:induction false} PiecesNeverDrop(f: Fields, ps: seq<string>)
    ensures ApplyPieces(f, ps).error != Some(ActionsWithDrop)
    decreases |ps|
  {
    hide ApplyPiece;
    if ps != [] {
      PieceNeverDrops(f, ps[0]);
      PiecesNeverDrop(ApplyPiece(f, ps[0]).flow, ps[1..]);
    }
  }

  lemma PieceNeverDrops(f: Fields, p: string)
    ensures ApplyPiece(f, p).error != Some(ActionsWithDrop)
  {
    hide MatchParser.ParseMatch, ParseInt, ParseUintPrefixed, TrimSpace, Split;
  }
}
