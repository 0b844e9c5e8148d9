/**
  The action parser: it reads one character at a time, tracks open parentheses on a stack and cuts the
  text at the commas outside them. `Parser` is the imperative parser; `ScanToken`, `Tokens` and `ParseAll` specify it.
 */
module ActionParser {
  import opened Results
  import opened Text
  import opened Net
  import opened Actions
  import opened ActionDispatch

  /** The rune that stands for the end of the input. */
  const EOF: char := '\0'

  /** One run of the scanning loop. A closing parenthesis on an empty stack makes the original panic. */
  datatype Scan = Token(text: string, rest: string) | AtEnd | Unmatched | StackUnderflow

  function ScanToken(s: string, depth: nat, buf: string): (r: Scan)
    ensures r.Token? ==> |r.rest| <= |s|
    ensures r.Token? && buf == [] ==> |r.rest| < |s|
    decreases |s|
  {
    if s == [] || s[0] == EOF then
      if buf == [] then AtEnd
      else if depth > 0 then Unmatched
      else Token(buf, if s == [] then [] else s[1..])
    else if s[0] == ',' && depth == 0 then Token(buf, s[1..])
    else if s[0] == '(' then ScanToken(s[1..], depth + 1, buf + [s[0]])
    else if s[0] == ')' then
      if depth == 0 then StackUnderflow else ScanToken(s[1..], depth - 1, buf + [s[0]])
    else ScanToken(s[1..], depth, buf + [s[0]])
  }

  /** The pieces the scanner cuts `s` into, if it gets to the end. */
  function Tokens(s: string): Option<seq<string>>
    decreases |s|
  {
    match ScanToken(s, 0, [])
    case AtEnd => Some([])
    case Token(t, rest) =>
      var more := Tokens(rest);
      if more.Some? then Some([t] + more.value) else None
    case _ => None
  }

  datatype Failure = BadAction | UnmatchedParens | Panics

  /**
    `actionParser.Parse`: the actions and their raw texts, or the first failure. An action whose scan meets
    the end of its text fails with the same `io.EOF` that ends the input, so it ends the list without an error.
   */
  function ParseAll(net: Library, s: string): (r: Result<(seq<Action>, seq<string>), Failure>)
    decreases |s|
  {
    match ScanToken(s, 0, [])
    case AtEnd => Ok(([], []))
    case Unmatched => Err(UnmatchedParens)
    case StackUnderflow => Err(Panics)
    case Token(t, rest) =>
      var a := ParseAction(net, t);
      if a == Err(EndOfInput) then Ok(([], []))
      else if a.Err? then Err(BadAction)
      else
        var more := ParseAll(net, rest);
        if more.Err? then more else Ok(([a.value] + more.value.0, [t] + more.value.1))
  }

  // ---------------------------------------------------------------- the imperative parser

  class Parser {
    const input: string
    var pos: nat
    var depth: nat

    ghost predicate Valid()
      reads this
    {
      pos <= |input|
    }

    function Rest(): string
      requires Valid()
      reads this
    {
      input[pos..]
    }

    constructor (text: string)
      ensures Valid() && Rest() == text && depth == 0
    {
      input, pos, depth := text, 0, 0;
    }

    method Read() returns (ch: char)
      requires Valid()
      modifies this`pos
      ensures Valid()
      ensures old(Rest()) == [] ==> ch == EOF && Rest() == []
      ensures old(Rest()) != [] ==> ch == old(Rest())[0] && Rest() == old(Rest())[1..]
    {
      if pos == |input| {
        return EOF;
      }
      ch := input[pos];
      pos := pos + 1;
    }

    /** The scanning loop of `parseAction`. */
    method NextToken() returns (r: Scan)
      requires Valid()
      modifies this`pos, this`depth
      ensures Valid()
      ensures r == ScanToken(old(Rest()), old(depth), [])
      ensures r.Token? ==> Rest() == r.rest && depth == 0
    {
      var buf := [];
      while true
        invariant Valid()
        invariant ScanToken(Rest(), depth, buf) == ScanToken(old(Rest()), old(depth), [])
        decreases |input| - pos
      {
        ghost var before := Rest();
        var ch := Read();
        if ch == ',' && depth == 0 {
          return Token(buf, Rest());
        }
        if ch == EOF {
          if buf == [] {
            return AtEnd;
          }
          if depth > 0 {
            return Unmatched;
          }
          return Token(buf, Rest());
        }
        if ch == '(' {
          depth := depth + 1;
        } else if ch == ')' {
          if depth == 0 {
            return StackUnderflow;
          }
          depth := depth - 1;
        }
        buf := buf + [ch];
      }
    }

    method Parse(net: Library) returns (r: Result<(seq<Action>, seq<string>), Failure>)
      requires Valid() && depth == 0
      modifies this`pos, this`depth
      ensures r == ParseAll(net, old(Rest()))
    {
      var actions, raw := [], [];
      PrependNothing(ParseAll(net, Rest()));
      while true
        invariant Valid() && depth == 0
        invariant ParseAll(net, old(Rest())) ==
                  Prepend(actions, raw, ParseAll(net, Rest()))
        decreases |Rest()|
      {
        ghost var before := Rest();
        var scan := NextToken();
        match scan
        case AtEnd =>
          assert actions + [] == actions && raw + [] == raw;
          return Ok((actions, raw));
        case Unmatched => return Err(UnmatchedParens);
        case StackUnderflow => return Err(Panics);
        case Token(t, rest) =>
          var a := ParseAction(net, t);
          if a == Err(EndOfInput) {
            assert actions + [] == actions && raw + [] == raw;
            return Ok((actions, raw));
          }
          if a.Err? {
            return Err(BadAction);
          }
          PrependStep(net, actions, raw, before, a.value, t, rest);
          actions, raw := actions + [a.value], raw + [t];
      }
    }
  }

  function Prepend(actions: seq<Action>, raw: seq<string>, r: Result<(seq<Action>, seq<string>), Failure>):
    Result<(seq<Action>, seq<string>), Failure>
  {
    if r.Err? then r else Ok((actions + r.value.0, raw + r.value.1))
  }

  lemma PrependNothing(r: Result<(seq<Action>, seq<string>), Failure>)
    ensures Prepend([], [], r) == r
  {
    if r.Ok? {
      assert [] + r.value.0 == r.value.0 && [] + r.value.1 == r.value.1;
    }
  }

  lemma PrependStep(net: Library, actions: seq<Action>, raw: seq<string>, s: string, a: Action, t: string, rest: string)
    requires ScanToken(s, 0, []) == Token(t, rest) && ParseAction(net, t) == Ok(a)
    ensures Prepend(actions, raw, ParseAll(net, s)) == Prepend(actions + [a], raw + [t], ParseAll(net, rest))
  {
    hide ParseAction, ScanToken;
    var more := ParseAll(net, rest);
    if more.Ok? {
      assert actions + ([a] + more.value.0) == actions + [a] + more.value.0;
      assert raw + ([t] + more.value.1) == raw + [t] + more.value.1;
    }
  }

  // ---------------------------------------------------------------- cutting joined tokens

  /** Scanned from `depth`, `t` meets no comma outside parentheses and no NUL, and closes what it opens. */
  predicate Clean(t: string, depth: nat)
    decreases |t|
  {
    if t == [] then depth == 0
    else
      && t[0] != EOF
      && !(t[0] == ',' && depth == 0)
      && !(t[0] == ')' && depth == 0)
      && Clean(t[1..], if t[0] == '(' then depth + 1 else if t[0] == ')' then depth - 1 else depth)
  }

  predicate GoodTokens(ts: seq<string>) {
    forall i :: 0 <= i < |ts| ==> ts[i] != [] && Clean(ts[i], 0)
  }

  /** The scanner takes a clean token up to the comma or the end of the text that follows it. */
  lemma {:induction false} ScanClean(t: string, depth: nat, buf: string, tail: string)
    requires Clean(t, depth) && buf + t != []
    requires tail == [] || tail[0] == ','
    ensures ScanToken(t + tail, depth, buf) == Token(buf + t, if tail == [] then [] else tail[1..])
    decreases |t|
  {
    var s := t + tail;
    if t == [] {
      assert s == tail && buf + t == buf;
    } else {
      assert s[0] == t[0] && s[1..] == t[1..] + tail;
      assert buf + [t[0]] + t[1..] == buf + t;
      ScanClean(t[1..], if t[0] == '(' then depth + 1 else if t[0] == ')' then depth - 1 else depth,
                buf + [t[0]], tail);
    }
  }

  /** Cutting the comma join of good tokens gives exactly the tokens back; the stack never underflows. */
  lemma {:induction false} TokensOfJoin(ts: seq<string>)
    requires GoodTokens(ts)
    ensures Tokens(Join(ts, ',')) == Some(ts)
  {
    if ts != [] {
      assert [] + ts[0] == ts[0];
      if |ts| == 1 {
        ScanClean(ts[0], 0, [], []);
        assert ts[0] + [] == ts[0];
        assert [ts[0]] + [] == ts;
      } else {
        var rest := Join(ts[1..], ',');
        ScanClean(ts[0], 0, [], [','] + rest);
        assert ts[0] + [','] + rest == ts[0] + ([','] + rest);
        assert ([','] + rest)[1..] == rest;
        TokensOfJoin(ts[1..]);
        assert [ts[0]] + ts[1..] == ts;
      }
    }
  }

  // ---------------------------------------------------------------- what was cut rejoins

  /** A scanned token is the text up to the cut. */
  lemma {:induction false} ScanIsPrefix(s: string, depth: nat, buf: string)
    requires EOF !in s && ScanToken(s, depth, buf).Token?
    ensures var Token(t, rest) := ScanToken(s, depth, buf);
            buf + s == t + rest || buf + s == t + [','] + rest
    ensures ScanToken(s, depth, buf).rest != [] ==>
              buf + s == ScanToken(s, depth, buf).text + [','] + ScanToken(s, depth, buf).rest
    ensures forall c :: c in ScanToken(s, depth, buf).rest ==> c in s
    decreases |s|
  {
    if s != [] {
      assert s == [s[0]] + s[1..];
      assert buf + [s[0]] + s[1..] == buf + s;
      if !(s[0] == ',' && depth == 0) {
        ScanIsPrefix(s[1..], if s[0] == '(' then depth + 1 else if s[0] == ')' then depth - 1 else depth, buf + [s[0]]);
      }
    }
  }

  /** If the text splits into non-empty pieces, the pieces rejoin to it, up to one trailing comma. */
  lemma {:induction false} TokensRejoin(s: string)
    requires EOF !in s && Tokens(s).Some?
    requires forall i :: 0 <= i < |Tokens(s).value| ==> Tokens(s).value[i] != []
    ensures s == Join(Tokens(s).value, ',') || s == Join(Tokens(s).value, ',') + [',']
    decreases |s|
  {
    var ts := Tokens(s).value;
    if ScanToken(s, 0, []).Token? {
      var Token(t, rest) := ScanToken(s, 0, []);
      ScanIsPrefix(s, 0, []);
      assert [] + s == s;
      assert ts == [t] + Tokens(rest).value;
      assert ts[1..] == Tokens(rest).value;
      forall i | 0 <= i < |Tokens(rest).value|
        ensures Tokens(rest).value[i] != []
      {
        assert ts[i + 1] == Tokens(rest).value[i];
      }
      TokensRejoin(rest);
      if ts[1..] == [] {
        RestIsShort(rest);
        assert Join(ts, ',') == t;
      } else {
        assert t + [','] + (Join(ts[1..], ',') + [',']) == t + [','] + Join(ts[1..], ',') + [','];
      }
    } else {
      assert ts == [];
      EndMeansEmpty(s);
    }
  }

  lemma EndMeansEmpty(s: string)
    requires EOF !in s && ScanToken(s, 0, []).AtEnd?
    ensures s == []
  {
    if s != [] {
      NotAtEnd(s, 0, []);
    }
  }

  lemma {:induction false} NotAtEnd(s: string, depth: nat, buf: string)
    requires EOF !in s && (s != [] || buf != [])
    ensures !ScanToken(s, depth, buf).AtEnd?
    decreases |s|
  {
    if s != [] && !(s[0] == ',' && depth == 0) && !(s[0] == ')' && depth == 0) {
      NotAtEnd(s[1..], if s[0] == '(' then depth + 1 else if s[0] == ')' then depth - 1 else depth, buf + [s[0]]);
    }
  }

  lemma RestIsShort(rest: string)
    requires EOF !in rest && Tokens(rest) == Some([])
    ensures rest == []
  {
    EndMeansEmpty(rest);
  }

  // ---------------------------------------------------------------- what the scanner takes

  function NextDepth(c: char, depth: nat): nat
    requires c == ')' ==> depth > 0
  {
    if c == '(' then depth + 1 else if c == ')' then depth - 1 else depth
  }

  /** A scanned token is a clean piece from the front of the text. */
  lemma {:induction false} TokenIsClean(x: string, depth: nat, buf: string)
    requires ScanToken(x, depth, buf).Token?
    ensures var t := ScanToken(x, depth, buf).text;
            buf <= t && t[|buf|..] <= x && Clean(t[|buf|..], depth)
    decreases |x|
  {
    var t := ScanToken(x, depth, buf).text;
    if x != [] && x[0] != EOF && !(x[0] == ',' && depth == 0) {
      TokenIsClean(x[1..], NextDepth(x[0], depth), buf + [x[0]]);
      assert t[|buf|] == (buf + [x[0]])[|buf|] == x[0];
      assert t[|buf|..][1..] == t[|buf| + 1..];
      assert t[|buf|..] == [x[0]] + t[|buf| + 1..];
    } else {
      assert t[|buf|..] == [];
    }
  }

  /** What is left open at depth > 0 must be closed. */
  lemma {:induction false} MustClose(y: string, depth: nat)
    requires Clean(y, depth) && depth > 0
    ensures ')' in y
    decreases |y|
  {
    if y[0] != ')' {
      MustClose(y[1..], NextDepth(y[0], depth));
    }
  }

  lemma {:induction false} CommaInside(s: string, u: string, depth: nat)
    requires Clean(s + ([','] + u), depth)
    ensures ')' in u
    decreases |s|
  {
    var y := s + ([','] + u);
    if s == [] {
      assert y[0] == ',' && y[1..] == u;
      MustClose(u, depth);
    } else {
      assert y[0] == s[0] && y[1..] == s[1..] + ([','] + u);
      CommaInside(s[1..], u, NextDepth(s[0], depth));
    }
  }

  /** A list of tokens that all parse is parsed to the list of their actions. */
  lemma {:induction false} ParseTokens(net: Library, ts: seq<string>, actions: seq<Action>)
    requires GoodTokens(ts) && |actions| == |ts|
    requires forall i :: 0 <= i < |ts| ==> ParseAction(net, ts[i]) == Ok(actions[i])
    ensures ParseAll(net, Join(ts, ',')) == Ok((actions, ts))
  {
    hide ParseAction, ScanToken;
    if ts == [] {
      assert actions == [] && Join(ts, ',') == [];
      ScanNothing();
    } else {
      FirstOfJoin(ts, Join(ts[1..], ','));
      ParseTokens(net, ts[1..], actions[1..]);
      assert [ts[0]] + ts[1..] == ts && [actions[0]] + actions[1..] == actions;
    }
  }

  lemma ScanNothing()
    ensures ScanToken([], 0, []) == AtEnd
  {
  }

  lemma JoinCons(ts: seq<string>)
    requires |ts| > 1
    ensures Join(ts, ',') == ts[0] + ([','] + Join(ts[1..], ','))
  {
    assert ts[0] + [','] + Join(ts[1..], ',') == ts[0] + ([','] + Join(ts[1..], ','));
  }

  lemma JoinSingle(ts: seq<string>)
    requires |ts| == 1
    ensures Join(ts, ',') == ts[0] + [] && Join(ts[1..], ',') == []
  {
    assert ts[1..] == [];
  }

  lemma ScanWhole(t: string, tail: string)
    requires t != [] && Clean(t, 0) && (tail == [] || tail[0] == ',')
    ensures ScanToken(t + tail, 0, []) == Token(t, if tail == [] then [] else tail[1..])
  {
    hide ScanToken, Clean;
    assert [] + t == t;
    ScanClean(t, 0, [], tail);
  }

  /** The scanner takes the first of the joined tokens. */
  lemma FirstOfJoin(ts: seq<string>, rest: string)
    requires ts != [] && GoodTokens(ts) && rest == Join(ts[1..], ',')
    ensures ScanToken(Join(ts, ','), 0, []) == Token(ts[0], rest)
  {
    hide ScanToken, Clean, Join;
    if |ts| == 1 {
      JoinSingle(ts);
      ScanWhole(ts[0], []);
    } else {
      JoinCons(ts);
      ScanWhole(ts[0], [','] + rest);
    }
  }
}
