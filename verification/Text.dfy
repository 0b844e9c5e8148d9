/**
  ASCII text: the parts of Go's `strings`, `strconv` and `fmt` packages that the flow printer and
  parser rely on, as functions on `string`.
 */
module Text {
  import opened Results
  import opened Bits

  // ---------------------------------------------------------------- numbers

  datatype Base = Oct | Dec | Hex {
    function Radix(): (r: nat)
      ensures 8 <= r <= 16
    {
      match this
      case Oct => 8
      case Dec => 10
      case Hex => 16
    }
  }

  function DigitChar(d: nat): (c: char)
    requires d < 16
    ensures IsDigitChar(c) && DigitValue(c) == Some(d)
    ensures d < 10 <==> '0' <= c <= '9'
  {
    if d < 10 then ('0' as int + d) as char else ('a' as int + d - 10) as char
  }

  /** The digits the printers write. */
  predicate IsDigitChar(c: char) {
    '0' <= c <= '9' || 'a' <= c <= 'f'
  }

  /** The value of a digit; hexadecimal digits may be upper case. */
  function DigitValue(c: char): Option<nat> {
    if '0' <= c <= '9' then Some(c as int - '0' as int)
    else if 'a' <= c <= 'f' then Some(c as int - 'a' as int + 10)
    else if 'A' <= c <= 'F' then Some(c as int - 'A' as int + 10)
    else None
  }

  predicate IsDigit(c: char, b: Base) {
    DigitValue(c).Some? && DigitValue(c).value < b.Radix()
  }

  predicate AllDigits(s: string, b: Base) {
    forall i :: 0 <= i < |s| ==> IsDigit(s[i], b)
  }

  predicate AllDigitChars(s: string) {
    forall i :: 0 <= i < |s| ==> IsDigitChar(s[i])
  }

  /** `n` without its last digit. */
  function Shift(n: nat, b: Base): nat {
    match b
    case Oct => n / 8
    case Dec => n / 10
    case Hex => n / 16
  }

  function Last(n: nat, b: Base): (d: nat)
    ensures d < b.Radix()
  {
    match b
    case Oct => n % 8
    case Dec => n % 10
    case Hex => n % 16
  }

  function FormatNat(n: nat, b: Base): (s: string)
    ensures s != []
  {
    if n < b.Radix() then [DigitChar(n)]
    else FormatNat(Shift(n, b), b) + [DigitChar(Last(n, b))]
  }

  /** `strconv.FormatInt(n, 10)` and the verb %d. */
  function FormatInt(n: int): (s: string)
    ensures s != []
  {
    if n < 0 then "-" + FormatNat(-n, Dec) else FormatNat(n, Dec)
  }

  function Zeros(n: nat): (s: string)
    ensures |s| == n
  {
    seq(n, _ => '0')
  }

  /** The verb %0wx. */
  function FormatHexPadded(n: nat, width: nat): string {
    var s := FormatNat(n, Hex);
    if |s| < width then Zeros(width - |s|) + s else s
  }

  /** The number written by the digits of `s`; the empty text stands for 0. */
  function DigitsValue(s: string, b: Base): Option<nat> {
    if s == [] then Some(0)
    else
      var front := DigitsValue(s[..|s| - 1], b);
      var c := s[|s| - 1];
      if front.Some? && IsDigit(c, b) then Some(front.value * b.Radix() + DigitValue(c).value) else None
  }

  datatype NumError = Syntax | Range

  function ParseUint(s: string, b: Base, limit: nat): (r: Result<nat, NumError>)
    ensures r.Ok? ==> r.value < limit
  {
    if s == [] then Err(Syntax)
    else
      var v := DigitsValue(s, b);
      if v.None? then Err(Syntax)
      else if v.value >= limit then Err(Range)
      else Ok(v.value)
  }

  /** `strconv.ParseInt(s, 10, 0)` and `strconv.Atoi` on a 64-bit machine. */
  function ParseInt(s: string): (r: Result<int64, NumError>) {
    if s != [] && s[0] == '-' then
      var u := ParseUint(s[1..], Dec, 0x8000_0000_0000_0001);
      if u.Err? then Err(u.error) else Ok(0 - u.value)
    else
      var u := ParseUint(if s != [] && s[0] == '+' then s[1..] else s, Dec, 0x8000_0000_0000_0000);
      if u.Err? then Err(u.error) else Ok(u.value)
  }

  /** `strconv.ParseUint(s, 0, 64)`: the prefix selects the base. */
  function ParseUintPrefixed(s: string): (r: Result<uint64, NumError>) {
    if "0x" <= s || "0X" <= s then ParseUint(s[2..], Hex, 0x1_0000_0000_0000_0000)
    else if |s| > 1 && s[0] == '0' then ParseUint(s[1..], Oct, 0x1_0000_0000_0000_0000)
    else ParseUint(s, Dec, 0x1_0000_0000_0000_0000)
  }

  lemma {:induction false} FormatNatDigits(n: nat, b: Base)
    ensures AllDigits(FormatNat(n, b), b) && AllDigitChars(FormatNat(n, b))
    ensures DigitsValue(FormatNat(n, b), b) == Some(n)
  {
    var s := FormatNat(n, b);
    if n >= b.Radix() {
      var front, d := Shift(n, b), Last(n, b);
      FormatNatDigits(front, b);
      assert s == FormatNat(front, b) + [DigitChar(d)];
      assert s[..|s| - 1] == FormatNat(front, b);
      assert front * b.Radix() + d == n by {
        match b
        case Oct => assert n / 8 * 8 + n % 8 == n;
        case Dec => assert n / 10 * 10 + n % 10 == n;
        case Hex => assert n / 16 * 16 + n % 16 == n;
      }
    } else {
      assert s[..|s| - 1] == [];
    }
  }

  lemma {:induction false} LeadingZeros(k: nat, s: string, b: Base)
    ensures DigitsValue(Zeros(k) + s, b) == DigitsValue(s, b)
    decreases |s|, k
  {
    var t := Zeros(k) + s;
    if s != [] {
      assert t[..|t| - 1] == Zeros(k) + s[..|s| - 1];
      LeadingZeros(k, s[..|s| - 1], b);
    } else if k > 0 {
      assert t[..|t| - 1] == Zeros(k - 1) + s;
      LeadingZeros(k - 1, s, b);
    }
  }

  lemma FormatHexPaddedDigits(n: nat, width: nat)
    ensures AllDigits(FormatHexPadded(n, width), Hex)
    ensures FormatHexPadded(n, width) != []
    ensures AllDigitChars(FormatHexPadded(n, width))
    ensures DigitsValue(FormatHexPadded(n, width), Hex) == Some(n)
  {
    FormatNatDigits(n, Hex);
    var s := FormatNat(n, Hex);
    if |s| < width {
      LeadingZeros(width - |s|, s, Hex);
    }
  }

  /** Printing a 64-bit integer in decimal and parsing it gives it back. */
  lemma IntRoundTrip(n: int64)
    ensures ParseInt(FormatInt(n)) == Ok(n)
  {
    hide DigitsValue, FormatNat;
    if n < 0 {
      FormatNatDigits(0 - n, Dec);
      assert FormatInt(n)[1..] == FormatNat(0 - n, Dec);
    } else {
      FormatNatDigits(n, Dec);
      assert IsDigit(FormatNat(n, Dec)[0], Dec);
    }
  }

  lemma FormatIntInjective(m: int64, n: int64)
    requires FormatInt(m) == FormatInt(n)
    ensures m == n
  {
    IntRoundTrip(m);
    IntRoundTrip(n);
  }

  /** The characters of a printed integer. */
  lemma FormatIntChars(n: int)
    ensures forall i :: 0 <= i < |FormatInt(n)| ==> FormatInt(n)[i] == '-' || IsDigitChar(FormatInt(n)[i])
    ensures n >= 0 ==> AllDigits(FormatInt(n), Dec)
  {
    if n < 0 {
      FormatNatDigits(-n, Dec);
    } else {
      FormatNatDigits(n, Dec);
    }
  }

  // ---------------------------------------------------------------- substrings

  /** `strings.Contains(s, sub)`. */
  predicate Contains(s: string, sub: string) {
    exists i :: 0 <= i <= |s| - |sub| && OccursAt(s, sub, i)
  }

  predicate OccursAt(s: string, sub: string, i: int) {
    0 <= i <= |s| - |sub| && s[i..i + |sub|] == sub
  }

  /** The first index from `i` on at which `sub` occurs, if any. */
  function FindFrom(s: string, sub: string, i: nat): (r: Option<nat>)
    requires i <= |s|
    ensures r.Some? ==> i <= r.value && OccursAt(s, sub, r.value)
    ensures r.Some? ==> forall j :: i <= j < r.value ==> !OccursAt(s, sub, j)
    ensures r.None? ==> forall j :: i <= j ==> !OccursAt(s, sub, j)
    decreases |s| - i
  {
    if OccursAt(s, sub, i) then Some(i)
    else if i == |s| then None
    else FindFrom(s, sub, i + 1)
  }

  /** `strings.Split(s, sub)` for a non-empty separator. */
  function SplitOn(s: string, sub: string): (r: seq<string>)
    requires sub != []
    ensures r != []
  {
    var i := FindFrom(s, sub, 0);
    if i.None? then [s] else [s[..i.value]] + SplitOn(s[i.value + |sub|..], sub)
  }

  lemma OccursChars(s: string, sub: string, i: int)
    requires OccursAt(s, sub, i)
    ensures forall j :: i <= j < i + |sub| ==> s[j] == sub[j - i]
  {
    forall j | i <= j < i + |sub|
      ensures s[j] == sub[j - i]
    {
      assert s[i..i + |sub|][j - i] == s[j];
    }
  }

  lemma OccursAtChar(s: string, sub: string, i: int, k: nat)
    requires OccursAt(s, sub, i) && k < |sub|
    ensures sub[k] in s
  {
    OccursChars(s, sub, i);
    assert s[i + k] == sub[k];
  }

  lemma OccursLeft(a: string, rest: string, sub: string, i: nat)
    requires i + |sub| <= |a|
    ensures OccursAt(a + rest, sub, i) <==> OccursAt(a, sub, i)
  {
    assert (a + rest)[i..i + |sub|] == a[i..i + |sub|];
  }

  lemma OccursRight(front: string, b: string, sub: string, k: nat)
    requires k + |sub| <= |b|
    ensures OccursAt(front + b, sub, |front| + k) <==> OccursAt(b, sub, k)
  {
    assert (front + b)[|front| + k..|front| + k + |sub|] == b[k..k + |sub|];
  }

  /** An occurrence of `sub` cannot run across a character that `sub` does not contain. */
  lemma ContainsAcross(a: string, x: char, b: string, sub: string)
    requires x !in sub && sub != []
    ensures Contains(a + [x] + b, sub) <==> Contains(a, sub) || Contains(b, sub)
  {
    hide OccursAt;
    var s := a + [x] + b;
    assert s == a + ([x] + b) && |a + [x]| == |a| + 1;
    if Contains(s, sub) {
      var i :| 0 <= i <= |s| - |sub| && OccursAt(s, sub, i);
      if i + |sub| <= |a| {
        OccursLeft(a, [x] + b, sub, i);
      } else if i > |a| {
        OccursRight(a + [x], b, sub, i - |a| - 1);
      } else {
        OccurrenceHolds(s, sub, i, |a|);
      }
    }
    if Contains(a, sub) {
      var i :| 0 <= i <= |a| - |sub| && OccursAt(a, sub, i);
      OccursLeft(a, [x] + b, sub, i);
    }
    if Contains(b, sub) {
      var k :| 0 <= k <= |b| - |sub| && OccursAt(b, sub, k);
      OccursRight(a + [x], b, sub, k);
    }
  }

  lemma OccurrenceHolds(s: string, sub: string, i: nat, at: nat)
    requires OccursAt(s, sub, i) && i <= at < i + |sub|
    ensures at < |s| && s[at] in sub
  {
    OccursChars(s, sub, i);
    assert s[at] == sub[at - i];
  }

  /** Text without one of the characters of `sub` cannot contain it. */
  lemma ContainsNeeds(s: string, sub: string, x: char)
    requires x in sub && x !in s
    ensures !Contains(s, sub)
  {
    var k :| 0 <= k < |sub| && sub[k] == x;
    if Contains(s, sub) {
      var i :| 0 <= i <= |s| - |sub| && OccursAt(s, sub, i);
      OccursAtChar(s, sub, i, k);
    }
  }

  // ---------------------------------------------------------------- lists of pieces

  /** `strings.Join(ss, sep)` for a one-character separator. */
  function Join(ss: seq<string>, sep: char): string {
    if ss == [] then []
    else if |ss| == 1 then ss[0]
    else ss[0] + [sep] + Join(ss[1..], sep)
  }

  /** `strings.Join(ss, "")`. */
  function Concat(ss: seq<string>): string {
    if ss == [] then [] else ss[0] + Concat(ss[1..])
  }

  /** The index of the first `c` in `s`, or the length of `s`. */
  function IndexOf(s: string, c: char): (i: nat)
    ensures i <= |s| && c !in s[..i]
    ensures i < |s| ==> s[i] == c
  {
    if s == [] then 0
    else if s[0] == c then 0
    else
      var i := IndexOf(s[1..], c);
      assert s[..i + 1] == [s[0]] + s[1..][..i];
      i + 1
  }

  /** `strings.Split(s, sep)` for a one-character separator. */
  function Split(s: string, sep: char): (r: seq<string>)
    ensures r != []
  {
    var i := IndexOf(s, sep);
    if i == |s| then [s] else [s[..i]] + Split(s[i + 1..], sep)
  }

  predicate NoneHas(ss: seq<string>, c: char) {
    forall i :: 0 <= i < |ss| ==> c !in ss[i]
  }

  lemma SplitSingle(p: string, sep: char)
    requires sep !in p
    ensures Split(p, sep) == [p]
  {
    var i := IndexOf(p, sep);
  }

  lemma SplitFirst(p: string, rest: string, sep: char)
    requires sep !in p
    ensures Split(p + [sep] + rest, sep) == [p] + Split(rest, sep)
  {
    var s := p + [sep] + rest;
    var i := IndexOf(s, sep);
    assert s[|p|] == sep;
    assert s[..i] == p && s[i + 1..] == rest;
  }

  /** Splitting a joined list gives the list back. */
  lemma {:induction false} SplitJoin(ss: seq<string>, sep: char)
    requires ss != [] && NoneHas(ss, sep)
    ensures Split(Join(ss, sep), sep) == ss
  {
    if |ss| == 1 {
      SplitSingle(ss[0], sep);
    } else {
      SplitFirst(ss[0], Join(ss[1..], sep), sep);
      SplitJoin(ss[1..], sep);
    }
  }

  /** Joining one more piece at the end. */
  lemma {:induction false} JoinAppend(ss: seq<string>, last: string, sep: char)
    requires ss != []
    ensures Join(ss + [last], sep) == Join(ss, sep) + [sep] + last
  {
    var all := ss + [last];
    if |ss| > 1 {
      assert all[1..] == ss[1..] + [last];
      JoinAppend(ss[1..], last, sep);
    } else {
      assert all[1..] == [last];
    }
  }

  /** A joined list contains `sub` only if one of its pieces does. */
  lemma {:induction false} JoinContains(ss: seq<string>, sep: char, sub: string)
    requires sub != [] && sep !in sub
    requires forall i :: 0 <= i < |ss| ==> !Contains(ss[i], sub)
    ensures !Contains(Join(ss, sep), sub)
  {
    if |ss| > 1 {
      JoinContains(ss[1..], sep, sub);
      ContainsAcross(ss[0], sep, Join(ss[1..], sep), sub);
    }
  }

  // ---------------------------------------------------------------- white space and case

  predicate IsSpace(c: char) {
    c == ' ' || c == '\t' || c == '\n' || c == '\r' || c as int == 0x0b || c as int == 0x0c
  }

  predicate NoSpace(s: string) {
    forall i :: 0 <= i < |s| ==> !IsSpace(s[i])
  }

  function TrimLeft(s: string): string {
    if s != [] && IsSpace(s[0]) then TrimLeft(s[1..]) else s
  }

  function TrimRight(s: string): string {
    if s != [] && IsSpace(s[|s| - 1]) then TrimRight(s[..|s| - 1]) else s
  }

  /** `strings.TrimSpace(s)`. */
  function TrimSpace(s: string): string {
    TrimRight(TrimLeft(s))
  }

  function LowerChar(c: char): char {
    if 'A' <= c <= 'Z' then (c as int + 32) as char else c
  }

  /** `strings.ToLower(s)`. */
  function ToLower(s: string): (r: string)
    ensures |r| == |s|
    ensures forall i :: 0 <= i < |s| ==> r[i] == LowerChar(s[i])
  {
    seq(|s|, i requires 0 <= i < |s| => LowerChar(s[i]))
  }
}
