/**
  `parseAction(s)`: the ordered dispatch over fixed names, unanchored patterns and prefixes that turns
  one action's text back into an action.
 */
module ActionDispatch {
  import opened Results
  import opened Bits
  import opened Text
  import opened Net
  import opened Actions

  /** `EndOfInput` is the `io.EOF` of a verb that meets the end of its text. */
  datatype ParseError = BadNumber | BadAddress | BadFormat | EndOfInput | NoActionMatched

  type Parsed = Result<Action, ParseError>

  // ---------------------------------------------------------------- fixed names

  function SimpleAction(s: string): Option<Action> {
    var l := ToLower(s);
    if l == "drop" then Some(Drop)
    else if l == "flood" then Some(Flood)
    else if l == "in_port" then Some(InPort)
    else if l == "local" then Some(Local)
    else if l == "normal" then Some(Normal)
    else if l == "strip_vlan" then Some(StripVLAN)
    else None
  }

  // ---------------------------------------------------------------- regular expressions

  /** The five patterns, in the order in which the dispatch tries them. */
  datatype Pattern = CtPattern | ResubmitPattern | ResubmitPortPattern | LoadPattern | SetFieldPattern

  function Keyword(p: Pattern): (k: string)
    ensures k != []
  {
    match p
    case CtPattern => "ct("
    case ResubmitPattern => "resubmit("
    case ResubmitPortPattern => "resubmit:"
    case LoadPattern => "load:"
    case SetFieldPattern => "set_field:"
  }

  /** The class \s of Go's regular expressions. */
  predicate ReSpace(c: char) {
    c == ' ' || c == '\t' || c == '\n' || c == '\r' || c as int == 0x0c
  }

  predicate NoReSpace(s: string) {
    forall i :: 0 <= i < |s| ==> !ReSpace(s[i])
  }

  /** The length of the longest run of \S at the start of `r`. */
  function RunLength(r: string): (e: nat)
    ensures e <= |r|
    ensures forall k :: 0 <= k < e ==> !ReSpace(r[k])
    ensures e < |r| ==> ReSpace(r[e])
  {
    if r != [] && !ReSpace(r[0]) then 1 + RunLength(r[1..]) else 0
  }

  /** The length of the longest run of \d at the start of `r`. */
  function DigitRun(r: string): (e: nat)
    ensures e <= |r|
    ensures forall k :: 0 <= k < e ==> IsDigit(r[k], Dec)
    ensures e < |r| ==> !IsDigit(r[e], Dec)
  {
    if r != [] && IsDigit(r[0], Dec) then 1 + DigitRun(r[1..]) else 0
  }

  /** The last index below `hi`, but not 0, that holds a closing parenthesis. */
  function LastParen(r: string, hi: nat): (j: Option<nat>)
    requires hi <= |r|
    ensures j.Some? ==> 0 < j.value < hi && r[j.value] == ')'
    ensures forall k :: (if j.Some? then j.value + 1 else 1) <= k < hi ==> r[k] != ')'
  {
    if hi <= 1 then None
    else if r[hi - 1] == ')' then Some(hi - 1)
    else LastParen(r, hi - 1)
  }

  predicate ArrowAt(r: string, k: int) {
    0 <= k < |r| - 1 && r[k] == '-' && r[k + 1] == '>'
  }

  /** The last index below `hi`, but not 0, at which an arrow starts. */
  function LastArrow(r: string, hi: int): (j: Option<nat>)
    ensures j.Some? ==> 0 < j.value < hi && ArrowAt(r, j.value)
    ensures forall k :: (if j.Some? then j.value + 1 else 1) <= k < hi ==> !ArrowAt(r, k)
    decreases hi
  {
    if hi <= 1 then None
    else if ArrowAt(r, hi - 1) then Some(hi - 1)
    else LastArrow(r, hi - 1)
  }

  /** What the groups of `p` capture in `r`, the text after the keyword: \S+ and \d* are greedy. */
  function Groups(p: Pattern, r: string): (g: Option<seq<string>>)
    ensures g.Some? ==> |g.value| == (if p.CtPattern? || p.ResubmitPortPattern? then 1 else 2)
  {
    match p
    case CtPattern =>
      var j := LastParen(r, RunLength(r));
      if j.Some? then Some([r[..j.value]]) else None
    case ResubmitPattern =>
      var m := DigitRun(r);
      if m == |r| || r[m] != ',' then None
      else
        var e := DigitRun(r[m + 1..]);
        if m + 1 + e < |r| && r[m + 1 + e] == ')' then Some([r[..m], r[m + 1..m + 1 + e]]) else None
    case ResubmitPortPattern =>
      var e := DigitRun(r);
      if e > 0 then Some([r[..e]]) else None
    case LoadPattern => ArrowGroups(r)
    case SetFieldPattern => ArrowGroups(r)
  }

  /** The groups of (\S+)->(\S+). */
  function ArrowGroups(r: string): (g: Option<seq<string>>)
    ensures g.Some? ==> |g.value| == 2
  {
    var e := RunLength(r);
    var j := LastArrow(r, e - 2);
    if j.Some? then Some([r[..j.value], r[j.value + 2..e]]) else None
  }

  /** The submatches of pattern `p` at index `i`, if it matches there. */
  function MatchAt(p: Pattern, s: string, i: nat): (g: Option<seq<string>>)
    requires i <= |s|
    ensures g.Some? ==> OccursAt(s, Keyword(p), i)
    ensures g.Some? ==> |g.value| == (if p.CtPattern? || p.ResubmitPortPattern? then 1 else 2)
  {
    if OccursAt(s, Keyword(p), i) then Groups(p, s[i + |Keyword(p)|..]) else None
  }

  /** The submatches of the leftmost match of `p` at or after `i`. */
  function FindSubmatch(p: Pattern, s: string, i: nat): (r: Option<seq<string>>)
    requires i <= |s|
    ensures r.Some? ==> |r.value| == (if p.CtPattern? || p.ResubmitPortPattern? then 1 else 2)
    decreases |s| - i
  {
    if MatchAt(p, s, i).Some? then MatchAt(p, s, i)
    else if i == |s| then None
    else FindSubmatch(p, s, i + 1)
  }

  // ---------------------------------------------------------------- fmt.Sscanf

  /** Leading white space is skipped; a newline stops the scan with an error. */
  function SkipSpace(s: string): Option<string> {
    if s == [] then Some([])
    else if s[0] == '\n' then None
    else if IsSpace(s[0]) then SkipSpace(s[1..])
    else Some(s)
  }

  /** The text before the first white space. */
  function Token(s: string): string {
    if s == [] || IsSpace(s[0]) then [] else [s[0]] + Token(s[1..])
  }

  /** The verb %s. */
  function ScanString(s: string): Result<string, ParseError> {
    var t := SkipSpace(s);
    if t.None? then Err(BadFormat)
    else if t.value == [] then Err(EndOfInput)
    else Ok(Token(t.value))
  }

  /** Decimal digits, their value, and the text after them. */
  function ScanDigits(s: string): Result<(nat, string), ParseError> {
    var e := DigitRun(s);
    var v := DigitsValue(s[..e], Dec);
    if s == [] then Err(EndOfInput)
    else if e == 0 || v.None? then Err(BadFormat)
    else Ok((v.value, s[e..]))
  }

  /** The verb %d for an int; `rest` is the text after the number. */
  function ScanInt(s: string): Result<(int64, string), ParseError> {
    var t := SkipSpace(s);
    if t.None? then Err(BadFormat)
    else if t.value == [] then Err(EndOfInput)
    else
      var negative := t.value[0] == '-';
      var d := ScanDigits(if negative || t.value[0] == '+' then t.value[1..] else t.value);
      if d.Err? then Err(d.error)
      else
        var (n, rest) := d.value;
        var v: int := if negative then 0 - n else n;
        if -0x8000_0000_0000_0000 <= v < 0x8000_0000_0000_0000 then Ok((v, rest)) else Err(BadFormat)
  }

  /** The verb %d for a uint16. */
  function ScanUint16(s: string): Result<uint16, ParseError> {
    var t := SkipSpace(s);
    if t.None? then Err(BadFormat)
    else
      var d := ScanDigits(t.value);
      if d.Err? then Err(d.error)
      else if d.value.0 < 0x1_0000 then Ok(d.value.0) else Err(BadFormat)
  }

  /** A literal character of the format, which must be there, then the verb %d. */
  function ScanCharInt(c: char, s: string): Result<(int64, string), ParseError> {
    if s == [] || s[0] != c then Err(BadFormat) else ScanInt(s[1..])
  }

  // ---------------------------------------------------------------- prefixed actions

  datatype Verb = DlDst | DlSrc | NwDst | NwSrc | TpDst | TpSrc | Vlan | Conj | Out

  function Prefix(v: Verb): string {
    match v
    case DlDst => "mod_dl_dst:"
    case DlSrc => "mod_dl_src:"
    case NwDst => "mod_nw_dst:"
    case NwSrc => "mod_nw_src:"
    case TpDst => "mod_tp_dst:"
    case TpSrc => "mod_tp_src:"
    case Vlan => "mod_vlan_vid:"
    case Conj => "conjunction"
    case Out => "output:"
  }

  /** The first prefix, in the order of the dispatch, that `s` starts with. */
  function FirstVerb(s: string): (r: Option<Verb>)
    ensures r.Some? ==> Prefix(r.value) <= s
  {
    if Prefix(DlDst) <= s then Some(DlDst)
    else if Prefix(DlSrc) <= s then Some(DlSrc)
    else if Prefix(NwDst) <= s then Some(NwDst)
    else if Prefix(NwSrc) <= s then Some(NwSrc)
    else if Prefix(TpDst) <= s then Some(TpDst)
    else if Prefix(TpSrc) <= s then Some(TpSrc)
    else if Prefix(Vlan) <= s then Some(Vlan)
    else if Prefix(Conj) <= s then Some(Conj)
    else if Prefix(Out) <= s then Some(Out)
    else None
  }

  function ScanMac(s: string): Result<HardwareAddr, ParseError> {
    var t := ScanString(s);
    if t.Err? then Err(t.error)
    else
      var mac := ParseMAC(t.value);
      if mac.None? then Err(BadAddress) else Ok(mac.value)
  }

  function ScanIPv4(net: Library, s: string): Result<Addr, ParseError> {
    var t := ScanString(s);
    if t.Err? then Err(t.error)
    else
      var ip := net.parseIP(t.value);
      if ip.None? || !ip.value.v4 then Err(BadAddress) else Ok(ip.value)
  }

  function ScanConjunction(s: string): Parsed {
    var id := ScanCharInt('(', s);
    if id.Err? then Err(id.error)
    else
      var number := ScanCharInt(',', id.value.1);
      if number.Err? then Err(number.error)
      else
        var size := ScanCharInt('/', number.value.1);
        if size.Err? then Err(size.error)
        else if size.value.1 == [] || size.value.1[0] != ')' then Err(BadFormat)
        else Ok(Conjunction(id.value.0, number.value.0, size.value.0))
  }

  /** The action behind prefix `v`; `arg` is the text after the prefix. */
  function ParseVerb(net: Library, v: Verb, arg: string): Parsed {
    match v
    case DlDst => var m := ScanMac(arg); if m.Err? then Err(m.error) else Ok(ModDataLinkDestination(m.value))
    case DlSrc => var m := ScanMac(arg); if m.Err? then Err(m.error) else Ok(ModDataLinkSource(m.value))
    case NwDst => var a := ScanIPv4(net, arg); if a.Err? then Err(a.error) else Ok(ModNetworkDestination(Some(a.value)))
    case NwSrc => var a := ScanIPv4(net, arg); if a.Err? then Err(a.error) else Ok(ModNetworkSource(Some(a.value)))
    case TpDst => var p := ScanUint16(arg); if p.Err? then Err(p.error) else Ok(ModTransportDestinationPort(p.value))
    case TpSrc => var p := ScanUint16(arg); if p.Err? then Err(p.error) else Ok(ModTransportSourcePort(p.value))
    case Vlan => var n := ScanInt(arg); if n.Err? then Err(n.error) else Ok(ModVLANVID(n.value.0))
    case Conj => ScanConjunction(arg)
    case Out => var n := ScanInt(arg); if n.Err? then Err(n.error) else Ok(Output(n.value.0))
  }

  // ---------------------------------------------------------------- the dispatch

  function OptionalAtoi(s: string): Result<int64, NumError> {
    if s == "" then Ok(0) else ParseInt(s)
  }

  /** The patterns tried after the prefixes. */
  function ParsePatterns(s: string): Parsed {
    var resubmit := FindSubmatch(ResubmitPattern, s, 0);
    if resubmit.Some? then
      var port, table := OptionalAtoi(resubmit.value[0]), OptionalAtoi(resubmit.value[1]);
      if port.Err? || table.Err? then Err(BadNumber) else Ok(Resubmit(port.value, table.value))
    else
      var resubmitPort := FindSubmatch(ResubmitPortPattern, s, 0);
      if resubmitPort.Some? then
        var port := ParseInt(resubmitPort.value[0]);
        if port.Err? then Err(BadNumber) else Ok(ResubmitPort(port.value))
      else
        var load := FindSubmatch(LoadPattern, s, 0);
        if load.Some? then Ok(Load(load.value[0], load.value[1]))
        else
          var setField := FindSubmatch(SetFieldPattern, s, 0);
          if setField.Some? then Ok(SetField(setField.value[0], setField.value[1]))
          else Err(NoActionMatched)
  }

  function ParseAction(net: Library, s: string): Parsed {
    var simple := SimpleAction(s);
    if simple.Some? then Ok(simple.value)
    else
      var ct := FindSubmatch(CtPattern, s, 0);
      if ct.Some? then Ok(ConnectionTracking(ct.value[0]))
      else
        var verb := FirstVerb(s);
        if verb.Some? then ParseVerb(net, verb.value, s[|Prefix(verb.value)|..])
        else ParsePatterns(s)
  }
}
