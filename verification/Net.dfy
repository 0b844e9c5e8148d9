/**
  Addresses: hardware addresses with the printer and parser of Go's `net` package, and IP addresses,
  whose parsing is left to the library and enters the model as a parameter.
 */
module Net {
  import opened Results
  import opened Bits
  import opened Text

  // ---------------------------------------------------------------- hardware addresses

  type HardwareAddr = seq<uint8>

  function HexByte(b: uint8): (s: string)
    ensures |s| == 2 && AllDigitChars(s)
    ensures ParseHexByte(s) == Some(b)
  {
    [DigitChar(b / 16), DigitChar(b % 16)]
  }

  function ParseHexByte(s: string): Option<uint8>
    requires |s| == 2
  {
    if IsDigit(s[0], Hex) && IsDigit(s[1], Hex)
    then Some(DigitValue(s[0]).value * 16 + DigitValue(s[1]).value)
    else None
  }

  /** `HardwareAddr.String()`. */
  function MacText(a: HardwareAddr): (s: string)
    ensures |s| == if a == [] then 0 else 3 * |a| - 1
  {
    if a == [] then []
    else if |a| == 1 then HexByte(a[0])
    else HexByte(a[0]) + ":" + MacText(a[1..])
  }

  /** Pairs of hexadecimal digits with `sep` between them. */
  function ParsePairs(s: string, sep: char): Option<HardwareAddr> {
    if |s| < 2 || (|s| > 2 && s[2] != sep) then None
    else
      var b := ParseHexByte(s[..2]);
      if b.None? then None
      else if |s| == 2 then Some([b.value])
      else
        var rest := ParsePairs(s[3..], sep);
        if rest.None? then None else Some([b.value] + rest.value)
  }

  /** Groups of four hexadecimal digits with dots between them. */
  function ParseGroups(s: string): Option<HardwareAddr> {
    if |s| < 4 || (|s| > 4 && s[4] != '.') then None
    else
      var b, c := ParseHexByte(s[..2]), ParseHexByte(s[2..4]);
      if b.None? || c.None? then None
      else if |s| == 4 then Some([b.value, c.value])
      else
        var rest := ParseGroups(s[5..]);
        if rest.None? then None else Some([b.value, c.value] + rest.value)
  }

  predicate MacLength(n: int) {
    n == 6 || n == 8 || n == 20
  }

  /** `net.ParseMAC(s)`. */
  function ParseMAC(s: string): Option<HardwareAddr> {
    if |s| < 14 then None
    else if s[2] == ':' || s[2] == '-' then
      if (|s| + 1) % 3 == 0 && MacLength((|s| + 1) / 3) then ParsePairs(s, s[2]) else None
    else if s[4] == '.' then
      if (|s| + 1) % 5 == 0 && MacLength(2 * (|s| + 1) / 5) then ParseGroups(s) else None
    else None
  }

  lemma {:induction false} PairsRoundTrip(a: HardwareAddr)
    requires a != []
    ensures ParsePairs(MacText(a), ':') == Some(a)
  {
    var s := MacText(a);
    if |a| == 1 {
      assert s[..2] == HexByte(a[0]) && [a[0]] == a;
    } else {
      assert s == HexByte(a[0]) + [':'] + MacText(a[1..]);
      assert s[..2] == HexByte(a[0]) && s[2] == ':' && s[3..] == MacText(a[1..]);
      PairsRoundTrip(a[1..]);
      assert [a[0]] + a[1..] == a;
    }
  }

  /** Printing an Ethernet address and parsing it gives it back. */
  lemma MacRoundTrip(a: HardwareAddr)
    requires |a| == 6
    ensures ParseMAC(MacText(a)) == Some(a)
  {
    var s := MacText(a);
    assert s == HexByte(a[0]) + [':'] + MacText(a[1..]);
    assert s[2] == ':';
    PairsRoundTrip(a);
  }

  predicate MacChar(c: char) {
    IsDigitChar(c) || c == ':'
  }

  lemma {:induction false} MacChars(a: HardwareAddr)
    ensures forall i :: 0 <= i < |MacText(a)| ==> MacChar(MacText(a)[i])
  {
    if |a| > 1 {
      MacChars(a[1..]);
      assert MacText(a) == HexByte(a[0]) + [':'] + MacText(a[1..]);
    }
  }

  // ---------------------------------------------------------------- IP addresses

  /** A parsed address: `To4() != nil`, and `String()`. */
  datatype Addr = Addr(v4: bool, text: string)

  /** `net.ParseIP`, and `net.ParseCIDR` with the `To4() != nil` of the address it finds. */
  datatype Library = Library(parseIP: string -> Option<Addr>, parseCIDR: string -> Option<bool>)

  /** The characters an address or a CIDR block is written with. */
  predicate AddressChar(c: char) {
    '0' <= c <= '9' || 'a' <= c <= 'f' || 'A' <= c <= 'F' || c == '.' || c == ':' || c == '/'
  }

  predicate AddressText(s: string) {
    s != [] && forall i :: 0 <= i < |s| ==> AddressChar(s[i])
  }

  /** What the model asks of the library: the printed form of an address parses to the same address. */
  ghost predicate Lawful(net: Library) {
    && (forall s :: net.parseIP(s).Some? ==> Canonical(net, net.parseIP(s).value))
    && (forall s :: net.parseCIDR(s).Some? ==> AddressText(s))
  }

  ghost predicate Canonical(net: Library, a: Addr) {
    net.parseIP(a.text) == Some(a) && net.parseCIDR(a.text).None? && AddressText(a.text)
  }

  /** A library that reads one IPv4 address, one IPv6 address and one block obeys that law. */
  lemma LawfulLibrary() returns (net: Library)
    ensures Lawful(net)
    ensures net.parseIP("10.0.0.1") == Some(Addr(true, "10.0.0.1"))
    ensures net.parseIP("fe80::1") == net.parseIP("fe80:0::1") == Some(Addr(false, "fe80::1"))
    ensures net.parseCIDR("10.0.0.0/8") == Some(true)
  {
    net := Library(
      s => if s == "10.0.0.1" then Some(Addr(true, s))
           else if s == "fe80::1" || s == "fe80:0::1" then Some(Addr(false, "fe80::1"))
           else None,
      s => if s == "10.0.0.0/8" then Some(true) else None);
    assert Canonical(net, Addr(true, "10.0.0.1")) && Canonical(net, Addr(false, "fe80::1"));
  }
}
