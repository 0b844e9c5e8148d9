/** Printing a match, splitting the text at "=" and parsing it gives a match with the same text. */
module MatchRoundTrip {
  import opened Results
  import opened Bits
  import opened Text
  import opened Net
  import opened Matches
  import opened MatchParser
  import Actions
  import PortRanges

  // ---------------------------------------------------------------- keys

  /** Length and five characters tell the keys apart. */
  lemma KeysDiffer(j: Key, k: Key)
    requires KeyText(j) == KeyText(k)
    ensures j == k
  {
    var s, t := KeyText(j), KeyText(k);
    assert |s| == |t| && s[0] == t[0] && s[1] == t[1] && s[3] == t[3] && s[4] == t[4] && s[5] == t[5];
  }

  lemma LookupFinds(k: Key)
    ensures LookupKey(KeyText(k)) == Some(k)
  {
    var r := LookupKey(KeyText(k));
    assert r.Some?;
    KeysDiffer(r.value, k);
  }

  predicate PlainKey(s: string) {
    '=' !in s && ',' !in s && NoSpace(s)
  }

  lemma KeyChars(k: Key)
    ensures PlainKey(KeyText(k))
  {
    hide PlainKey;
    if k.ArpSha? || k.ArpSpa? || k.ArpTha? || k.ArpTpa? || k.NdSll? || k.NdTll? || k.NdTarget? || k.NwDst? || k.NwSrc? {
      AddressKeyChars(k);
    } else if k.DlSrc? || k.DlDst? || k.DlType? || k.DlVlan? || k.Ipv6Dst? || k.Ipv6Src? || k.VlanTci? {
      LinkKeyChars(k);
    } else {
      OtherKeyChars(k);
    }
  }

  lemma AddressKeyChars(k: Key)
    requires k.ArpSha? || k.ArpSpa? || k.ArpTha? || k.ArpTpa? || k.NdSll? || k.NdTll? || k.NdTarget? || k.NwDst? || k.NwSrc?
    ensures PlainKey(KeyText(k))
  {
  }

  lemma LinkKeyChars(k: Key)
    requires k.DlSrc? || k.DlDst? || k.DlType? || k.DlVlan? || k.Ipv6Dst? || k.Ipv6Src? || k.VlanTci?
    ensures PlainKey(KeyText(k))
  {
  }

  lemma OtherKeyChars(k: Key)
    requires || k.ConjId? || k.CtMark? || k.CtState? || k.CtZone? || k.IcmpType? || k.NwProto? || k.TcpFlagsKey?
             || k.TpDst? || k.TpSrc? || k.TunId?
    ensures PlainKey(KeyText(k))
  {
  }

  // ---------------------------------------------------------------- hexadecimal values

  lemma HexText(n: nat, width: nat)
    ensures var s := Hex0x(n, width);
            && "0x" <= s && |s| > 2 && TrimHexPrefix(s) == FormatHexPadded(n, width)
            && forall i :: 0 <= i < |s| ==> s[i] == 'x' || IsDigitChar(s[i])
  {
    FormatHexPaddedDigits(n, width);
    var s := Hex0x(n, width);
    assert s[2..] == FormatHexPadded(n, width);
  }

  lemma HexParses(n: nat, width: nat, limit: nat)
    requires n < limit
    ensures ParseHex(Hex0x(n, width), limit) == Ok(n)
  {
    HexText(n, width);
    FormatHexPaddedDigits(n, width);
  }

  lemma MaskedParts(value: nat, mask: nat, width: nat)
    ensures Split(Masked(value, mask, width), '/') ==
            if mask == 0 then [Hex0x(value, width)] else [Hex0x(value, width), Hex0x(mask, width)]
  {
    HexText(value, width);
    HexText(mask, width);
    var v, m := Hex0x(value, width), Hex0x(mask, width);
    SplitSingle(v, '/');
    SplitSingle(m, '/');
    SplitFirst(v, m, '/');
    assert v + "/" + m == v + ['/'] + m;
  }

  function Bound(w: Width): nat {
    match w
    case W16 => 0x1_0000
    case W32 => 0x1_0000_0000
    case W64 => 0x1_0000_0000_0000_0000
  }

  lemma PartParses(n: nat, width: nat, w: Width)
    requires n < Bound(w)
    ensures ParsePart(Hex0x(n, width), w) == Ok(n)
  {
    HexText(n, width);
    HexParses(n, width, Limit(w));
  }

  lemma OnePart(s: string, w: Width, x: nat)
    requires ParsePart(s, w) == Ok(x)
    ensures ParseParts([s], w) == Ok([x])
  {
    hide ParsePart;
    assert [s][..0] == [];
    assert [] + [x] == [x];
  }

  lemma TwoParts(s: string, t: string, w: Width, x: nat, y: nat)
    requires ParsePart(s, w) == Ok(x) && ParsePart(t, w) == Ok(y)
    ensures ParseParts([s, t], w) == Ok([x, y])
  {
    hide ParsePart;
    OnePart(s, w, x);
    assert [s, t][..1] == [s];
    assert [x] + [y] == [x, y];
  }

  /** A value and its mask come back from `0x..` or `0x../0x..`. */
  lemma MaskedParses(value: nat, mask: nat, width: nat, w: Width)
    requires value < Bound(w) && mask < Bound(w)
    ensures ParseMasked(Masked(value, mask, width), w) == Ok((value, mask))
  {
    MaskedParts(value, mask, width);
    PartParses(value, width, w);
    PartParses(mask, width, w);
    OnePart(Hex0x(value, width), w, value);
    if mask != 0 {
      TwoParts(Hex0x(value, width), Hex0x(mask, width), w, value, mask);
    }
  }

  lemma ClampParses(n: int64, max: int)
    requires n <= max
    ensures ParseClampInt(FormatInt(n), max) == Ok(n)
  {
    IntRoundTrip(n);
  }

  /** A transport port, with or without a mask, comes back. */
  lemma PortParses(port: uint16, mask: uint16)
    ensures ParsePort(PortText(port, mask)) == Ok((port, mask))
  {
    if mask == 0 {
      FormatIntChars(port);
      SplitSingle(FormatInt(port), '/');
      ClampParses(port, 0xffff);
    } else {
      MaskedParts(port, mask, 4);
      HexParses(port, 4, 0x1_0000_0000_0000_0000);
      HexParses(mask, 4, 0x1_0000_0000_0000_0000);
    }
  }

  lemma VlanParses(vid: int64)
    requires Actions.ValidVLANVID(vid)
    ensures ParseVlan(FormatInt(vid)) == Ok(vid)
  {
    IntRoundTrip(vid);
    FormatIntChars(vid);
    var s := FormatInt(vid);
    assert "0x"[1] == 'x';
    assert |s| > 1 ==> IsDigit(s[1], Dec);
  }

  lemma VlanNoneParses()
    ensures ParseVlan("0xffff") == Ok(VLAN_NONE)
  {
    var s := "0xffff";
    assert "0x" <= s && s[2..] == "ffff";
    assert DigitsValue("ffff", Hex) == Some(0xffff) by {
      assert "ffff"[..3] == "fff" && "fff"[..2] == "ff" && "ff"[..1] == "f" && "f"[..0] == "";
      assert DigitsValue("f", Hex) == Some(0xf);
      assert DigitsValue("ff", Hex) == Some(0xff);
      assert DigitsValue("fff", Hex) == Some(0xfff);
    }
  }

  // ---------------------------------------------------------------- addresses

  /** The canonical form of an address with a wildcard mask marshals to itself. */
  lemma MacMaskIdempotent(mac: string)
    requires MarshalMacMask(mac).Ok?
    ensures MarshalMacMask(MarshalMacMask(mac).value) == MarshalMacMask(mac)
  {
    var i := IndexOf(mac, '/');
    var addr := ParseMAC(mac[..i]).value;
    var a := MacText(addr);
    MacRoundTrip(addr);
    MacChars(addr);
    if i == |mac| {
      NoSlash(a);
    } else {
      var wildcard := ParseMAC(mac[i + 1..]).value;
      MacRoundTrip(wildcard);
      FirstSlash(a, MacText(wildcard));
    }
  }

  lemma NoSlash(s: string)
    requires '/' !in s
    ensures IndexOf(s, '/') == |s| && s[..|s|] == s
  {
  }

  lemma FirstSlash(a: string, b: string)
    requires '/' !in a
    ensures var s := a + "/" + b; var i := IndexOf(s, '/');
            i == |a| < |s| && s[..i] == a && s[i + 1..] == b
  {
    var s := a + "/" + b;
    assert s[|a|] == '/';
    var i := IndexOf(s, '/');
    assert forall k :: 0 <= k < |a| ==> s[k] == a[k];
    assert i == |a|;
  }

  /** What an address match prints marshals to itself. */
  lemma AddressIdempotent(net: Library, ip: string, v4: bool)
    requires Lawful(net) && MarshalAddress(net, ip, v4).Ok?
    ensures MarshalAddress(net, MarshalAddress(net, ip, v4).value, v4) == MarshalAddress(net, ip, v4)
  {
    if net.parseCIDR(ip).None? {
      assert Canonical(net, net.parseIP(ip).value);
    }
  }

  // ---------------------------------------------------------------- flags

  /** Cutting into chunks and joining them are inverse. */
  lemma {:induction false} ChunksRejoin(value: string)
    ensures Concat(Chunks(value)) == value
    decreases |value|
  {
    if |value| <= 4 {
      assert value + [] == value;
    } else {
      ChunksRejoin(value[4..]);
      var r := Chunks(value);
      assert r[0] == value[..4] && r[1..] == Chunks(value[4..]);
    }
  }

  lemma {:induction false} ChunksOfJoined(ts: seq<string>)
    requires ts != [] && forall i :: 0 <= i < |ts| ==> |ts[i]| == 4
    ensures Chunks(Concat(ts)) == ts && |Concat(ts)| == 4 * |ts|
  {
    var s := Concat(ts);
    if |ts| == 1 {
      assert ts[1..] == [];
      assert s == ts[0] + [] == ts[0];
    } else {
      ChunksOfJoined(ts[1..]);
      assert s[..4] == ts[0] && s[4..] == Concat(ts[1..]);
      assert [ts[0]] + ts[1..] == ts;
    }
  }

  // ---------------------------------------------------------------- the round trip

  /** `r` is the match `m` again: the same kind, with its address or its flags in canonical form, and otherwise equal. */
  predicate SameMatch(net: Library, m: Match, r: Match) {
    match m
    case DataLinkSource(mac) => r.DataLinkSource? && Ok(r.mac) == MarshalMacMask(mac)
    case DataLinkDestination(mac) => r.DataLinkDestination? && Ok(r.mac) == MarshalMacMask(mac)
    case NetworkSource(ip) => r.NetworkSource? && Ok(r.ip) == MarshalAddress(net, ip, true)
    case NetworkDestination(ip) => r.NetworkDestination? && Ok(r.ip) == MarshalAddress(net, ip, true)
    case ARPSourceProtocolAddress(ip) => r.ARPSourceProtocolAddress? && Ok(r.ip) == MarshalAddress(net, ip, true)
    case ARPTargetProtocolAddress(ip) => r.ARPTargetProtocolAddress? && Ok(r.ip) == MarshalAddress(net, ip, true)
    case IPv6Source(ip) => r.IPv6Source? && Ok(r.ip) == MarshalAddress(net, ip, false)
    case IPv6Destination(ip) => r.IPv6Destination? && Ok(r.ip) == MarshalAddress(net, ip, false)
    case NeighborDiscoveryTarget(ip) => r.NeighborDiscoveryTarget? && Ok(r.ip) == MarshalAddress(net, ip, false)
    case ConnectionTrackingState(flags) => r.ConnectionTrackingState? && Concat(r.flags) == Concat(flags)
    case TCPFlags(flags) => r.TCPFlags? && Concat(r.flags) == Concat(flags)
    case _ => r == m
  }

  /** The text of the flags of a ct_state or tcp_flags match must be a multiple of four characters long. */
  predicate FlagsFit(m: Match) {
    m.ConnectionTrackingState? || m.TCPFlags? ==> |Concat(m.flags)| % 4 == 0
  }

  lemma IntRoundTripMatch(net: Library, m: Match)
    requires m.ConjunctionID? || m.NetworkProtocol? || m.ICMPType? || m.ConnectionTrackingZone?
    ensures ParseByKey(KeyOf(m), MarshalValue(net, m).value) == Ok(m)
  {
    hide ParseClampInt, FormatInt;
    var n: int64 := match m {
      case ConjunctionID(id) => id
      case NetworkProtocol(num) => num
      case ICMPType(num) => num
      case ConnectionTrackingZone(zone) => zone
    };
    ClampParses(n, if m.ConnectionTrackingZone? then 0xffff else if m.ConjunctionID? then 0xffff_ffff else 0xff);
  }

  lemma HardwareRoundTrip(net: Library, m: Match)
    requires || m.NeighborDiscoverySourceLinkLayer? || m.NeighborDiscoveryTargetLinkLayer?
             || m.ARPSourceHardwareAddress? || m.ARPTargetHardwareAddress?
    requires MarshalValue(net, m).Ok?
    ensures ParseByKey(KeyOf(m), MarshalValue(net, m).value) == Ok(m)
  {
    MacRoundTrip(m.addr);
  }

  lemma MaskedRoundTrip(net: Library, m: Match)
    requires m.VLANTCI? || m.ConnectionTrackingMark? || m.TunnelID?
    ensures ParseByKey(KeyOf(m), MarshalValue(net, m).value) == Ok(m)
  {
    hide ParseMasked, Masked;
    if m.VLANTCI? {
      MaskedParses(m.tci, m.mask16, 4, W16);
    } else if m.ConnectionTrackingMark? {
      MaskedParses(m.mark, m.mask32, 8, W32);
    } else {
      MaskedParses(m.id64, m.mask64, 0, W64);
    }
  }

  lemma NumberRoundTrip(net: Library, m: Match)
    requires m.DataLinkType? || m.DataLinkVLAN? || m.TransportSourcePort? || m.TransportDestinationPort?
    requires MarshalValue(net, m).Ok?
    ensures ParseByKey(KeyOf(m), MarshalValue(net, m).value) == Ok(m)
  {
    hide ParsePort, PortText, ParseVlan, ParseHex, Hex0x, FormatInt;
    if m.DataLinkType? {
      HexParses(m.etherType, 4, 0x1_0000_0000);
    } else if m.DataLinkVLAN? {
      if m.vid == VLAN_NONE {
        VlanNoneParses();
      } else {
        VlanParses(m.vid);
      }
    } else {
      PortParses(m.port, m.mask16);
    }
  }

  /** Matches that keep their argument as text come back with the canonical text. */
  lemma TextRoundTrip(net: Library, m: Match)
    requires || m.DataLinkSource? || m.DataLinkDestination? || m.NetworkSource? || m.NetworkDestination?
             || m.IPv6Source? || m.IPv6Destination? || m.NeighborDiscoveryTarget?
             || m.ARPSourceProtocolAddress? || m.ARPTargetProtocolAddress?
    requires Lawful(net) && MarshalValue(net, m).Ok?
    ensures var r := ParseByKey(KeyOf(m), MarshalValue(net, m).value);
            && r.Ok? && SameMatch(net, m, r.value)
            && KeyOf(r.value) == KeyOf(m) && MarshalValue(net, r.value) == MarshalValue(net, m)
  {
    hide MarshalMacMask, MarshalAddress;
    if m.DataLinkSource? || m.DataLinkDestination? {
      MacMaskIdempotent(m.mac);
    } else {
      AddressIdempotent(net, m.ip, !(m.IPv6Source? || m.IPv6Destination? || m.NeighborDiscoveryTarget?));
    }
  }

  lemma FlagsRoundTrip(net: Library, m: Match)
    requires m.ConnectionTrackingState? || m.TCPFlags?
    ensures var r := ParseByKey(KeyOf(m), MarshalValue(net, m).value);
            if FlagsFit(m)
            then
              && r.Ok? && SameMatch(net, m, r.value)
              && KeyOf(r.value) == KeyOf(m) && MarshalValue(net, r.value) == MarshalValue(net, m)
            else r.Err?
  {
    ChunksRejoin(Concat(m.flags));
  }

  lemma ValueRoundTrip(net: Library, m: Match)
    requires Lawful(net) && MarshalValue(net, m).Ok?
    ensures var r := ParseByKey(KeyOf(m), MarshalValue(net, m).value);
            if FlagsFit(m)
            then
              && r.Ok? && SameMatch(net, m, r.value)
              && KeyOf(r.value) == KeyOf(m) && MarshalValue(net, r.value) == MarshalValue(net, m)
            else r.Err?
  {
    hide ParseByKey, MarshalValue, MarshalMacMask, MarshalAddress;
    if m.ConnectionTrackingState? || m.TCPFlags? {
      FlagsRoundTrip(net, m);
    } else if m.ConjunctionID? || m.NetworkProtocol? || m.ICMPType? || m.ConnectionTrackingZone? {
      IntRoundTripMatch(net, m);
    } else if m.VLANTCI? || m.ConnectionTrackingMark? || m.TunnelID? {
      MaskedRoundTrip(net, m);
    } else if m.DataLinkType? || m.DataLinkVLAN? || m.TransportSourcePort? || m.TransportDestinationPort? {
      NumberRoundTrip(net, m);
    } else if || m.NeighborDiscoverySourceLinkLayer? || m.NeighborDiscoveryTargetLinkLayer?
              || m.ARPSourceHardwareAddress? || m.ARPTargetHardwareAddress? {
      HardwareRoundTrip(net, m);
    } else {
      TextRoundTrip(net, m);
    }
  }

  lemma SplitMore(s: string, sep: char)
    requires sep in s
    ensures |Split(s, sep)| >= 2
  {
  }

  /**
    For every match that marshals: its text splits at "=" into its key and its value if and only if the
    value holds no "="; and parsing key and value gives the same match, with the same text, if and only if
    `FlagsFit`.
   */
  lemma MatchRoundTrips(net: Library, m: Match)
    requires Lawful(net) && MarshalMatch(net, m).Ok?
    ensures Split(MarshalMatch(net, m).value, '=') == [KeyText(KeyOf(m)), MarshalValue(net, m).value] <==>
            '=' !in MarshalValue(net, m).value
    ensures var r := ParseMatch(KeyText(KeyOf(m)), MarshalValue(net, m).value);
            if FlagsFit(m) then r.Ok? && SameMatch(net, m, r.value) && MarshalMatch(net, r.value) == MarshalMatch(net, m)
            else r.Err?
  {
    hide ParseByKey, MarshalValue, LookupKey, KeyText, KeyOf, Split, SameMatch;
    var key, value := KeyText(KeyOf(m)), MarshalValue(net, m).value;
    KeyChars(KeyOf(m));
    SplitFirst(key, value, '=');
    if '=' in value {
      SplitMore(value, '=');
    } else {
      SplitSingle(value, '=');
    }
    assert key + "=" + value == key + ['='] + value;
    LookupFinds(KeyOf(m));
    ValueRoundTrip(net, m);
  }

  // ---------------------------------------------------------------- port ranges, end to end

  /** What a parsed transport-port match accepts. */
  predicate MatchAccepts(m: Match, p: uint16)
    requires m.TransportSourcePort? || m.TransportDestinationPort?
  {
    if m.mask16 == 0 then p == m.port else And(p, m.mask16) == m.port
  }

  lemma CoverMasksNonZero(first: uint16, last: uint16, i: int)
    requires 1 <= first <= last && 0 <= i < |PortRanges.Cover(first, last)|
    ensures PortRanges.Cover(first, last)[i].mask != 0
  {
    PortRanges.CoverIsExact(first, last);
    var bs := PortRanges.Cover(first, last);
    PortRanges.EntryFits(bs, first, last, i);
  }

  lemma PortMatchParses(net: Library, m: Match)
    requires m.TransportSourcePort? || m.TransportDestinationPort?
    ensures MarshalValue(net, m).Ok? && ParseMatch(KeyText(KeyOf(m)), MarshalValue(net, m).value) == Ok(m)
  {
    hide LookupKey, ParseByKey;
    LookupFinds(KeyOf(m));
    NumberRoundTrip(net, m);
  }

  /** The match printed for a range entry comes back, and accepts what the entry accepts. */
  lemma EntryEndToEnd(net: Library, source: bool, first: uint16, last: uint16, i: int, p: uint16)
    requires 1 <= first <= last && 0 <= i < |PortRanges.Cover(first, last)|
    ensures var b := PortRanges.Cover(first, last)[i]; var m := PortMatch(source, b);
            m.mask16 != 0 && ParsedBack(net, m) && (MatchAccepts(m, p) <==> PortRanges.Accepts(b, p))
  {
    hide ParseMatch, MarshalValue, PortRanges.Cover;
    CoverMasksNonZero(first, last, i);
    PortMatchParses(net, PortMatch(source, PortRanges.Cover(first, last)[i]));
  }

  predicate ParsedBack(net: Library, m: Match) {
    MarshalValue(net, m).Ok? && ParseMatch(KeyText(KeyOf(m)), MarshalValue(net, m).value) == Ok(m)
  }

  /**
    Print every match of a port range and parse it back: each keeps its mask, and together the parsed
    matches accept the ports first..last, each exactly once, and no other.
   */
  lemma PortRangeEndToEnd(net: Library, source: bool, first: uint16, last: uint16, p: uint16)
    requires 1 <= first <= last
    ensures var ms := PortMatches(source, PortRanges.Cover(first, last));
            && (forall i :: 0 <= i < |ms| ==> ms[i].mask16 != 0 && ParsedBack(net, ms[i]))
            && (first <= p <= last <==> exists i :: 0 <= i < |ms| && MatchAccepts(ms[i], p))
            && (forall i, j ::
                  0 <= i < |ms| && 0 <= j < |ms| && MatchAccepts(ms[i], p) && MatchAccepts(ms[j], p) ==> i == j)
  {
    hide ParsedBack, PortRanges.Cover, PortRanges.Accepts;
    var bs := PortRanges.Cover(first, last);
    var ms := PortMatches(source, bs);
    PortRanges.CoverIsExact(first, last);
    forall i | 0 <= i < |ms|
      ensures ms[i].mask16 != 0 && ParsedBack(net, ms[i])
      ensures MatchAccepts(ms[i], p) <==> PortRanges.Accepts(bs[i], p)
    {
      EntryEndToEnd(net, source, first, last, i, p);
    }
    assert PortRanges.AcceptedBySome(bs, p) <==> first <= p <= last;
    if first <= p <= last {
      var i :| 0 <= i < |bs| && PortRanges.Accepts(bs[i], p);
      assert MatchAccepts(ms[i], p);
    }
  }
}
