/** The exact text of every match, with its literal key, and how the numbers in matches are read. */
module MatchText {
  import opened Results
  import opened Bits
  import opened Text
  import opened Numerals
  import opened Net
  import opened Matches
  import opened MatchParser
  import MatchRoundTrip

  // ---------------------------------------------------------------- printing

  ghost predicate IsHex(s: string, key: string, n: nat, width: nat) {
    exists h: string :: HexOf(h, n, width) && s == key + h
  }

  ghost predicate IsMaskedHex(s: string, key: string, n: nat, mask: nat, width: nat) {
    if mask == 0 then IsHex(s, key, n, width)
    else exists h: string, k: string :: HexOf(h, n, width) && HexOf(k, mask, width) && s == key + h + "/0x" + k
  }

  ghost predicate IsMaskedNumeral(s: string, key: string, n: nat, mask: nat) {
    if mask == 0 then exists h: string :: IsNumeral(h, n, Hex) && s == key + h
    else exists h: string, k: string :: IsNumeral(h, n, Hex) && IsNumeral(k, mask, Hex) && s == key + h + "/0x" + k
  }

  /** A block of addresses as it was given, or an address in the library's form. */
  function AddressArgument(net: Library, ip: string): string {
    if net.parseCIDR(ip).Some? then ip
    else if net.parseIP(ip).Some? then net.parseIP(ip).value.text
    else ip
  }

  /** What Open vSwitch is sent for a match. */
  ghost predicate TextIs(net: Library, m: Match, s: string) {
    match m
    case DataLinkSource(mac) => exists v: string :: CanonicalMac(mac, v) && s == "dl_src=" + v
    case DataLinkDestination(mac) => exists v: string :: CanonicalMac(mac, v) && s == "dl_dst=" + v
    case DataLinkType(t) => IsHex(s, "dl_type=0x", t, 4)
    case DataLinkVLAN(vid) => s == "dl_vlan=" + if vid == 0xffff then "0xffff" else FormatInt(vid)
    case NetworkSource(ip) => s == "nw_src=" + AddressArgument(net, ip)
    case NetworkDestination(ip) => s == "nw_dst=" + AddressArgument(net, ip)
    case ConjunctionID(id) => s == "conj_id=" + FormatInt(id)
    case NetworkProtocol(num) => s == "nw_proto=" + FormatInt(num)
    case IPv6Source(ip) => s == "ipv6_src=" + AddressArgument(net, ip)
    case IPv6Destination(ip) => s == "ipv6_dst=" + AddressArgument(net, ip)
    case ICMPType(num) => s == "icmp_type=" + FormatInt(num)
    case NeighborDiscoveryTarget(ip) => s == "nd_target=" + AddressArgument(net, ip)
    case NeighborDiscoverySourceLinkLayer(addr) => s == "nd_sll=" + MacText(addr)
    case NeighborDiscoveryTargetLinkLayer(addr) => s == "nd_tll=" + MacText(addr)
    case ARPSourceHardwareAddress(addr) => s == "arp_sha=" + MacText(addr)
    case ARPTargetHardwareAddress(addr) => s == "arp_tha=" + MacText(addr)
    case ARPSourceProtocolAddress(ip) => s == "arp_spa=" + AddressArgument(net, ip)
    case ARPTargetProtocolAddress(ip) => s == "arp_tpa=" + AddressArgument(net, ip)
    case TransportSourcePort(port, mask) =>
      if mask == 0 then s == "tp_src=" + FormatInt(port) else IsMaskedHex(s, "tp_src=0x", port, mask, 4)
    case TransportDestinationPort(port, mask) =>
      if mask == 0 then s == "tp_dst=" + FormatInt(port) else IsMaskedHex(s, "tp_dst=0x", port, mask, 4)
    case VLANTCI(tci, mask) => IsMaskedHex(s, "vlan_tci=0x", tci, mask, 4)
    case ConnectionTrackingMark(mark, mask) => IsMaskedHex(s, "ct_mark=0x", mark, mask, 8)
    case ConnectionTrackingZone(zone) => s == "ct_zone=" + FormatInt(zone)
    case ConnectionTrackingState(flags) => s == "ct_state=" + Concat(flags)
    case TCPFlags(flags) => s == "tcp_flags=" + Concat(flags)
    case TunnelID(id, mask) => IsMaskedNumeral(s, "tun_id=0x", id, mask)
  }

  /** `v` is the colon form of the Ethernet address in `mac`, with that of its wildcard mask if there is one. */
  ghost predicate CanonicalMac(mac: string, v: string) {
    var i := IndexOf(mac, '/');
    exists a: HardwareAddr :: |a| == 6 && ParseMAC(mac[..i]) == Some(a) &&
      if i == |mac| then v == MacText(a)
      else exists w: HardwareAddr :: |w| == 6 && ParseMAC(mac[i + 1..]) == Some(w) && v == MacText(a) + "/" + MacText(w)
  }

  lemma MacIsCanonical(mac: string)
    requires MarshalMacMask(mac).Ok?
    ensures CanonicalMac(mac, MarshalMacMask(mac).value)
  {
    hide ParseMAC, MacText;
    var i := IndexOf(mac, '/');
    var a := ParseMAC(mac[..i]).value;
    assert |a| == 6;
    if i < |mac| {
      var w := ParseMAC(mac[i + 1..]).value;
      assert |w| == 6;
    }
  }

  lemma HexIs(key: string, n: nat, width: nat)
    requires 0 < width && n < Pow2(4 * width)
    ensures IsHex(key + "=" + Hex0x(n, width), key + "=0x", n, width)
  {
    hide HexOf, FormatHexPadded;
    HexPaddedExact(n, width);
    var h := FormatHexPadded(n, width);
    assert key + "=" + ("0x" + h) == key + "=0x" + h;
  }

  lemma MaskedHexIs(key: string, n: nat, mask: nat, width: nat)
    requires 0 < width && n < Pow2(4 * width) && mask < Pow2(4 * width)
    ensures IsMaskedHex(key + "=" + Masked(n, mask, width), key + "=0x", n, mask, width)
  {
    hide HexOf, FormatHexPadded, IsHex;
    HexIs(key, n, width);
    HexPaddedExact(n, width);
    HexPaddedExact(mask, width);
    var h, k := FormatHexPadded(n, width), FormatHexPadded(mask, width);
    assert key + "=" + ("0x" + h + "/" + ("0x" + k)) == key + "=0x" + h + "/0x" + k;
  }

  lemma MaskedNumeralIs(key: string, n: nat, mask: nat)
    ensures IsMaskedNumeral(key + "=" + Masked(n, mask, 0), key + "=0x", n, mask)
  {
    hide IsNumeral, FormatHexPadded;
    HexUnpadded(n);
    HexUnpadded(mask);
    var h, k := FormatHexPadded(n, 0), FormatHexPadded(mask, 0);
    assert key + "=" + ("0x" + h) == key + "=0x" + h;
    assert key + "=" + ("0x" + h + "/" + ("0x" + k)) == key + "=0x" + h + "/0x" + k;
  }

  lemma KeyWithEquals()
    ensures "dl_src" + "=" == "dl_src=" && "dl_dst" + "=" == "dl_dst=" && "dl_vlan" + "=" == "dl_vlan="
    ensures "nw_src" + "=" == "nw_src=" && "nw_dst" + "=" == "nw_dst=" && "nw_proto" + "=" == "nw_proto="
    ensures "conj_id" + "=" == "conj_id=" && "icmp_type" + "=" == "icmp_type=" && "ct_zone" + "=" == "ct_zone="
    ensures "ipv6_src" + "=" == "ipv6_src=" && "ipv6_dst" + "=" == "ipv6_dst=" && "nd_target" + "=" == "nd_target="
    ensures "nd_sll" + "=" == "nd_sll=" && "nd_tll" + "=" == "nd_tll=" && "ct_state" + "=" == "ct_state="
    ensures "arp_sha" + "=" == "arp_sha=" && "arp_tha" + "=" == "arp_tha=" && "tcp_flags" + "=" == "tcp_flags="
    ensures "arp_spa" + "=" == "arp_spa=" && "arp_tpa" + "=" == "arp_tpa="
    ensures "tp_src" + "=" == "tp_src=" && "tp_dst" + "=" == "tp_dst="
  {
  }

  lemma HexKeys()
    ensures "dl_type" + "=0x" == "dl_type=0x" && "tp_src" + "=0x" == "tp_src=0x" && "tp_dst" + "=0x" == "tp_dst=0x"
    ensures "vlan_tci" + "=0x" == "vlan_tci=0x" && "ct_mark" + "=0x" == "ct_mark=0x" && "tun_id" + "=0x" == "tun_id=0x"
  {
  }

  predicate HasHexValue(m: Match) {
    || m.DataLinkType? || m.TransportSourcePort? || m.TransportDestinationPort?
    || m.VLANTCI? || m.ConnectionTrackingMark? || m.TunnelID?
  }

  lemma HexMatchText(net: Library, m: Match)
    requires HasHexValue(m)
    ensures MarshalMatch(net, m).Ok? && TextIs(net, m, MarshalMatch(net, m).value)
  {
    hide Masked, Hex0x, IsHex, IsMaskedHex, IsMaskedNumeral, FormatInt, Pow2;
    HexWidths();
    HexKeys();
    KeyWithEquals();
    match m
    case DataLinkType(t) => HexIs("dl_type", t, 4);
    case TransportSourcePort(port, mask) => MaskedHexIs("tp_src", port, mask, 4);
    case TransportDestinationPort(port, mask) => MaskedHexIs("tp_dst", port, mask, 4);
    case VLANTCI(tci, mask) => MaskedHexIs("vlan_tci", tci, mask, 4);
    case ConnectionTrackingMark(mark, mask) => MaskedHexIs("ct_mark", mark, mask, 8);
    case TunnelID(id, mask) => MaskedNumeralIs("tun_id", id, mask);
  }

  lemma MacMatchText(net: Library, m: Match)
    requires m.DataLinkSource? || m.DataLinkDestination?
    ensures MarshalMatch(net, m).Ok? ==> TextIs(net, m, MarshalMatch(net, m).value)
  {
    hide MarshalMacMask, CanonicalMac, IsHex, IsMaskedHex, IsMaskedNumeral, AddressArgument;
    if MarshalMacMask(m.mac).Ok? {
      MacIsCanonical(m.mac);
      assert "dl_src" + "=" == "dl_src=" && "dl_dst" + "=" == "dl_dst=";
      assert CanonicalMac(m.mac, MarshalMacMask(m.mac).value);
    }
  }

  lemma OtherMatchText(net: Library, m: Match)
    requires !HasHexValue(m) && !m.DataLinkSource? && !m.DataLinkDestination?
    ensures MarshalMatch(net, m).Ok? ==> TextIs(net, m, MarshalMatch(net, m).value)
  {
    hide FormatInt, MacText, Concat;
    KeyWithEquals();
  }

  /** Every match that marshals has the text that `TextIs` spells out, key by key. */
  lemma MatchTextIs(net: Library, m: Match)
    ensures MarshalMatch(net, m).Ok? ==> TextIs(net, m, MarshalMatch(net, m).value)
  {
    hide TextIs, MarshalMatch;
    if HasHexValue(m) {
      HexMatchText(net, m);
    } else if m.DataLinkSource? || m.DataLinkDestination? {
      MacMatchText(net, m);
    } else {
      OtherMatchText(net, m);
    }
  }

  /** Which error a match that does not marshal gives. */
  lemma MatchErrors(net: Library, m: Match)
    requires MarshalMatch(net, m).Err?
    ensures MarshalMatch(net, m).error ==
            if m.DataLinkVLAN? then InvalidVLANVID
            else if m.IPv6Source? || m.IPv6Destination? || m.NeighborDiscoveryTarget? then InvalidIPv6
            else if || m.NetworkSource? || m.NetworkDestination?
                    || m.ARPSourceProtocolAddress? || m.ARPTargetProtocolAddress? then InvalidIPv4
            else BadHardwareAddr
  {
    hide ParseMAC, MacText, FormatInt, PortText, Masked, Hex0x, KeyText;
  }

  // ---------------------------------------------------------------- reading numbers

  /** `parseClampInt` reads a decimal number exactly up to its maximum. */
  lemma ClampReads(n: int64, max: int)
    ensures ParseClampInt(FormatInt(n), max) == if n <= max then Ok(n) else Err(BadValue)
  {
    hide FormatInt;
    IntRoundTrip(n);
  }

  /** The decimal keys take the numbers of their type and no larger one. Negative ones are cut to the type without an error. */
  lemma DecimalKeys(n: int64)
    ensures ParseMatch("icmp_type", FormatInt(n)) == if n <= 255 then Ok(ICMPType(n % 0x100)) else Err(BadValue)
    ensures ParseMatch("nw_proto", FormatInt(n)) == if n <= 255 then Ok(NetworkProtocol(n % 0x100)) else Err(BadValue)
    ensures ParseMatch("ct_zone", FormatInt(n)) == if n <= 65535 then Ok(ConnectionTrackingZone(n % 0x1_0000)) else Err(BadValue)
    ensures ParseMatch("conj_id", FormatInt(n)) == if n <= 4294967295 then Ok(ConjunctionID(n % 0x1_0000_0000)) else Err(BadValue)
    ensures ParseMatch("tp_src", FormatInt(n)) == if n <= 65535 then Ok(TransportSourcePort(n % 0x1_0000, 0)) else Err(BadValue)
    ensures ParseMatch("tp_dst", FormatInt(n)) == if n <= 65535 then Ok(TransportDestinationPort(n % 0x1_0000, 0)) else Err(BadValue)
    ensures ParseMatch("dl_vlan", FormatInt(n)) == Ok(DataLinkVLAN(n))
  {
    hide FormatInt, ParseMatch, ParseIntMatch, ParsePortMatch;
    NumberDispatch(FormatInt(n));
    IntMatchReads(n);
    PortMatchReads(n);
    VlanReads(n);
  }

  /** Which reader the numeric keys reach. */
  lemma NumberDispatch(value: string)
    ensures ParseMatch("icmp_type", value) == ParseIntMatch(IcmpType, value)
    ensures ParseMatch("nw_proto", value) == ParseIntMatch(NwProto, value)
    ensures ParseMatch("ct_zone", value) == ParseIntMatch(CtZone, value)
    ensures ParseMatch("conj_id", value) == ParseIntMatch(ConjId, value)
    ensures ParseMatch("tp_src", value) == ParsePortMatch(TpSrc, value)
    ensures ParseMatch("tp_dst", value) == ParsePortMatch(TpDst, value)
    ensures ParseVlan(value).Ok? ==> ParseMatch("dl_vlan", value) == Ok(DataLinkVLAN(ParseVlan(value).value))
  {
    hide ParseIntMatch, ParsePortMatch, LookupKey, ParseVlan;
    LookedUp();
  }

  lemma IntMatchReads(n: int64)
    ensures ParseIntMatch(IcmpType, FormatInt(n)) == if n <= 255 then Ok(ICMPType(n % 0x100)) else Err(BadValue)
    ensures ParseIntMatch(NwProto, FormatInt(n)) == if n <= 255 then Ok(NetworkProtocol(n % 0x100)) else Err(BadValue)
    ensures ParseIntMatch(CtZone, FormatInt(n)) == if n <= 65535 then Ok(ConnectionTrackingZone(n % 0x1_0000)) else Err(BadValue)
    ensures ParseIntMatch(ConjId, FormatInt(n)) == if n <= 4294967295 then Ok(ConjunctionID(n % 0x1_0000_0000)) else Err(BadValue)
  {
    hide FormatInt, ParseClampInt;
    ClampReads(n, 0xff);
    ClampReads(n, 0xffff);
    ClampReads(n, 0xffff_ffff);
  }

  lemma PortMatchReads(n: int64)
    ensures ParsePortMatch(TpSrc, FormatInt(n)) == if n <= 65535 then Ok(TransportSourcePort(n % 0x1_0000, 0)) else Err(BadValue)
    ensures ParsePortMatch(TpDst, FormatInt(n)) == if n <= 65535 then Ok(TransportDestinationPort(n % 0x1_0000, 0)) else Err(BadValue)
  {
    hide FormatInt, ParseClampInt, ParseHex, Split;
    ClampReads(n, 0xffff);
    FormatIntChars(n);
    SplitSingle(FormatInt(n), '/');
  }

  lemma LookedUp()
    ensures LookupKey("icmp_type") == Some(IcmpType) && LookupKey("nw_proto") == Some(NwProto)
    ensures LookupKey("ct_zone") == Some(CtZone) && LookupKey("conj_id") == Some(ConjId)
    ensures LookupKey("tp_src") == Some(TpSrc) && LookupKey("tp_dst") == Some(TpDst)
    ensures LookupKey("dl_vlan") == Some(DlVlan) && LookupKey("vlan_tci") == Some(VlanTci)
    ensures LookupKey("ct_mark") == Some(CtMark) && LookupKey("tun_id") == Some(TunId)
  {
    hide LookupKey;
    MatchRoundTrip.LookupFinds(IcmpType);
    MatchRoundTrip.LookupFinds(NwProto);
    MatchRoundTrip.LookupFinds(CtZone);
    MatchRoundTrip.LookupFinds(ConjId);
    MatchRoundTrip.LookupFinds(TpSrc);
    MatchRoundTrip.LookupFinds(TpDst);
    MatchRoundTrip.LookupFinds(DlVlan);
    MatchRoundTrip.LookupFinds(VlanTci);
    MatchRoundTrip.LookupFinds(CtMark);
    MatchRoundTrip.LookupFinds(TunId);
  }

  lemma VlanReads(n: int64)
    ensures ParseVlan(FormatInt(n)) == Ok(n)
  {
    hide FormatInt;
    IntRoundTrip(n);
    NotHexadecimal(n);
  }

  lemma NotHexadecimal(n: int)
    ensures !("0x" <= FormatInt(n))
  {
    if n >= 0 {
      DecimalHasNoPrefix(n);
    } else {
      assert FormatInt(n)[0] == '-';
    }
  }

  /** A part without 0x is decimal. It is cut to the width of its field without an error. */
  lemma DecimalPart(n: int64, w: Width)
    ensures ParsePart(FormatInt(n), w) ==
            Ok(match w case W16 => n % 0x1_0000 case W32 => n % 0x1_0000_0000 case W64 => n % 0x1_0000_0000_0000_0000)
  {
    hide FormatInt, ParseHex;
    IntRoundTrip(n);
    NotHexadecimal(n);
  }

  /** So `vlan_tci=10`, `ct_mark=10` and `tun_id=10` are read as ten, without a mask. */
  lemma DecimalMasked(n: int64)
    ensures ParseMatch("vlan_tci", FormatInt(n)) == Ok(VLANTCI(n % 0x1_0000, 0))
    ensures ParseMatch("ct_mark", FormatInt(n)) == Ok(ConnectionTrackingMark(n % 0x1_0000_0000, 0))
    ensures ParseMatch("tun_id", FormatInt(n)) == Ok(TunnelID(n % 0x1_0000_0000_0000_0000, 0))
  {
    hide FormatInt, ParsePart, LookupKey, Split, ParseParts;
    LookedUp();
    FormatIntChars(n);
    SplitSingle(FormatInt(n), '/');
    DecimalPart(n, W16);
    DecimalPart(n, W32);
    DecimalPart(n, W64);
    MatchRoundTrip.OnePart(FormatInt(n), W16, n % 0x1_0000);
    MatchRoundTrip.OnePart(FormatInt(n), W32, n % 0x1_0000_0000);
    MatchRoundTrip.OnePart(FormatInt(n), W64, n % 0x1_0000_0000_0000_0000);
  }

  /** Hexadecimal text, with or without 0x, is read for its value below the limit and refused from there on. */
  lemma HexReads(h: string, limit: nat)
    requires h != "" && DigitsValue(h, Hex).Some? && !("0x" <= h)
    ensures var n := DigitsValue(h, Hex).value;
            && ParseHex(h, limit) == (if n < limit then Ok(n) else Err(BadValue))
            && ParseHex("0x" + h, limit) == (if n < limit then Ok(n) else Err(BadValue))
  {
    hide DigitsValue;
    assert ("0x" + h)[2..] == h;
  }

  /** The limits of the hexadecimal fields: 32 bits for the fields of 16 and 32 bits, which are then cut, 64 bits otherwise. */
  lemma HexParts(n: nat)
    ensures ParsePart(Hex0x(n, 0), W16) == if n < 0x1_0000_0000 then Ok(n % 0x1_0000) else Err(BadValue)
    ensures ParsePart(Hex0x(n, 0), W32) == if n < 0x1_0000_0000 then Ok(n) else Err(BadValue)
    ensures ParsePart(Hex0x(n, 0), W64) == if n < 0x1_0000_0000_0000_0000 then Ok(n) else Err(BadValue)
    ensures ParseVlan(Hex0x(n, 0)) == if n < 0x1_0000_0000 then Ok(n % 0x1_0000) else Err(BadValue)
  {
    hide FormatHexPadded, DigitsValue;
    MatchRoundTrip.HexText(n, 0);
    FormatHexPaddedDigits(n, 0);
  }

  // ---------------------------------------------------------------- reading by key

  /** The keys of addresses take any text; printing decides later whether it is an address. */
  lemma AddressKeys(value: string)
    ensures ParseMatch("dl_src", value) == Ok(DataLinkSource(value))
    ensures ParseMatch("dl_dst", value) == Ok(DataLinkDestination(value))
    ensures ParseMatch("nw_src", value) == Ok(NetworkSource(value))
    ensures ParseMatch("nw_dst", value) == Ok(NetworkDestination(value))
    ensures ParseMatch("ipv6_src", value) == Ok(IPv6Source(value))
    ensures ParseMatch("ipv6_dst", value) == Ok(IPv6Destination(value))
    ensures ParseMatch("arp_spa", value) == Ok(ARPSourceProtocolAddress(value))
    ensures ParseMatch("arp_tpa", value) == Ok(ARPTargetProtocolAddress(value))
    ensures ParseMatch("nd_target", value) == Ok(NeighborDiscoveryTarget(value))
  {
    hide LookupKey;
    MatchRoundTrip.LookupFinds(DlSrc);
    MatchRoundTrip.LookupFinds(DlDst);
    MatchRoundTrip.LookupFinds(NwSrc);
    MatchRoundTrip.LookupFinds(NwDst);
    MatchRoundTrip.LookupFinds(Ipv6Src);
    MatchRoundTrip.LookupFinds(Ipv6Dst);
    MatchRoundTrip.LookupFinds(ArpSpa);
    MatchRoundTrip.LookupFinds(ArpTpa);
    MatchRoundTrip.LookupFinds(NdTarget);
  }

  /** The keys of hardware addresses take every address that Go's parser takes, those that are not printable included. */
  lemma HardwareKeys(value: string)
    ensures var a := ParseMAC(value);
            if a.Some? then
              && ParseMatch("arp_sha", value) == Ok(ARPSourceHardwareAddress(a.value))
              && ParseMatch("arp_tha", value) == Ok(ARPTargetHardwareAddress(a.value))
              && ParseMatch("nd_sll", value) == Ok(NeighborDiscoverySourceLinkLayer(a.value))
              && ParseMatch("nd_tll", value) == Ok(NeighborDiscoveryTargetLinkLayer(a.value))
            else
              && ParseMatch("arp_sha", value) == Err(BadValue) && ParseMatch("arp_tha", value) == Err(BadValue)
              && ParseMatch("nd_sll", value) == Err(BadValue) && ParseMatch("nd_tll", value) == Err(BadValue)
  {
    hide LookupKey, ParseMAC;
    MatchRoundTrip.LookupFinds(ArpSha);
    MatchRoundTrip.LookupFinds(ArpTha);
    MatchRoundTrip.LookupFinds(NdSll);
    MatchRoundTrip.LookupFinds(NdTll);
  }

  /** Each of the 26 keys is known, and a text is refused as an unknown key exactly if it is none of them. */
  lemma UnknownKeys(key: string, value: string)
    ensures ParseMatch(key, value) == Err(UnknownKey) <==>
            key !in ["arp_sha", "arp_spa", "arp_tha", "arp_tpa", "conj_id", "ct_mark", "ct_state", "ct_zone",
                     "dl_src", "dl_dst", "dl_type", "dl_vlan", "icmp_type", "ipv6_dst", "ipv6_src",
                     "nd_sll", "nd_tll", "nd_target", "nw_dst", "nw_proto", "nw_src",
                     "tcp_flags", "tp_dst", "tp_src", "tun_id", "vlan_tci"]
  {
    hide ParseByKey;
    if LookupKey(key).Some? {
      KnownKeyError(LookupKey(key).value, value);
    }
  }

  lemma KnownKeyError(k: Key, value: string)
    ensures ParseByKey(k, value) != Err(UnknownKey)
  {
    hide ParseMAC, ParseHex, ParseClampInt, ParsePart, Split, Chunks, ParseInt;
    if k.VlanTci? || k.CtMark? || k.TunId? {
      PartsError(Split(value, '/'), if k.VlanTci? then W16 else if k.CtMark? then W32 else W64);
    }
    ErrorsOf(value);
  }

  lemma ErrorsOf(value: string)
    ensures forall limit: nat :: ParseHex(value, limit) != Err(UnknownKey)
    ensures forall max: int :: ParseClampInt(value, max) != Err(UnknownKey)
    ensures ParseVlan(value) != Err(UnknownKey)
    ensures forall w: Width :: ParsePart(value, w) != Err(UnknownKey)
  {
    hide ParseUint, ParseInt;
  }

  lemma {:induction false} PartsError(ss: seq<string>, w: Width)
    ensures ParseParts(ss, w) != Err(UnknownKey)
    decreases |ss|
  {
    hide ParsePart;
    if ss != [] {
      PartsError(ss[..|ss| - 1], w);
      ErrorsOf(ss[|ss| - 1]);
    }
  }
}
