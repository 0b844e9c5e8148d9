/** `parseMatch`: from a key and a value back to a match. */
module MatchParser {
  import opened Results
  import opened Bits
  import opened Text
  import opened Net
  import opened Matches

  datatype ParseError = BadValue | UnknownKey

  type Parsed = Result<Match, ParseError>

  /** The switch of `parseMatch` on the key. */
  function LookupKey(s: string): (r: Option<Key>)
    ensures r.Some? ==> KeyText(r.value) == s
  {
    var r := LookupNumberKey(s);
    if r.Some? then r else LookupOtherKey(s)
  }

  function LookupNumberKey(s: string): (r: Option<Key>)
    ensures r.Some? ==> KeyText(r.value) == s
  {
    if s == "arp_sha" then Some(ArpSha)
    else if s == "arp_tha" then Some(ArpTha)
    else if s == "nd_sll" then Some(NdSll)
    else if s == "nd_tll" then Some(NdTll)
    else if s == "icmp_type" then Some(IcmpType)
    else if s == "nw_proto" then Some(NwProto)
    else if s == "ct_zone" then Some(CtZone)
    else if s == "tp_src" then Some(TpSrc)
    else if s == "tp_dst" then Some(TpDst)
    else if s == "conj_id" then Some(ConjId)
    else if s == "arp_spa" then Some(ArpSpa)
    else if s == "arp_tpa" then Some(ArpTpa)
    else None
  }

  function LookupOtherKey(s: string): (r: Option<Key>)
    ensures r.Some? ==> KeyText(r.value) == s
  {
    if s == "ct_state" then Some(CtState)
    else if s == "tcp_flags" then Some(TcpFlagsKey)
    else if s == "dl_src" then Some(DlSrc)
    else if s == "dl_dst" then Some(DlDst)
    else if s == "dl_type" then Some(DlType)
    else if s == "dl_vlan" then Some(DlVlan)
    else if s == "nd_target" then Some(NdTarget)
    else if s == "ipv6_src" then Some(Ipv6Src)
    else if s == "ipv6_dst" then Some(Ipv6Dst)
    else if s == "nw_src" then Some(NwSrc)
    else if s == "nw_dst" then Some(NwDst)
    else if s == "vlan_tci" then Some(VlanTci)
    else if s == "ct_mark" then Some(CtMark)
    else if s == "tun_id" then Some(TunId)
    else None
  }

  /** `parseClampInt`. */
  function ParseClampInt(s: string, max: int): Result<int64, ParseError> {
    var t := ParseInt(s);
    if t.Err? || t.value > max then Err(BadValue) else Ok(t.value)
  }

  function TrimHexPrefix(s: string): string {
    if "0x" <= s then s[2..] else s
  }

  /** `strconv.ParseUint(strings.TrimPrefix(s, "0x"), 16, bits)`. */
  function ParseHex(s: string, limit: nat): Result<nat, ParseError> {
    var v := ParseUint(TrimHexPrefix(s), Hex, limit);
    if v.Err? then Err(BadValue) else Ok(v.value)
  }

  // ---------------------------------------------------------------- chunks of four characters

  /** `value` cut every four characters; the empty text is one empty chunk. */
  function Chunks(value: string): (r: seq<string>)
    ensures r != []
  {
    if |value| <= 4 then [value] else [value[..4]] + Chunks(value[4..])
  }

  lemma NextChunk(value: string, done: seq<string>, i: int)
    requires 4 <= i < |value|
    ensures done + Chunks(value[i - 4..]) == done + [value[i - 4..i]] + Chunks(value[i..])
  {
    assert value[i - 4..][..4] == value[i - 4..i] && value[i - 4..][4..] == value[i..];
  }

  lemma LastChunk(value: string)
    requires |value| <= 4
    ensures Chunks(value) == [value]
  {
  }

  /** The loop of `parseCTState` and `parseTCPFlags`. */
  method ParseChunks(value: string) returns (r: Option<seq<string>>)
    ensures r.Some? <==> |value| % 4 == 0
    ensures r.Some? ==> r.value == Chunks(value)
  {
    hide Chunks;
    if |value| % 4 != 0 {
      return None;
    }
    var buf: string := [];
    var chunks: seq<string> := [];
    ghost var start := 0;
    for i := 0 to |value|
      invariant 0 <= start == i - |buf| && start % 4 == 0 && |buf| <= 4 && (i > 0 ==> |buf| > 0)
      invariant buf == value[start..i]
      invariant chunks + Chunks(value[start..]) == Chunks(value)
    {
      if i != 0 && i % 4 == 0 {
        NextChunk(value, chunks, i);
        chunks := chunks + [buf];
        buf := [];
        start := i;
      }
      buf := buf + [value[i]];
    }
    LastChunk(buf);
    assert value[start..] == buf;
    chunks := chunks + [buf];
    return Some(chunks);
  }

  // ---------------------------------------------------------------- value[/mask] forms

  datatype Width = W16 | W32 | W64

  function Limit(w: Width): nat {
    match w
    case W16 => 0x1_0000_0000
    case W32 => 0x1_0000_0000
    case W64 => 0x1_0000_0000_0000_0000
  }

  function Truncate(v: int, w: Width): nat {
    match w
    case W16 => ToUint16(v)
    case W32 => ToUint32(v)
    case W64 => ToUint64(v)
  }

  /** One side of the slash: hexadecimal after 0x, decimal otherwise, truncated to the field's width. */
  function ParsePart(s: string, w: Width): Result<nat, ParseError> {
    if "0x" <= s then
      var v := ParseHex(s, Limit(w));
      if v.Err? then v else Ok(Truncate(v.value, w))
    else
      var v := ParseInt(s);
      if v.Err? then Err(BadValue) else Ok(Truncate(v.value, w))
  }

  function ParseParts(ss: seq<string>, w: Width): Result<seq<nat>, ParseError> {
    if ss == [] then Ok([])
    else
      var front := ParseParts(ss[..|ss| - 1], w);
      if front.Err? then front
      else
        var v := ParsePart(ss[|ss| - 1], w);
        if v.Err? then Err(v.error) else Ok(front.value + [v.value])
  }

  /** One or two parts; a missing mask is 0. */
  function ParseMasked(value: string, w: Width): Result<(nat, nat), ParseError> {
    var vs := ParseParts(Split(value, '/'), w);
    if vs.Err? then Err(vs.error)
    else if |vs.value| == 1 then Ok((vs.value[0], 0))
    else if |vs.value| == 2 then Ok((vs.value[0], vs.value[1]))
    else Err(BadValue)
  }

  /** The loop of `parseVLANTCI`, `parseCTMark` and `parseTunID`. */
  method ParseMaskedLoop(value: string, w: Width) returns (r: Result<(nat, nat), ParseError>)
    ensures r == ParseMasked(value, w)
  {
    var ss := Split(value, '/');
    var values: seq<nat> := [];
    for i := 0 to |ss|
      invariant ParseParts(ss[..i], w) == Ok(values)
    {
      assert ss[..i + 1][..i] == ss[..i];
      var v := ParsePart(ss[i], w);
      if v.Err? {
        FailedPart(ss, i, w);
        return Err(v.error);
      }
      values := values + [v.value];
    }
    assert ss[..|ss|] == ss;
    match |values| {
      case 1 => return Ok((values[0], 0));
      case 2 => return Ok((values[0], values[1]));
      case _ => return Err(BadValue);
    }
  }

  /** The first part that fails decides the result. */
  lemma {:induction false} FailedPart(ss: seq<string>, i: nat, w: Width)
    requires i < |ss| && ParseParts(ss[..i], w).Ok? && ParsePart(ss[i], w).Err?
    ensures ParseParts(ss, w) == Err(ParsePart(ss[i], w).error)
    decreases |ss|
  {
    if i + 1 == |ss| {
      assert ss[..|ss| - 1] == ss[..i];
    } else {
      assert ss[..|ss| - 1][..i] == ss[..i];
      FailedPart(ss[..|ss| - 1], i, w);
    }
  }

  /** `parsePort`: decimal alone, or two hexadecimal parts. */
  function ParsePort(value: string): Result<(uint16, uint16), ParseError> {
    var ss := Split(value, '/');
    if |ss| == 1 then
      var v := ParseClampInt(value, 0xffff);
      if v.Err? then Err(v.error) else Ok((ToUint16(v.value), 0))
    else if |ss| == 2 then
      var v := ParseHex(ss[0], 0x1_0000_0000_0000_0000);
      if v.Err? || v.value > 0xffff then Err(BadValue)
      else
        var m := ParseHex(ss[1], 0x1_0000_0000_0000_0000);
        if m.Err? || m.value > 0xffff then Err(BadValue) else Ok((v.value, m.value))
    else Err(BadValue)
  }

  /** The loop of `parsePort` over the two parts of a masked port. */
  method ParsePortParts(ss: seq<string>, max: nat) returns (r: Option<seq<nat>>)
    ensures r.Some? <==> forall i :: 0 <= i < |ss| ==> HexPart(ss[i], max)
    ensures r.Some? ==> |r.value| == |ss| && forall i :: 0 <= i < |ss| ==> Ok(r.value[i]) == ParseHex(ss[i], HEX64)
  {
    hide ParseHex;
    var values: seq<nat> := [];
    for i := 0 to |ss|
      invariant |values| == i
      invariant forall k :: 0 <= k < i ==> HexPart(ss[k], max) && Ok(values[k]) == ParseHex(ss[k], HEX64)
    {
      var v := ParseHex(ss[i], HEX64);
      if v.Err? || v.value > max {
        return None;
      }
      values := values + [v.value];
    }
    return Some(values);
  }

  const HEX64: nat := 0x1_0000_0000_0000_0000

  predicate HexPart(s: string, max: nat) {
    var v := ParseHex(s, HEX64);
    v.Ok? && v.value <= max
  }

  /** `parsePort` with its loop. */
  method ParsePortLoop(value: string) returns (r: Result<(uint16, uint16), ParseError>)
    ensures r == ParsePort(value)
  {
    hide ParseHex, ParseClampInt, Split;
    var ss := Split(value, '/');
    match |ss| {
      case 1 =>
        var v := ParseClampInt(value, 0xffff);
        if v.Err? {
          return Err(v.error);
        }
        return Ok((ToUint16(v.value), 0));
      case 2 =>
        var values := ParsePortParts(ss, 0xffff);
        assert values.Some? <==> HexPart(ss[0], 0xffff) && HexPart(ss[1], 0xffff);
        if values.None? {
          return Err(BadValue);
        }
        return Ok((values.value[0], values.value[1]));
      case _ => return Err(BadValue);
    }
  }

  /** `parseDataLinkVLAN`. */
  function ParseVlan(value: string): Result<int64, ParseError> {
    if "0x" <= value then
      var v := ParseHex(value, 0x1_0000_0000);
      if v.Err? then Err(v.error) else Ok(ToUint16(v.value))
    else
      var v := ParseInt(value);
      if v.Err? then Err(BadValue) else Ok(v.value)
  }

  // ---------------------------------------------------------------- parseMatch

  function ParseHardware(k: Key, value: string): Parsed
    requires k.ArpSha? || k.ArpTha? || k.NdSll? || k.NdTll?
  {
    var mac := ParseMAC(value);
    if mac.None? then Err(BadValue)
    else if k.ArpSha? then Ok(ARPSourceHardwareAddress(mac.value))
    else if k.ArpTha? then Ok(ARPTargetHardwareAddress(mac.value))
    else if k.NdSll? then Ok(NeighborDiscoverySourceLinkLayer(mac.value))
    else Ok(NeighborDiscoveryTargetLinkLayer(mac.value))
  }

  function ParseIntMatch(k: Key, value: string): Parsed
    requires k.IcmpType? || k.NwProto? || k.CtZone? || k.ConjId?
  {
    var max := if k.CtZone? then 0xffff else if k.ConjId? then 0xffff_ffff else 0xff;
    var t := ParseClampInt(value, max);
    if t.Err? then Err(t.error)
    else if k.IcmpType? then Ok(ICMPType(t.value % 0x100))
    else if k.NwProto? then Ok(NetworkProtocol(t.value % 0x100))
    else if k.CtZone? then Ok(ConnectionTrackingZone(ToUint16(t.value)))
    else Ok(ConjunctionID(ToUint32(t.value)))
  }

  function ParseFlags(k: Key, value: string): Parsed
    requires k.CtState? || k.TcpFlagsKey?
  {
    if |value| % 4 != 0 then Err(BadValue)
    else if k.CtState? then Ok(ConnectionTrackingState(Chunks(value)))
    else Ok(TCPFlags(Chunks(value)))
  }

  function ParseMaskedMatch(k: Key, value: string): Parsed
    requires k.VlanTci? || k.CtMark? || k.TunId?
  {
    var v := ParseMasked(value, if k.VlanTci? then W16 else if k.CtMark? then W32 else W64);
    if v.Err? then Err(v.error)
    else if k.VlanTci? then Ok(VLANTCI(ToUint16(v.value.0), ToUint16(v.value.1)))
    else if k.CtMark? then Ok(ConnectionTrackingMark(ToUint32(v.value.0), ToUint32(v.value.1)))
    else Ok(TunnelID(ToUint64(v.value.0), ToUint64(v.value.1)))
  }

  function ParsePortMatch(k: Key, value: string): Parsed
    requires k.TpSrc? || k.TpDst?
  {
    var v := ParsePort(value);
    if v.Err? then Err(v.error)
    else if k.TpSrc? then Ok(TransportSourcePort(v.value.0, v.value.1))
    else Ok(TransportDestinationPort(v.value.0, v.value.1))
  }

  function ParseByKey(k: Key, value: string): Parsed {
    match k
    case ArpSha => ParseHardware(k, value)
    case ArpTha => ParseHardware(k, value)
    case NdSll => ParseHardware(k, value)
    case NdTll => ParseHardware(k, value)
    case IcmpType => ParseIntMatch(k, value)
    case NwProto => ParseIntMatch(k, value)
    case CtZone => ParseIntMatch(k, value)
    case ConjId => ParseIntMatch(k, value)
    case TpSrc => ParsePortMatch(k, value)
    case TpDst => ParsePortMatch(k, value)
    case ArpSpa => Ok(ARPSourceProtocolAddress(value))
    case ArpTpa => Ok(ARPTargetProtocolAddress(value))
    case CtState => ParseFlags(k, value)
    case TcpFlagsKey => ParseFlags(k, value)
    case DlSrc => Ok(DataLinkSource(value))
    case DlDst => Ok(DataLinkDestination(value))
    case DlType =>
      var v := ParseHex(value, 0x1_0000_0000);
      if v.Err? then Err(v.error) else Ok(DataLinkType(ToUint16(v.value)))
    case DlVlan =>
      var v := ParseVlan(value);
      if v.Err? then Err(v.error) else Ok(DataLinkVLAN(v.value))
    case NdTarget => Ok(NeighborDiscoveryTarget(value))
    case Ipv6Src => Ok(IPv6Source(value))
    case Ipv6Dst => Ok(IPv6Destination(value))
    case NwSrc => Ok(NetworkSource(value))
    case NwDst => Ok(NetworkDestination(value))
    case VlanTci => ParseMaskedMatch(k, value)
    case CtMark => ParseMaskedMatch(k, value)
    case TunId => ParseMaskedMatch(k, value)
  }

  function ParseMatch(key: string, value: string): Parsed {
    var k := LookupKey(key);
    if k.None? then Err(UnknownKey) else ParseByKey(k.value, value)
  }
}
