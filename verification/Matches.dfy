/** Flow matches and their text form, `key=value`. */
module Matches {
  import opened Results
  import opened Bits
  import opened Text
  import opened Net
  import Actions
  import PortRanges

  datatype Match =
    | DataLinkSource(mac: string)
    | DataLinkDestination(mac: string)
    | DataLinkType(etherType: uint16)
    | DataLinkVLAN(vid: int64)
    | NetworkSource(ip: string)
    | NetworkDestination(ip: string)
    | ConjunctionID(id32: uint32)
    | NetworkProtocol(num: uint8)
    | IPv6Source(ip: string)
    | IPv6Destination(ip: string)
    | ICMPType(num: uint8)
    | NeighborDiscoveryTarget(ip: string)
    | NeighborDiscoverySourceLinkLayer(addr: HardwareAddr)
    | NeighborDiscoveryTargetLinkLayer(addr: HardwareAddr)
    | ARPSourceHardwareAddress(addr: HardwareAddr)
    | ARPTargetHardwareAddress(addr: HardwareAddr)
    | ARPSourceProtocolAddress(ip: string)
    | ARPTargetProtocolAddress(ip: string)
    | TransportSourcePort(port: uint16, mask16: uint16)
    | TransportDestinationPort(port: uint16, mask16: uint16)
    | VLANTCI(tci: uint16, mask16: uint16)
    | ConnectionTrackingMark(mark: uint32, mask32: uint32)
    | ConnectionTrackingZone(zone: uint16)
    | ConnectionTrackingState(flags: seq<string>)
    | TCPFlags(flags: seq<string>)
    | TunnelID(id64: uint64, mask64: uint64)

  datatype Key =
    | ArpSha | ArpSpa | ArpTha | ArpTpa | ConjId | CtMark | CtState | CtZone
    | DlSrc | DlDst | DlType | DlVlan | IcmpType | Ipv6Dst | Ipv6Src
    | NdSll | NdTll | NdTarget | NwDst | NwProto | NwSrc
    | TcpFlagsKey | TpDst | TpSrc | TunId | VlanTci

  function KeyText(k: Key): (s: string)
    ensures |s| >= 6
  {
    match k
    case ArpSha => "arp_sha"
    case ArpSpa => "arp_spa"
    case ArpTha => "arp_tha"
    case ArpTpa => "arp_tpa"
    case ConjId => "conj_id"
    case CtMark => "ct_mark"
    case CtState => "ct_state"
    case CtZone => "ct_zone"
    case DlSrc => "dl_src"
    case DlDst => "dl_dst"
    case DlType => "dl_type"
    case DlVlan => "dl_vlan"
    case IcmpType => "icmp_type"
    case Ipv6Dst => "ipv6_dst"
    case Ipv6Src => "ipv6_src"
    case NdSll => "nd_sll"
    case NdTll => "nd_tll"
    case NdTarget => "nd_target"
    case NwDst => "nw_dst"
    case NwProto => "nw_proto"
    case NwSrc => "nw_src"
    case TcpFlagsKey => "tcp_flags"
    case TpDst => "tp_dst"
    case TpSrc => "tp_src"
    case TunId => "tun_id"
    case VlanTci => "vlan_tci"
  }

  function KeyOf(m: Match): Key {
    match m
    case DataLinkSource(_) => DlSrc
    case DataLinkDestination(_) => DlDst
    case DataLinkType(_) => DlType
    case DataLinkVLAN(_) => DlVlan
    case NetworkSource(_) => NwSrc
    case NetworkDestination(_) => NwDst
    case ConjunctionID(_) => ConjId
    case NetworkProtocol(_) => NwProto
    case IPv6Source(_) => Ipv6Src
    case IPv6Destination(_) => Ipv6Dst
    case ICMPType(_) => IcmpType
    case NeighborDiscoveryTarget(_) => NdTarget
    case NeighborDiscoverySourceLinkLayer(_) => NdSll
    case NeighborDiscoveryTargetLinkLayer(_) => NdTll
    case ARPSourceHardwareAddress(_) => ArpSha
    case ARPTargetHardwareAddress(_) => ArpTha
    case ARPSourceProtocolAddress(_) => ArpSpa
    case ARPTargetProtocolAddress(_) => ArpTpa
    case TransportSourcePort(_, _) => TpSrc
    case TransportDestinationPort(_, _) => TpDst
    case VLANTCI(_, _) => VlanTci
    case ConnectionTrackingMark(_, _) => CtMark
    case ConnectionTrackingZone(_) => CtZone
    case ConnectionTrackingState(_) => CtState
    case TCPFlags(_) => TcpFlagsKey
    case TunnelID(_, _) => TunId
  }

  datatype MatchError = BadHardwareAddr | InvalidVLANVID | InvalidIPv4 | InvalidIPv6

  const VLAN_NONE := 0xffff

  /** The verb 0x%0wx. */
  function Hex0x(n: nat, width: nat): string {
    "0x" + FormatHexPadded(n, width)
  }

  /** A value and, if it is not zero, a mask after a slash. */
  function Masked(value: nat, mask: nat, width: nat): string {
    if mask == 0 then Hex0x(value, width) else Hex0x(value, width) + "/" + Hex0x(mask, width)
  }

  /** `dataLinkMatch.MarshalText`: an address and an optional wildcard mask, in canonical form. */
  function MarshalMacMask(mac: string): Result<string, MatchError> {
    var i := IndexOf(mac, '/');
    var addr := ParseMAC(mac[..i]);
    if addr.None? || |addr.value| != 6 then Err(BadHardwareAddr)
    else if i == |mac| then Ok(MacText(addr.value))
    else
      var wildcard := ParseMAC(mac[i + 1..]);
      if wildcard.None? || |wildcard.value| != 6 then Err(BadHardwareAddr)
      else Ok(MacText(addr.value) + "/" + MacText(wildcard.value))
  }

  /** `matchIPv4AddressOrCIDR` and `matchIPv6AddressOrCIDR`. */
  function MarshalAddress(net: Library, ip: string, v4: bool): Result<string, MatchError> {
    var error := if v4 then InvalidIPv4 else InvalidIPv6;
    var cidr := net.parseCIDR(ip);
    if cidr.Some? then
      if cidr.value != v4 then Err(error) else Ok(ip)
    else
      var addr := net.parseIP(ip);
      if addr.None? || addr.value.v4 != v4 then Err(error) else Ok(addr.value.text)
  }

  function MarshalHardware(addr: HardwareAddr): Result<string, MatchError> {
    if |addr| != 6 then Err(BadHardwareAddr) else Ok(MacText(addr))
  }

  /** `matchTransportPort`: decimal without a mask, hexadecimal with one. */
  function PortText(port: uint16, mask: uint16): string {
    if mask == 0 then FormatInt(port) else Masked(port, mask, 4)
  }

  function MarshalValue(net: Library, m: Match): Result<string, MatchError> {
    match m
    case DataLinkSource(mac) => MarshalMacMask(mac)
    case DataLinkDestination(mac) => MarshalMacMask(mac)
    case DataLinkType(t) => Ok(Hex0x(t, 4))
    case DataLinkVLAN(vid) =>
      if !Actions.ValidVLANVID(vid) && vid != VLAN_NONE then Err(InvalidVLANVID)
      else if vid == VLAN_NONE then Ok("0xffff")
      else Ok(FormatInt(vid))
    case NetworkSource(ip) => MarshalAddress(net, ip, true)
    case NetworkDestination(ip) => MarshalAddress(net, ip, true)
    case ConjunctionID(id) => Ok(FormatInt(id))
    case NetworkProtocol(num) => Ok(FormatInt(num))
    case IPv6Source(ip) => MarshalAddress(net, ip, false)
    case IPv6Destination(ip) => MarshalAddress(net, ip, false)
    case ICMPType(num) => Ok(FormatInt(num))
    case NeighborDiscoveryTarget(ip) => MarshalAddress(net, ip, false)
    case NeighborDiscoverySourceLinkLayer(addr) => MarshalHardware(addr)
    case NeighborDiscoveryTargetLinkLayer(addr) => MarshalHardware(addr)
    case ARPSourceHardwareAddress(addr) => MarshalHardware(addr)
    case ARPTargetHardwareAddress(addr) => MarshalHardware(addr)
    case ARPSourceProtocolAddress(ip) => MarshalAddress(net, ip, true)
    case ARPTargetProtocolAddress(ip) => MarshalAddress(net, ip, true)
    case TransportSourcePort(port, mask) => Ok(PortText(port, mask))
    case TransportDestinationPort(port, mask) => Ok(PortText(port, mask))
    case VLANTCI(tci, mask) => Ok(Masked(tci, mask, 4))
    case ConnectionTrackingMark(mark, mask) => Ok(Masked(mark, mask, 8))
    case ConnectionTrackingZone(zone) => Ok(FormatInt(zone))
    case ConnectionTrackingState(states) => Ok(Concat(states))
    case TCPFlags(flags) => Ok(Concat(flags))
    case TunnelID(id, mask) => Ok(Masked(id, mask, 0))
  }

  /** `MarshalText` of every match. */
  function MarshalMatch(net: Library, m: Match): Result<string, MatchError> {
    var v := MarshalValue(net, m);
    if v.Err? then v else Ok(KeyText(KeyOf(m)) + "=" + v.value)
  }

  /** A transport-port match of the given direction and no other kind, printed under the literal key. */
  ghost predicate HasDirection(source: bool, m: Match) {
    && (m.TransportSourcePort? <==> source)
    && (m.TransportDestinationPort? <==> !source)
    && forall net: Library :: MarshalMatch(net, m).Ok? && (if source then "tp_src=" else "tp_dst=") <= MarshalMatch(net, m).value
  }

  lemma PortMatchDirection(source: bool, b: PortRanges.BitRange)
    ensures HasDirection(source, PortMatch(source, b))
  {
    hide PortText;
    assert "tp_src" + "=" == "tp_src=" && "tp_dst" + "=" == "tp_dst=";
  }

  /** `transportPortRange.MaskedPorts`. */
  method MaskedPorts(source: bool, start: uint16, end: uint16) returns (r: Result<seq<Match>, PortRanges.Error>)
    ensures r.Err? <==> start == 0 || end == 0 || start > end
    ensures r.Ok? ==> r.value == PortMatches(source, PortRanges.Cover(start, end))
    ensures r.Ok? ==> forall i :: 0 <= i < |r.value| ==> HasDirection(source, r.value[i])
    ensures r.Ok? ==> forall i :: 0 <= i < |r.value| ==> (r.value[i].TransportSourcePort? <==> source)
  {
    hide PortRanges.MinimalExactCover, HasDirection, PortMatch;
    var bits := PortRanges.BitwiseMatch(PortRanges.PortRange(start, end));
    if bits.Err? {
      return Err(bits.error);
    }
    var ports := [];
    for i := 0 to |bits.value|
      invariant ports == PortMatches(source, bits.value[..i])
      invariant forall k :: 0 <= k < i ==> HasDirection(source, ports[k])
    {
      var b := bits.value[i];
      assert bits.value[..i + 1] == bits.value[..i] + [b];
      PortMatchDirection(source, b);
      ports := ports + [PortMatch(source, b)];
    }
    assert bits.value[..|bits.value|] == bits.value;
    forall i | 0 <= i < |ports|
      ensures ports[i].TransportSourcePort? <==> source
    {
      DirectionIs(source, ports[i]);
    }
    return Ok(ports);
  }

  lemma DirectionIs(source: bool, m: Match)
    requires HasDirection(source, m)
    ensures m.TransportSourcePort? <==> source
  {
  }

  function PortMatch(source: bool, b: PortRanges.BitRange): Match {
    if source then TransportSourcePort(b.value, b.mask) else TransportDestinationPort(b.value, b.mask)
  }

  function PortMatches(source: bool, bs: seq<PortRanges.BitRange>): (ms: seq<Match>)
    ensures |ms| == |bs|
    ensures forall i :: 0 <= i < |bs| ==> ms[i] == PortMatch(source, bs[i])
  {
    seq(|bs|, i requires 0 <= i < |bs| => PortMatch(source, bs[i]))
  }
}
