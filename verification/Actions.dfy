/** Flow actions and their text form. */
module Actions {
  import opened Results
  import opened Bits
  import opened Text
  import opened Net

  datatype Action =
    | Drop
    | Flood
    | InPort
    | Local
    | Normal
    | StripVLAN
    | ConnectionTracking(args: string)
    | ModDataLinkDestination(addr: HardwareAddr)
    | ModDataLinkSource(addr: HardwareAddr)
    | ModNetworkDestination(ip: Option<Addr>)
    | ModNetworkSource(ip: Option<Addr>)
    | ModTransportDestinationPort(tp: uint16)
    | ModTransportSourcePort(tp: uint16)
    | ModVLANVID(vid: int64)
    | Conjunction(id: int64, dimensionNumber: int64, dimensionSize: int64)
    | Output(port: int64)
    | Resubmit(port: int64, table: int64)
    | ResubmitPort(port: int64)
    | Load(value: string, field: string)
    | SetField(value: string, field: string)
    | SetTunnel(tunnelID: uint64)

  datatype ActionError =
    | CTNoArguments
    | HardwareAddrLength
    | InvalidIPv4
    | InvalidVLANVID
    | DimensionTooLarge
    | OutputNegativePort
    | ResubmitPortTableZero
    | ResubmitPortInvalid
    | LoadSetFieldZero

  const ETHERNET_ADDR_LEN := 6

  predicate ValidVLANVID(vid: int) {
    0 <= vid <= 0xfff
  }

  function MarshalMac(keyword: string, addr: HardwareAddr): Result<string, ActionError> {
    if |addr| != ETHERNET_ADDR_LEN then Err(HardwareAddrLength) else Ok(keyword + MacText(addr))
  }

  function MarshalIP(keyword: string, ip: Option<Addr>): Result<string, ActionError> {
    if ip.None? then Err(InvalidIPv4) else Ok(keyword + ip.value.text)
  }

  /** Zero stands for an empty field. */
  function OptionalInt(n: int): string {
    if n == 0 then "" else FormatInt(n)
  }

  function ConjunctionText(id: int, number: int, size: int): string {
    "conjunction(" + (FormatInt(id) + "," + (FormatInt(number) + "/" + (FormatInt(size) + ")")))
  }

  function ArrowText(keyword: string, value: string, field: string): string {
    keyword + (value + ("->" + field))
  }

  /** `MarshalText` of every action. */
  function MarshalAction(a: Action): Result<string, ActionError> {
    match a
    case Drop => Ok("drop")
    case Flood => Ok("flood")
    case InPort => Ok("in_port")
    case Local => Ok("local")
    case Normal => Ok("normal")
    case StripVLAN => Ok("strip_vlan")
    case ConnectionTracking(args) =>
      if args == "" then Err(CTNoArguments) else Ok("ct(" + (args + ")"))
    case ModDataLinkDestination(addr) => MarshalMac("mod_dl_dst:", addr)
    case ModDataLinkSource(addr) => MarshalMac("mod_dl_src:", addr)
    case ModNetworkDestination(ip) => MarshalIP("mod_nw_dst:", ip)
    case ModNetworkSource(ip) => MarshalIP("mod_nw_src:", ip)
    case ModTransportDestinationPort(port) => Ok("mod_tp_dst:" + FormatInt(port))
    case ModTransportSourcePort(port) => Ok("mod_tp_src:" + FormatInt(port))
    case ModVLANVID(vid) =>
      if !ValidVLANVID(vid) then Err(InvalidVLANVID) else Ok("mod_vlan_vid:" + FormatInt(vid))
    case Conjunction(id, number, size) =>
      if number > size then Err(DimensionTooLarge) else Ok(ConjunctionText(id, number, size))
    case Output(port) =>
      if port < 0 then Err(OutputNegativePort) else Ok("output:" + FormatInt(port))
    case Resubmit(port, table) =>
      if port == 0 && table == 0 then Err(ResubmitPortTableZero)
      else Ok("resubmit(" + (OptionalInt(port) + ("," + (OptionalInt(table) + ")"))))
    case ResubmitPort(port) =>
      if port < 0 || port > 0xffff_feff then Err(ResubmitPortInvalid) else Ok("resubmit:" + FormatInt(port))
    case Load(value, field) =>
      if value == "" || field == "" then Err(LoadSetFieldZero) else Ok(ArrowText("load:", value, field))
    case SetField(value, field) =>
      if value == "" || field == "" then Err(LoadSetFieldZero) else Ok(ArrowText("set_field:", value, field))
    case SetTunnel(id) => Ok("set_tunnel:0x" + FormatNat(id, Hex))
  }
}
