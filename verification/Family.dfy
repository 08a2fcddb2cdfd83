/** Address families (`sartd/src/bgp/src/family.rs`). */
module Family {
  import opened Base

  datatype Afi = IPv4 | IPv6
  datatype Safi = Unicast | Multicast
  datatype AddressFamily = AddressFamily(afi: Afi, safi: Safi)

  const IPV4_UNICAST := AddressFamily(IPv4, Unicast)

  function AfiCode(afi: Afi): u16 {
    match afi
    case IPv4 => 1
    case IPv6 => 2
  }

  function SafiCode(safi: Safi): u8 {
    match safi
    case Unicast => 1
    case Multicast => 2
  }

  function AfiOf(value: u16): Option<Afi> {
    if value == 1 then Some(IPv4) else if value == 2 then Some(IPv6) else None
  }

  function SafiOf(value: u8): Option<Safi> {
    if value == 1 then Some(Unicast) else if value == 2 then Some(Multicast) else None
  }

  /** `AddressFamily::new`. */
  function Make(afi: u16, safi: u8): Option<AddressFamily> {
    match (AfiOf(afi), SafiOf(safi))
    case (Some(a), Some(s)) => Some(AddressFamily(a, s))
    case _ => None
  }

  /** `TryFrom<u32>`: the high half is the AFI, only the lowest byte is the SAFI. */
  function FromU32(value: u32): Option<AddressFamily> {
    Make(value / 0x1_0000, value % 0x100)
  }

  function ToU32(f: AddressFamily): u32 {
    AfiCode(f.afi) * 0x1_0000 + SafiCode(f.safi)
  }
}
