/** IP addresses as their octets, and networks as an address with a prefix length. */
module Net {
  import opened Base

  type Octets4 = o: Bytes | |o| == 4 witness [0, 0, 0, 0]
  type Octets16 = o: Bytes | |o| == 16 witness [0, 0, 0, 0, 0, 0, 0, 0, 0, 0, 0, 0, 0, 0, 0, 0]
  type Len4 = n: int | 0 <= n <= 32
  type Len16 = n: int | 0 <= n <= 128

  datatype IpAddr = V4(v4: Octets4) | V6(v6: Octets16) {
    function Octets(): Bytes {
      match this
      case V4(o) => o
      case V6(o) => o
    }
  }

  datatype IpNet = Net4(addr4: Octets4, len4: Len4) | Net6(addr6: Octets16, len6: Len16) {
    function Addr(): Bytes {
      match this
      case Net4(a, _) => a
      case Net6(a, _) => a
    }

    function PrefixLen(): u8 {
      match this
      case Net4(_, n) => n
      case Net6(_, n) => n
    }
  }

  /** The number whose big-endian octets are `o`. */
  function Value(o: Bytes): nat {
    if o == [] then 0 else Value(o[..|o| - 1]) * 256 + o[|o| - 1]
  }

  /** `IpAddr::cmp`: every IPv4 address comes before every IPv6 address. */
  function AddrKey(a: IpAddr): nat {
    match a
    case V4(o) => Value(o)
    case V6(o) => 0x1_0000_0000 + Value(o)
  }
}
