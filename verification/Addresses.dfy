/**
 Addresses of a CIDR as numbers (`addr_to_index`, `index_to_addr` in `sartd/src/ipam/src/allocator.rs`):
 octet sums, the network address, and the index of an address within its network.
 */
module Addresses {
  import opened Base
  import opened Net
  import opened Bits
  import opened BitSets

  datatype Error = NotContains | ProtocolMismatch | CidrTooLarge | Full | OfBitSet(bitset: BitSetError) | NoReleasableAddress

  /** `n.to_be_bytes()`, for `k` octets. */
  function ToOctets(n: nat, k: nat): (o: Bytes)
    ensures |o| == k
    decreases k
  {
    if k == 0 then [] else ToOctets(n / 256, k - 1) + [n % 256]
  }

  /** The number with its low `h` bits cleared. */
  function Floor(v: nat, h: nat): nat
    decreases h
  {
    if h == 0 then v else 2 * Floor(v / 2, h - 1)
  }

  function HostBits(cidr: IpNet): nat { 8 * |cidr.Addr()| - cidr.PrefixLen() }

  function Size(cidr: IpNet): nat { Pow2(HostBits(cidr)) }

  /** `network()`: the address under its mask. */
  function Network(cidr: IpNet): (o: Bytes)
    ensures |o| == |cidr.Addr()|
  {
    ToOctets(Floor(Value(cidr.Addr()), HostBits(cidr)), |cidr.Addr()|)
  }

  /** `contains`: same protocol, and between the network and the broadcast address. */
  predicate Contains(cidr: IpNet, addr: IpAddr) {
    && cidr.Net4? == addr.V4?
    && Value(Network(cidr)) <= Value(addr.Octets()) < Value(Network(cidr)) + Size(cidr)
  }

  function IndexOf(addr: IpAddr, cidr: IpNet): Result<nat, Error> {
    if cidr.Net4? != addr.V4? then Failure(ProtocolMismatch)
    else if !Contains(cidr, addr) then Failure(NotContains)
    else Success(Value(addr.Octets()) - Value(Network(cidr)))
  }

  function AddrAt(index: nat, cidr: IpNet): IpAddr {
    match cidr
    case Net4(_, _) => V4(ToOctets(Value(Network(cidr)) + index % 0x1_0000_0000, 4))
    case Net6(_, _) => V6(ToOctets(Value(Network(cidr)) + index, 16))
  }

  // ---------------------------------------------------------------- in place

  function Pow256(n: nat): (r: nat)
    ensures r > 0
  {
    if n == 0 then 1 else 256 * Pow256(n - 1)
  }

  /** The first octet counts for `256^(n-1)`: the sum can be taken from either end. */
  lemma {:induction false} ValueFirst(o: Bytes)
    requires o != []
    ensures Value(o) == o[0] * Pow256(|o| - 1) + Value(o[1..])
    decreases |o|
  {
    var n := |o| - 1;
    if n > 0 {
      ValueFirst(o[..n]);
      assert o[..n][1..] == o[1..][..n - 1];
      Swap(o[0], 256, Pow256(n - 1));
    } else {
      assert Value(o[..0]) == 0 && Value(o[1..]) == 0;
    }
  }

  /** The sum of four shifted octets. */
  method Sum4(o: Octets4) returns (bits: u32)
    ensures bits == Value(o)
  {
    var a: int, b: int, c: int, d: int := o[0], o[1], o[2], o[3];
    bits := d + c * 0x100 + b * 0x1_0000 + a * 0x100_0000;
    Value4(o, a, b, c, d);
  }

  lemma Value4(o: Octets4, a: int, b: int, c: int, d: int)
    requires a == o[0] && b == o[1] && c == o[2] && d == o[3]
    ensures Value(o) == d + c * 0x100 + b * 0x1_0000 + a * 0x100_0000
  {
    var o3, o2, o1 := o[..3], o[..2], o[..1];
    assert o3[..2] == o2 && o2[..1] == o1 && o1[..0] == [];
    assert Value(o1) == o[0];
    assert Value(o2) == Value(o1) * 256 + o[1];
    assert Value(o3) == Value(o2) * 256 + o[2];
  }

  /** The accumulator loop over sixteen octets, last octet first. */
  method Sum16(o: Octets16) returns (bits: nat)
    ensures bits == Value(o)
  {
    bits := 0;
    for i := 0 to 16
      invariant bits == Value(o[16 - i..])
    {
      ValueFirst(o[15 - i..]);
      assert o[15 - i..][1..] == o[16 - i..];
      bits := bits + o[15 - i] * Pow256(i);
    }
    assert o[0..] == o;
  }

  method AddrToIndex(addr: IpAddr, cidr: IpNet) returns (r: Result<nat, Error>)
    ensures r == IndexOf(addr, cidr)
  {
    match (cidr, addr)
    case (Net4(_, _), V4(a)) =>
      var minBits := Sum4(Network(cidr));
      if !Contains(cidr, addr) {
        return Failure(NotContains);
      }
      var bits := Sum4(a);
      r := Success(bits - minBits);
    case (Net6(_, _), V6(a)) =>
      if !Contains(cidr, addr) {
        return Failure(NotContains);
      }
      var minBits := Sum16(Network(cidr));
      var bits := Sum16(a);
      r := Success(bits - minBits);
    case _ => r := Failure(ProtocolMismatch);
  }

  method IndexToAddr(index: nat, cidr: IpNet) returns (addr: IpAddr)
    ensures addr == AddrAt(index, cidr)
  {
    hide ToOctets, Value, Network;
    match cidr
    case Net4(_, _) =>
      var bits := Sum4(Network(cidr));
      addr := V4(ToOctets(bits + index % 0x1_0000_0000, 4));
    case Net6(_, _) =>
      var bits := Sum16(Network(cidr));
      addr := V6(ToOctets(bits + index, 16));
  }

  // ---------------------------------------------------------------- laws

  lemma {:induction false} ValueBound(o: Bytes)
    ensures Value(o) < Pow2(8 * |o|)
    decreases |o|
  {
    if o != [] {
      var n := |o| - 1;
      ValueBound(o[..n]);
      EightTimes(n);
    }
  }

  lemma EightTimes(n: nat)
    ensures Pow2(8 * (n + 1)) == 256 * Pow2(8 * n)
  {
    var k := 8 * n;
    assert Pow2(k + 4) == 16 * Pow2(k) by {
      assert Pow2(k + 2) == 4 * Pow2(k);
    }
    assert Pow2(k + 8) == 16 * Pow2(k + 4) by {
      assert Pow2(k + 6) == 4 * Pow2(k + 4);
    }
  }

  lemma {:induction false} OctetsValue(n: nat, k: nat)
    requires n < Pow2(8 * k)
    ensures Value(ToOctets(n, k)) == n
    decreases k
  {
    if k > 0 {
      EightTimes(k - 1);
      OctetsValue(n / 256, k - 1);
      assert ToOctets(n, k)[..k - 1] == ToOctets(n / 256, k - 1);
    }
  }

  lemma {:induction false} ValueOctets(o: Bytes)
    ensures ToOctets(Value(o), |o|) == o
    decreases |o|
  {
    if o != [] {
      var n := |o| - 1;
      ValueOctets(o[..n]);
      assert o[..n] + [o[n]] == o;
    }
  }

  /** Clearing low bits goes down by less than `2^h`, and the whole block of `2^h` still fits. */
  lemma {:induction false} FloorBlock(v: nat, h: nat, m: nat)
    requires v < Pow2(m) && h <= m
    ensures Floor(v, h) <= v < Floor(v, h) + Pow2(h)
    ensures Floor(v, h) + Pow2(h) <= Pow2(m)
    decreases h
  {
    if h > 0 {
      FloorBlock(v / 2, h - 1, m - 1);
    } else {
      assert Pow2(0) == 1;
    }
  }

  /** The block of a CIDR lies within its address space, so neither octet sum can overflow. */
  lemma Block(cidr: IpNet)
    ensures Value(Network(cidr)) == Floor(Value(cidr.Addr()), HostBits(cidr))
    ensures Value(Network(cidr)) + Size(cidr) <= Pow2(8 * |cidr.Addr()|)
    ensures Value(Network(cidr)) <= Value(cidr.Addr()) < Value(Network(cidr)) + Size(cidr)
  {
    hide Pow2, Value, Floor, ToOctets;
    var v, h, k := Value(cidr.Addr()), HostBits(cidr), |cidr.Addr()|;
    ValueBound(cidr.Addr());
    FloorBlock(v, h, 8 * k);
    OctetsValue(Floor(v, h), k);
  }

  lemma {:induction false} Pow2Grows(a: nat, b: nat)
    requires a <= b
    ensures Pow2(a) <= Pow2(b)
    decreases b
  {
    if a < b {
      Pow2Grows(a, b - 1);
    }
  }

  lemma Pow2Of32()
    ensures Pow2(32) == 0x1_0000_0000
  {
    assert Pow2(8) == 0x100;
    EightTimes(1);
    EightTimes(2);
    EightTimes(3);
  }

  /** An IPv4 block has at most 2^32 addresses, so the cast of the index loses nothing. */
  lemma SmallIndex(index: nat, cidr: IpNet)
    requires cidr.Net4? && index < Size(cidr)
    ensures index % 0x1_0000_0000 == index
  {
    hide Pow2;
    Pow2Grows(HostBits(cidr), 32);
    Pow2Of32();
  }

  /** From index to address and back, for every index of the block; the address lies in the CIDR. */
  lemma IndexRoundTrip(index: nat, cidr: IpNet)
    requires index < Size(cidr)
    ensures Value(AddrAt(index, cidr).Octets()) == Value(Network(cidr)) + index
    ensures Contains(cidr, AddrAt(index, cidr))
    ensures IndexOf(AddrAt(index, cidr), cidr) == Success(index)
  {
    hide Pow2, Value, Floor, ToOctets, Network;
    Block(cidr);
    if cidr.Net4? {
      SmallIndex(index, cidr);
    }
    OctetsValue(Value(Network(cidr)) + index, |cidr.Addr()|);
  }

  /** From address to index and back, for every address of the CIDR. */
  lemma AddrRoundTrip(addr: IpAddr, cidr: IpNet)
    requires Contains(cidr, addr)
    ensures IndexOf(addr, cidr).Success? && IndexOf(addr, cidr).value < Size(cidr)
    ensures AddrAt(IndexOf(addr, cidr).value, cidr) == addr
  {
    hide Pow2, Value, Floor, ToOctets, Network;
    var index := IndexOf(addr, cidr).value;
    if cidr.Net4? {
      SmallIndex(index, cidr);
    }
    ValueOctets(addr.Octets());
  }

  /** Addresses are ordered as their indices are. */
  lemma IndexOrder(i: nat, j: nat, cidr: IpNet)
    requires i < Size(cidr) && j < Size(cidr)
    ensures i < j <==> AddrKey(AddrAt(i, cidr)) < AddrKey(AddrAt(j, cidr))
    ensures i == j <==> AddrAt(i, cidr) == AddrAt(j, cidr)
  {
    hide Pow2, Value, Floor, ToOctets, Network;
    IndexRoundTrip(i, cidr);
    IndexRoundTrip(j, cidr);
  }

  lemma {:induction false} BlockIffShr(v: nat, w: nat, h: nat)
    ensures Floor(v, h) <= w < Floor(v, h) + Pow2(h) <==> Shr(w, h) == Shr(v, h)
    decreases h
  {
    if h == 0 {
      assert Pow2(0) == 1;
    } else {
      BlockIffShr(v / 2, w / 2, h - 1);
      ShrHalf(v, h - 1);
      ShrHalf(w, h - 1);
    }
  }

  /** An address is in the CIDR if and only if it is of its family and has its leading bits. */
  lemma ContainsIff(cidr: IpNet, addr: IpAddr)
    ensures Contains(cidr, addr)
            <==> match (cidr, addr)
                 case (Net4(a, n), V4(b)) => Shr(Value(b), 32 - n) == Shr(Value(a), 32 - n)
                 case (Net6(a, n), V6(b)) => Shr(Value(b), 128 - n) == Shr(Value(a), 128 - n)
                 case _ => false
  {
    hide Pow2, Value, Floor, Shr, Network;
    Block(cidr);
    BlockIffShr(Value(cidr.Addr()), Value(addr.Octets()), HostBits(cidr));
  }
}
