/**
 The bytes themselves: what the decoder makes of each kind of message, attribute and capability, by the numbers of
 RFC 4271, RFC 4760, RFC 5492 and RFC 6793, and what it refuses.
 */
module WireFormat {
  import opened Base
  import opened Net
  import opened Family
  import opened Wire
  import opened Messages
  import opened Codec
  import CodecLaws
  import AttributeLaws
  import Capabilities
  import Attributes
  import Prefixes

  function Number16(a: u8, b: u8): nat { 256 * a + b }

  function Number32(a: u8, b: u8, c: u8, d: u8): nat { 16777216 * a + 65536 * b + 256 * c + d }

  // ---------------------------------------------------------------- attributes

  /** One attribute with the given flags, code and value, in front of anything. */
  function Framed(flag: u8, code: u8, value: Bytes, rest: Bytes): Bytes
    requires |value| < 256
  {
    [flag, code, |value|] + value + rest
  }

  /** A flag byte without the extended length bit says that one byte of length follows. */
  lemma Unframe(flag: u8, code: u8, value: Bytes, rest: Bytes, as4: bool)
    requires |value| < 256 && flag / 16 % 2 == 0
    ensures var b := Attributes.AttrBase(flag, code);
            Attributes.Parse1(Framed(flag, code, value, rest), as4)
            == if Attributes.FlagOk(b) then Attributes.ParseBody(b, |value|, value + rest, as4)
               else Bad(AttributeFlagsError(code, |value|, flag))
  {
    hide Attributes.FlagOk, Attributes.ParseBody;
    var s := Framed(flag, code, value, rest);
    assert s[1..][0] == code && s[1..][1..][0] == |value| && s[1..][1..][1..] == value + rest;
  }

  /** With that bit two bytes follow. */
  lemma UnframeExtended(flag: u8, code: u8, hi: u8, lo: u8, rest: Bytes, as4: bool)
    requires flag / 16 % 2 == 1
    ensures var b := Attributes.AttrBase(flag, code);
            Attributes.Parse1([flag, code, hi, lo] + rest, as4)
            == if Attributes.FlagOk(b) then Attributes.ParseBody(b, Number16(hi, lo), rest, as4)
               else Bad(AttributeFlagsError(code, Number16(hi, lo), flag))
  {
    hide Attributes.FlagOk, Attributes.ParseBody;
    var s := [flag, code, hi, lo] + rest;
    assert s[1..][0] == code && s[1..][1..] == [hi, lo] + rest && s[1..][1..][2..] == rest;
  }

  /** The flags that an attribute is refused for, and the codes that always are. */
  lemma RefusedFlags(flag: u8, code: u8, value: Bytes, rest: Bytes, as4: bool)
    requires |value| < 256 && flag / 16 % 2 == 0
    ensures Attributes.Parse1(Framed(flag, code, value, rest), as4) == Bad(AttributeFlagsError(code, |value|, flag))
            <==> if code in {1, 2, 3} then flag >= 128
                 else if code == 4 then flag < 128 || flag % 128 >= 64
                 else if code in {5, 6} then false
                 else if code in {7, 8, 14, 15, 16, 17, 18} then flag < 128
                 else true
  {
    hide Attributes.ParseBody;
    Unframe(flag, code, value, rest, as4);
    if Attributes.FlagOk(Attributes.AttrBase(flag, code)) {
      NoFlagError(Attributes.AttrBase(flag, code), |value|, value + rest, as4);
    }
  }

  lemma NoFlagError(b: Attributes.AttrBase, length: nat, s: Bytes, as4: bool)
    requires Attributes.FlagOk(b)
    ensures Attributes.ParseBody(b, length, s, as4).Bad? ==> !Attributes.ParseBody(b, length, s, as4).error.AttributeFlagsError?
  {
    hide Attributes.ParseSegments, Attributes.ParseMpReach, Attributes.ParseMpUnreach, Attributes.ParseAggregator,
      Attributes.ParseAs4Aggregator, Attributes.ParseExtended, Attributes.FlagOk;
    SegmentsError(s, |s| - length, as4);
    SegmentsError(s, Sub(|s|, length), true);
    ReachErrors(b, length, s);
    OtherErrors(b, length, s, as4);
  }

  lemma OtherErrors(b: Attributes.AttrBase, length: nat, s: Bytes, as4: bool)
    ensures Attributes.ParseAggregator(b, length, s, as4).Bad? ==> !Attributes.ParseAggregator(b, length, s, as4).error.AttributeFlagsError?
    ensures Attributes.ParseAs4Aggregator(b, length, s).Bad? ==> !Attributes.ParseAs4Aggregator(b, length, s).error.AttributeFlagsError?
    ensures Attributes.ParseExtended(b, s).Bad? ==> !Attributes.ParseExtended(b, s).error.AttributeFlagsError?
  {
    hide Attributes.Mask;
  }

  lemma ReachErrors(b: Attributes.AttrBase, length: nat, s: Bytes)
    ensures Attributes.ParseMpReach(b, length, s).Bad? ==> !Attributes.ParseMpReach(b, length, s).error.AttributeFlagsError?
    ensures Attributes.ParseMpUnreach(b, length, s).Bad? ==> !Attributes.ParseMpUnreach(b, length, s).error.AttributeFlagsError?
  {
    hide Attributes.ParseAddrs, Prefixes.ParseMany;
    var f := Attributes.ParseFamily(s);
    if f.Ok? {
      PrefixesError(f.value.afi, f.rest, Sub(|s|, length));
      var h := U8(f.rest);
      if h.Ok? {
        var n := h.value / Prefixes.AddrSize(f.value.afi);
        AddrsError(h.rest, f.value.afi, n);
        var hops := Attributes.ParseAddrs(h.rest, f.value.afi, n);
        if hops.Ok? && U8(hops.rest).Ok? {
          PrefixesError(f.value.afi, U8(hops.rest).rest, Sub(|s|, length));
        }
      }
    }
  }

  lemma {:induction false} AddrsError(s: Bytes, afi: Afi, count: nat)
    ensures var p := Attributes.ParseAddrs(s, afi, count);
            p.Bad? ==> !p.error.AttributeFlagsError?
    decreases count
  {
    if count > 0 && Attributes.ParseAddr(s, afi).Ok? {
      AddrsError(Attributes.ParseAddr(s, afi).rest, afi, count - 1);
    }
  }

  lemma {:induction false} PrefixesError(afi: Afi, s: Bytes, tail: nat)
    ensures var p := Prefixes.ParseMany(afi, s, tail);
            p.Bad? ==> !p.error.AttributeFlagsError?
    decreases |s|
  {
    if |s| > tail && Prefixes.Parse1(afi, false, s).Ok? {
      PrefixesError(afi, Prefixes.Parse1(afi, false, s).rest, tail);
    }
  }

  lemma {:induction false} SegmentsError(s: Bytes, tail: int, as4: bool)
    ensures var p := Attributes.ParseSegments(s, tail, as4);
            p.Bad? ==> !p.error.AttributeFlagsError?
    decreases |s|
  {
    if |s| > tail {
      SegmentError(s, as4);
      if Attributes.ParseSegment(s, as4).Ok? {
        SegmentsError(Attributes.ParseSegment(s, as4).rest, tail, as4);
      }
    }
  }

  lemma SegmentError(s: Bytes, as4: bool)
    ensures var p := Attributes.ParseSegment(s, as4);
            p.Bad? ==> p.error == Panicked
  {
    hide Attributes.ParseAsns;
    if |s| >= 2 {
      AsnsError(s[2..], s[1], as4);
    }
  }

  lemma {:induction false} AsnsError(s: Bytes, count: nat, as4: bool)
    ensures var p := Attributes.ParseAsns(s, count, as4);
            p.Bad? ==> p.error == Panicked
    decreases count
  {
    if count > 0 && Attributes.ParseAsn(s, as4).Ok? {
      AsnsError(Attributes.ParseAsn(s, as4).rest, count - 1, as4);
    }
  }

  /** ORIGIN is attribute 1: one byte, at most 2. */
  lemma OriginBytes(v: u8, rest: Bytes, as4: bool)
    ensures Attributes.Parse1(Framed(0x40, 1, [v], rest), as4)
            == if v <= 2 then Ok(Attributes.Origin(Attributes.AttrBase(0x40, 1), v), rest) else Bad(InvalidOriginAttribute(v))
  {
    Unframe(0x40, 1, [v], rest, as4);
    U8Inverts(v, rest);
  }

  lemma NextHopBytes(a: u8, b: u8, c: u8, d: u8, rest: Bytes, as4: bool)
    ensures Attributes.Parse1(Framed(0x40, 3, [a, b, c, d], rest), as4)
            == Ok(Attributes.NextHop(Attributes.AttrBase(0x40, 3), [a, b, c, d]), rest)
  {
    Unframe(0x40, 3, [a, b, c, d], rest, as4);
    TakeInverts([a, b, c, d], rest);
  }

  lemma Read32(a: u8, b: u8, c: u8, d: u8, rest: Bytes)
    ensures U32([a, b, c, d] + rest) == Ok(Number32(a, b, c, d), rest)
  {
    var s := [a, b, c, d] + rest;
    assert s[4..] == rest;
  }

  lemma Read16(a: u8, b: u8, rest: Bytes)
    ensures U16([a, b] + rest) == Ok(Number16(a, b), rest)
  {
    var s := [a, b] + rest;
    assert s[2..] == rest;
  }

  /** MULTI_EXIT_DISC is attribute 4, LOCAL_PREF attribute 5, COMMUNITIES attribute 8: numbers of four octets, high octet first. */
  lemma NumberBytes(a: u8, b: u8, c: u8, d: u8, rest: Bytes, as4: bool)
    ensures Attributes.Parse1(Framed(0x80, 4, [a, b, c, d], rest), as4)
            == Ok(Attributes.MultiExitDisc(Attributes.AttrBase(0x80, 4), Number32(a, b, c, d)), rest)
    ensures Attributes.Parse1(Framed(0x40, 5, [a, b, c, d], rest), as4)
            == Ok(Attributes.LocalPref(Attributes.AttrBase(0x40, 5), Number32(a, b, c, d)), rest)
    ensures Attributes.Parse1(Framed(0xC0, 8, [a, b, c, d], rest), as4)
            == Ok(Attributes.Communities(Attributes.AttrBase(0xC0, 8), Number32(a, b, c, d)), rest)
  {
    hide U32;
    Unframe(0x80, 4, [a, b, c, d], rest, as4);
    Unframe(0x40, 5, [a, b, c, d], rest, as4);
    Unframe(0xC0, 8, [a, b, c, d], rest, as4);
    Read32(a, b, c, d, rest);
  }

  lemma AtomicBytes(rest: Bytes, as4: bool)
    ensures Attributes.Parse1(Framed(0x40, 6, [], rest), as4) == Ok(Attributes.AtomicAggregate(Attributes.AttrBase(0x40, 6)), rest)
  {
    Unframe(0x40, 6, [], rest, as4);
    assert [] + rest == rest;
  }

  /** One number of a segment, in the width of the session. */
  function AsnBytes(n: u32, as4: bool): Bytes
    requires as4 || n < 65536
  {
    if as4 then [n / 16777216, n / 65536 % 256, n / 256 % 256, n % 256] else [n / 256, n % 256]
  }

  lemma ReadAsn(n: u32, as4: bool, rest: Bytes)
    requires as4 || n < 65536
    ensures Attributes.ParseAsn(AsnBytes(n, as4) + rest, as4) == Ok(n, rest)
  {
    hide U32, U16, Put32, Put16;
    if as4 {
      PutIs(n);
      U32Inverts(n, rest);
    } else {
      PutIs(n);
      U16Inverts(n, rest);
    }
  }

  lemma PutIs(n: u32)
    ensures AsnBytes(n, true) == Put32(n)
    ensures n < 65536 ==> AsnBytes(n, false) == Put16(n)
  {
  }

  lemma ReadOneSegment(t: u8, n: u32, as4: bool, rest: Bytes)
    requires as4 || n < 65536
    ensures Attributes.ParseSegments([t, 1] + AsnBytes(n, as4) + rest, |rest|, as4) == Ok([Attributes.ASSegment(t, [n])], rest)
  {
    hide Attributes.ParseAsn, AsnBytes;
    var s := [t, 1] + AsnBytes(n, as4) + rest;
    assert s[1..][0] == 1 && s[1..][1..] == AsnBytes(n, as4) + rest;
    ReadAsn(n, as4, rest);
    assert [n] + [] == [n];
    assert Attributes.ParseAsns(s[1..][1..], 1, as4) == Ok([n], rest);
    assert Attributes.ParseSegment(s, as4) == Ok(Attributes.ASSegment(t, [n]), rest);
    assert Attributes.ParseSegments(rest, |rest|, as4) == Ok([], rest);
    assert [Attributes.ASSegment(t, [n])] + [] == [Attributes.ASSegment(t, [n])];
  }

  /** AS_PATH is attribute 2, with numbers in the width of the session; AS4_PATH is attribute 17, with four octets always. */
  lemma AsPathBytes(t: u8, n: u32, rest: Bytes, as4: bool)
    requires as4 || n < 65536
    ensures Attributes.Parse1(Framed(0x40, 2, [t, 1] + AsnBytes(n, as4), rest), as4)
            == Ok(Attributes.ASPath(Attributes.AttrBase(0x40, 2), [Attributes.ASSegment(t, [n])]), rest)
    ensures |[t, 1] + AsnBytes(n, true) + rest| < 0x1_0000_0000_0000_0000 ==>
              Attributes.Parse1(Framed(0xC0, 17, [t, 1] + AsnBytes(n, true), rest), as4)
              == Ok(Attributes.AS4Path(Attributes.AttrBase(0xC0, 17), [Attributes.ASSegment(t, [n])]), rest)
  {
    hide Attributes.ParseSegments, Attributes.Parse1, Framed, AsnBytes, Sub;
    AsnWidth(n, as4);
    AsnWidth(n, true);
    var value, value4 := [t, 1] + AsnBytes(n, as4), [t, 1] + AsnBytes(n, true);
    Unframe(0x40, 2, value, rest, as4);
    Unframe(0xC0, 17, value4, rest, as4);
    ReadOneSegment(t, n, as4, rest);
    ReadOneSegment(t, n, true, rest);
    if |value4 + rest| < 0x1_0000_0000_0000_0000 {
      Remaining(value4, rest);
    }
  }

  /** Four octets are an IPv4 address, sixteen an IPv6 address. */
  function IpOf(addr: Bytes): IpAddr
    requires |addr| == 4 || |addr| == 16
  {
    if |addr| == 4 then V4(addr) else V6(addr)
  }

  /** AGGREGATOR is attribute 7: an AS number in the width of the session, and an address; any other length is refused. */
  lemma AggregatorBytes(n: u32, addr: Bytes, rest: Bytes, as4: bool)
    requires (as4 || n < 65536) && |addr| < 250
    ensures Attributes.Parse1(Framed(0xC0, 7, AsnBytes(n, as4) + addr, rest), as4)
            == if |addr| == 4 || |addr| == 16 then Ok(Attributes.Aggregator(Attributes.AttrBase(0xC0, 7), n, IpOf(addr)), rest)
               else Bad(OptionalAttributeError)
  {
    hide Attributes.ParseAsn, Attributes.ParseBody, AsnBytes;
    assert |AsnBytes(n, as4)| == if as4 then 4 else 2 by { AsnWidth(n, as4); }
    Unframe(0xC0, 7, AsnBytes(n, as4) + addr, rest, as4);
    AggregatorBody(Attributes.AttrBase(0xC0, 7), AsnBytes(n, as4) + addr, rest, n, addr, as4);
  }

  lemma AsnWidth(n: u32, as4: bool)
    requires as4 || n < 65536
    ensures |AsnBytes(n, as4)| == if as4 then 4 else 2
  {
  }

  lemma AggregatorBody(b: Attributes.AttrBase, value: Bytes, rest: Bytes, n: u32, addr: Bytes, as4: bool)
    requires (as4 || n < 65536) && |addr| < 250
    requires value == AsnBytes(n, as4) + addr
    requires b.code == 7
    ensures Attributes.ParseBody(b, |value|, value + rest, as4)
            == if |addr| == 4 || |addr| == 16 then Ok(Attributes.Aggregator(b, n, IpOf(addr)), rest) else Bad(OptionalAttributeError)
  {
    hide Attributes.ParseAsn, AsnBytes, Take;
    AsnWidth(n, as4);
    assert value + rest == AsnBytes(n, as4) + (addr + rest);
    ReadAsn(n, as4, addr + rest);
    TakeInverts(addr, rest);
  }

  /**
   AS4_AGGREGATOR is attribute 18, with four octets of AS number always; with an IPv6 address it comes out as an AGGREGATOR
   of that code, and any other length is refused.
   */
  lemma As4AggregatorBytes(n: u32, addr: Bytes, rest: Bytes, as4: bool)
    requires |addr| < 250
    ensures var b := Attributes.AttrBase(0xC0, 18);
            Attributes.Parse1(Framed(0xC0, 18, AsnBytes(n, true) + addr, rest), as4)
            == if |addr| == 4 then Ok(Attributes.AS4Aggregator(b, n, V4(addr)), rest)
               else if |addr| == 16 then Ok(Attributes.Aggregator(b, n, V6(addr)), rest)
               else Bad(OptionalAttributeError)
  {
    hide Attributes.Parse1, Framed, U32, Take, AsnBytes;
    AsnWidth(n, true);
    var value := AsnBytes(n, true) + addr;
    Unframe(0xC0, 18, value, rest, as4);
    assert value + rest == AsnBytes(n, true) + (addr + rest);
    ReadAsn(n, true, addr + rest);
    TakeInverts(addr, rest);
  }

  /** EXTENDED_COMMUNITIES is attribute 16: the type in the two high octets. */
  lemma ExtendedBytes(a: u8, b: u8, rest: Bytes, as4: bool)
    ensures Attributes.Parse1(Framed(0xC0, 16, [a, b, 0, 0, 0, 0, 0, 1], rest), as4)
            == Ok(Attributes.ExtendedCommunities(Attributes.AttrBase(0xC0, 16), Number16(a, b), 1), rest)
  {
    hide U32;
    var value := [a, b, 0, 0, 0, 0, 0, 1];
    Unframe(0xC0, 16, value, rest, as4);
    assert value + rest == [a, b, 0, 0] + ([0, 0, 0, 1] + rest);
    Read32(a, b, 0, 0, [0, 0, 0, 1] + rest);
    Read32(0, 0, 0, 1, rest);
    var v := Number32(a, b, 0, 0) * 0x1_0000_0000 + 1;
    assert v == Number16(a, b) * 0x1_0000_0000_0000 + 1;
    LowBitOnly(Number16(a, b));
  }

  lemma LowBitOnly(kind: u16)
    ensures Attributes.Mask(kind * 0x1_0000_0000_0000 + 1, 12) == 1
  {
    assert Attributes.Mask(1, 12) == 1 + 16 * Attributes.Mask(0, 11);
    AttributeLaws.MaskTwelve(kind, 1);
  }

  /** A prefix is its length and just the octets that its bits reach into; the others are zero. */
  lemma PrefixBytes(n: u8, octets: Bytes, rest: Bytes)
    requires n <= 32 && |octets| <= 4 && 8 * |octets| - 8 < n <= 8 * |octets|
    ensures Prefixes.Parse1(IPv4, false, [n] + octets + rest)
            == Ok(Prefixes.Prefix(Net4(octets + Prefixes.Zeros(4 - |octets|), n), None), rest)
  {
    var s := [n] + octets + rest;
    assert s[1..] == octets + rest;
    TakeInverts(octets, rest);
  }

  lemma PrefixBytes6(n: u8, octets: Bytes, rest: Bytes)
    requires n <= 128 && |octets| <= 16 && 8 * |octets| - 8 < n <= 8 * |octets|
    ensures Prefixes.Parse1(IPv6, false, [n] + octets + rest)
            == Ok(Prefixes.Prefix(Net6(octets + Prefixes.Zeros(16 - |octets|), n), None), rest)
  {
    var s := [n] + octets + rest;
    assert s[1..] == octets + rest;
    TakeInverts(octets, rest);
  }

  /** One prefix that reads back alone is a list of one. */
  lemma OnePrefix(afi: Afi, p: Prefixes.Prefix, encoded: Bytes, rest: Bytes)
    requires |encoded| > 0 && Prefixes.Parse1(afi, false, encoded + rest) == Ok(p, rest)
    ensures Prefixes.ParseMany(afi, encoded + rest, |rest|) == Ok([p], rest)
  {
    hide Prefixes.Parse1;
    assert Prefixes.ParseMany(afi, rest, |rest|) == Ok([], rest);
    assert [p] + [] == [p];
  }

  /** Families by number: AFI 1 and 2 are IPv4 and IPv6, SAFI 1 and 2 are unicast and multicast. */
  predicate Numbered(f: AddressFamily, afi: u8, safi: u8) {
    && ((afi == 1 && f.afi == IPv4) || (afi == 2 && f.afi == IPv6))
    && ((safi == 1 && f.safi == Unicast) || (safi == 2 && f.safi == Multicast))
  }

  lemma ReadFamily(f: AddressFamily, afi: u8, safi: u8, rest: Bytes)
    requires Numbered(f, afi, safi)
    ensures Attributes.ParseFamily([0, afi, safi] + rest) == Ok(f, rest)
  {
    var s := [0, afi, safi] + rest;
    assert s[2..][0] == safi && s[2..][1..] == rest;
  }

  lemma ReadHop(f: AddressFamily, hop: Bytes, rest: Bytes)
    requires |hop| == if f.afi == IPv4 then 4 else 16
    ensures Attributes.ParseAddrs(hop + rest, f.afi, 1) == Ok([if f.afi == IPv4 then V4(hop) else V6(hop)], rest)
  {
    TakeInverts(hop, rest);
    var a := if f.afi == IPv4 then V4(hop) else V6(hop);
    assert Attributes.ParseAddr(hop + rest, f.afi) == Ok(a, rest);
    assert Attributes.ParseAddrs(rest, f.afi, 0) == Ok([], rest);
    assert [a] + [] == [a];
  }

  /** The multiprotocol attributes are optional ones. */
  lemma UnframeMp(code: u8, value: Bytes, rest: Bytes, as4: bool)
    requires code in {14, 15} && |value| < 256
    ensures var b := Attributes.AttrBase(0x80, code);
            Attributes.Parse1(Framed(0x80, code, value, rest), as4)
            == if code == 14 then Attributes.ParseMpReach(b, |value|, value + rest)
               else Attributes.ParseMpUnreach(b, |value|, value + rest)
  {
    hide Attributes.ParseMpReach, Attributes.ParseMpUnreach;
    Unframe(0x80, code, value, rest, as4);
  }

  lemma Remaining(value: Bytes, rest: Bytes)
    requires |rest| < 0x1_0000_0000_0000_0000
    ensures Sub(|value + rest|, |value|) == |rest|
  {
  }

  /** MP_REACH_NLRI is attribute 14: family, next hop length, next hop, a reserved byte, prefixes. */
  lemma ReachBytes(f: AddressFamily, afi: u8, safi: u8, hop: Bytes, prefixes: Bytes, nlri: seq<Prefixes.Prefix>, rest: Bytes,
                   as4: bool)
    requires Numbered(f, afi, safi)
    requires |hop| == if f.afi == IPv4 then 4 else 16
    requires |prefixes| < 200 && |rest| < 0x1_0000_0000_0000_0000
    requires Prefixes.ParseMany(f.afi, prefixes + rest, |rest|) == Ok(nlri, rest)
    ensures Attributes.Parse1(Framed(0x80, 14, [0, afi, safi, |hop|] + hop + [0] + prefixes, rest), as4)
            == Ok(Attributes.MPReachNLRI(Attributes.AttrBase(0x80, 14), f, [if f.afi == IPv4 then V4(hop) else V6(hop)], nlri), rest)
  {
    hide *;
    var value := [0, afi, safi, |hop|] + hop + [0] + prefixes;
    UnframeMp(14, value, rest, as4);
    assert [0, afi, safi] + [|hop|] == [0, afi, safi, |hop|];
    Regroup([0, afi, safi], |hop|, hop, prefixes, rest);
    Remaining(value, rest);
    ReachBody(f, afi, safi, hop, prefixes + rest, Sub(|value + rest|, |value|), |value|);
  }

  lemma Regroup(a: Bytes, n: u8, b: Bytes, c: Bytes, d: Bytes)
    ensures a + [n] + b + [0] + c + d == a + ([n] + (b + ([0] + (c + d))))
  {
  }

  lemma ReachBody(f: AddressFamily, afi: u8, safi: u8, hop: Bytes, s4: Bytes, tail: nat, length: nat)
    requires Numbered(f, afi, safi)
    requires |hop| == if f.afi == IPv4 then 4 else 16
    requires tail == Sub(|[0, afi, safi] + ([|hop|] + (hop + ([0] + s4)))|, length)
    requires Prefixes.ParseMany(f.afi, s4, tail).Ok?
    ensures var nlri := Prefixes.ParseMany(f.afi, s4, tail);
            Attributes.ParseMpReach(Attributes.AttrBase(0x80, 14), length, [0, afi, safi] + ([|hop|] + (hop + ([0] + s4))))
            == Ok(Attributes.MPReachNLRI(Attributes.AttrBase(0x80, 14), f, [if f.afi == IPv4 then V4(hop) else V6(hop)], nlri.value),
                  nlri.rest)
  {
    hide *;
    var s3 := [0] + s4;
    var s2 := hop + s3;
    ReadFamily(f, afi, safi, [|hop|] + s2);
    U8Inverts(|hop|, s2);
    ReadHop(f, hop, s3);
    U8Inverts(0, s4);
    ReachSteps(Attributes.AttrBase(0x80, 14), length, [0, afi, safi] + ([|hop|] + s2), f, [|hop|] + s2, |hop|, s2, s3, s4);
  }

  lemma ReachSteps(b: Attributes.AttrBase, length: nat, s: Bytes, f: AddressFamily, s1: Bytes, n: u8, s2: Bytes, s3: Bytes, s4: Bytes)
    requires n == if f.afi == IPv4 then 4 else 16
    requires Attributes.ParseFamily(s) == Ok(f, s1) && U8(s1) == Ok(n, s2)
    requires Attributes.ParseAddrs(s2, f.afi, 1).Ok? && Attributes.ParseAddrs(s2, f.afi, 1).rest == s3
    requires U8(s3).Ok? && U8(s3).rest == s4
    requires Prefixes.ParseMany(f.afi, s4, Sub(|s|, length)).Ok?
    ensures var nlri := Prefixes.ParseMany(f.afi, s4, Sub(|s|, length));
            Attributes.ParseMpReach(b, length, s)
            == Ok(Attributes.MPReachNLRI(b, f, Attributes.ParseAddrs(s2, f.afi, 1).value, nlri.value), nlri.rest)
  {
    hide U8, Sub, Attributes.ParseFamily, Attributes.ParseAddrs, Prefixes.ParseMany;
  }

  /** MP_UNREACH_NLRI is attribute 15: family and prefixes. */
  lemma UnreachBytes(f: AddressFamily, afi: u8, safi: u8, prefixes: Bytes, withdrawn: seq<Prefixes.Prefix>, rest: Bytes, as4: bool)
    requires Numbered(f, afi, safi)
    requires |prefixes| < 200 && |rest| < 0x1_0000_0000_0000_0000
    requires Prefixes.ParseMany(f.afi, prefixes + rest, |rest|) == Ok(withdrawn, rest)
    ensures Attributes.Parse1(Framed(0x80, 15, [0, afi, safi] + prefixes, rest), as4)
            == Ok(Attributes.MPUnReachNLRI(Attributes.AttrBase(0x80, 15), f, withdrawn), rest)
  {
    hide Sub, Attributes.ParseFamily, Prefixes.ParseMany, Attributes.Parse1, Framed, Numbered;
    var value := [0, afi, safi] + prefixes;
    Remaining(value, rest);
    UnframeMp(15, value, rest, as4);
    assert value + rest == [0, afi, safi] + (prefixes + rest);
    ReadFamily(f, afi, safi, prefixes + rest);
  }

  // ---------------------------------------------------------------- capabilities

  /** Capability 1 names a family, 65 a four-octet AS number, 69 a family and a mode. */
  lemma CapabilityBytes(f: AddressFamily, afi: u8, safi: u8, x: u8, a: u8, b: u8, c: u8, d: u8, rest: Bytes)
    requires Numbered(f, afi, safi)
    ensures Capabilities.Parse1(1, 4, [0, afi, x, safi] + rest) == Ok(Capabilities.MultiProtocol(f), rest)
    ensures Capabilities.Parse1(65, 4, [a, b, c, d] + rest) == Ok(Capabilities.FourOctetASNumber(Number32(a, b, c, d)), rest)
    ensures Capabilities.Parse1(69, 4, [0, afi, safi, x] + rest) == Ok(Capabilities.AddPath(f, x), rest)
  {
    hide U32, Capabilities.ParseGraceful;
    Read32(0, afi, x, safi, rest);
    Read32(a, b, c, d, rest);
    ReadGraceful(f, afi, safi, x, rest);
    assert Number32(0, afi, x, safi) / 0x1_0000 == afi && Number32(0, afi, x, safi) % 0x100 == safi;
  }

  lemma ReadGraceful(f: AddressFamily, afi: u8, safi: u8, x: u8, rest: Bytes)
    requires Numbered(f, afi, safi)
    ensures Capabilities.ParseGraceful([0, afi, safi, x] + rest) == Ok((f, x), rest)
  {
    hide U16, U8;
    assert [0, afi, safi, x] + rest == [0, afi] + ([safi] + ([x] + rest));
    Read16(0, afi, [safi] + ([x] + rest));
    U8Inverts(safi, [x] + rest);
    U8Inverts(x, rest);
    assert Number16(0, afi) == afi;
    assert Capabilities.FamilyFrom(afi, safi) == Success(f);
  }

  /** Capabilities 2, 6 and 70 have no value. */
  lemma EmptyCapabilities(rest: Bytes)
    ensures Capabilities.Parse1(2, 0, rest) == Ok(Capabilities.RouteRefresh, rest)
    ensures Capabilities.Parse1(6, 0, rest) == Ok(Capabilities.BGPExtendedMessage, rest)
    ensures Capabilities.Parse1(70, 0, rest) == Ok(Capabilities.EnhancedRouteRefresh, rest)
  {
  }

  /** Capability 5 maps a family to the AFI of its next hops. */
  lemma HopCapability(f: AddressFamily, afi: u8, safi: u8, x: u8, a: u8, b: u8, rest: Bytes)
    requires Numbered(f, afi, safi)
    ensures Capabilities.Parse1(5, 6, [0, afi, x, safi, a, b] + rest)
            == Ok(Capabilities.ExtendedNextHop([(f, Number16(a, b))]), rest)
  {
    hide U16;
    var s := [0, afi, x, safi, a, b] + rest;
    assert s == [0, afi] + ([x, safi] + ([a, b] + rest));
    Read16(0, afi, [x, safi] + ([a, b] + rest));
    Read16(x, safi, [a, b] + rest);
    Read16(a, b, rest);
    assert Number16(x, safi) % 0x100 == safi;
    assert Capabilities.ParseHop(s) == Ok((f, Number16(a, b)), rest);
    assert Capabilities.ParseHops(rest, |rest|) == Ok([], rest);
    assert [(f, Number16(a, b))] + [] == [(f, Number16(a, b))];
  }

  /** Capability 64: four bits of flags and twelve of time, then a family with its own flags. */
  lemma RestartCapability(f: AddressFamily, afi: u8, safi: u8, x: u8, a: u8, b: u8, rest: Bytes)
    requires Numbered(f, afi, safi)
    ensures Capabilities.Parse1(64, 6, [a, b, 0, afi, safi, x] + rest)
            == Ok(Capabilities.GracefulRestart(a / 16, a % 16 * 256 + b, [(f, x)]), rest)
  {
    hide U16, Capabilities.ParseGraceful;
    var s := [a, b, 0, afi, safi, x] + rest;
    var more := [0, afi, safi, x] + rest;
    assert s == [a, b] + more;
    Read16(a, b, more);
    ReadGraceful(f, afi, safi, x, rest);
    assert Capabilities.ParseGracefuls(rest, |rest|) == Ok([], rest);
    assert [(f, x)] + [] == [(f, x)];
    assert Number16(a, b) / 0x1000 == a / 16 && Number16(a, b) % 0x1000 == a % 16 * 256 + b;
  }

  /** Any other capability is kept as it came; one shorter than it says is refused. */
  lemma OtherCapability(code: u8, data: Bytes, rest: Bytes)
    requires code !in {1, 2, 5, 6, 64, 65, 69, 70} && |data| < 256
    ensures Capabilities.Parse1(code, |data|, data + rest) == Ok(Capabilities.Unsupported(code, data), rest)
  {
    TakeInverts(data, rest);
  }

  // ---------------------------------------------------------------- messages

  /** Sixteen bytes of ones, the length and the type. */
  function Header(hi: u8, lo: u8, kind: u8): Bytes {
    [0xFF, 0xFF, 0xFF, 0xFF, 0xFF, 0xFF, 0xFF, 0xFF, 0xFF, 0xFF, 0xFF, 0xFF, 0xFF, 0xFF, 0xFF, 0xFF, hi, lo, kind]
  }

  lemma Unhead(hi: u8, lo: u8, kind: u8, s: Bytes, as4: bool)
    ensures ParseMsg(Header(hi, lo, kind) + s, as4)
            == if Number16(hi, lo) < 19 then Bad(BadMessageLength(Number16(hi, lo)))
               else ParsePayload(kind, s, Sub(19 + |s|, Number16(hi, lo)), Number16(hi, lo), as4)
  {
    hide ParsePayload, Sub;
    var m := Header(hi, lo, kind) + s;
    assert m[..16] == Header(hi, lo, kind)[..16] == Marker();
    assert m[19..] == s;
  }

  /** What the header is refused for: too few bytes, a marker that is not all ones, a length below 19. */
  lemma RefusedHeaders(s: Bytes, as4: bool)
    ensures |s| < 19 ==> ParseMsg(s, as4) == Bad(BadMessageLength(|s|))
    ensures |s| >= 19 && ((exists i: nat :: i < 16 && s[i] != 0xFF) || Number16(s[16], s[17]) < 19) ==>
              ParseMsg(s, as4) == Bad(BadMessageLength(Number16(s[16], s[17])))
  {
    hide ParsePayload;
    if |s| >= 19 && exists i: nat :: i < 16 && s[i] != 0xFF {
      var i: nat :| i < 16 && s[i] != 0xFF;
      assert s[..16][i] != 0xFF;
      assert Marker()[i] == 0xFF;
    }
  }

  /** KEEPALIVE is type 4 and nothing more; a type above 5, or 0, is refused. */
  lemma KeepaliveBytes(kind: u8, rest: Bytes, as4: bool)
    ensures ParseMsg(Header(0, 19, 4) + rest, as4) == Ok(Keepalive, rest)
    ensures kind == 0 || kind > 5 ==> ParseMsg(Header(0, 19, kind) + rest, as4) == Bad(BadMessageType(kind))
  {
    hide ParseOpen, ParseUpdate, ParseNotification, ParseRouteRefresh;
    Unhead(0, 19, 4, rest, as4);
    Unhead(0, 19, kind, rest, as4);
  }

  /** ROUTE-REFRESH is type 5: a family, with a reserved byte in the middle. */
  lemma RouteRefreshBytes(f: AddressFamily, afi: u8, safi: u8, x: u8, rest: Bytes, as4: bool)
    requires Numbered(f, afi, safi)
    ensures ParseMsg(Header(0, 23, 5) + ([0, afi, x, safi] + rest), as4) == Ok(RouteRefresh(f), rest)
  {
    hide U32, ParseOpen, ParseUpdate, ParseNotification;
    Unhead(0, 23, 5, [0, afi, x, safi] + rest, as4);
    Read32(0, afi, x, safi, rest);
    assert Number32(0, afi, x, safi) / 0x1_0000 == afi && Number32(0, afi, x, safi) % 0x100 == safi;
  }

  /** No other numbers name a family, and each place that reads one has its own refusal. */
  lemma UnknownFamilies(hi: u8, lo: u8, safi: u8, x: u8, more: Bytes, rest: Bytes, as4: bool)
    requires !(hi == 0 && lo in {1, 2} && safi in {1, 2}) && |more| < 250
    ensures Attributes.Parse1(Framed(0x80, 14, [hi, lo, safi] + more, rest), as4) == Bad(OptionalAttributeError)
    ensures Attributes.Parse1(Framed(0x80, 15, [hi, lo, safi] + more, rest), as4) == Bad(OptionalAttributeError)
    ensures Capabilities.Parse1(1, 4, [hi, lo, x, safi] + rest) == Bad(Unspecific)
    ensures Capabilities.Parse1(69, 4, [hi, lo, safi, x] + rest) == Bad(Unspecific)
    ensures ParseMsg(Header(0, 23, 5) + ([hi, lo, x, safi] + rest), as4) == Bad(RouteRefreshMessageError)
  {
    hide Attributes.Parse1, Framed, U32, ParseMsg, Header, Capabilities.ParseGraceful, Attributes.ParseFamily,
      ParseOpen, ParseUpdate, ParseNotification, Prefixes.ParseMany, Attributes.ParseAddrs;
    UnframeMp(14, [hi, lo, safi] + more, rest, as4);
    UnframeMp(15, [hi, lo, safi] + more, rest, as4);
    Assoc([hi, lo, safi], more, rest);
    NoFamily(hi, lo, safi, x, more + rest);
    NoFamily(hi, lo, safi, x, rest);
    Unhead(0, 23, 5, [hi, lo, x, safi] + rest, as4);
    Read32(hi, lo, x, safi, rest);
    assert Number32(hi, lo, x, safi) / 0x1_0000 == Number16(hi, lo) && Number32(hi, lo, x, safi) % 0x100 == safi;
  }

  lemma NoFamily(hi: u8, lo: u8, safi: u8, x: u8, rest: Bytes)
    requires !(hi == 0 && lo in {1, 2} && safi in {1, 2})
    ensures Make(Number16(hi, lo), safi) == None
    ensures Attributes.ParseFamily([hi, lo, safi] + rest) == Bad(OptionalAttributeError)
    ensures Capabilities.ParseGraceful([hi, lo, safi, x] + rest) == Bad(Unspecific)
  {
    hide U16, U8;
    assert [hi, lo, safi] + rest == [hi, lo] + ([safi] + rest);
    assert [hi, lo, safi, x] + rest == [hi, lo] + ([safi] + ([x] + rest));
    Read16(hi, lo, [safi] + rest);
    Read16(hi, lo, [safi] + ([x] + rest));
    U8Inverts(safi, rest);
    U8Inverts(safi, [x] + rest);
  }

  /** A capability that is longer than what is left is refused. */
  lemma ShortCapability(code: u8, length: u8, s: Bytes)
    requires |s| < length
    ensures Capabilities.Parse1(code, length, s) == Bad(Unspecific)
  {
  }

  /** The notification codes of section 4.5 of RFC 4271, by number. */
  function CodeNumbered(code: u8): Option<NotificationCode> {
    match code
    case 1 => Some(MessageHeader)
    case 2 => Some(OpenMessage)
    case 3 => Some(UpdateMessage)
    case 4 => Some(HoldTimerExpired)
    case 5 => Some(FiniteStateMachine)
    case 6 => Some(Cease)
    case _ => None
  }

  /** Which subcode a pair of bytes stands for. */
  function Subcodes(): map<(u8, u8), SubCode> {
    map[(1, 1) := ConnectionNotSynchronized, (1, 2) := BadLength, (1, 3) := BadType,
        (2, 1) := UnsupportedVersion, (2, 2) := BadPeer, (2, 3) := BadBGPIdentifier, (2, 4) := UnsupportedParameter,
        (2, 6) := UnacceptableHoldTime,
        (3, 1) := MalformedAttributes, (3, 2) := UnrecognizedWellknown, (3, 3) := MissingWellknown, (3, 4) := AttributeFlags,
        (3, 5) := AttributeLength, (3, 6) := InvalidOrigin, (3, 8) := InvalidNextHop, (3, 9) := OptionalAttribute,
        (3, 10) := InvalidNetwork, (3, 11) := MalformedASPath]
  }

  /** NOTIFICATION is type 3: a code, a subcode and data up to the end of the message. */
  lemma NotificationBytes(c: u8, sub: u8, data: Bytes, rest: Bytes, as4: bool)
    requires |data| < 200
    ensures var s := Header(0, 21 + |data|, 3) + ([c, sub] + data + rest);
            ParseMsg(s, as4)
            == match CodeNumbered(c)
               case None => Bad(UnrecognizedNotificationCode)
               case Some(code) =>
                 if c >= 4 then Ok(Notification(code, None, data), rest)
                 else if (c, sub) in Subcodes() then Ok(Notification(code, Some(Subcodes()[(c, sub)]), data), rest)
                 else Bad(UnrecognizedNotificationSubCode)
  {
    hide ParseOpen, ParseUpdate, ParseRouteRefresh, CodeOf, SubCodeOf, CodeNumbered, Subcodes, U8;
    var s := [c, sub] + data + rest;
    assert s == [c] + ([sub] + (data + rest));
    Unhead(0, 21 + |data|, 3, s, as4);
    U8Inverts(c, [sub] + (data + rest));
    U8Inverts(sub, data + rest);
    CodesByNumber(c);
    if CodeNumbered(c).Some? {
      SubcodesByNumber(c, sub);
    }
    assert (data + rest)[..|data|] == data && (data + rest)[|data|..] == rest;
  }

  lemma CodesByNumber(c: u8)
    ensures CodeOf(c) == match CodeNumbered(c)
                         case None => Failure(UnrecognizedNotificationCode)
                         case Some(code) => Success(code)
    ensures CodeNumbered(c).Some? <==> 1 <= c <= 6
  {
  }

  lemma SubcodesByNumber(c: u8, sub: u8)
    requires CodeNumbered(c).Some?
    ensures SubCodeOf(sub, CodeNumbered(c).value)
            == if c >= 4 then Success(None)
               else if (c, sub) in Subcodes() then Success(Some(Subcodes()[(c, sub)]))
               else Failure(UnrecognizedNotificationSubCode)
  {
    if c == 1 {
      HeaderSubcodes(sub);
    } else if c == 2 {
      OpenSubcodes(sub);
    } else if c == 3 {
      UpdateSubcodes(sub);
    }
  }

  lemma HeaderSubcodes(sub: u8)
    ensures SubCodeOf(sub, MessageHeader)
            == if (1, sub) in Subcodes() then Success(Some(Subcodes()[(1, sub)])) else Failure(UnrecognizedNotificationSubCode)
  {
  }

  lemma OpenSubcodes(sub: u8)
    ensures SubCodeOf(sub, OpenMessage)
            == if (2, sub) in Subcodes() then Success(Some(Subcodes()[(2, sub)])) else Failure(UnrecognizedNotificationSubCode)
  {
  }

  lemma UpdateSubcodes(sub: u8)
    ensures SubCodeOf(sub, UpdateMessage)
            == if (3, sub) in Subcodes() then Success(Some(Subcodes()[(3, sub)])) else Failure(UnrecognizedNotificationSubCode)
  {
  }

  /** One optional parameter of type 2 holds a capability; any other type is refused. */
  lemma OptionBytes(t: u8, code: u8, data: Bytes, cap: Cap, rest: Bytes)
    requires |data| < 250 && Capabilities.Parse1(code, |data|, data + rest) == Ok(cap, rest)
    ensures ParseOptions([t, |data| + 2, code, |data|] + data + rest, |rest|)
            == if t == 2 then Ok([cap], rest) else Bad(UnsupportedOptionalParameter)
  {
    hide Capabilities.Parse1, ParseCaps;
    var s2 := [code, |data|] + (data + rest);
    var s := [t] + ([|data| + 2] + s2);
    assert [t, |data| + 2, code, |data|] + data + rest == s;
    U8Inverts(t, [|data| + 2] + s2);
    U8Inverts(|data| + 2, s2);
    CapBytes(code, data, cap, rest);
    assert ParseOptions(rest, |rest|) == Ok([], rest);
    assert [cap] + [] == [cap];
  }

  lemma CapBytes(code: u8, data: Bytes, cap: Cap, rest: Bytes)
    requires |data| < 250 && Capabilities.Parse1(code, |data|, data + rest) == Ok(cap, rest)
    ensures ParseCaps([code, |data|] + (data + rest), |data| + 2, 0) == Ok([cap], rest)
  {
    hide Capabilities.Parse1;
    var s := [code, |data|] + (data + rest);
    assert s[1..][0] == |data| && s[1..][1..] == data + rest;
    assert ParseCaps(rest, |data| + 2, |data| + 2) == Ok([], rest);
    assert [cap] + [] == [cap];
  }

  /** OPEN is type 1: version 4, an AS number that is not zero, the hold time, the identifier and the options. */
  lemma OpenBytes(version: u8, a: u8, b: u8, h: u8, l: u8, id: Octets4, options: Bytes, caps: seq<Cap>, rest: Bytes, as4: bool)
    requires |options| < 200 && |rest| < 0x1_0000_0000_0000_0000
    requires ParseOptions(options + rest, |rest|) == Ok(caps, rest)
    ensures ParseMsg(Header(0, 29 + |options|, 1) + ([version, a, b, h, l] + id + [|options|] + options + rest), as4)
            == if version != 4 then Bad(UnsupportedVersionNumber)
               else if a == 0 && b == 0 then Bad(BadPeerAS)
               else if |options| > |options + rest| % 256 then Bad(BadMessageLength(|options + rest| % 65536))
               else Ok(Open(4, Number16(a, b), Number16(h, l), id, caps), rest)
  {
    hide *;
    var n := |options|;
    var head := [version, a, b, h, l] + id + [n];
    OpenFramed(29 + n, head + options, rest, as4);
    OpenRegroup(version, a, b, h, l, id, n, options + rest);
    Assoc(head, options, rest);
    OpenSteps(version, a, b, h, l, id, n, options + rest, |rest|);
  }

  lemma Assoc(a: Bytes, b: Bytes, c: Bytes)
    ensures a + b + c == a + (b + c)
  {
  }

  lemma OpenRegroup(version: u8, a: u8, b: u8, h: u8, l: u8, id: Octets4, n: u8, s5: Bytes)
    ensures [version, a, b, h, l] + id + [n] + s5 == [version] + ([a, b] + ([h, l] + (id + ([n] + s5))))
  {
  }

  lemma OpenFramed(length: u8, s: Bytes, rest: Bytes, as4: bool)
    requires 19 + |s| == length && |rest| < 0x1_0000_0000_0000_0000
    ensures ParseMsg(Header(0, length, 1) + (s + rest), as4) == ParseOpen(s + rest, |rest|)
  {
    hide ParseUpdate, ParseOpen, ParseNotification, ParseRouteRefresh, Sub;
    Unhead(0, length, 1, s + rest, as4);
    Remaining(Header(0, length, 1) + s, rest);
  }

  lemma OpenSteps(version: u8, a: u8, b: u8, h: u8, l: u8, id: Octets4, n: u8, s5: Bytes, tail: nat)
    requires ParseOptions(s5, tail).Ok?
    ensures var options := ParseOptions(s5, tail);
            ParseOpen([version] + ([a, b] + ([h, l] + (id + ([n] + s5)))), tail)
            == if version != 4 then Bad(UnsupportedVersionNumber)
               else if a == 0 && b == 0 then Bad(BadPeerAS)
               else if n > |s5| % 256 then Bad(BadMessageLength(|s5| % 65536))
               else Ok(Open(4, Number16(a, b), Number16(h, l), id, options.value), options.rest)
  {
    hide U8, U16, Take, ParseOptions;
    U8Inverts(version, [a, b] + ([h, l] + (id + ([n] + s5))));
    Read16(a, b, [h, l] + (id + ([n] + s5)));
    Read16(h, l, id + ([n] + s5));
    TakeInverts(id, [n] + s5);
    U8Inverts(n, s5);
  }

  /** Attributes that are accepted have different codes. */
  lemma {:induction false} AcceptedDistinct(s: Bytes, tail: nat, seen: set<u8>, as4: bool)
    ensures var p := ParseAttrs(s, tail, seen, as4);
            p.Ok? ==> CodecLaws.DistinctCodes(p.value) && forall a <- p.value :: a.base.code !in seen
    decreases |s|
  {
    hide Attributes.Parse1;
    if |s| > tail && Attributes.Parse1(s, as4).Ok? {
      var first := Attributes.Parse1(s, as4);
      var code := first.value.base.code;
      AcceptedDistinct(first.rest, tail, seen + {code}, as4);
      var more := ParseAttrs(first.rest, tail, seen + {code}, as4);
      if code !in seen && more.Ok? {
        assert forall a <- more.value :: a.base.code != code;
      }
    }
  }

  /** Two attributes with one code are refused. */
  lemma RepeatedAttribute(x: Bytes, y: Bytes, rest: Bytes, a: Attribute, b: Attribute, as4: bool)
    requires |y| > 0 && a.base.code == b.base.code
    requires Attributes.Parse1(x + (y + rest), as4) == Ok(a, y + rest)
    requires Attributes.Parse1(y + rest, as4) == Ok(b, rest)
    ensures ParseAttrs(x + (y + rest), |rest|, {}, as4) == Bad(MalformedAttributeList)
  {
    hide Attributes.Parse1;
    assert ParseAttrs(y + rest, |rest|, {a.base.code}, as4) == Bad(MalformedAttributeList);
  }

  /** What an UPDATE with these attributes is refused for, if anything: ORIGIN, AS_PATH and a next hop have to be there. */
  function Missing(attrs: seq<Attribute>): Option<u8> {
    if forall a <- attrs :: a.base.code != 1 then Some(1)
    else if forall a <- attrs :: a.base.code != 2 then Some(2)
    else if forall a <- attrs :: a.base.code != 3 && a.base.code != 14 then Some(3)
    else None
  }

  lemma MandatoryIs(attrs: seq<Attribute>)
    ensures CheckMandatory(Codes(attrs))
            == match Missing(attrs)
               case None => Success(())
               case Some(code) => Failure(MissingWellKnownAttribute(code))
  {
    var codes := Codes(attrs);
    assert forall a <- attrs :: a.base.code in codes;
    assert forall c <- codes :: exists a <- attrs :: a.base.code == c;
  }

  function Length16(s: Bytes): Bytes
    requires |s| < 65536
  {
    [|s| / 256, |s| % 256]
  }

  lemma ReadLength(s: Bytes, rest: Bytes)
    requires |s| < 65536
    ensures U16(Length16(s) + rest) == Ok(|s|, rest)
  {
    Read16(|s| / 256, |s| % 256, rest);
  }

  /** UPDATE is type 2: withdrawn prefixes with their length, attributes with theirs, and prefixes to the end. */
  lemma UpdateBytes(w: Bytes, withdrawn: seq<Prefixes.Prefix>, t: Bytes, attrs: seq<Attribute>, n: Bytes, nlri: seq<Prefixes.Prefix>,
                    rest: Bytes, as4: bool)
    requires |w| < 65536 && |t| < 65536 && |n + rest| < 0x1_0000_0000_0000
    requires var s2 := Length16(t) + (t + (n + rest)); Prefixes.ParseMany(IPv4, w + s2, |s2|) == Ok(withdrawn, s2)
    requires ParseAttrs(t + (n + rest), |n + rest|, {}, as4) == Ok(attrs, n + rest)
    requires Prefixes.ParseMany(IPv4, n + rest, |rest|) == Ok(nlri, rest)
    ensures ParseUpdate(Length16(w) + (w + (Length16(t) + (t + (n + rest)))), |rest|, as4)
            == if t != [] && Missing(attrs).Some? then Bad(MissingWellKnownAttribute(Missing(attrs).value))
               else Ok(Update(withdrawn, attrs, nlri), rest)
  {
    hide Prefixes.ParseMany, ParseAttrSection, U16, Length16, Sub, Missing;
    var s4 := n + rest;
    var s3 := t + s4;
    var s2 := Length16(t) + s3;
    assert |Length16(t)| == 2 by { LengthIsTwo(t); }
    ReadLength(w, w + s2);
    Remaining(w, s2);
    if w == [] {
      assert w + s2 == s2;
      NoPrefixes(s2);
    }
    ReadLength(t, s3);
    SectionBytes(t, attrs, s4, as4);
  }

  lemma LengthIsTwo(s: Bytes)
    requires |s| < 65536
    ensures |Length16(s)| == 2
  {
  }

  lemma NoPrefixes(s: Bytes)
    ensures Prefixes.ParseMany(IPv4, s, |s|) == Ok([], s)
  {
  }

  lemma SectionBytes(t: Bytes, attrs: seq<Attribute>, s4: Bytes, as4: bool)
    requires |s4| < 0x1_0000_0000_0000_0000
    requires ParseAttrs(t + s4, |s4|, {}, as4) == Ok(attrs, s4)
    ensures ParseAttrSection(t + s4, |t|, as4)
            == if t != [] && Missing(attrs).Some? then Bad(MissingWellKnownAttribute(Missing(attrs).value)) else Ok(attrs, s4)
  {
    hide Sub, CheckMandatory, Codes, Missing;
    Remaining(t, s4);
    MandatoryIs(attrs);
    if t == [] {
      assert t + s4 == s4;
    }
  }

  lemma UpdateFramed(hi: u8, lo: u8, s: Bytes, rest: Bytes, as4: bool)
    requires 19 + |s| == Number16(hi, lo) && |rest| < 0x1_0000_0000_0000_0000
    ensures ParseMsg(Header(hi, lo, 2) + (s + rest), as4) == ParseUpdate(s + rest, |rest|, as4)
  {
    hide ParseUpdate, ParseOpen, ParseNotification, ParseRouteRefresh, Sub;
    Unhead(hi, lo, 2, s + rest, as4);
    Remaining(Header(hi, lo, 2) + s, rest);
  }
}
