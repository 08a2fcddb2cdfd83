/** Path attributes (`sartd/src/bgp/src/packet/attribute.rs`), section 4.3 of RFC 4271 and sections 3 and 4 of RFC 4760. */
module Attributes {
  import opened Base
  import opened Net
  import opened Family
  import opened Wire
  import Prefixes

  datatype AttrBase = AttrBase(flag: u8, code: u8)
  datatype ASSegment = ASSegment(segmentType: u8, numbers: seq<u32>)

  datatype Attribute =
    | Origin(base: AttrBase, origin: u8)
    | ASPath(base: AttrBase, segments: seq<ASSegment>)
    | NextHop(base: AttrBase, hop: Octets4)
    | MultiExitDisc(base: AttrBase, med: u32)
    | LocalPref(base: AttrBase, pref: u32)
    | AtomicAggregate(base: AttrBase)
    | Aggregator(base: AttrBase, asn: u32, addr: IpAddr)
    | Communities(base: AttrBase, community: u32)
    | MPReachNLRI(base: AttrBase, family: AddressFamily, hops: seq<IpAddr>, nlri: seq<Prefixes.Prefix>)
    | MPUnReachNLRI(base: AttrBase, family: AddressFamily, withdrawn: seq<Prefixes.Prefix>)
    | ExtendedCommunities(base: AttrBase, kind: u16, extended: u64)
    | AS4Path(base: AttrBase, segments: seq<ASSegment>)
    | AS4Aggregator(base: AttrBase, asn: u32, addr: IpAddr)
    | Unsupported(base: AttrBase, data: Bytes)

  const AS_TRANS: u32 := 23456
  const ORIGIN: u8 := 1
  const AS_PATH: u8 := 2
  const NEXT_HOP: u8 := 3
  const MULTI_EXIT_DISC: u8 := 4
  const LOCAL_PREF: u8 := 5
  const ATOMIC_AGGREGATE: u8 := 6
  const AGGREGATOR: u8 := 7
  const COMMUNITIES: u8 := 8
  const MP_REACH_NLRI: u8 := 14
  const MP_UNREACH_NLRI: u8 := 15
  const EXTENDED_COMMUNITIES: u8 := 16
  const AS4_PATH: u8 := 17
  const AS4_AGGREGATOR: u8 := 18

  const FLAG_OPTIONAL: u8 := 0x80
  const FLAG_TRANSITIVE: u8 := 0x40
  const FLAG_EXTENDED: u8 := 0x10

  const AS_SET: u8 := 1
  const AS_SEQUENCE: u8 := 2

  predicate Optional(b: AttrBase) { b.flag / 0x80 % 2 == 1 }
  predicate Transitive(b: AttrBase) { b.flag / 0x40 % 2 == 1 }
  predicate Extended(b: AttrBase) { b.flag / 0x10 % 2 == 1 }

  /** `Base::validate_attribute_flag`; every code it does not list is refused. */
  predicate FlagOk(b: AttrBase) {
    if b.code == ORIGIN || b.code == AS_PATH || b.code == NEXT_HOP then !Optional(b)
    else if b.code == MULTI_EXIT_DISC then Optional(b) && !Transitive(b)
    else if b.code == LOCAL_PREF || b.code == ATOMIC_AGGREGATE then true
    else if b.code in {AGGREGATOR, COMMUNITIES, MP_REACH_NLRI, MP_UNREACH_NLRI, EXTENDED_COMMUNITIES, AS4_PATH, AS4_AGGREGATOR}
    then Optional(b)
    else false
  }

  // ---------------------------------------------------------------- lengths

  predicate AllEmpty(segments: seq<ASSegment>) {
    forall s <- segments :: s.numbers == []
  }

  function SegmentsLen(segments: seq<ASSegment>, width: nat): nat {
    if segments == [] then 0 else 2 + width * |segments[0].numbers| + SegmentsLen(segments[1..], width)
  }

  function AddrsLen(addrs: seq<IpAddr>): nat {
    if addrs == [] then 0 else |addrs[0].Octets()| + AddrsLen(addrs[1..])
  }

  function Width(as4: bool): nat { if as4 then 4 else 2 }

  /** `Attribute::len`. */
  function Len(a: Attribute, as4: bool): nat {
    match a
    case Origin(_, _) => 1
    case ASPath(_, segments) => if AllEmpty(segments) then 0 else SegmentsLen(segments, Width(as4))
    case NextHop(_, _) => 4
    case MultiExitDisc(_, _) => 4
    case LocalPref(_, _) => 4
    case AtomicAggregate(_) => 0
    case Aggregator(_, _, addr) => Width(as4) + |addr.Octets()|
    case Communities(_, _) => 4
    case MPReachNLRI(_, _, hops, nlri) => 5 + AddrsLen(hops) + Prefixes.LenMany(nlri)
    case MPUnReachNLRI(_, _, withdrawn) => 3 + Prefixes.LenMany(withdrawn)
    case ExtendedCommunities(_, _, _) => 8
    case AS4Path(_, segments) => if AllEmpty(segments) then 0 else SegmentsLen(segments, 4)
    case AS4Aggregator(_, _, addr) => 4 + |addr.Octets()|
    case Unsupported(_, data) => |data|
  }

  // ---------------------------------------------------------------- encoding

  function PutAsn(n: u32, as4: bool): Bytes {
    if as4 then Put32(n) else Put16(n % 0x1_0000)
  }

  function PutAsns(numbers: seq<u32>, as4: bool): Bytes {
    if numbers == [] then [] else PutAsn(numbers[0], as4) + PutAsns(numbers[1..], as4)
  }

  function PutSegment(s: ASSegment, as4: bool): Bytes {
    [s.segmentType, |s.numbers| % 0x100] + PutAsns(s.numbers, as4)
  }

  function PutSegments(segments: seq<ASSegment>, as4: bool): Bytes {
    if segments == [] then [] else PutSegment(segments[0], as4) + PutSegments(segments[1..], as4)
  }

  function PutAddrs(addrs: seq<IpAddr>): Bytes {
    if addrs == [] then [] else addrs[0].Octets() + PutAddrs(addrs[1..])
  }

  function PutFamily(f: AddressFamily): Bytes {
    Put16(AfiCode(f.afi)) + [SafiCode(f.safi)]
  }

  /** The attribute's value, after its flags, code and length. */
  function Body(a: Attribute, as4: bool): Bytes {
    match a
    case Origin(_, val) => [val]
    case ASPath(_, segments) => if AllEmpty(segments) then [] else PutSegments(segments, as4)
    case NextHop(_, hop) => hop
    case MultiExitDisc(_, val) => Put32(val)
    case LocalPref(_, val) => Put32(val)
    case AtomicAggregate(_) => []
    case Aggregator(_, asn, addr) => PutAsn(asn, as4) + addr.Octets()
    case Communities(_, val) => Put32(val)
    case MPReachNLRI(_, family, hops, nlri) =>
      PutFamily(family) + [|hops| * Prefixes.AddrSize(family.afi) % 0x100] + PutAddrs(hops) + [0] + Prefixes.EncodeMany(nlri)
    case MPUnReachNLRI(_, family, withdrawn) => PutFamily(family) + Prefixes.EncodeMany(withdrawn)
    case ExtendedCommunities(_, kind, val) => Put64((kind * 0x1_0000_0000_0000 + val) % 0x1_0000_0000_0000_0000)
    case AS4Path(_, segments) => if AllEmpty(segments) then [] else PutSegments(segments, true)
    case AS4Aggregator(_, asn, addr) => Put32(asn) + addr.Octets()
    case Unsupported(_, data) => data
  }

  function PutLength(b: AttrBase, n: nat): Bytes {
    if Extended(b) then Put16(n % 0x1_0000) else [n % 0x100]
  }

  function Encode(a: Attribute, as4: bool): Bytes {
    [a.base.flag, a.base.code] + PutLength(a.base, Len(a, as4)) + Body(a, as4)
  }

  function EncodeMany(attrs: seq<Attribute>, as4: bool): Bytes {
    if attrs == [] then [] else Encode(attrs[0], as4) + EncodeMany(attrs[1..], as4)
  }

  /** Header and value: three bytes of header, four with the extended length flag. */
  function FullLen(a: Attribute, as4: bool): nat {
    (if Extended(a.base) then 4 else 3) + Len(a, as4)
  }

  function FullLenMany(attrs: seq<Attribute>, as4: bool): nat {
    if attrs == [] then 0 else FullLen(attrs[0], as4) + FullLenMany(attrs[1..], as4)
  }

  // ---------------------------------------------------------------- decoding

  function ParseAsn(s: Bytes, as4: bool): Parse<u32> {
    if as4 then U32(s) else
      var (n, s1) :- U16(s);
      Ok(n, s1)
  }

  function ParseAsns(s: Bytes, count: nat, as4: bool): (p: Parse<seq<u32>>)
    ensures p.Ok? ==> |p.rest| <= |s|
  {
    if count == 0 then Ok([], s)
    else
      var (n, s1) :- ParseAsn(s, as4);
      Prepend([n], ParseAsns(s1, count - 1, as4))
  }

  function ParseSegment(s: Bytes, as4: bool): (p: Parse<ASSegment>)
    ensures p.Ok? ==> |p.rest| < |s|
  {
    var (segmentType, s1) :- U8(s);
    var (count, s2) :- U8(s1);
    var (numbers, s3) :- ParseAsns(s2, count, as4);
    Ok(ASSegment(segmentType, numbers), s3)
  }

  function ParseSegments(s: Bytes, tail: int, as4: bool): (p: Parse<seq<ASSegment>>)
    ensures p.Ok? ==> |p.rest| <= |s|
    decreases |s|
  {
    if |s| <= tail then Ok([], s)
    else
      var (seg, s1) :- ParseSegment(s, as4);
      Prepend([seg], ParseSegments(s1, tail, as4))
  }

  function ParseAddr(s: Bytes, afi: Afi): Parse<IpAddr> {
    match afi
    case IPv4 =>
      var (o, s1) :- Take(s, 4);
      Ok(V4(o), s1)
    case IPv6 =>
      var (o, s1) :- Take(s, 16);
      Ok(V6(o), s1)
  }

  function ParseAddrs(s: Bytes, afi: Afi, count: nat): (p: Parse<seq<IpAddr>>)
    ensures p.Ok? ==> |p.rest| <= |s|
  {
    if count == 0 then Ok([], s)
    else
      var (a, s1) :- ParseAddr(s, afi);
      Prepend([a], ParseAddrs(s1, afi, count - 1))
  }

  function ParseFamily(s: Bytes): Parse<AddressFamily> {
    var (afi, s1) :- U16(s);
    var (safi, s2) :- U8(s1);
    match Make(afi, safi)
    case None => Bad(OptionalAttributeError)
    case Some(family) => Ok(family, s2)
  }

  function ParseAggregator(b: AttrBase, length: nat, s: Bytes, as4: bool): Parse<Attribute> {
    var (asn, s1) :- ParseAsn(s, as4);
    var remain := Sub(length, Width(as4));
    if remain == 4 then
      var (addr, s2) :- ParseAddr(s1, IPv4);
      Ok(Aggregator(b, asn, addr), s2)
    else if remain == 16 then
      var (addr, s2) :- ParseAddr(s1, IPv6);
      Ok(Aggregator(b, asn, addr), s2)
    else Bad(OptionalAttributeError)
  }

  /** The twenty-byte form comes back as an `Aggregator` that keeps the AS4_AGGREGATOR code. */
  function ParseAs4Aggregator(b: AttrBase, length: nat, s: Bytes): Parse<Attribute> {
    if length == 8 then
      var (asn, s1) :- U32(s);
      var (addr, s2) :- ParseAddr(s1, IPv4);
      Ok(AS4Aggregator(b, asn, addr), s2)
    else if length == 20 then
      var (asn, s1) :- U32(s);
      var (addr, s2) :- ParseAddr(s1, IPv6);
      Ok(Aggregator(b, asn, addr), s2)
    else Bad(OptionalAttributeError)
  }

  function ParseMpReach(b: AttrBase, length: nat, s: Bytes): Parse<Attribute> {
    var (family, s1) :- ParseFamily(s);
    var (hopLength, s2) :- U8(s1);
    var (hops, s3) :- ParseAddrs(s2, family.afi, hopLength / Prefixes.AddrSize(family.afi));
    var (_, s4) :- U8(s3);
    var (nlri, s5) :- Prefixes.ParseMany(family.afi, s4, Sub(|s|, length));
    Ok(MPReachNLRI(b, family, hops, nlri), s5)
  }

  function ParseMpUnreach(b: AttrBase, length: nat, s: Bytes): Parse<Attribute> {
    var (family, s1) :- ParseFamily(s);
    var (withdrawn, s2) :- Prefixes.ParseMany(family.afi, s1, Sub(|s|, length));
    Ok(MPUnReachNLRI(b, family, withdrawn), s2)
  }

  /** `v & 0x0000_1111_1111_1111` one nibble at a time: of the low `nibbles` nibbles only the low bit stays. */
  function Mask(v: nat, nibbles: nat): (r: nat)
    ensures r <= v
  {
    if nibbles == 0 then 0 else v % 2 + 16 * Mask(v / 16, nibbles - 1)
  }

  function ParseExtended(b: AttrBase, s: Bytes): Parse<Attribute> {
    var (v, s1) :- U64(s);
    Ok(ExtendedCommunities(b, v / 0x1_0000_0000_0000, Mask(v, 12)), s1)
  }

  function ParseOrigin(b: AttrBase, s: Bytes): Parse<Attribute> {
    var (v, s1) :- U8(s);
    if v > 2 then Bad(InvalidOriginAttribute(v)) else Ok(Origin(b, v), s1)
  }

  function ParseBody(b: AttrBase, length: nat, s: Bytes, as4: bool): (p: Parse<Attribute>)
    ensures p.Ok? ==> |p.rest| <= |s|
  {
    if b.code == ORIGIN then ParseOrigin(b, s)
    else if b.code == AS_PATH then
      var (segments, s1) :- ParseSegments(s, |s| - length, as4);
      Ok(ASPath(b, segments), s1)
    else if b.code == NEXT_HOP then
      var (hop, s1) :- Take(s, 4);
      Ok(NextHop(b, hop), s1)
    else if b.code == MULTI_EXIT_DISC then
      var (v, s1) :- U32(s);
      Ok(MultiExitDisc(b, v), s1)
    else if b.code == LOCAL_PREF then
      var (v, s1) :- U32(s);
      Ok(LocalPref(b, v), s1)
    else if b.code == ATOMIC_AGGREGATE then Ok(AtomicAggregate(b), s)
    else if b.code == AGGREGATOR then ParseAggregator(b, length, s, as4)
    else if b.code == COMMUNITIES then
      var (v, s1) :- U32(s);
      Ok(Communities(b, v), s1)
    else if b.code == EXTENDED_COMMUNITIES then ParseExtended(b, s)
    else if b.code == MP_REACH_NLRI then ParseMpReach(b, length, s)
    else if b.code == MP_UNREACH_NLRI then ParseMpUnreach(b, length, s)
    else if b.code == AS4_PATH then
      var (segments, s1) :- ParseSegments(s, Sub(|s|, length), true);
      Ok(AS4Path(b, segments), s1)
    else if b.code == AS4_AGGREGATOR then ParseAs4Aggregator(b, length, s)
    else if !Optional(b) then Bad(UnrecognizedWellknownAttribute(b.code))
    else Ok(Unsupported(b, s[..Min(length, |s|)]), s[Min(length, |s|)..])
  }

  function Min(a: nat, b: nat): nat { if a < b then a else b }

  function ParseLength(b: AttrBase, s: Bytes): Parse<nat> {
    if Extended(b) then
      var (n, s1) :- U16(s);
      Ok(n, s1)
    else
      var (n, s1) :- U8(s);
      Ok(n, s1)
  }

  function Parse1(s: Bytes, as4: bool): (p: Parse<Attribute>)
    ensures p.Ok? ==> |p.rest| < |s|
  {
    var (flag, s1) :- U8(s);
    var (code, s2) :- U8(s1);
    var b := AttrBase(flag, code);
    var (length, s3) :- ParseLength(b, s2);
    if !FlagOk(b) then Bad(AttributeFlagsError(code, length, flag))
    else ParseBody(b, length, s3, as4)
  }

  // ---------------------------------------------------------------- the decoder in place

  method DecodeAsn(src: BytesMut, as4: bool) returns (r: Result<u32, Error>)
    modifies src
    ensures Agrees(r, src.data, ParseAsn(old(src.data), as4))
  {
    if as4 {
      r := src.GetU32();
    } else {
      var n :- src.GetU16();
      r := Success(n);
    }
  }

  method DecodeAsns(src: BytesMut, count: nat, as4: bool) returns (r: Result<seq<u32>, Error>)
    modifies src
    ensures Agrees(r, src.data, ParseAsns(old(src.data), count, as4))
  {
    var numbers := [];
    ghost var whole := ParseAsns(src.data, count, as4);
    PrependNone(whole);
    for i := 0 to count
      invariant whole == Prepend(numbers, ParseAsns(src.data, count - i, as4))
    {
      var n :- DecodeAsn(src, as4);
      PrependOne(numbers, n, ParseAsns(src.data, count - i - 1, as4));
      numbers := numbers + [n];
    }
    assert numbers + [] == numbers;
    r := Success(numbers);
  }

  /** The segment loops of AS_PATH and AS4_PATH. */
  method DecodeSegments(src: BytesMut, tail: int, as4: bool) returns (r: Result<seq<ASSegment>, Error>)
    modifies src
    ensures Agrees(r, src.data, ParseSegments(old(src.data), tail, as4))
  {
    var segments := [];
    ghost var whole := ParseSegments(src.data, tail, as4);
    PrependNone(whole);
    while |src.data| > tail
      invariant whole == Prepend(segments, ParseSegments(src.data, tail, as4))
      decreases |src.data|
    {
      ghost var before := src.data;
      var segmentType :- src.GetU8();
      var count :- src.GetU8();
      var numbers :- DecodeAsns(src, count, as4);
      var seg := ASSegment(segmentType, numbers);
      assert ParseSegment(before, as4) == Ok(seg, src.data);
      PrependOne(segments, seg, ParseSegments(src.data, tail, as4));
      segments := segments + [seg];
    }
    assert segments + [] == segments;
    r := Success(segments);
  }

  method DecodeAddr(src: BytesMut, afi: Afi) returns (r: Result<IpAddr, Error>)
    modifies src
    ensures Agrees(r, src.data, ParseAddr(old(src.data), afi))
  {
    match afi
    case IPv4 =>
      var o :- src.GetSlice(4);
      r := Success(V4(o));
    case IPv6 =>
      var o :- src.GetSlice(16);
      r := Success(V6(o));
  }

  method DecodeAddrs(src: BytesMut, afi: Afi, count: nat) returns (r: Result<seq<IpAddr>, Error>)
    modifies src
    ensures Agrees(r, src.data, ParseAddrs(old(src.data), afi, count))
  {
    var addrs := [];
    ghost var whole := ParseAddrs(src.data, afi, count);
    PrependNone(whole);
    for i := 0 to count
      invariant whole == Prepend(addrs, ParseAddrs(src.data, afi, count - i))
    {
      var a :- DecodeAddr(src, afi);
      PrependOne(addrs, a, ParseAddrs(src.data, afi, count - i - 1));
      addrs := addrs + [a];
    }
    assert addrs + [] == addrs;
    r := Success(addrs);
  }

  method DecodeFamily(src: BytesMut) returns (r: Result<AddressFamily, Error>)
    modifies src
    ensures Agrees(r, src.data, ParseFamily(old(src.data)))
  {
    var afi :- src.GetU16();
    var safi :- src.GetU8();
    match Make(afi, safi)
    case None => r := Failure(OptionalAttributeError);
    case Some(family) => r := Success(family);
  }

  method DecodeMpReach(src: BytesMut, b: AttrBase, length: nat) returns (r: Result<Attribute, Error>)
    modifies src
    ensures Agrees(r, src.data, ParseMpReach(b, length, old(src.data)))
  {
    var remain := |src.data|;
    var family :- DecodeFamily(src);
    var hopLength :- src.GetU8();
    var hops :- DecodeAddrs(src, family.afi, hopLength / Prefixes.AddrSize(family.afi));
    var _ :- src.GetU8();
    var nlri :- Prefixes.DecodeUntil(src, family.afi, Sub(remain, length));
    r := Success(MPReachNLRI(b, family, hops, nlri));
  }

  method DecodeMpUnreach(src: BytesMut, b: AttrBase, length: nat) returns (r: Result<Attribute, Error>)
    modifies src
    ensures Agrees(r, src.data, ParseMpUnreach(b, length, old(src.data)))
  {
    var remain := |src.data|;
    var family :- DecodeFamily(src);
    var withdrawn :- Prefixes.DecodeUntil(src, family.afi, Sub(remain, length));
    r := Success(MPUnReachNLRI(b, family, withdrawn));
  }

  method DecodeAggregator(src: BytesMut, b: AttrBase, length: nat, as4: bool) returns (r: Result<Attribute, Error>)
    modifies src
    ensures Agrees(r, src.data, ParseAggregator(b, length, old(src.data), as4))
  {
    var asn :- DecodeAsn(src, as4);
    var remain := Sub(length, Width(as4));
    if remain == 4 || remain == 16 {
      var addr :- DecodeAddr(src, if remain == 4 then IPv4 else IPv6);
      r := Success(Aggregator(b, asn, addr));
    } else {
      r := Failure(OptionalAttributeError);
    }
  }

  method DecodeAs4Aggregator(src: BytesMut, b: AttrBase, length: nat) returns (r: Result<Attribute, Error>)
    modifies src
    ensures Agrees(r, src.data, ParseAs4Aggregator(b, length, old(src.data)))
  {
    if length == 8 {
      var asn :- src.GetU32();
      var addr :- DecodeAddr(src, IPv4);
      r := Success(AS4Aggregator(b, asn, addr));
    } else if length == 20 {
      var asn :- src.GetU32();
      var addr :- DecodeAddr(src, IPv6);
      r := Success(Aggregator(b, asn, addr));
    } else {
      r := Failure(OptionalAttributeError);
    }
  }

  method DecodeBody(src: BytesMut, b: AttrBase, length: nat, as4: bool) returns (r: Result<Attribute, Error>)
    modifies src
    ensures Agrees(r, src.data, ParseBody(b, length, old(src.data), as4))
  {
    var remain := |src.data|;
    if b.code == ORIGIN {
      var v :- src.GetU8();
      r := if v > 2 then Failure(InvalidOriginAttribute(v)) else Success(Origin(b, v));
    } else if b.code == AS_PATH {
      var segments :- DecodeSegments(src, remain - length, as4);
      r := Success(ASPath(b, segments));
    } else if b.code == NEXT_HOP {
      var hop :- src.GetSlice(4);
      r := Success(NextHop(b, hop));
    } else if b.code == MULTI_EXIT_DISC {
      var v :- src.GetU32();
      r := Success(MultiExitDisc(b, v));
    } else if b.code == LOCAL_PREF {
      var v :- src.GetU32();
      r := Success(LocalPref(b, v));
    } else if b.code == ATOMIC_AGGREGATE {
      r := Success(AtomicAggregate(b));
    } else if b.code == AGGREGATOR {
      r := DecodeAggregator(src, b, length, as4);
    } else if b.code == COMMUNITIES {
      var v :- src.GetU32();
      r := Success(Communities(b, v));
    } else if b.code == EXTENDED_COMMUNITIES {
      var v :- src.GetU64();
      r := Success(ExtendedCommunities(b, v / 0x1_0000_0000_0000, Mask(v, 12)));
    } else if b.code == MP_REACH_NLRI {
      r := DecodeMpReach(src, b, length);
    } else if b.code == MP_UNREACH_NLRI {
      r := DecodeMpUnreach(src, b, length);
    } else if b.code == AS4_PATH {
      var segments :- DecodeSegments(src, Sub(remain, length), true);
      r := Success(AS4Path(b, segments));
    } else if b.code == AS4_AGGREGATOR {
      r := DecodeAs4Aggregator(src, b, length);
    } else if !Optional(b) {
      r := Failure(UnrecognizedWellknownAttribute(b.code));
    } else {
      var n := Min(length, remain);
      r := Success(Unsupported(b, src.data[..n]));
      src.data := src.data[n..];
    }
  }

  method Decode(src: BytesMut, as4: bool) returns (r: Result<Attribute, Error>)
    modifies src
    ensures Agrees(r, src.data, Parse1(old(src.data), as4))
  {
    var flag :- src.GetU8();
    var code :- src.GetU8();
    var b := AttrBase(flag, code);
    var length: nat;
    if Extended(b) {
      length :- src.GetU16();
    } else {
      length :- src.GetU8();
    }
    if !FlagOk(b) {
      return Failure(AttributeFlagsError(code, length, flag));
    }
    r := DecodeBody(src, b, length, as4);
  }

  // ---------------------------------------------------------------- the encoder in place

  lemma {:induction false} PutAsnsSnoc(numbers: seq<u32>, n: u32, as4: bool)
    ensures PutAsns(numbers + [n], as4) == PutAsns(numbers, as4) + PutAsn(n, as4)
  {
    if numbers != [] {
      PutAsnsSnoc(numbers[1..], n, as4);
      assert (numbers + [n])[1..] == numbers[1..] + [n];
    }
  }

  lemma {:induction false} PutSegmentsSnoc(segments: seq<ASSegment>, s: ASSegment, as4: bool)
    ensures PutSegments(segments + [s], as4) == PutSegments(segments, as4) + PutSegment(s, as4)
  {
    if segments != [] {
      PutSegmentsSnoc(segments[1..], s, as4);
      assert (segments + [s])[1..] == segments[1..] + [s];
    }
  }

  lemma {:induction false} PutAddrsSnoc(addrs: seq<IpAddr>, a: IpAddr)
    ensures PutAddrs(addrs + [a]) == PutAddrs(addrs) + a.Octets()
  {
    if addrs != [] {
      PutAddrsSnoc(addrs[1..], a);
      assert (addrs + [a])[1..] == addrs[1..] + [a];
    }
  }

  method WriteSegment(seg: ASSegment, as4: bool, dst: BytesMut)
    modifies dst
    ensures dst.data == old(dst.data) + PutSegment(seg, as4)
  {
    hide PutAsn;
    dst.PutU8(seg.segmentType);
    dst.PutU8(|seg.numbers| % 0x100);
    ghost var head := [seg.segmentType, |seg.numbers| % 0x100];
    for i := 0 to |seg.numbers|
      invariant dst.data == old(dst.data) + (head + PutAsns(seg.numbers[..i], as4))
    {
      PutAsnsSnoc(seg.numbers[..i], seg.numbers[i], as4);
      assert seg.numbers[..i + 1] == seg.numbers[..i] + [seg.numbers[i]];
      dst.Put(PutAsn(seg.numbers[i], as4));
    }
    assert seg.numbers[..|seg.numbers|] == seg.numbers;
  }

  method WriteSegments(segments: seq<ASSegment>, as4: bool, dst: BytesMut)
    modifies dst
    ensures dst.data == old(dst.data) + PutSegments(segments, as4)
  {
    hide PutSegment;
    for i := 0 to |segments|
      invariant dst.data == old(dst.data) + PutSegments(segments[..i], as4)
    {
      PutSegmentsSnoc(segments[..i], segments[i], as4);
      assert segments[..i + 1] == segments[..i] + [segments[i]];
      WriteSegment(segments[i], as4, dst);
    }
    assert segments[..|segments|] == segments;
  }

  method WriteAddrs(addrs: seq<IpAddr>, dst: BytesMut)
    modifies dst
    ensures dst.data == old(dst.data) + PutAddrs(addrs)
  {
    for i := 0 to |addrs|
      invariant dst.data == old(dst.data) + PutAddrs(addrs[..i])
    {
      PutAddrsSnoc(addrs[..i], addrs[i]);
      assert addrs[..i + 1] == addrs[..i] + [addrs[i]];
      dst.Put(addrs[i].Octets());
    }
    assert addrs[..|addrs|] == addrs;
  }

  method WriteBody(a: Attribute, as4: bool, dst: BytesMut)
    modifies dst
    ensures dst.data == old(dst.data) + Body(a, as4)
  {
    hide PutSegments, PutAddrs, PutFamily, Prefixes.EncodeMany, Put64, Put32, PutAsn;
    match a
    case ASPath(_, segments) =>
      if AllEmpty(segments) {
        return;
      }
      WriteSegments(segments, as4, dst);
    case AS4Path(_, segments) =>
      if AllEmpty(segments) {
        return;
      }
      WriteSegments(segments, true, dst);
    case MPReachNLRI(_, family, hops, nlri) =>
      dst.Put(PutFamily(family));
      dst.PutU8(|hops| * Prefixes.AddrSize(family.afi) % 0x100);
      WriteAddrs(hops, dst);
      dst.PutU8(0);
      Prefixes.Write(nlri, dst);
    case MPUnReachNLRI(_, family, withdrawn) =>
      dst.Put(PutFamily(family));
      Prefixes.Write(withdrawn, dst);
    case _ =>
      dst.Put(Body(a, as4));
  }

  method Write(a: Attribute, as4: bool, dst: BytesMut)
    modifies dst
    ensures dst.data == old(dst.data) + Encode(a, as4)
  {
    hide Body, Len, PutLength;
    dst.PutU8(a.base.flag);
    dst.PutU8(a.base.code);
    dst.Put(PutLength(a.base, Len(a, as4)));
    WriteBody(a, as4, dst);
  }
}
