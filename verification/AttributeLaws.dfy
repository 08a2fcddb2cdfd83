/** Every attribute takes exactly the length it announces, and a well-formed one is read back unchanged. */
module AttributeLaws {
  import opened Base
  import opened Net
  import opened Family
  import opened Wire
  import opened Bits
  import opened Attributes
  import Prefixes

  // ---------------------------------------------------------------- lengths

  lemma {:induction false} AsnsLen(numbers: seq<u32>, as4: bool)
    ensures |PutAsns(numbers, as4)| == Width(as4) * |numbers|
  {
    if numbers != [] {
      AsnsLen(numbers[1..], as4);
    }
  }

  lemma {:induction false} SegmentsLenAgrees(segments: seq<ASSegment>, as4: bool)
    ensures |PutSegments(segments, as4)| == SegmentsLen(segments, Width(as4))
  {
    if segments != [] {
      AsnsLen(segments[0].numbers, as4);
      SegmentsLenAgrees(segments[1..], as4);
    }
  }

  lemma {:induction false} AddrsLenAgrees(addrs: seq<IpAddr>)
    ensures |PutAddrs(addrs)| == AddrsLen(addrs)
  {
    if addrs != [] {
      AddrsLenAgrees(addrs[1..]);
    }
  }

  lemma BodyLenAgrees(a: Attribute, as4: bool)
    ensures |Body(a, as4)| == Len(a, as4)
  {
    match a
    case ASPath(_, segments) => SegmentsLenAgrees(segments, as4);
    case AS4Path(_, segments) => SegmentsLenAgrees(segments, true);
    case MPReachNLRI(_, _, hops, nlri) =>
      AddrsLenAgrees(hops);
      Prefixes.ManyLenAgrees(nlri);
    case MPUnReachNLRI(_, _, withdrawn) => Prefixes.ManyLenAgrees(withdrawn);
    case _ =>
  }

  /** `encode` appends three bytes (four when extended) plus `len`, for every attribute. */
  lemma LenAgrees(a: Attribute, as4: bool)
    ensures |Encode(a, as4)| == FullLen(a, as4)
  {
    hide Body, Len;
    BodyLenAgrees(a, as4);
  }

  lemma {:induction false} ManyLenAgrees(attrs: seq<Attribute>, as4: bool)
    ensures |EncodeMany(attrs, as4)| == FullLenMany(attrs, as4)
  {
    hide Encode, FullLen;
    if attrs != [] {
      LenAgrees(attrs[0], as4);
      ManyLenAgrees(attrs[1..], as4);
    }
  }

  // ---------------------------------------------------------------- well-formedness

  predicate AsnsFit(numbers: seq<u32>, as4: bool) {
    as4 || forall i :: 0 <= i < |numbers| ==> numbers[i] < 0x1_0000
  }

  predicate SegmentsOk(segments: seq<ASSegment>, as4: bool) {
    && (segments == [] || !AllEmpty(segments))
    && forall s <- segments :: |s.numbers| < 0x100 && AsnsFit(s.numbers, as4)
  }

  predicate HopsOk(hops: seq<IpAddr>, afi: Afi) {
    && |hops| * Prefixes.AddrSize(afi) < 0x100
    && forall h <- hops :: h.V4? <==> afi == IPv4
  }

  /** The code is the variant's own and the value survives the width it is written with. */
  predicate ValueOk(a: Attribute, as4: bool) {
    match a
    case Origin(b, val) => b.code == ORIGIN && val <= 2
    case ASPath(b, segments) => b.code == AS_PATH && SegmentsOk(segments, as4)
    case NextHop(b, _) => b.code == NEXT_HOP
    case MultiExitDisc(b, _) => b.code == MULTI_EXIT_DISC
    case LocalPref(b, _) => b.code == LOCAL_PREF
    case AtomicAggregate(b) => b.code == ATOMIC_AGGREGATE
    case Aggregator(b, asn, _) => b.code == AGGREGATOR && (as4 || asn < 0x1_0000)
    case Communities(b, _) => b.code == COMMUNITIES
    case MPReachNLRI(b, f, hops, nlri) =>
      b.code == MP_REACH_NLRI && HopsOk(hops, f.afi) && Prefixes.WellFormed(nlri, f.afi)
    case MPUnReachNLRI(b, f, withdrawn) => b.code == MP_UNREACH_NLRI && Prefixes.WellFormed(withdrawn, f.afi)
    case ExtendedCommunities(b, _, val) => b.code == EXTENDED_COMMUNITIES && Mask(val, 12) == val
    case AS4Path(b, segments) => b.code == AS4_PATH && SegmentsOk(segments, true)
    case AS4Aggregator(b, _, addr) => b.code == AS4_AGGREGATOR && addr.V4?
    case Unsupported(_, _) => false
  }

  predicate WellFormed(a: Attribute, as4: bool) {
    && FlagOk(a.base)
    && Len(a, as4) < (if Extended(a.base) then 0x1_0000 else 0x100)
    && ValueOk(a, as4)
  }

  // ---------------------------------------------------------------- round trips

  lemma AsnInverts(n: u32, as4: bool, rest: Bytes)
    requires as4 || n < 0x1_0000
    ensures ParseAsn(PutAsn(n, as4) + rest, as4) == Ok(n, rest)
  {
    hide U16, U32, Put16, Put32;
    if as4 { U32Inverts(n, rest); } else { U16Inverts(n, rest); }
  }

  lemma {:induction false} AsnsInvert(numbers: seq<u32>, as4: bool, rest: Bytes)
    requires AsnsFit(numbers, as4)
    ensures ParseAsns(PutAsns(numbers, as4) + rest, |numbers|, as4) == Ok(numbers, rest)
  {
    hide ParseAsn, PutAsn;
    if numbers == [] {
      assert PutAsns(numbers, as4) + rest == rest;
    } else {
      var more := PutAsns(numbers[1..], as4) + rest;
      assert PutAsns(numbers, as4) + rest == PutAsn(numbers[0], as4) + more;
      AsnInverts(numbers[0], as4, more);
      AsnsInvert(numbers[1..], as4, rest);
      assert [numbers[0]] + numbers[1..] == numbers;
    }
  }

  lemma {:induction false} PutAsnsConcat(ns: seq<u32>, more: seq<u32>, as4: bool)
    ensures PutAsns(ns + more, as4) == PutAsns(ns, as4) + PutAsns(more, as4)
  {
    hide PutAsn;
    if ns == [] {
      assert ns + more == more;
    } else {
      assert (ns + more)[1..] == ns[1..] + more;
      PutAsnsConcat(ns[1..], more, as4);
    }
  }

  /** What the count byte makes of a segment of any length: its first numbers, modulo 256, with the others left unread. */
  lemma SegmentTruncated(s: ASSegment, as4: bool, rest: Bytes)
    requires AsnsFit(s.numbers, as4)
    ensures var n := |s.numbers| % 0x100;
            ParseSegment(PutSegment(s, as4) + rest, as4)
            == Ok(ASSegment(s.segmentType, s.numbers[..n]), PutAsns(s.numbers[n..], as4) + rest)
  {
    hide ParseAsns, PutAsns;
    var n := |s.numbers| % 0x100;
    var read, left := s.numbers[..n], s.numbers[n..];
    assert read + left == s.numbers;
    PutAsnsConcat(read, left, as4);
    var tail := PutAsns(left, as4) + rest;
    var s2 := PutAsns(read, as4) + tail;
    assert PutSegment(s, as4) + rest == [s.segmentType] + ([n] + s2);
    U8Inverts(s.segmentType, [n] + s2);
    U8Inverts(n, s2);
    AsnsInvert(read, as4, tail);
  }

  /** A segment is read back if and only if its count fits the byte. */
  lemma SegmentRoundTripIff(s: ASSegment, as4: bool, rest: Bytes)
    requires AsnsFit(s.numbers, as4)
    ensures ParseSegment(PutSegment(s, as4) + rest, as4) == Ok(s, rest) <==> |s.numbers| < 0x100
  {
    hide ParseSegment, PutSegment, PutAsns;
    SegmentTruncated(s, as4, rest);
    if |s.numbers| < 0x100 {
      assert s.numbers[..|s.numbers|] == s.numbers && s.numbers[|s.numbers|..] == [];
      NoAsns(as4);
      assert [] + rest == rest;
    } else {
      assert |s.numbers[..|s.numbers| % 0x100]| < |s.numbers|;
    }
  }

  lemma NoAsns(as4: bool)
    ensures PutAsns([], as4) == []
  {
  }

  lemma SegmentNotEmpty(s: ASSegment, as4: bool)
    ensures PutSegment(s, as4) != []
  {
  }

  lemma {:induction false} SegmentsInvert(segments: seq<ASSegment>, as4: bool, rest: Bytes)
    requires forall s <- segments :: |s.numbers| < 0x100 && AsnsFit(s.numbers, as4)
    ensures ParseSegments(PutSegments(segments, as4) + rest, |rest|, as4) == Ok(segments, rest)
  {
    hide ParseSegment, PutSegment, AsnsFit;
    if segments == [] {
      assert PutSegments(segments, as4) + rest == rest;
    } else {
      SegmentNotEmpty(segments[0], as4);
      var more := PutSegments(segments[1..], as4) + rest;
      assert PutSegments(segments, as4) + rest == PutSegment(segments[0], as4) + more;
      SegmentRoundTripIff(segments[0], as4, more);
      SegmentsInvert(segments[1..], as4, rest);
      assert [segments[0]] + segments[1..] == segments;
    }
  }

  lemma AddrInverts(a: IpAddr, rest: Bytes)
    ensures ParseAddr(a.Octets() + rest, if a.V4? then IPv4 else IPv6) == Ok(a, rest)
  {
    TakeInverts(a.Octets(), rest);
  }

  lemma {:induction false} AddrsInvert(addrs: seq<IpAddr>, afi: Afi, rest: Bytes)
    requires forall a <- addrs :: a.V4? <==> afi == IPv4
    ensures ParseAddrs(PutAddrs(addrs) + rest, afi, |addrs|) == Ok(addrs, rest)
  {
    hide ParseAddr, IpAddr.Octets;
    if addrs == [] {
      assert PutAddrs(addrs) + rest == rest;
    } else {
      var more := PutAddrs(addrs[1..]) + rest;
      assert PutAddrs(addrs) + rest == addrs[0].Octets() + more;
      AddrInverts(addrs[0], more);
      AddrsInvert(addrs[1..], afi, rest);
      assert [addrs[0]] + addrs[1..] == addrs;
    }
  }

  lemma FamilyInverts(f: AddressFamily, rest: Bytes)
    ensures ParseFamily(PutFamily(f) + rest) == Ok(f, rest)
  {
    hide U16, Put16;
    assert PutFamily(f) + rest == Put16(AfiCode(f.afi)) + ([SafiCode(f.safi)] + rest);
    U16Inverts(AfiCode(f.afi), [SafiCode(f.safi)] + rest);
    U8Inverts(SafiCode(f.safi), rest);
  }

  lemma Quotient(a: nat, q: nat, r: nat)
    requires a == 16 * q + r && r < 16
    ensures a / 16 == q
  {
  }

  lemma Parity(a: nat, q: nat, r: nat)
    requires a == 2 * q + r && r < 2
    ensures a % 2 == r
  {
  }

  lemma Nibble(m: nat, v: nat)
    ensures (16 * m + v) / 16 == m + v / 16 && (16 * m + v) % 2 == v % 2
  {
    Quotient(16 * m + v, m + v / 16, v % 16);
    Parity(16 * m + v, 8 * m + v / 2, v % 2);
  }

  lemma {:induction false} MaskIgnoresHigh(high: nat, v: nat, nibbles: nat)
    ensures Mask(high * Pow16(nibbles) + v, nibbles) == Mask(v, nibbles)
    decreases nibbles
  {
    hide Mask;
    if nibbles > 0 {
      var m := high * Pow16(nibbles - 1);
      MaskIgnoresHigh(high, v / 16, nibbles - 1);
      MaskNibble(m, v, nibbles);
      assert high * Pow16(nibbles) == 16 * m by { Swap(high, 16, Pow16(nibbles - 1)); }
    } else {
      NoMask(high * Pow16(0) + v);
      NoMask(v);
    }
  }

  lemma NoMask(v: nat)
    ensures Mask(v, 0) == 0
  {
  }

  /** One nibble of a number whose higher nibbles are `m`. */
  lemma MaskNibble(m: nat, v: nat, nibbles: nat)
    requires nibbles > 0 && Mask(m + v / 16, nibbles - 1) == Mask(v / 16, nibbles - 1)
    ensures Mask(16 * m + v, nibbles) == Mask(v, nibbles)
  {
    Nibble(m, v);
  }

  function Pow16(n: nat): nat {
    if n == 0 then 1 else 16 * Pow16(n - 1)
  }

  lemma {:induction false} MaskBound(v: nat, nibbles: nat)
    ensures Mask(v, nibbles) < Pow16(nibbles)
    decreases nibbles
  {
    if nibbles > 0 {
      MaskBound(v / 16, nibbles - 1);
    }
  }

  lemma Pow16Twelve()
    ensures Pow16(12) == 0x1_0000_0000_0000
  {
    assert Pow16(4) == 0x1_0000;
    assert Pow16(8) == 0x1_0000_0000;
  }

  lemma MaskTwelve(kind: u16, v: u64)
    requires Mask(v, 12) == v
    ensures v < 0x1_0000_0000_0000
    ensures Mask(kind * 0x1_0000_0000_0000 + v, 12) == v
  {
    hide Mask, Pow16;
    Pow16Twelve();
    MaskBound(v, 12);
    MaskIgnoresHigh(kind, v, 12);
  }

  lemma ExtendedInverts(a: Attribute, as4: bool, rest: Bytes)
    requires a.ExtendedCommunities? && Mask(a.extended, 12) == a.extended
    ensures ParseExtended(a.base, Body(a, as4) + rest) == Ok(a, rest)
  {
    hide U64, Put64, Mask;
    MaskTwelve(a.kind, a.extended);
    var v := a.kind * 0x1_0000_0000_0000 + a.extended;
    assert v < 0x1_0000_0000_0000_0000;
    U64Inverts(v, rest);
  }

  lemma {:induction false} MaskTwice(v: nat, nibbles: nat)
    ensures Mask(Mask(v, nibbles), nibbles) == Mask(v, nibbles)
    decreases nibbles
  {
    if nibbles > 0 {
      var rest := Mask(v / 16, nibbles - 1);
      MaskTwice(v / 16, nibbles - 1);
      Quotient(16 * rest + v % 2, rest, v % 2);
      Parity(16 * rest + v % 2, 8 * rest, v % 2);
    }
  }

  /** An extended community is read back, if and only if only the lowest bit of each of its low twelve nibbles is set. */
  lemma ExtendedRoundTripIff(a: Attribute, as4: bool, rest: Bytes)
    requires a.ExtendedCommunities?
    ensures ParseExtended(a.base, Body(a, as4) + rest) == Ok(a, rest) <==> Mask(a.extended, 12) == a.extended
  {
    hide Mask, U64, Put64;
    if Mask(a.extended, 12) == a.extended {
      ExtendedInverts(a, as4, rest);
    } else {
      var v := (a.kind * 0x1_0000_0000_0000 + a.extended) % 0x1_0000_0000_0000_0000;
      U64Inverts(v, rest);
      MaskTwice(v, 12);
    }
  }

  lemma FourBits(m: nat, low: nat, i: nat)
    requires low < 16
    ensures Shr(16 * m + low, i + 4) == Shr(m, i)
  {
    var v := 16 * m + low;
    ShrHalf(v, i + 3);
    ShrHalf(v / 2, i + 2);
    ShrHalf(v / 4, i + 1);
    ShrHalf(v / 8, i);
    assert v / 2 / 2 == v / 4 && v / 4 / 2 == v / 8 && v / 8 / 2 == m;
  }

  /** The mask by its bits: of the first `4 * nibbles` bits every fourth stays, and all others go. */
  lemma {:induction false} MaskBits(v: nat, nibbles: nat, i: nat)
    ensures Bit(Mask(v, nibbles), i) <==> i < 4 * nibbles && i % 4 == 0 && Bit(v, i)
    decreases nibbles
  {
    if nibbles == 0 {
      ZeroBit(i);
    } else if i >= 4 {
      MaskBits(v / 16, nibbles - 1, i - 4);
      FourBits(Mask(v / 16, nibbles - 1), v % 2, i - 4);
      FourBits(v / 16, v % 16, i - 4);
      assert 16 * (v / 16) + v % 16 == v;
    } else {
      LowBits(v, Mask(v / 16, nibbles - 1), i);
    }
  }

  lemma LowBits(v: nat, m: nat, i: nat)
    requires i < 4
    ensures Bit(v % 2 + 16 * m, i) <==> i == 0 && Bit(v, i)
  {
    var w := v % 2 + 16 * m;
    LowBit(w);
    LowBit(v);
    if i > 0 {
      ShrHalf(w, i - 1);
      assert w / 2 == 8 * m;
      if i > 1 {
        ShrHalf(8 * m, i - 2);
        if i > 2 {
          ShrHalf(4 * m, 0);
        }
      }
    }
  }

  /** The community value 2 is read back as 0. */
  lemma ExtendedBitsAreLost(b: AttrBase, rest: Bytes)
    ensures var a := ExtendedCommunities(b, 0, 2);
            ParseExtended(b, Body(a, false) + rest) != Ok(a, rest)
  {
    assert Mask(2, 12) == 16 * Mask(0, 11);
    ExtendedRoundTripIff(ExtendedCommunities(b, 0, 2), false, rest);
  }

  lemma MpReachParts(a: Attribute, length: nat, s: Bytes, rest: Bytes)
    requires a.MPReachNLRI? && HopsOk(a.hops, a.family.afi) && Prefixes.WellFormed(a.nlri, a.family.afi) && |s| < 0x1_0000_0000_0000_0000
    requires s == PutFamily(a.family)
                  + ([|a.hops| * Prefixes.AddrSize(a.family.afi)]
                     + (PutAddrs(a.hops) + ([0] + (Prefixes.EncodeMany(a.nlri) + rest))))
    requires Sub(|s|, length) == |rest|
    ensures ParseMpReach(a.base, length, s) == Ok(a, rest)
  {
    hide ParseFamily, PutFamily, PutAddrs, ParseAddrs, Prefixes.ParseMany, Prefixes.EncodeMany, Sub, U8;
    var size := Prefixes.AddrSize(a.family.afi);
    var s3 := [0] + (Prefixes.EncodeMany(a.nlri) + rest);
    var s2 := PutAddrs(a.hops) + s3;
    FamilyInverts(a.family, [|a.hops| * size] + s2);
    U8Inverts(|a.hops| * size, s2);
    AddrsInvert(a.hops, a.family.afi, s3);
    U8Inverts(0, Prefixes.EncodeMany(a.nlri) + rest);
    Prefixes.ManyRoundTrip(a.nlri, a.family.afi, rest);
  }

  lemma MpReachInverts(a: Attribute, as4: bool, rest: Bytes)
    requires a.MPReachNLRI? && WellFormed(a, as4) && |Body(a, as4) + rest| < 0x1_0000_0000_0000_0000
    ensures ParseMpReach(a.base, Len(a, as4), Body(a, as4) + rest) == Ok(a, rest)
  {
    hide ParseMpReach, PutFamily, PutAddrs, Prefixes.EncodeMany, AddrsLen, Prefixes.LenMany;
    BodyLenAgrees(a, as4);
    var s := Body(a, as4) + rest;
    assert s == PutFamily(a.family)
                + ([|a.hops| * Prefixes.AddrSize(a.family.afi)]
                   + (PutAddrs(a.hops) + ([0] + (Prefixes.EncodeMany(a.nlri) + rest))));
    MpReachParts(a, Len(a, as4), s, rest);
  }

  lemma MpUnreachInverts(a: Attribute, as4: bool, rest: Bytes)
    requires a.MPUnReachNLRI? && WellFormed(a, as4) && |Body(a, as4) + rest| < 0x1_0000_0000_0000_0000
    ensures ParseMpUnreach(a.base, Len(a, as4), Body(a, as4) + rest) == Ok(a, rest)
  {
    hide ParseFamily, PutFamily, Prefixes.ParseMany, Prefixes.EncodeMany;
    var s1 := Prefixes.EncodeMany(a.withdrawn) + rest;
    assert Body(a, as4) + rest == PutFamily(a.family) + s1;
    FamilyInverts(a.family, s1);
    BodyLenAgrees(a, as4);
    Prefixes.ManyRoundTrip(a.withdrawn, a.family.afi, rest);
  }

  lemma AggregatorInverts(a: Attribute, as4: bool, rest: Bytes)
    requires a.Aggregator? && WellFormed(a, as4)
    ensures ParseAggregator(a.base, Len(a, as4), Body(a, as4) + rest, as4) == Ok(a, rest)
  {
    hide ParseAsn, PutAsn, ParseAddr;
    assert Body(a, as4) + rest == PutAsn(a.asn, as4) + (a.addr.Octets() + rest);
    AsnInverts(a.asn, as4, a.addr.Octets() + rest);
    AddrInverts(a.addr, rest);
  }

  lemma As4AggregatorInverts(a: Attribute, as4: bool, rest: Bytes)
    requires a.AS4Aggregator? && WellFormed(a, as4)
    ensures ParseAs4Aggregator(a.base, Len(a, as4), Body(a, as4) + rest) == Ok(a, rest)
  {
    hide U32, Put32, ParseAddr;
    assert Body(a, as4) + rest == Put32(a.asn) + (a.addr.Octets() + rest);
    U32Inverts(a.asn, a.addr.Octets() + rest);
    AddrInverts(a.addr, rest);
  }

  lemma PathInverts(a: Attribute, as4: bool, rest: Bytes)
    requires (a.ASPath? || a.AS4Path?) && WellFormed(a, as4) && |Body(a, as4) + rest| < 0x1_0000_0000_0000_0000
    ensures ParseBody(a.base, Len(a, as4), Body(a, as4) + rest, as4) == Ok(a, rest)
  {
    hide ParseSegments, PutSegments, Mask, U8, U32, U64, Take, ParseOrigin, ParseAggregator, ParseExtended, ParseMpReach,
      ParseMpUnreach, ParseAs4Aggregator, AsnsFit, SegmentsLen;
    var wide := as4 || a.AS4Path?;
    BodyLenAgrees(a, as4);
    SegmentsInvert(a.segments, wide, rest);
    if a.segments == [] {
      NoSegments(wide);
    }
    assert Body(a, as4) == PutSegments(a.segments, wide);
  }

  lemma NoSegments(as4: bool)
    ensures PutSegments([], as4) == []
  {
  }

  lemma BodyInverts(a: Attribute, as4: bool, rest: Bytes)
    requires WellFormed(a, as4) && |Body(a, as4) + rest| < 0x1_0000_0000_0000_0000
    ensures ParseBody(a.base, Len(a, as4), Body(a, as4) + rest, as4) == Ok(a, rest)
  {
    hide U32, Put32, ParseSegments, PutSegments, ParseMpReach, ParseMpUnreach, ParseAggregator, ParseAs4Aggregator, ParseExtended,
      PutFamily, PutAddrs, Prefixes.EncodeMany, PutAsn, SegmentsLen, AddrsLen, Prefixes.LenMany, Put64;
    match a
    case Origin(_, val) => U8Inverts(val, rest);
    case ASPath(_, _) => PathInverts(a, as4, rest);
    case NextHop(_, hop) => TakeInverts(hop, rest);
    case MultiExitDisc(_, v) => U32Inverts(v, rest);
    case LocalPref(_, v) => U32Inverts(v, rest);
    case AtomicAggregate(_) => assert [] + rest == rest;
    case Aggregator(_, _, _) => AggregatorInverts(a, as4, rest);
    case Communities(_, v) => U32Inverts(v, rest);
    case MPReachNLRI(_, _, _, _) => MpReachInverts(a, as4, rest);
    case MPUnReachNLRI(_, _, _) => MpUnreachInverts(a, as4, rest);
    case ExtendedCommunities(_, _, _) => ExtendedInverts(a, as4, rest);
    case AS4Path(_, _) => PathInverts(a, as4, rest);
    case AS4Aggregator(_, _, _) => As4AggregatorInverts(a, as4, rest);
  }

  lemma LengthInverts(b: AttrBase, n: nat, rest: Bytes)
    requires n < (if Extended(b) then 0x1_0000 else 0x100)
    ensures ParseLength(b, PutLength(b, n) + rest) == Ok(n, rest)
  {
    hide U16, Put16;
    if Extended(b) { U16Inverts(n, rest); } else { U8Inverts(n, rest); }
  }

  /** A well-formed attribute is read back from the front of any buffer, and exactly its bytes are consumed. */
  lemma RoundTrip(a: Attribute, as4: bool, rest: Bytes)
    requires WellFormed(a, as4) && |Encode(a, as4) + rest| < 0x1_0000_0000_0000_0000
    ensures Parse1(Encode(a, as4) + rest, as4) == Ok(a, rest)
  {
    hide Body, Len, ParseBody, ParseLength, PutLength, Extended, FlagOk, ValueOk;
    var s3 := Body(a, as4) + rest;
    var s2 := PutLength(a.base, Len(a, as4)) + s3;
    assert Encode(a, as4) + rest == [a.base.flag] + ([a.base.code] + s2);
    U8Inverts(a.base.flag, [a.base.code] + s2);
    U8Inverts(a.base.code, s2);
    LengthInverts(a.base, Len(a, as4), s3);
    assert a.base == AttrBase(a.base.flag, a.base.code);
    BodyInverts(a, as4, rest);
  }

  lemma KnownBody(b: AttrBase, length: nat, s: Bytes, as4: bool)
    requires FlagOk(b)
    ensures var p := ParseBody(b, length, s, as4);
            p.Ok? ==> !p.value.Unsupported?
  {
    hide ParseSegments, ParseFamily, ParseAddrs, ParseAddr, ParseAsn, Prefixes.ParseMany, U8, U32, U64, Mask, Take;
  }

  /** No unknown attribute gets past the flag check: the decoder's own case for them is never taken. */
  lemma NeverUnsupported(s: Bytes, as4: bool)
    ensures Parse1(s, as4).Ok? ==> !Parse1(s, as4).value.Unsupported?
  {
    hide ParseBody, FlagOk, U8, ParseLength;
    if Parse1(s, as4).Ok? {
      var (flag, s1) := (U8(s).value, U8(s).rest);
      var (code, s2) := (U8(s1).value, U8(s1).rest);
      var b := AttrBase(flag, code);
      KnownBody(b, ParseLength(b, s2).value, ParseLength(b, s2).rest, as4);
    }
  }
}
