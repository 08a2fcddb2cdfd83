/** BGP capabilities (`sartd/src/bgp/src/packet/capability.rs`), sections 4 of RFC 5492 and of RFC 2858. */
module Capabilities {
  import opened Base
  import opened Family
  import opened Wire

  datatype Cap =
    | MultiProtocol(family: AddressFamily)
    | RouteRefresh
    | ExtendedNextHop(hops: seq<(AddressFamily, u16)>)
    | BGPExtendedMessage
    | GracefulRestart(flags: u8, time: u16, families: seq<(AddressFamily, u8)>)
    | FourOctetASNumber(asn: u32)
    | AddPath(pathFamily: AddressFamily, mode: u8)
    | EnhancedRouteRefresh
    | Unsupported(code: u8, data: Bytes)

  function Code(c: Cap): u8 {
    match c
    case MultiProtocol(_) => 1
    case RouteRefresh => 2
    case ExtendedNextHop(_) => 5
    case BGPExtendedMessage => 6
    case GracefulRestart(_, _, _) => 64
    case FourOctetASNumber(_) => 65
    case AddPath(_, _) => 69
    case EnhancedRouteRefresh => 70
    case Unsupported(code, _) => code
  }

  function Len(c: Cap): nat {
    match c
    case MultiProtocol(_) => 4
    case RouteRefresh => 0
    case ExtendedNextHop(hops) => 6 * |hops|
    case BGPExtendedMessage => 0
    case GracefulRestart(_, _, families) => 2 + 4 * |families|
    case FourOctetASNumber(_) => 4
    case AddPath(_, _) => 4
    case EnhancedRouteRefresh => 0
    case Unsupported(_, data) => |data|
  }

  // ---------------------------------------------------------------- encoding

  function Hop(h: (AddressFamily, u16)): Bytes {
    Put16(AfiCode(h.0.afi)) + Put16(SafiCode(h.0.safi)) + Put16(h.1)
  }

  function Hops(hops: seq<(AddressFamily, u16)>): Bytes {
    if hops == [] then [] else Hop(hops[0]) + Hops(hops[1..])
  }

  function Graceful(f: (AddressFamily, u8)): Bytes {
    Put16(AfiCode(f.0.afi)) + [SafiCode(f.0.safi), f.1]
  }

  function Gracefuls(fs: seq<(AddressFamily, u8)>): Bytes {
    if fs == [] then [] else Graceful(fs[0]) + Gracefuls(fs[1..])
  }

  /** The capability's value, after its code and length bytes. */
  function Body(c: Cap): Bytes {
    match c
    case MultiProtocol(family) => Put32(ToU32(family))
    case RouteRefresh => []
    case ExtendedNextHop(hops) => Hops(hops)
    case BGPExtendedMessage => []
    case GracefulRestart(flags, time, families) =>
      Put16(flags * 0x1000 % 0x1_0000 + time % 0x1000) + Gracefuls(families)
    case FourOctetASNumber(asn) => Put32(asn)
    case AddPath(family, mode) => Graceful((family, mode))
    case EnhancedRouteRefresh => []
    case Unsupported(_, data) => data
  }

  function Encode(c: Cap): Bytes {
    [Code(c), Len(c) % 0x100] + Body(c)
  }

  // ---------------------------------------------------------------- decoding

  function FamilyFrom(afi: u16, safi: u8): Result<AddressFamily, Error> {
    match Make(afi, safi)
    case Some(f) => Success(f)
    case None => Failure(Unspecific)
  }

  function ParseHop(s: Bytes): Parse<(AddressFamily, u16)> {
    var (afi, s1) :- U16(s);
    var (safi, s2) :- U16(s1);
    match FamilyFrom(afi, safi % 0x100)
    case Failure(e) => Bad(e)
    case Success(family) =>
      var (next, s3) :- U16(s2);
      Ok((family, next), s3)
  }

  function ParseGraceful(s: Bytes): Parse<(AddressFamily, u8)> {
    var (afi, s1) :- U16(s);
    var (safi, s2) :- U8(s1);
    match FamilyFrom(afi, safi)
    case Failure(e) => Bad(e)
    case Success(family) =>
      var (flags, s3) :- U8(s2);
      Ok((family, flags), s3)
  }

  function ParseHops(s: Bytes, tail: nat): (p: Parse<seq<(AddressFamily, u16)>>)
    ensures p.Ok? ==> |p.rest| <= |s|
    decreases |s|
  {
    if |s| <= tail then Ok([], s)
    else
      var (h, s1) :- ParseHop(s);
      Prepend([h], ParseHops(s1, tail))
  }

  function ParseGracefuls(s: Bytes, tail: nat): (p: Parse<seq<(AddressFamily, u8)>>)
    ensures p.Ok? ==> |p.rest| <= |s|
    decreases |s|
  {
    if |s| <= tail then Ok([], s)
    else
      var (f, s1) :- ParseGraceful(s);
      Prepend([f], ParseGracefuls(s1, tail))
  }

  /** `Cap::decode`, after the code and length bytes have been read. */
  function Parse1(code: u8, length: u8, s: Bytes): (p: Parse<Cap>)
    ensures p.Ok? ==> |p.rest| <= |s|
  {
    if |s| < length then Bad(Unspecific)
    else if code == 1 then
      var (v, s1) :- U32(s);
      match FromU32(v)
      case None => Bad(Unspecific)
      case Some(family) => Ok(MultiProtocol(family), s1)
    else if code == 2 then Ok(RouteRefresh, s)
    else if code == 5 then
      var (hops, s1) :- ParseHops(s, |s| - length);
      Ok(ExtendedNextHop(hops), s1)
    else if code == 6 then Ok(BGPExtendedMessage, s)
    else if code == 64 then
      var (v, s1) :- U16(s);
      var (families, s2) :- ParseGracefuls(s1, |s| - length);
      Ok(GracefulRestart(v / 0x1000, v % 0x1000, families), s2)
    else if code == 65 then
      var (asn, s1) :- U32(s);
      Ok(FourOctetASNumber(asn), s1)
    else if code == 69 then
      var (v, s1) :- ParseGraceful(s);
      Ok(AddPath(v.0, v.1), s1)
    else if code == 70 then Ok(EnhancedRouteRefresh, s)
    else Ok(Unsupported(code, s[..length]), s[length..])
  }

  // ---------------------------------------------------------------- the decoder in place

  method DecodeGraceful(src: BytesMut) returns (r: Result<(AddressFamily, u8), Error>)
    modifies src
    ensures Agrees(r, src.data, ParseGraceful(old(src.data)))
  {
    var afi :- src.GetU16();
    var safi :- src.GetU8();
    var family :- FamilyFrom(afi, safi);
    var flags :- src.GetU8();
    r := Success((family, flags));
  }

  method DecodeGracefuls(src: BytesMut, tail: nat) returns (r: Result<seq<(AddressFamily, u8)>, Error>)
    modifies src
    ensures Agrees(r, src.data, ParseGracefuls(old(src.data), tail))
  {
    var values := [];
    ghost var whole := ParseGracefuls(src.data, tail);
    PrependNone(whole);
    while |src.data| > tail
      invariant whole == Prepend(values, ParseGracefuls(src.data, tail))
      decreases |src.data|
    {
      var v :- DecodeGraceful(src);
      PrependOne(values, v, ParseGracefuls(src.data, tail));
      values := values + [v];
    }
    assert values + [] == values;
    r := Success(values);
  }

  method DecodeHops(src: BytesMut, tail: nat) returns (r: Result<seq<(AddressFamily, u16)>, Error>)
    modifies src
    ensures Agrees(r, src.data, ParseHops(old(src.data), tail))
  {
    var values := [];
    ghost var whole := ParseHops(src.data, tail);
    PrependNone(whole);
    while |src.data| > tail
      invariant whole == Prepend(values, ParseHops(src.data, tail))
      decreases |src.data|
    {
      ghost var before := src.data;
      var afi :- src.GetU16();
      var safi :- src.GetU16();
      var family :- FamilyFrom(afi, safi % 0x100);
      var next :- src.GetU16();
      assert ParseHop(before) == Ok((family, next), src.data);
      PrependOne(values, (family, next), ParseHops(src.data, tail));
      values := values + [(family, next)];
    }
    assert values + [] == values;
    r := Success(values);
  }

  method Decode(src: BytesMut, code: u8, length: u8) returns (r: Result<Cap, Error>)
    modifies src
    ensures Agrees(r, src.data, Parse1(code, length, old(src.data)))
  {
    if |src.data| < length {
      return Failure(Unspecific);
    }
    var remain := |src.data|;
    match code {
      case 1 =>
        var v :- src.GetU32();
        match FromU32(v) {
          case None => r := Failure(Unspecific);
          case Some(family) => r := Success(MultiProtocol(family));
        }
      case 2 => r := Success(RouteRefresh);
      case 5 =>
        var hops :- DecodeHops(src, remain - length);
        r := Success(ExtendedNextHop(hops));
      case 6 => r := Success(BGPExtendedMessage);
      case 64 =>
        var v :- src.GetU16();
        var families :- DecodeGracefuls(src, remain - length);
        r := Success(GracefulRestart(v / 0x1000, v % 0x1000, families));
      case 65 =>
        var asn :- src.GetU32();
        r := Success(FourOctetASNumber(asn));
      case 69 =>
        var v :- DecodeGraceful(src);
        r := Success(AddPath(v.0, v.1));
      case 70 => r := Success(EnhancedRouteRefresh);
      case _ =>
        r := Success(Unsupported(code, src.data[..length]));
        src.data := src.data[length..];
    }
  }

  // ---------------------------------------------------------------- laws

  /** The fields fit their wire widths, the length fits one option, and an unknown code is unknown. */
  predicate WellFormed(c: Cap) {
    && Len(c) <= 253
    && (c.GracefulRestart? ==> c.flags < 0x10 && c.time < 0x1000)
    && (c.Unsupported? ==> c.code !in {1, 2, 5, 6, 64, 65, 69, 70})
  }

  lemma {:induction false} HopsLen(hops: seq<(AddressFamily, u16)>)
    ensures |Hops(hops)| == 6 * |hops|
  {
    if hops != [] {
      HopsLen(hops[1..]);
    }
  }

  lemma {:induction false} GracefulsLen(fs: seq<(AddressFamily, u8)>)
    ensures |Gracefuls(fs)| == 4 * |fs|
  {
    if fs != [] {
      GracefulsLen(fs[1..]);
    }
  }

  lemma LenAgrees(c: Cap)
    ensures |Encode(c)| == 2 + Len(c)
  {
    match c
    case ExtendedNextHop(hops) => HopsLen(hops);
    case GracefulRestart(_, _, fs) => GracefulsLen(fs);
    case _ =>
  }

  lemma GracefulInverts(f: (AddressFamily, u8), rest: Bytes)
    ensures ParseGraceful(Graceful(f) + rest) == Ok(f, rest)
  {
    hide U16, Put16;
    var tail := [SafiCode(f.0.safi)] + ([f.1] + rest);
    assert Graceful(f) + rest == Put16(AfiCode(f.0.afi)) + tail;
    U16Inverts(AfiCode(f.0.afi), tail);
    U8Inverts(SafiCode(f.0.safi), [f.1] + rest);
    U8Inverts(f.1, rest);
  }

  lemma {:induction false} GracefulsInvert(fs: seq<(AddressFamily, u8)>, rest: Bytes)
    ensures ParseGracefuls(Gracefuls(fs) + rest, |rest|) == Ok(fs, rest)
  {
    if fs == [] {
      assert Gracefuls(fs) + rest == rest;
    } else {
      var more := Gracefuls(fs[1..]) + rest;
      assert Gracefuls(fs) + rest == Graceful(fs[0]) + more;
      GracefulInverts(fs[0], more);
      GracefulsInvert(fs[1..], rest);
      assert [fs[0]] + fs[1..] == fs;
    }
  }

  lemma HopInverts(h: (AddressFamily, u16), rest: Bytes)
    ensures ParseHop(Hop(h) + rest) == Ok(h, rest)
  {
    hide U16, Put16;
    var s2 := Put16(h.1) + rest;
    var s1 := Put16(SafiCode(h.0.safi)) + s2;
    assert Hop(h) + rest == Put16(AfiCode(h.0.afi)) + s1;
    U16Inverts(AfiCode(h.0.afi), s1);
    U16Inverts(SafiCode(h.0.safi), s2);
    U16Inverts(h.1, rest);
  }

  lemma {:induction false} HopsInvert(hops: seq<(AddressFamily, u16)>, rest: Bytes)
    ensures ParseHops(Hops(hops) + rest, |rest|) == Ok(hops, rest)
  {
    if hops == [] {
      assert Hops(hops) + rest == rest;
    } else {
      var more := Hops(hops[1..]) + rest;
      assert Hops(hops) + rest == Hop(hops[0]) + more;
      HopInverts(hops[0], more);
      HopsInvert(hops[1..], rest);
      assert [hops[0]] + hops[1..] == hops;
    }
  }

  /** A well-formed capability is read back from its value bytes, and no byte more is consumed. */
  lemma BodyRoundTrip(c: Cap, rest: Bytes)
    requires WellFormed(c)
    ensures Parse1(Code(c), Len(c), Body(c) + rest) == Ok(c, rest)
  {
    hide U16, U32, Put16, Put32, Hop, ParseHop, Graceful, ParseGraceful;
    LenAgrees(c);
    match c
    case MultiProtocol(f) => U32Inverts(ToU32(f), rest);
    case ExtendedNextHop(hops) => HopsInvert(hops, rest);
    case GracefulRestart(flags, time, fs) =>
      var more := Gracefuls(fs) + rest;
      assert Body(c) + rest == Put16(flags * 0x1000 + time) + more;
      U16Inverts(flags * 0x1000 + time, more);
      GracefulsInvert(fs, rest);
    case FourOctetASNumber(asn) => U32Inverts(asn, rest);
    case AddPath(f, mode) => GracefulInverts((f, mode), rest);
    case Unsupported(_, data) => TakeInverts(data, rest);
    case _ => assert [] + rest == rest;
  }
}
