/**
 The message codec (`sartd/src/bgp/src/packet/codec.rs`): what `decode` and `encode` compute, and
 the two in place, consuming from and appending to a buffer.
 */
module Codec {
  import opened Base
  import opened Family
  import opened Wire
  import opened Messages
  import Capabilities
  import Attributes
  import Prefixes

  type Cap = Capabilities.Cap
  type Attribute = Attributes.Attribute

  // ---------------------------------------------------------------- decoding

  /** The inner loop of OPEN: capabilities of one option, counted in a byte that wraps. */
  function ParseCaps(s: Bytes, optionLength: u8, l: u8): (p: Parse<seq<Cap>>)
    ensures p.Ok? ==> |p.rest| <= |s|
    decreases |s|
  {
    if optionLength <= l then Ok([], s)
    else
      var (code, s1) :- U8(s);
      var (length, s2) :- U8(s1);
      var (cap, s3) :- Capabilities.Parse1(code, length, s2);
      Prepend([cap], ParseCaps(s3, optionLength, (l + length + 2) % 0x100))
  }

  function ParseOptions(s: Bytes, tail: nat): (p: Parse<seq<Cap>>)
    ensures p.Ok? ==> |p.rest| <= |s|
    decreases |s|
  {
    if |s| <= tail then Ok([], s)
    else
      var (optionType, s1) :- U8(s);
      var (optionLength, s2) :- U8(s1);
      if optionType != OPTION_TYPE_CAPABILITIES then Bad(UnsupportedOptionalParameter)
      else
        var (caps, s3) :- ParseCaps(s2, optionLength, 0);
        Prepend(caps, ParseOptions(s3, tail))
  }

  function ParseOpen(s: Bytes, tail: nat): (p: Parse<Message>)
    ensures p.Ok? ==> |p.rest| <= |s|
  {
    var (version, s1) :- U8(s);
    if version != VERSION then Bad(UnsupportedVersionNumber)
    else
      var (asn, s2) :- U16(s1);
      if asn == 0 then Bad(BadPeerAS)
      else
        var (holdTime, s3) :- U16(s2);
        var (id, s4) :- Take(s3, 4);
        var (optLength, s5) :- U8(s4);
        // the remaining byte count is cast to a byte before it is compared
        if optLength > |s5| % 0x100 then Bad(BadMessageLength(|s5| % 0x1_0000))
        else
          var (caps, s6) :- ParseOptions(s5, tail);
          Ok(Open(version, asn, holdTime, id, caps), s6)
  }

  /** Attributes up to the point where at most `tail` bytes remain; a code seen twice is refused. */
  function ParseAttrs(s: Bytes, tail: nat, seen: set<u8>, as4: bool): (p: Parse<seq<Attribute>>)
    ensures p.Ok? ==> |p.rest| <= |s|
    decreases |s|
  {
    if |s| <= tail then Ok([], s)
    else
      var (a, s1) :- Attributes.Parse1(s, as4);
      if a.base.code in seen then Bad(MalformedAttributeList)
      else Prepend([a], ParseAttrs(s1, tail, seen + {a.base.code}, as4))
  }

  function Codes(attrs: seq<Attribute>): set<u8> {
    set a <- attrs :: a.base.code
  }

  function CheckMandatory(codes: set<u8>): Result<(), Error> {
    if Attributes.ORIGIN !in codes then Failure(MissingWellKnownAttribute(Attributes.ORIGIN))
    else if Attributes.AS_PATH !in codes then Failure(MissingWellKnownAttribute(Attributes.AS_PATH))
    else if Attributes.NEXT_HOP !in codes && Attributes.MP_REACH_NLRI !in codes
    then Failure(MissingWellKnownAttribute(Attributes.NEXT_HOP))
    else Success(())
  }

  function ParseAttrSection(s: Bytes, length: nat, as4: bool): (p: Parse<seq<Attribute>>)
    ensures p.Ok? ==> |p.rest| <= |s|
  {
    if length == 0 then Ok([], s)
    else
      var (attrs, s1) :- ParseAttrs(s, Sub(|s|, length), {}, as4);
      match CheckMandatory(Codes(attrs))
      case Failure(e) => Bad(e)
      case Success(_) => Ok(attrs, s1)
  }

  function ParseUpdate(s: Bytes, tail: nat, as4: bool): (p: Parse<Message>)
    ensures p.Ok? ==> |p.rest| <= |s|
  {
    var (withdrawnLength, s1) :- U16(s);
    var (withdrawn, s2) :- if withdrawnLength == 0 then Ok([], s1)
                           else Prefixes.ParseMany(IPv4, s1, Sub(|s1|, withdrawnLength));
    var (attrLength, s3) :- U16(s2);
    var (attrs, s4) :- ParseAttrSection(s3, attrLength, as4);
    var (nlri, s5) :- Prefixes.ParseMany(IPv4, s4, tail);
    Ok(Update(withdrawn, attrs, nlri), s5)
  }

  function ParseNotification(s: Bytes, messageLength: u16): (p: Parse<Message>)
    ensures p.Ok? ==> |p.rest| <= |s|
  {
    var (c, s1) :- U8(s);
    match CodeOf(c)
    case Failure(e) => Bad(e)
    case Success(code) =>
      var (sc, s2) :- U8(s1);
      match SubCodeOf(sc, code)
      case Failure(e) => Bad(e)
      case Success(subcode) =>
        var n := Attributes.Min((messageLength - HEADER_LENGTH - 2) % 0x1_0000, |s2|);
        Ok(Notification(code, subcode, s2[..n]), s2[n..])
  }

  function ParseRouteRefresh(s: Bytes): (p: Parse<Message>)
    ensures p.Ok? ==> |p.rest| <= |s|
  {
    var (v, s1) :- U32(s);
    match FromU32(v)
    case None => Bad(RouteRefreshMessageError)
    case Some(family) => Ok(RouteRefresh(family), s1)
  }

  function ParsePayload(messageType: u8, s: Bytes, tail: nat, messageLength: u16, as4: bool): (p: Parse<Message>)
    ensures p.Ok? ==> |p.rest| <= |s|
  {
    if messageType == 1 then ParseOpen(s, tail)
    else if messageType == 2 then ParseUpdate(s, tail, as4)
    else if messageType == 3 then ParseNotification(s, messageLength)
    else if messageType == 4 then Ok(Keepalive, s)
    else if messageType == 5 then ParseRouteRefresh(s)
    else Bad(BadMessageType(messageType))
  }

  /** `decode_msg`. */
  function ParseMsg(s: Bytes, as4: bool): (p: Parse<Message>)
    ensures p.Ok? ==> |p.rest| < |s|
  {
    if |s| < HEADER_LENGTH then Bad(BadMessageLength(|s|))
    else
      var length := Join16(s[16], s[17]);
      if s[..16] != Marker() || length < HEADER_LENGTH then Bad(BadMessageLength(length))
      else ParsePayload(s[18], s[19..], Sub(|s|, length), length, as4)
  }

  /** `Decoder::decode`: messages until the buffer is empty. */
  function ParseStream(s: Bytes, as4: bool): Parse<seq<Message>>
    decreases |s|
  {
    if s == [] then Ok([], s)
    else
      var (m, s1) :- ParseMsg(s, as4);
      Prepend([m], ParseStream(s1, as4))
  }

  // ---------------------------------------------------------------- encoding

  function OptionsLen(caps: seq<Cap>): nat {
    if caps == [] then 0 else 4 + Capabilities.Len(caps[0]) + OptionsLen(caps[1..])
  }

  /** One optional parameter per capability. */
  function PutOption(c: Cap): Bytes {
    [OPTION_TYPE_CAPABILITIES, (Capabilities.Len(c) + 2) % 0x100] + Capabilities.Encode(c)
  }

  function PutOptions(caps: seq<Cap>): Bytes {
    if caps == [] then [] else PutOption(caps[0]) + PutOptions(caps[1..])
  }

  function OpenHead(m: Message): Bytes
    requires m.Open?
  {
    [m.version] + Put16(if m.asNum > 65535 then Attributes.AS_TRANS else m.asNum) + Put16(m.holdTime) + m.identifier
    + [OptionsLen(m.capabilities) % 0x100]
  }

  function Payload(m: Message, as4: bool): Bytes {
    match m
    case Open(_, _, _, _, caps) => OpenHead(m) + PutOptions(caps)
    case Update(withdrawn, attrs, nlri) =>
      Put16(Prefixes.LenMany(withdrawn) % 0x1_0000) + Prefixes.EncodeMany(withdrawn)
      + Put16(Attributes.FullLenMany(attrs, as4) % 0x1_0000) + Attributes.EncodeMany(attrs, as4)
      + Prefixes.EncodeMany(nlri)
    case Keepalive => []
    case Notification(code, subcode, data) => [CodeValue(code), SubCodeByte(subcode)] + data
    case RouteRefresh(family) => Put32(ToU32(family))
  }

  function EncodeMsg(m: Message, as4: bool): Bytes {
    Marker() + Put16((HEADER_LENGTH + |Payload(m, as4)|) % 0x1_0000) + [MessageType(m)] + Payload(m, as4)
  }

  function EncodeStream(ms: seq<Message>, as4: bool): Bytes {
    if ms == [] then [] else EncodeMsg(ms[0], as4) + EncodeStream(ms[1..], as4)
  }

  // ---------------------------------------------------------------- the decoder in place

  method DecodeCaps(src: BytesMut, optionLength: u8) returns (r: Result<seq<Cap>, Error>)
    modifies src
    ensures Agrees(r, src.data, ParseCaps(old(src.data), optionLength, 0))
  {
    hide Capabilities.Parse1;
    var caps := [];
    var l: u8 := 0;
    ghost var whole := ParseCaps(src.data, optionLength, 0);
    PrependNone(whole);
    while optionLength > l
      invariant whole == Prepend(caps, ParseCaps(src.data, optionLength, l))
      decreases |src.data|
    {
      var code :- src.GetU8();
      var length :- src.GetU8();
      l := (l + length + 2) % 0x100;
      var cap :- Capabilities.Decode(src, code, length);
      PrependOne(caps, cap, ParseCaps(src.data, optionLength, l));
      caps := caps + [cap];
    }
    assert caps + [] == caps;
    r := Success(caps);
  }

  lemma PrependMany<T>(ps: seq<T>, qs: seq<T>, p: Parse<seq<T>>)
    ensures Prepend(ps, Prepend(qs, p)) == Prepend(ps + qs, p)
  {
    if p.Ok? {
      assert ps + (qs + p.value) == ps + qs + p.value;
    }
  }

  method DecodeOptions(src: BytesMut, tail: nat) returns (r: Result<seq<Cap>, Error>)
    modifies src
    ensures Agrees(r, src.data, ParseOptions(old(src.data), tail))
  {
    hide ParseCaps;
    var caps := [];
    ghost var whole := ParseOptions(src.data, tail);
    PrependNone(whole);
    while |src.data| > tail
      invariant whole == Prepend(caps, ParseOptions(src.data, tail))
      decreases |src.data|
    {
      var optionType :- src.GetU8();
      var optionLength :- src.GetU8();
      if optionType != OPTION_TYPE_CAPABILITIES {
        return Failure(UnsupportedOptionalParameter);
      }
      var more :- DecodeCaps(src, optionLength);
      PrependMany(caps, more, ParseOptions(src.data, tail));
      caps := caps + more;
    }
    assert caps + [] == caps;
    r := Success(caps);
  }

  method DecodeOpen(src: BytesMut, tail: nat) returns (r: Result<Message, Error>)
    modifies src
    ensures Agrees(r, src.data, ParseOpen(old(src.data), tail))
  {
    hide ParseOptions;
    var version :- src.GetU8();
    if version != VERSION {
      return Failure(UnsupportedVersionNumber);
    }
    var asn :- src.GetU16();
    if asn == 0 {
      return Failure(BadPeerAS);
    }
    var holdTime :- src.GetU16();
    var id :- src.GetSlice(4);
    var optLength :- src.GetU8();
    if optLength > |src.data| % 0x100 {
      return Failure(BadMessageLength(|src.data| % 0x1_0000));
    }
    var caps :- DecodeOptions(src, tail);
    r := Success(Open(version, asn, holdTime, id, caps));
  }

  method DecodeAttrs(src: BytesMut, tail: nat, as4: bool) returns (r: Result<seq<Attribute>, Error>, seen: set<u8>)
    modifies src
    ensures Agrees(r, src.data, ParseAttrs(old(src.data), tail, {}, as4))
    ensures r.Success? ==> seen == Codes(r.value)
  {
    hide Attributes.Parse1;
    var attrs := [];
    seen := {};
    ghost var whole := ParseAttrs(src.data, tail, {}, as4);
    PrependNone(whole);
    while |src.data| > tail
      invariant whole == Prepend(attrs, ParseAttrs(src.data, tail, seen, as4))
      invariant seen == Codes(attrs)
      decreases |src.data|
    {
      var res := Attributes.Decode(src, as4);
      if res.Failure? {
        return Failure(res.error), seen;
      }
      var a := res.value;
      if a.base.code in seen {
        return Failure(MalformedAttributeList), seen;
      }
      PrependOne(attrs, a, ParseAttrs(src.data, tail, seen + {a.base.code}, as4));
      assert Codes(attrs + [a]) == seen + {a.base.code};
      seen := seen + {a.base.code};
      attrs := attrs + [a];
    }
    assert attrs + [] == attrs;
    r := Success(attrs);
  }

  method DecodeUpdate(src: BytesMut, tail: nat, as4: bool) returns (r: Result<Message, Error>)
    modifies src
    ensures Agrees(r, src.data, ParseUpdate(old(src.data), tail, as4))
  {
    hide ParseAttrs, Prefixes.ParseMany, U16, Codes;
    var withdrawnLength :- src.GetU16();
    var withdrawn := [];
    if withdrawnLength > 0 {
      withdrawn :- Prefixes.DecodeUntil(src, IPv4, Sub(|src.data|, withdrawnLength));
    }
    var attrLength :- src.GetU16();
    var attrs := [];
    if attrLength > 0 {
      var res, seen := DecodeAttrs(src, Sub(|src.data|, attrLength), as4);
      attrs :- res;
      var _ :- CheckMandatory(seen);
    }
    var nlri :- Prefixes.DecodeUntil(src, IPv4, tail);
    r := Success(Update(withdrawn, attrs, nlri));
  }

  method DecodeNotification(src: BytesMut, messageLength: u16) returns (r: Result<Message, Error>)
    modifies src
    ensures Agrees(r, src.data, ParseNotification(old(src.data), messageLength))
  {
    hide SubCodeOf, CodeOf;
    var c :- src.GetU8();
    var code :- CodeOf(c);
    var sc :- src.GetU8();
    var subcode :- SubCodeOf(sc, code);
    var n := Attributes.Min((messageLength - HEADER_LENGTH - 2) % 0x1_0000, |src.data|);
    r := Success(Notification(code, subcode, src.data[..n]));
    src.data := src.data[n..];
  }

  method DecodeRouteRefresh(src: BytesMut) returns (r: Result<Message, Error>)
    modifies src
    ensures Agrees(r, src.data, ParseRouteRefresh(old(src.data)))
  {
    hide U32;
    var v :- src.GetU32();
    match FromU32(v)
    case None => r := Failure(RouteRefreshMessageError);
    case Some(family) => r := Success(RouteRefresh(family));
  }

  method DecodeMsg(src: BytesMut, as4: bool) returns (r: Result<Message, Error>)
    modifies src
    ensures Agrees(r, src.data, ParseMsg(old(src.data), as4))
  {
    hide ParseOpen, ParseUpdate, ParseNotification, ParseRouteRefresh, Marker, Join16, Sub;
    var bufLength := |src.data|;
    if bufLength < HEADER_LENGTH {
      return Failure(BadMessageLength(bufLength));
    }
    var marker := src.Advance(16);
    var lengthBytes := src.Advance(2);
    var messageLength := Join16(lengthBytes[0], lengthBytes[1]);
    var tail := Sub(bufLength, messageLength);
    if marker != Marker() || messageLength < HEADER_LENGTH {
      return Failure(BadMessageLength(messageLength));
    }
    var typeByte := src.Advance(1);
    var messageType := typeByte[0];
    if messageType == 1 {
      r := DecodeOpen(src, tail);
    } else if messageType == 2 {
      r := DecodeUpdate(src, tail, as4);
    } else if messageType == 3 {
      r := DecodeNotification(src, messageLength);
    } else if messageType == 4 {
      r := Success(Keepalive);
    } else if messageType == 5 {
      r := DecodeRouteRefresh(src);
    } else {
      r := Failure(BadMessageType(messageType));
    }
  }

  /** `Decoder::decode`; an empty buffer gives no item at all. */
  method Decode(src: BytesMut, as4: bool) returns (r: Result<Option<seq<Message>>, Error>)
    modifies src
    ensures old(src.data) == [] ==> r == Success(None) && src.data == []
    ensures old(src.data) != [] ==>
              match ParseStream(old(src.data), as4)
              case Ok(ms, rest) => r == Success(Some(ms)) && src.data == rest == []
              case Bad(e) => r == Failure(e)
  {
    hide ParseMsg;
    if |src.data| == 0 {
      return Success(None);
    }
    var messages := [];
    ghost var whole := ParseStream(src.data, as4);
    PrependNone(whole);
    while |src.data| > 0
      invariant whole == Prepend(messages, ParseStream(src.data, as4))
      decreases |src.data|
    {
      var m :- DecodeMsg(src, as4);
      PrependOne(messages, m, ParseStream(src.data, as4));
      messages := messages + [m];
    }
    assert messages + [] == messages;
    r := Success(Some(messages));
  }

  // ---------------------------------------------------------------- the encoder in place

  lemma {:induction false} PutOptionsSnoc(caps: seq<Cap>, c: Cap)
    ensures PutOptions(caps + [c]) == PutOptions(caps) + PutOption(c)
  {
    hide PutOption;
    if caps != [] {
      PutOptionsSnoc(caps[1..], c);
      assert (caps + [c])[1..] == caps[1..] + [c];
    }
  }

  lemma {:induction false} EncodeAttrsSnoc(attrs: seq<Attribute>, a: Attribute, as4: bool)
    ensures Attributes.EncodeMany(attrs + [a], as4) == Attributes.EncodeMany(attrs, as4) + Attributes.Encode(a, as4)
  {
    hide Attributes.Encode;
    if attrs != [] {
      EncodeAttrsSnoc(attrs[1..], a, as4);
      assert (attrs + [a])[1..] == attrs[1..] + [a];
    }
  }

  method WriteOptions(caps: seq<Cap>, dst: BytesMut)
    modifies dst
    ensures dst.data == old(dst.data) + PutOptions(caps)
  {
    hide PutOption;
    for i := 0 to |caps|
      invariant dst.data == old(dst.data) + PutOptions(caps[..i])
    {
      PutOptionsSnoc(caps[..i], caps[i]);
      assert caps[..i + 1] == caps[..i] + [caps[i]];
      dst.Put(PutOption(caps[i]));
    }
    assert caps[..|caps|] == caps;
  }

  method WriteAttrs(attrs: seq<Attribute>, as4: bool, dst: BytesMut)
    modifies dst
    ensures dst.data == old(dst.data) + Attributes.EncodeMany(attrs, as4)
  {
    hide Attributes.Encode;
    for i := 0 to |attrs|
      invariant dst.data == old(dst.data) + Attributes.EncodeMany(attrs[..i], as4)
    {
      EncodeAttrsSnoc(attrs[..i], attrs[i], as4);
      assert attrs[..i + 1] == attrs[..i] + [attrs[i]];
      Attributes.Write(attrs[i], as4, dst);
    }
    assert attrs[..|attrs|] == attrs;
  }

  method WriteUpdate(m: Message, as4: bool, dst: BytesMut)
    requires m.Update?
    modifies dst
    ensures dst.data == old(dst.data) + Payload(m, as4)
  {
    hide Put16, Prefixes.EncodeMany, Attributes.EncodeMany, Prefixes.LenMany, Attributes.FullLenMany;
    dst.Put(Put16(Prefixes.LenMany(m.withdrawn) % 0x1_0000));
    Prefixes.Write(m.withdrawn, dst);
    dst.Put(Put16(Attributes.FullLenMany(m.attributes, as4) % 0x1_0000));
    WriteAttrs(m.attributes, as4, dst);
    Prefixes.Write(m.nlri, dst);
  }

  method WritePayload(m: Message, as4: bool, dst: BytesMut)
    modifies dst
    ensures dst.data == old(dst.data) + Payload(m, as4)
  {
    hide OpenHead, PutOptions, Put16, Put32, Prefixes.EncodeMany, Attributes.EncodeMany, Prefixes.LenMany,
      Attributes.FullLenMany, ToU32, CodeValue, SubCodeByte;
    match m
    case Open(_, _, _, _, caps) =>
      dst.Put(OpenHead(m));
      WriteOptions(caps, dst);
    case Update(_, _, _) => WriteUpdate(m, as4, dst);
    case Keepalive =>
    case Notification(code, subcode, data) =>
      dst.PutU8(CodeValue(code));
      dst.PutU8(SubCodeByte(subcode));
      dst.Put(data);
    case RouteRefresh(family) =>
      dst.Put(Put32(ToU32(family)));
  }

  /** `Encoder::encode`: a provisional length goes in the header and is patched once the payload is written. */
  method Encode(m: Message, as4: bool, dst: BytesMut)
    modifies dst
    ensures dst.data == old(dst.data) + EncodeMsg(m, as4)
  {
    hide Payload, Put16, Marker;
    var head := |dst.data|;
    dst.Put(Marker());
    var lengthAt := |dst.data|;
    dst.Put(Put16(HEADER_LENGTH));
    dst.PutU8(MessageType(m));
    WritePayload(m, as4, dst);
    var tail := |dst.data|;
    assert |Marker()| == 16 && |Put16(HEADER_LENGTH)| == 2 by { MarkerLength(); }
    dst.Patch16(lengthAt, (tail - head) % 0x1_0000);
    ghost var after := [MessageType(m)] + Payload(m, as4);
    assert old(dst.data) + Marker() + Put16(HEADER_LENGTH) + after
           == old(dst.data) + Marker() + Put16(HEADER_LENGTH) + [MessageType(m)] + Payload(m, as4);
  }

  lemma MarkerLength()
    ensures |Marker()| == 16 && |Put16(HEADER_LENGTH)| == 2
  {
  }
}
