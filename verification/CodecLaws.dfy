/** What the codec promises: announced lengths are real lengths, and a stream of well-formed messages survives the wire. */
module CodecLaws {
  import opened Base
  import opened Family
  import opened Wire
  import opened Messages
  import opened Codec
  import Capabilities
  import Attributes
  import AttributeLaws
  import Prefixes

  // ---------------------------------------------------------------- well-formed messages

  predicate DistinctCodes(attrs: seq<Attribute>) {
    forall i, j :: 0 <= i < j < |attrs| ==> attrs[i].base.code != attrs[j].base.code
  }

  predicate WellFormed(m: Message, as4: bool) {
    && HEADER_LENGTH + |Payload(m, as4)| < 0x1_0000
    && match m
       case Open(version, asNum, _, _, caps) =>
         version == VERSION && 0 < asNum < 0x1_0000 && OptionsLen(caps) < 0x100 && forall c <- caps :: Capabilities.WellFormed(c)
       case Update(withdrawn, attrs, nlri) =>
         && Prefixes.WellFormed(withdrawn, IPv4) && Prefixes.WellFormed(nlri, IPv4)
         && DistinctCodes(attrs)
         && (forall a <- attrs :: AttributeLaws.WellFormed(a, as4))
         && (attrs == [] || CheckMandatory(Codes(attrs)).Success?)
       case Notification(code, subcode, _) => SubCodeOk(code, subcode)
       case _ => true
  }

  /** What the cast of the remaining byte count demands of an OPEN that is followed by `after` bytes. */
  predicate TailOk(m: Message, after: nat) {
    m.Open? ==> OptionsLen(m.capabilities) + after % 0x100 < 0x100
  }

  predicate TailsOk(ms: seq<Message>, as4: bool) {
    ms == [] || (TailOk(ms[0], |EncodeStream(ms[1..], as4)|) && TailsOk(ms[1..], as4))
  }

  // ---------------------------------------------------------------- OPEN

  lemma {:induction false} OptionsLenAgrees(caps: seq<Cap>)
    ensures |PutOptions(caps)| == OptionsLen(caps)
  {
    if caps != [] {
      Capabilities.LenAgrees(caps[0]);
      OptionsLenAgrees(caps[1..]);
    }
  }

  lemma CapInverts(c: Cap, rest: Bytes)
    requires Capabilities.WellFormed(c)
    ensures ParseCaps(Capabilities.Encode(c) + rest, Capabilities.Len(c) + 2, 0) == Ok([c], rest)
  {
    hide Capabilities.Body, Capabilities.Parse1, Capabilities.Len, Capabilities.Code;
    var n, code := Capabilities.Len(c), Capabilities.Code(c);
    var s2 := Capabilities.Body(c) + rest;
    assert Capabilities.Encode(c) + rest == [code] + ([n] + s2);
    U8Inverts(code, [n] + s2);
    U8Inverts(n, s2);
    Capabilities.BodyRoundTrip(c, rest);
    assert [c] + [] == [c];
  }

  lemma {:induction false} OptionsInvert(caps: seq<Cap>, rest: Bytes)
    requires forall c <- caps :: Capabilities.WellFormed(c)
    ensures ParseOptions(PutOptions(caps) + rest, |rest|) == Ok(caps, rest)
  {
    hide ParseCaps, Capabilities.Encode, Capabilities.WellFormed;
    if caps == [] {
      assert PutOptions(caps) + rest == rest;
    } else {
      var more := PutOptions(caps[1..]) + rest;
      var c := caps[0];
      var n := Capabilities.Len(c) + 2;
      assert n < 0x100 by { assert Capabilities.WellFormed(c); CapShort(c); }
      assert PutOptions(caps) + rest == [OPTION_TYPE_CAPABILITIES] + ([n] + (Capabilities.Encode(c) + more));
      U8Inverts(OPTION_TYPE_CAPABILITIES, [n] + (Capabilities.Encode(c) + more));
      U8Inverts(n, Capabilities.Encode(c) + more);
      CapInverts(c, more);
      OptionsInvert(caps[1..], rest);
      assert [c] + caps[1..] == caps;
    }
  }

  lemma CapShort(c: Cap)
    requires Capabilities.WellFormed(c)
    ensures Capabilities.Len(c) + 2 < 0x100
  {
  }

  /** An OPEN is read back when the cast lets it through, and refused as a bad length when it does not. */
  lemma OpenInverts(m: Message, as4: bool, rest: Bytes)
    requires m.Open? && WellFormed(m, as4)
    ensures TailOk(m, |rest|) ==> ParseOpen(Payload(m, as4) + rest, |rest|) == Ok(m, rest)
    ensures !TailOk(m, |rest|) ==> ParseOpen(Payload(m, as4) + rest, |rest|).Bad?
  {
    hide U16, Put16, ParseOptions, PutOptions, OptionsLen, Capabilities.WellFormed;
    var opts := OptionsLen(m.capabilities);
    var s5 := PutOptions(m.capabilities) + rest;
    var s4 := [opts] + s5;
    var s3 := m.identifier + s4;
    var s2 := Put16(m.holdTime) + s3;
    var s1 := Put16(m.asNum) + s2;
    assert Payload(m, as4) + rest == [m.version] + s1;
    U8Inverts(m.version, s1);
    U16Inverts(m.asNum, s2);
    U16Inverts(m.holdTime, s3);
    TakeInverts(m.identifier, s4);
    U8Inverts(opts, s5);
    OptionsLenAgrees(m.capabilities);
    CastIff(opts, |rest|);
    OptionsInvert(m.capabilities, rest);
  }

  lemma CastIff(options: u8, after: nat)
    ensures options <= (options + after) % 0x100 <==> options + after % 0x100 < 0x100
  {
  }

  // ---------------------------------------------------------------- UPDATE

  lemma {:induction false} AttrsInvert(attrs: seq<Attribute>, seen: set<u8>, as4: bool, rest: Bytes)
    requires forall a <- attrs :: AttributeLaws.WellFormed(a, as4) && a.base.code !in seen
    requires DistinctCodes(attrs)
    requires |Attributes.EncodeMany(attrs, as4) + rest| < 0x1_0000_0000_0000_0000
    ensures ParseAttrs(Attributes.EncodeMany(attrs, as4) + rest, |rest|, seen, as4) == Ok(attrs, rest)
  {
    hide Attributes.Parse1, Attributes.Encode, AttributeLaws.WellFormed;
    if attrs == [] {
      assert Attributes.EncodeMany(attrs, as4) + rest == rest;
    } else {
      var more := Attributes.EncodeMany(attrs[1..], as4) + rest;
      var a := attrs[0];
      assert Attributes.EncodeMany(attrs, as4) + rest == Attributes.Encode(a, as4) + more;
      AttributeLaws.RoundTrip(a, as4, more);
      forall b | b in attrs[1..]
        ensures AttributeLaws.WellFormed(b, as4) && b.base.code !in seen + {a.base.code}
      {
        assert b in attrs;
      }
      assert |Attributes.Encode(a, as4)| > 0 by { NonEmpty(a, as4); }
      AttrsInvert(attrs[1..], seen + {a.base.code}, as4, rest);
      assert [a] + attrs[1..] == attrs;
    }
  }

  lemma NonEmpty(a: Attribute, as4: bool)
    ensures |Attributes.Encode(a, as4)| >= 3
  {
    hide Attributes.Body, Attributes.Len;
  }

  lemma {:induction false} AttrsNonEmpty(attrs: seq<Attribute>, as4: bool)
    requires attrs != []
    ensures |Attributes.EncodeMany(attrs, as4)| > 0
  {
    hide Attributes.Encode;
    NonEmpty(attrs[0], as4);
  }

  lemma NoAttrs(as4: bool)
    ensures Attributes.EncodeMany([], as4) == []
  {
  }

  lemma AttrSectionInverts(attrs: seq<Attribute>, as4: bool, rest: Bytes)
    requires forall a <- attrs :: AttributeLaws.WellFormed(a, as4)
    requires DistinctCodes(attrs) && (attrs == [] || CheckMandatory(Codes(attrs)).Success?)
    requires |Attributes.EncodeMany(attrs, as4) + rest| < 0x1_0000_0000_0000_0000
    ensures ParseAttrSection(Attributes.EncodeMany(attrs, as4) + rest, Attributes.FullLenMany(attrs, as4), as4) == Ok(attrs, rest)
  {
    hide ParseAttrs, AttributeLaws.WellFormed, DistinctCodes, Codes, CheckMandatory, Attributes.EncodeMany, Attributes.FullLenMany;
    AttributeLaws.ManyLenAgrees(attrs, as4);
    if attrs == [] {
      NoAttrs(as4);
      assert Attributes.EncodeMany(attrs, as4) + rest == rest;
    } else {
      AttrsNonEmpty(attrs, as4);
      AttrsInvert(attrs, {}, as4, rest);
    }
  }

  lemma NoPrefixes(ps: seq<Prefixes.Prefix>)
    ensures Prefixes.LenMany(ps) == 0 <==> ps == []
  {
    hide Prefixes.BytesLen;
  }

  lemma WithdrawnInverts(ps: seq<Prefixes.Prefix>, rest: Bytes)
    requires Prefixes.WellFormed(ps, IPv4) && |Prefixes.EncodeMany(ps) + rest| < 0x1_0000_0000_0000_0000
    ensures var s, n := Prefixes.EncodeMany(ps) + rest, Prefixes.LenMany(ps);
            (if n == 0 then Ok([], s) else Prefixes.ParseMany(IPv4, s, Sub(|s|, n))) == Ok(ps, rest)
  {
    hide Prefixes.Encode, Prefixes.LenMany, Prefixes.ParseMany, Prefixes.WellFormed;
    NoPrefixes(ps);
    Prefixes.ManyLenAgrees(ps);
    Prefixes.ManyRoundTrip(ps, IPv4, rest);
    if ps == [] {
      assert Prefixes.EncodeMany(ps) + rest == rest;
    }
  }

  /** The two section lengths written by `encode` are the lengths of the sections. */
  lemma SectionLengths(m: Message, as4: bool)
    requires m.Update? && HEADER_LENGTH + |Payload(m, as4)| < 0x1_0000
    ensures Prefixes.LenMany(m.withdrawn) == |Prefixes.EncodeMany(m.withdrawn)| < 0x1_0000
    ensures Attributes.FullLenMany(m.attributes, as4) == |Attributes.EncodeMany(m.attributes, as4)| < 0x1_0000
  {
    hide Prefixes.EncodeMany, Attributes.EncodeMany, Put16;
    Prefixes.ManyLenAgrees(m.withdrawn);
    AttributeLaws.ManyLenAgrees(m.attributes, as4);
  }

  lemma UpdateInverts(m: Message, as4: bool, rest: Bytes)
    requires m.Update? && WellFormed(m, as4) && |Payload(m, as4) + rest| < 0x1_0000_0000_0000_0000
    ensures ParseUpdate(Payload(m, as4) + rest, |rest|, as4) == Ok(m, rest)
  {
    hide U16, Put16, Prefixes.EncodeMany, Prefixes.ParseMany, Prefixes.LenMany, ParseAttrSection, Prefixes.WellFormed,
      Attributes.EncodeMany, Attributes.FullLenMany, AttributeLaws.WellFormed, DistinctCodes, Codes, CheckMandatory;
    SectionLengths(m, as4);
    var s4 := Prefixes.EncodeMany(m.nlri) + rest;
    var s3 := Attributes.EncodeMany(m.attributes, as4) + s4;
    var n3 := Attributes.FullLenMany(m.attributes, as4);
    var s2 := Put16(n3) + s3;
    var n1 := Prefixes.LenMany(m.withdrawn);
    var s1 := Prefixes.EncodeMany(m.withdrawn) + s2;
    assert Payload(m, as4) + rest == Put16(n1) + s1;
    U16Inverts(n1, s1);
    WithdrawnInverts(m.withdrawn, s2);
    U16Inverts(n3, s3);
    AttrSectionInverts(m.attributes, as4, s4);
    Prefixes.ManyRoundTrip(m.nlri, IPv4, rest);
  }

  // ---------------------------------------------------------------- the other messages

  lemma CodeInverts(c: NotificationCode)
    ensures CodeOf(CodeValue(c)) == Success(c)
  {
  }

  lemma NotificationInverts(m: Message, as4: bool, rest: Bytes)
    requires m.Notification? && WellFormed(m, as4)
    ensures ParseNotification(Payload(m, as4) + rest, HEADER_LENGTH + |Payload(m, as4)|) == Ok(m, rest)
  {
    hide SubCodeOf, SubCodeByte, SubCodeOk, CodeValue, CodeOf, U8;
    CodeInverts(m.code);
    var code, sub := CodeValue(m.code), SubCodeByte(m.subcode);
    assert Payload(m, as4) + rest == [code] + ([sub] + (m.data + rest));
    U8Inverts(code, [sub] + (m.data + rest));
    U8Inverts(sub, m.data + rest);
    SubCodeRoundTripIff(m.code, m.subcode);
    TakeInverts(m.data, rest);
  }

  lemma RouteRefreshInverts(f: AddressFamily, rest: Bytes)
    ensures ParseRouteRefresh(Put32(ToU32(f)) + rest) == Ok(RouteRefresh(f), rest)
  {
    hide U32, Put32;
    U32Inverts(ToU32(f), rest);
  }

  lemma PayloadInverts(m: Message, as4: bool, rest: Bytes)
    requires WellFormed(m, as4) && |Payload(m, as4) + rest| < 0x1_0000_0000_0000_0000
    ensures var p := ParsePayload(MessageType(m), Payload(m, as4) + rest, |rest|, HEADER_LENGTH + |Payload(m, as4)|, as4);
            if TailOk(m, |rest|) then p == Ok(m, rest) else p.Bad?
  {
    hide ParseOpen, ParseUpdate, ParseNotification, ParseRouteRefresh, OpenHead, PutOptions, OptionsLen,
      Prefixes.EncodeMany, Attributes.EncodeMany, Put16, Put32;
    match m
    case Open(_, _, _, _, _) => OpenInverts(m, as4, rest);
    case Update(_, _, _) => UpdateInverts(m, as4, rest);
    case Notification(_, _, _) => NotificationInverts(m, as4, rest);
    case Keepalive => assert [] + rest == rest;
    case RouteRefresh(f) => RouteRefreshInverts(f, rest);
  }

  /**
   One message at the front of a buffer: it is read back with exactly its bytes consumed, unless it is an
   OPEN that the cast of the remaining byte count turns away.
   */
  lemma MsgInverts(m: Message, as4: bool, rest: Bytes)
    requires WellFormed(m, as4) && |EncodeMsg(m, as4) + rest| < 0x1_0000_0000_0000_0000
    ensures if TailOk(m, |rest|) then ParseMsg(EncodeMsg(m, as4) + rest, as4) == Ok(m, rest)
            else ParseMsg(EncodeMsg(m, as4) + rest, as4).Bad?
  {
    hide EncodeMsg, Payload, ParsePayload, WellFormed, TailOk, Marker, MessageType, Join16, Sub;
    Short(m, as4);
    HeaderBytes(m, as4, rest);
    PayloadInverts(m, as4, rest);
  }

  /** The header that `decode_msg` reads is the one that `encode` wrote. */
  lemma HeaderBytes(m: Message, as4: bool, rest: Bytes)
    requires HEADER_LENGTH + |Payload(m, as4)| < 0x1_0000 && |EncodeMsg(m, as4) + rest| < 0x1_0000_0000_0000_0000
    ensures var s, n := EncodeMsg(m, as4) + rest, HEADER_LENGTH + |Payload(m, as4)|;
            && |s| == n + |rest| && s[..16] == Marker() && Join16(s[16], s[17]) == n && s[18] == MessageType(m)
            && s[19..] == Payload(m, as4) + rest && Sub(|s|, n) == |rest|
  {
    hide Payload, MessageType, Marker, Put16, Join16;
    MarkerLength();
    var n, body := HEADER_LENGTH + |Payload(m, as4)|, Payload(m, as4) + rest;
    var s := EncodeMsg(m, as4) + rest;
    assert s == Marker() + Put16(n) + [MessageType(m)] + body;
    HeaderOf(Marker(), n, MessageType(m), body);
  }

  lemma HeaderOf(marker: Bytes, n: u16, messageType: u8, body: Bytes)
    requires |marker| == 16
    ensures var s := marker + Put16(n) + [messageType] + body;
            && |s| == 19 + |body| && s[..16] == marker && Join16(s[16], s[17]) == n && s[18] == messageType && s[19..] == body
  {
    var s := marker + Put16(n) + [messageType] + body;
    assert s[16] == n / 0x100 && s[17] == n % 0x100;
  }

  lemma Short(m: Message, as4: bool)
    requires WellFormed(m, as4)
    ensures HEADER_LENGTH + |Payload(m, as4)| < 0x1_0000
  {
    hide Payload;
  }

  /**
   Decoding the concatenated encodings of well-formed messages gives back exactly those messages and
   consumes every byte, if and only if each OPEN's options and the bytes after it, taken modulo 256,
   stay below 256.  When the condition fails, decoding reports an error.
   */
  lemma {:induction false} StreamRoundTripIff(ms: seq<Message>, as4: bool)
    requires forall m <- ms :: WellFormed(m, as4)
    requires |EncodeStream(ms, as4)| < 0x1_0000_0000_0000_0000
    ensures ParseStream(EncodeStream(ms, as4), as4) == Ok(ms, []) <==> TailsOk(ms, as4)
    ensures !TailsOk(ms, as4) ==> ParseStream(EncodeStream(ms, as4), as4).Bad?
  {
    hide EncodeMsg, ParseMsg, WellFormed, TailOk;
    if ms != [] {
      var rest := EncodeStream(ms[1..], as4);
      assert ms[0] in ms;
      MsgInverts(ms[0], as4, rest);
      assert |EncodeMsg(ms[0], as4)| > 0 by { MsgLength(ms[0], as4); }
      StreamRoundTripIff(ms[1..], as4);
      assert [ms[0]] + ms[1..] == ms;
    }
  }

  /** The header length patched in by `encode` is the number of bytes written, whenever that fits sixteen bits. */
  lemma MsgLength(m: Message, as4: bool)
    ensures |EncodeMsg(m, as4)| == HEADER_LENGTH + |Payload(m, as4)|
    ensures |EncodeMsg(m, as4)| < 0x1_0000 ==> Join16(EncodeMsg(m, as4)[16], EncodeMsg(m, as4)[17]) == |EncodeMsg(m, as4)|
  {
    hide Payload;
  }

  /** An OPEN with 16 bytes of options, followed by a 240-byte NOTIFICATION. */
  function LongTail(): seq<Message> {
    [Open(4, 65000, 180, [10, 0, 0, 1], [Capabilities.Unsupported(200, Prefixes.Zeros(12))]),
     Notification(Cease, None, Prefixes.Zeros(219))]
  }

  lemma LongTailLengths()
    ensures OptionsLen(LongTail()[0].capabilities) == 16 && |Payload(LongTail()[1], true)| == 221
    ensures WellFormed(LongTail()[0], true) && WellFormed(LongTail()[1], true)
  {
    var open := LongTail()[0];
    OptionsLenAgrees(open.capabilities);
    assert OptionsLen(open.capabilities) == 16;
  }

  /** Without the condition the round trip fails: both messages are well-formed and the pair is refused. */
  lemma LongTailRefused()
    ensures forall m <- LongTail() :: WellFormed(m, true)
    ensures ParseStream(EncodeStream(LongTail(), true), true).Bad?
  {
    hide EncodeMsg, Payload, WellFormed, ParseStream, OptionsLen;
    var ms := LongTail();
    LongTailLengths();
    MsgLength(ms[1], true);
    assert EncodeStream(ms[1..], true) == EncodeMsg(ms[1], true) + EncodeStream(ms[1..][1..], true);
    assert |EncodeStream(ms[1..], true)| == 240;
    assert EncodeStream(ms, true) == EncodeMsg(ms[0], true) + EncodeStream(ms[1..], true);
    MsgLength(ms[0], true);
    Short(ms[0], true);
    StreamRoundTripIff(ms, true);
  }
}
