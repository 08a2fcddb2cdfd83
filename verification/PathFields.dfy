/** What a received attribute list says about a path, field by field, and what of a path arrives at the other end of a session. */
module PathFields {
  import opened Base
  import opened Net
  import opened Family
  import opened Attributes
  import opened PathBuilding
  import PathLaws
  import Codec
  import Paths
  import Prefixes

  // ---------------------------------------------------------------- the fields of an attribute list

  /** The last ORIGIN decides, and so for the other single values. */
  function LastOrigin(attrs: seq<Attribute>, otherwise: u8): u8 {
    var n := |attrs| - 1;
    if attrs == [] then otherwise else if attrs[n].Origin? then attrs[n].origin else LastOrigin(attrs[..n], otherwise)
  }

  function LastPref(attrs: seq<Attribute>, otherwise: u32): u32 {
    var n := |attrs| - 1;
    if attrs == [] then otherwise else if attrs[n].LocalPref? then attrs[n].pref else LastPref(attrs[..n], otherwise)
  }

  function LastMed(attrs: seq<Attribute>, otherwise: u32): u32 {
    var n := |attrs| - 1;
    if attrs == [] then otherwise else if attrs[n].MultiExitDisc? then attrs[n].med else LastMed(attrs[..n], otherwise)
  }

  function LastFamily(attrs: seq<Attribute>, otherwise: AddressFamily): AddressFamily {
    var n := |attrs| - 1;
    if attrs == [] then otherwise else if attrs[n].MPReachNLRI? then attrs[n].family else LastFamily(attrs[..n], otherwise)
  }

  /** Next hops come from NEXT_HOP and from MP_REACH_NLRI, prefixes from MP_REACH_NLRI, in the order of the list. */
  function AllHops(attrs: seq<Attribute>): seq<IpAddr> {
    var n := |attrs| - 1;
    if attrs == [] then []
    else AllHops(attrs[..n])
         + if attrs[n].NextHop? then [V4(attrs[n].hop)] else if attrs[n].MPReachNLRI? then attrs[n].hops else []
  }

  function AllPrefixes(attrs: seq<Attribute>): seq<Prefixes.Prefix> {
    var n := |attrs| - 1;
    if attrs == [] then [] else AllPrefixes(attrs[..n]) + if attrs[n].MPReachNLRI? then attrs[n].nlri else []
  }

  /** The numbers of the segments of type 2, or of all the others. */
  function NumbersOf(segments: seq<ASSegment>, sequences: bool): seq<u32> {
    var n := |segments| - 1;
    if segments == [] then []
    else NumbersOf(segments[..n], sequences) + if (segments[n].segmentType == 2) == sequences then segments[n].numbers else []
  }

  function AllNumbers(attrs: seq<Attribute>, as4: bool, sequences: bool): seq<u32> {
    var n := |attrs| - 1;
    if attrs == [] then []
    else AllNumbers(attrs[..n], as4, sequences)
         + if (if as4 then attrs[n].AS4Path? else attrs[n].ASPath?) then NumbersOf(attrs[n].segments, sequences) else []
  }

  /**
   Flags 0x80 and 0x40 together: the attribute goes on to others.  One that is not supported goes on in any case, and
   with these flags 32 is added for "partial".
   */
  function Onwards(a: Attribute): seq<Attribute> {
    if a.Unsupported? then [a.(base := AttrBase(if a.base.flag >= 0xC0 then (a.base.flag + 32) % 256 else a.base.flag, a.base.code))]
    else if a.base.flag >= 0xC0 then [a]
    else []
  }

  function PassedOn(attrs: seq<Attribute>): seq<Attribute> {
    var n := |attrs| - 1;
    if attrs == [] then [] else PassedOn(attrs[..n]) + Onwards(attrs[n])
  }

  /** The segments of one attribute extend one pair of lists and leave everything else. */
  lemma {:induction false} SegmentNumbers(d: Draft, segments: seq<ASSegment>, as4: bool)
    ensures WithSegments(d, segments, as4)
            == if as4 then d.(as4Sequence := d.as4Sequence + NumbersOf(segments, true), as4Set := d.as4Set + NumbersOf(segments, false))
               else d.(asSequence := d.asSequence + NumbersOf(segments, true), asSet := d.asSet + NumbersOf(segments, false))
    decreases |segments|
  {
    hide WithSegments, NumbersOf;
    if segments == [] {
      PathLaws.CollectNone(d, as4);
      NoNumbers();
    } else {
      var n := |segments| - 1;
      var before, s := segments[..n], segments[n];
      SegmentNumbers(d, before, as4);
      OneMore(d, before, s, as4);
      assert segments == before + [s];
      NumbersLast(before, s);
      if as4 {
        Grown(d.as4Sequence, NumbersOf(before, true), s.numbers);
        Grown(d.as4Set, NumbersOf(before, false), s.numbers);
      } else {
        Grown(d.asSequence, NumbersOf(before, true), s.numbers);
        Grown(d.asSet, NumbersOf(before, false), s.numbers);
      }
    }
  }

  lemma NoNumbers()
    ensures NumbersOf([], true) == [] && NumbersOf([], false) == []
  {
  }

  lemma NumbersLast(before: seq<ASSegment>, s: ASSegment)
    ensures NumbersOf(before + [s], true) == if s.segmentType == 2 then NumbersOf(before, true) + s.numbers else NumbersOf(before, true)
    ensures NumbersOf(before + [s], false) == if s.segmentType == 2 then NumbersOf(before, false) else NumbersOf(before, false) + s.numbers
  {
    assert (before + [s])[..|before|] == before;
    assert NumbersOf(before, true) + [] == NumbersOf(before, true) && NumbersOf(before, false) + [] == NumbersOf(before, false);
  }

  lemma Grown(a: seq<u32>, b: seq<u32>, c: seq<u32>)
    ensures a + b + c == a + (b + c)
  {
  }

  lemma {:induction false} OneMore(d: Draft, segments: seq<ASSegment>, s: ASSegment, as4: bool)
    ensures var d1 := WithSegments(d, segments, as4);
            WithSegments(d, segments + [s], as4)
            == if as4 then
                 if s.segmentType == 2 then d1.(as4Sequence := d1.as4Sequence + s.numbers) else d1.(as4Set := d1.as4Set + s.numbers)
               else
                 if s.segmentType == 2 then d1.(asSequence := d1.asSequence + s.numbers) else d1.(asSet := d1.asSet + s.numbers)
    decreases |segments|
  {
    if segments == [] {
      assert segments + [s] == [s] && [s][1..] == [];
    } else {
      assert (segments + [s])[1..] == segments[1..] + [s] && (segments + [s])[0] == segments[0];
      var t := segments[0];
      var d' :=
        if as4 then
          if t.segmentType == 2 then d.(as4Sequence := d.as4Sequence + t.numbers) else d.(as4Set := d.as4Set + t.numbers)
        else
          if t.segmentType == 2 then d.(asSequence := d.asSequence + t.numbers) else d.(asSet := d.asSet + t.numbers);
      OneMore(d', segments[1..], s, as4);
    }
  }

  /** The draft has the fields of the list, over those of `d`. */
  ghost predicate HasFields(d': Draft, d: Draft, attrs: seq<Attribute>) {
    && d'.origin == LastOrigin(attrs, d.origin) && d'.localPref == LastPref(attrs, d.localPref) && d'.med == LastMed(attrs, d.med)
    && d'.family == LastFamily(attrs, d.family)
    && d'.nextHops == d.nextHops + AllHops(attrs) && d'.nlri == d.nlri + AllPrefixes(attrs)
    && d'.asSequence == d.asSequence + AllNumbers(attrs, false, true) && d'.asSet == d.asSet + AllNumbers(attrs, false, false)
    && d'.as4Sequence == d.as4Sequence + AllNumbers(attrs, true, true) && d'.as4Set == d.as4Set + AllNumbers(attrs, true, false)
    && d'.propagate == d.propagate + PassedOn(attrs)
  }

  /** What a builder has collected, read off the attribute list. */
  lemma {:induction false} Collected(d: Draft, attrs: seq<Attribute>)
    ensures HasFields(WithAttrs(d, attrs), d, attrs)
    decreases |attrs|
  {
    hide WithAttr;
    if attrs != [] {
      var n := |attrs| - 1;
      var before, a := attrs[..n], attrs[n];
      Collected(d, before);
      assert attrs == before + [a];
      PathLaws.WithAttrsConcat(d, before, [a]);
      var d1 := WithAttrs(d, before);
      assert WithAttrs(d1, [a]) == WithAttr(d1, a) by { assert [a][1..] == []; }
      CollectedOne(d, d1, before, a);
    }
  }

  lemma CollectedOne(d: Draft, d1: Draft, before: seq<Attribute>, a: Attribute)
    requires HasFields(d1, d, before)
    ensures HasFields(WithAttr(d1, a), d, before + [a])
  {
    hide HasFields, WithAttr;
    Scalars(d, d1, before, a);
    Lists(d, d1, before, a);
    Numbers(d, d1, before, a);
    ByParts(WithAttr(d1, a), d, before + [a]);
  }

  ghost predicate HasScalars(d': Draft, d: Draft, attrs: seq<Attribute>) {
    && d'.origin == LastOrigin(attrs, d.origin) && d'.localPref == LastPref(attrs, d.localPref) && d'.med == LastMed(attrs, d.med)
    && d'.family == LastFamily(attrs, d.family)
  }

  ghost predicate HasLists(d': Draft, d: Draft, attrs: seq<Attribute>) {
    && d'.nextHops == d.nextHops + AllHops(attrs) && d'.nlri == d.nlri + AllPrefixes(attrs)
    && d'.propagate == d.propagate + PassedOn(attrs)
  }

  ghost predicate HasNumbers(d': Draft, d: Draft, attrs: seq<Attribute>) {
    && d'.asSequence == d.asSequence + AllNumbers(attrs, false, true) && d'.asSet == d.asSet + AllNumbers(attrs, false, false)
    && d'.as4Sequence == d.as4Sequence + AllNumbers(attrs, true, true) && d'.as4Set == d.as4Set + AllNumbers(attrs, true, false)
  }

  lemma ByParts(d': Draft, d: Draft, attrs: seq<Attribute>)
    ensures HasFields(d', d, attrs) <==> HasScalars(d', d, attrs) && HasLists(d', d, attrs) && HasNumbers(d', d, attrs)
  {
  }

  /** What one attribute leaves alone. */
  lemma Untouched(d: Draft, a: Attribute)
    ensures var d' := WithAttr(d, a);
            && (!a.ASPath? ==> d'.asSequence == d.asSequence && d'.asSet == d.asSet)
            && (!a.AS4Path? ==> d'.as4Sequence == d.as4Sequence && d'.as4Set == d.as4Set)
            && (a.ASPath? ==> d'.asSequence == d.asSequence + NumbersOf(a.segments, true) && d'.asSet == d.asSet + NumbersOf(a.segments, false))
            && (a.AS4Path? ==> d'.as4Sequence == d.as4Sequence + NumbersOf(a.segments, true) && d'.as4Set == d.as4Set + NumbersOf(a.segments, false))
  {
    hide WithSegments;
    if a.ASPath? || a.AS4Path? {
      var d1 := if Optional(a.base) && Transitive(a.base) then d.(propagate := d.propagate + [a]) else d;
      SegmentNumbers(d1, a.segments, a.AS4Path?);
    }
  }

  lemma Scalars(d: Draft, d1: Draft, before: seq<Attribute>, a: Attribute)
    requires HasFields(d1, d, before)
    ensures HasScalars(WithAttr(d1, a), d, before + [a])
  {
    hide WithAttr, AllNumbers, AllHops, AllPrefixes, PassedOn, LastOrigin, LastMed, LastPref, LastFamily;
    Decides(d1, a);
    Latest(before, a, d);
  }

  lemma Decides(d: Draft, a: Attribute)
    ensures var d' := WithAttr(d, a);
            && d'.origin == (if a.Origin? then a.origin else d.origin)
            && d'.localPref == (if a.LocalPref? then a.pref else d.localPref)
            && d'.med == (if a.MultiExitDisc? then a.med else d.med)
            && d'.family == (if a.MPReachNLRI? then a.family else d.family)
  {
    hide WithSegments;
    if a.ASPath? || a.AS4Path? {
      var d2 := if Optional(a.base) && Transitive(a.base) then d.(propagate := d.propagate + [a]) else d;
      SegmentNumbers(d2, a.segments, a.AS4Path?);
    }
  }

  lemma Latest(before: seq<Attribute>, a: Attribute, d: Draft)
    ensures LastOrigin(before + [a], d.origin) == if a.Origin? then a.origin else LastOrigin(before, d.origin)
    ensures LastPref(before + [a], d.localPref) == if a.LocalPref? then a.pref else LastPref(before, d.localPref)
    ensures LastMed(before + [a], d.med) == if a.MultiExitDisc? then a.med else LastMed(before, d.med)
    ensures LastFamily(before + [a], d.family) == if a.MPReachNLRI? then a.family else LastFamily(before, d.family)
  {
    assert (before + [a])[..|before|] == before;
  }

  lemma Lists(d: Draft, d1: Draft, before: seq<Attribute>, a: Attribute)
    requires HasFields(d1, d, before)
    ensures HasLists(WithAttr(d1, a), d, before + [a])
  {
    hide WithAttr, AllHops, AllPrefixes, PassedOn, AllNumbers, LastOrigin, LastMed, LastPref, LastFamily;
    Appended(d1, a);
    Longer(before, a);
  }

  lemma Longer(before: seq<Attribute>, a: Attribute)
    ensures AllHops(before + [a]) == AllHops(before) + if a.NextHop? then [V4(a.hop)] else if a.MPReachNLRI? then a.hops else []
    ensures AllPrefixes(before + [a]) == AllPrefixes(before) + if a.MPReachNLRI? then a.nlri else []
    ensures PassedOn(before + [a]) == PassedOn(before) + Onwards(a)
  {
    assert (before + [a])[..|before|] == before;
  }

  lemma Appended(d: Draft, a: Attribute)
    ensures var d' := WithAttr(d, a);
            && d'.nextHops == d.nextHops + (if a.NextHop? then [V4(a.hop)] else if a.MPReachNLRI? then a.hops else [])
            && d'.nlri == d.nlri + (if a.MPReachNLRI? then a.nlri else [])
            && d'.propagate == d.propagate + Onwards(a)
  {
    hide WithSegments;
    var d2 := if Optional(a.base) && Transitive(a.base) then d.(propagate := d.propagate + [a]) else d;
    if a.ASPath? || a.AS4Path? {
      SegmentNumbers(d2, a.segments, a.AS4Path?);
    }
    assert Optional(a.base) && Transitive(a.base) <==> a.base.flag >= 0xC0;
    assert d.nextHops + [] == d.nextHops && d.nlri + [] == d.nlri && d.propagate + [] == d.propagate;
  }

  lemma MoreNumbers(before: seq<Attribute>, a: Attribute, as4: bool, sequences: bool)
    ensures AllNumbers(before + [a], as4, sequences)
            == AllNumbers(before, as4, sequences)
               + if (if as4 then a.AS4Path? else a.ASPath?) then NumbersOf(a.segments, sequences) else []
  {
    hide NumbersOf;
    assert (before + [a])[..|before|] == before;
  }

  lemma Numbers(d: Draft, d1: Draft, before: seq<Attribute>, a: Attribute)
    requires HasFields(d1, d, before)
    ensures HasNumbers(WithAttr(d1, a), d, before + [a])
  {
    hide WithAttr, AllNumbers, NumbersOf, AllHops, AllPrefixes, PassedOn, LastOrigin, LastMed, LastPref, LastFamily;
    Untouched(d1, a);
    MoreNumbers(before, a, false, true);
    MoreNumbers(before, a, false, false);
    MoreNumbers(before, a, true, true);
    MoreNumbers(before, a, true, false);
  }

  // ---------------------------------------------------------------- what is sent

  /** The attributes of a path by flags, code and content. */
  lemma SentAttributes(p: Paths.Announcement, as4: bool)
    ensures p.origin > 2 ==> ToAttributes(p, as4) == Failure(InvalidOrigin)
    ensures p.origin <= 2 && p.nextHops == [] ==> ToAttributes(p, as4) == Failure(InvalidNextHop)
    ensures p.origin <= 2 && p.nextHops != [] ==>
              && ToAttributes(p, as4).Success?
              && ToAttributes(p, as4).value
                 == [Origin(AttrBase(0x40, 1), p.origin),
                     ASPath(AttrBase(0x50, 2), Pair(if as4 then p.asSequence else Translated(p.asSequence),
                                                    if as4 then p.asSet else TranslatedSet(p.asSet)))]
                    + (if !as4 && (Large(p.asSequence) != [] || Large(p.asSet) != [])
                       then [AS4Path(AttrBase(0xD0, 17), Pair(Large(p.asSequence), Large(p.asSet)))] else [])
                    + (if p.nextHops[0].V4? then [NextHop(AttrBase(0x40, 3), p.nextHops[0].v4)] else [])
                    + (if p.localPref != 0 then [LocalPref(AttrBase(0x40, 5), p.localPref)] else [])
                    + (if p.med != 0 then [MultiExitDisc(AttrBase(0x80, 4), p.med)] else [])
  {
    hide Large, Translated, TranslatedSet, Segments;
    if p.origin <= 2 && p.nextHops != [] {
      PairIs(p.asSequence, p.asSet);
      PairIs(Translated(p.asSequence), TranslatedSet(p.asSet));
      PairIs(Large(p.asSequence), Large(p.asSet));
      var o, path := [Origin(AttrBase(0x40, 1), p.origin)], PathAttrs(p, as4);
      assert o + path == [o[0], path[0]] + path[1..];
    }
  }

  lemma PairIs(sequence: seq<u32>, asSet: seq<u32>)
    ensures Segments(sequence, asSet) == Pair(sequence, asSet)
  {
  }

  /** The numbers on one side of 65535, in order. */
  function Side(ns: seq<u32>, large: bool): seq<u32> {
    var n := |ns| - 1;
    if ns == [] then [] else Side(ns[..n], large) + if (ns[n] > 65535) == large then [ns[n]] else []
  }

  lemma {:induction false} SideFirst(n: u32, ns: seq<u32>, large: bool)
    ensures Side([n] + ns, large) == (if (n > 65535) == large then [n] else []) + Side(ns, large)
    decreases |ns|
  {
    var all := [n] + ns;
    if ns == [] {
      assert all[..0] == [];
    } else {
      assert all[..|ns|] == [n] + ns[..|ns| - 1];
      SideFirst(n, ns[..|ns| - 1], large);
    }
  }

  lemma {:induction false} SidesAre(ns: seq<u32>)
    ensures Large(ns) == Side(ns, true) && Small(ns) == Side(ns, false)
  {
    if ns != [] {
      SidesAre(ns[1..]);
      assert ns == [ns[0]] + ns[1..];
      SideFirst(ns[0], ns[1..], true);
      SideFirst(ns[0], ns[1..], false);
    }
  }

  lemma SomeLarge(ns: seq<u32>)
    ensures |Small(ns)| < |ns| <==> exists n <- ns :: n > 65535
  {
    hide Large, Small;
    PathLaws.SplitSizes(ns);
    PathLaws.LargeMembers(ns);
    if Large(ns) != [] {
      assert Large(ns)[0] in Large(ns);
    }
  }

  /** What a session of two octets makes of a list: 23456 for each large number in a sequence, one for all of them in a set. */
  lemma TwoOctetLists(ns: seq<u32>)
    ensures Large(ns) == Side(ns, true)
    ensures TranslatedSet(ns) == Side(ns, false) + if exists n <- ns :: n > 65535 then [23456] else []
    ensures |Translated(ns)| == |ns| && forall i :: 0 <= i < |ns| ==> Translated(ns)[i] == if ns[i] > 65535 then 23456 else ns[i]
  {
    hide Large, Small, Side;
    SidesAre(ns);
    SomeLarge(ns);
    assert Small(ns) + [] == Small(ns);
  }

  /** A sequence is a segment of type 2, a set one of type 1. */
  function Pair(sequence: seq<u32>, asSet: seq<u32>): seq<ASSegment> {
    [ASSegment(2, sequence)] + if asSet == [] then [] else [ASSegment(1, asSet)]
  }

  // ---------------------------------------------------------------- what arrives

  /** The receiving side of an UPDATE: a builder collects the attributes and the prefixes, and builds. */
  method Receive(who: Peering, attrs: seq<Attribute>, nlri: seq<Prefixes.Prefix>, id: u64, clock: seq<nat>)
    returns (r: Result<seq<Paths.Path>, PathError>, ghost d: Draft)
    requires |clock| == |AllPrefixes(attrs)| + |nlri|
    ensures d == WithAttrs(EMPTY, attrs) && HasFields(d, EMPTY, attrs)
    ensures match Merged(d)
            case Failure(e) => r == Failure(e)
            case Success((sequence, asSet)) =>
              && r.Success? && |r.value| == |clock|
              && forall k :: 0 <= k < |clock| ==>
                   && Carries(r.value[k], who, d, sequence, asSet)
                   && r.value[k].id == id && r.value[k].timestamp == clock[k]
                   && r.value[k].what.prefix == (AllPrefixes(attrs) + nlri)[k].inner
  {
    hide WithAttr, Merged, HasFields;
    var builder := new PathBuilder(who);
    for i := 0 to |attrs|
      invariant WithAttrs(builder.draft, attrs[i..]) == WithAttrs(EMPTY, attrs) && builder.who == who
    {
      assert attrs[i..][0] == attrs[i] && attrs[i..][1..] == attrs[i + 1..];
      builder.Attr(attrs[i]);
    }
    d := builder.draft;
    assert attrs[|attrs|..] == [];
    Collected(EMPTY, attrs);
    assert d.nlri == AllPrefixes(attrs) by { NlriOf(d, attrs); }
    builder.Nlri(nlri);
    MergedIgnores(d, d.nlri + nlri);
    r := builder.Build(id, clock);
  }

  lemma NlriOf(d: Draft, attrs: seq<Attribute>)
    requires HasFields(d, EMPTY, attrs)
    ensures d.nlri == AllPrefixes(attrs)
  {
    assert [] + AllPrefixes(attrs) == AllPrefixes(attrs);
  }

  lemma MergedIgnores(d: Draft, nlri: seq<Prefixes.Prefix>)
    ensures Merged(d.(nlri := nlri)) == Merged(d)
  {
  }

  /** The path that is meant: what the sender's path says is what the receiver's path says. */
  predicate SameRoute(q: Paths.Path, p: Paths.Announcement) {
    q.what.asSequence == p.asSequence && q.what.asSet == p.asSet
  }

  /** No number is AS_TRANS, and on a session of two octets no member of the set needs four. */
  predicate Relayable(p: Paths.Announcement, as4: bool) {
    23456 !in p.asSequence && 23456 !in p.asSet && (as4 || forall n <- p.asSet :: n <= 65535)
  }

  /**
   From the sender's path to the receiver's paths, through attributes, bytes and a builder: origin, preference,
   discriminator and next hop always arrive, and the AS path arrives if and only if it is relayable.
   */
  method Deliver(p: Paths.Announcement, as4: bool, who: Peering, nlri: seq<Prefixes.Prefix>, id: u64, clock: seq<nat>)
    returns (r: Result<seq<Paths.Path>, PathError>)
    requires PathLaws.Sendable(p) && |clock| == |nlri|
    ensures Relayable(p, as4) ==> r.Success?
    ensures r.Success? ==> |r.value| == |nlri|
    ensures r.Success? ==> forall k :: 0 <= k < |nlri| ==>
              var q := r.value[k].what;
              && (SameRoute(r.value[k], p) <==> Relayable(p, as4))
              && q.origin == p.origin && q.localPref == p.localPref && q.med == p.med
              && q.nextHops == (if p.nextHops[0].V4? then [p.nextHops[0]] else [])
              && q.family == AddressFamily(IPv4, Unicast) && q.prefix == nlri[k].inner
              && q.localId == who.localId && q.localAsn == who.localAsn
              && q.peerId == who.peerId && q.peerAddr == who.peerAddr && q.peerAsn == who.peerAsn
              && r.value[k].id == id && r.value[k].timestamp == clock[k]
  {
    hide PathLaws.Relay, ToAttributes, Codec.ParseAttrs, EncodeMany, WithAttr, Merged, HasFields, AllPrefixes, Large, Translated, TranslatedSet;
    PathLaws.RelayDelivers(p, as4);
    assert Merged(PathLaws.Relay(p, as4).value) == Success((p.asSequence, p.asSet)) <==> Relayable(p, as4) by {
      if as4 { PathLaws.FourOctetRoundTripIff(p); } else { PathLaws.TwoOctetRoundTripIff(p); }
    }
    var received := Received(p, as4);
    assert WithAttrs(EMPTY, received) == PathLaws.Expected(p, as4);
    Collected(EMPTY, received);
    NlriOf(WithAttrs(EMPTY, received), received);
    assert AllPrefixes(received) + nlri == nlri;
    ghost var d;
    r, d := Receive(who, received, nlri, id, clock);
  }

  /** Attributes, bytes, attributes. */
  function Received(p: Paths.Announcement, as4: bool): (received: seq<Attribute>)
    requires PathLaws.Sendable(p)
    ensures Some(WithAttrs(EMPTY, received)) == PathLaws.Relay(p, as4)
  {
    hide ToAttributes, Codec.ParseAttrs, EncodeMany, WithAttrs;
    PathLaws.RelayDelivers(p, as4);
    Codec.ParseAttrs(EncodeMany(ToAttributes(p, as4).value, as4), 0, {}, as4).value
  }
}
