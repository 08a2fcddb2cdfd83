/** When a path sent over a session is the path that the other side builds. */
module PathLaws {
  import opened Base
  import opened Net
  import opened Wire
  import opened Attributes
  import opened AttributeLaws
  import opened PathBuilding
  import Family
  import Codec
  import CodecLaws
  import Paths

  /** What one segment can count and what `attributes` accepts. */
  predicate Sendable(p: Paths.Announcement) {
    |p.asSequence| <= 255 && |p.asSet| <= 255 && p.origin <= 2 && p.nextHops != []
  }

  /** `attributes`, `encode`, `decode` and `attr` in turn: what the receiving builder has collected. */
  function Relay(p: Paths.Announcement, as4: bool): Option<Draft> {
    match ToAttributes(p, as4)
    case Failure(_) => None
    case Success(attrs) =>
      match Codec.ParseAttrs(EncodeMany(attrs, as4), 0, {}, as4)
      case Bad(_) => None
      case Ok(received, _) => Some(WithAttrs(EMPTY, received))
  }

  /** The draft a receiver should end up with. */
  function Expected(p: Paths.Announcement, as4: bool): Draft
    requires p.nextHops != []
  {
    var large := Large(p.asSequence) != [] || Large(p.asSet) != [];
    EMPTY.(nextHops := if p.nextHops[0].V4? then [p.nextHops[0]] else [],
           origin := p.origin,
           asSequence := if as4 then p.asSequence else Translated(p.asSequence),
           asSet := if as4 then p.asSet else TranslatedSet(p.asSet),
           as4Sequence := if as4 then [] else Large(p.asSequence),
           as4Set := if as4 then [] else Large(p.asSet),
           localPref := p.localPref,
           med := p.med,
           propagate := if !as4 && large then [Normal(NewAs4Path(Large(p.asSequence), Large(p.asSet)))] else [])
  }

  // ---------------------------------------------------------------- an all-empty AS path is written as no segments

  function Normal(a: Attribute): Attribute {
    if (a.ASPath? || a.AS4Path?) && AllEmpty(a.segments) then a.(segments := []) else a
  }

  function NormalMany(attrs: seq<Attribute>): (r: seq<Attribute>)
    ensures |r| == |attrs|
    ensures forall i :: 0 <= i < |attrs| ==> r[i] == Normal(attrs[i])
  {
    seq(|attrs|, i requires 0 <= i < |attrs| => Normal(attrs[i]))
  }

  lemma NormalEncoding(a: Attribute, as4: bool)
    ensures Encode(a, as4) == Encode(Normal(a), as4)
  {
  }

  lemma {:induction false} NormalManyEncoding(attrs: seq<Attribute>, as4: bool)
    ensures EncodeMany(attrs, as4) == EncodeMany(NormalMany(attrs), as4)
  {
    hide Encode, Normal;
    if attrs != [] {
      NormalEncoding(attrs[0], as4);
      NormalManyEncoding(attrs[1..], as4);
      assert NormalMany(attrs)[1..] == NormalMany(attrs[1..]);
    }
  }

  lemma NormalConcat(xs: seq<Attribute>, ys: seq<Attribute>)
    ensures NormalMany(xs + ys) == NormalMany(xs) + NormalMany(ys)
  {
  }

  // ---------------------------------------------------------------- the attributes are well-formed

  lemma {:induction false} SplitSizes(ns: seq<u32>)
    ensures |Large(ns)| + |Small(ns)| == |ns|
    ensures forall n <- Large(ns) :: n > AS_2BYTES_LIMIT
    ensures forall i :: 0 <= i < |Small(ns)| ==> Small(ns)[i] <= AS_2BYTES_LIMIT
  {
    if ns != [] {
      SplitSizes(ns[1..]);
    }
  }

  lemma SegmentsFit(sequence: seq<u32>, asSet: seq<u32>, as4: bool)
    requires |sequence| <= 255 && |asSet| <= 255 && AsnsFit(sequence, as4) && AsnsFit(asSet, as4)
    ensures WellFormed(Normal(NewAsPath(sequence, asSet)), as4)
    ensures as4 ==> WellFormed(Normal(NewAs4Path(sequence, asSet)), false)
  {
    hide SegmentsLen, Segments;
    TwoSegmentsLen(sequence, asSet, 2);
    TwoSegmentsLen(sequence, asSet, 4);
    SegmentsHold(sequence, asSet);
  }

  lemma SegmentsHold(sequence: seq<u32>, asSet: seq<u32>)
    ensures forall s <- Segments(sequence, asSet) :: s.numbers == sequence || s.numbers == asSet
  {
  }

  lemma TwoSegmentsLen(sequence: seq<u32>, asSet: seq<u32>, width: nat)
    ensures SegmentsLen(Segments(sequence, asSet), width) <= 4 + width * |sequence| + width * |asSet|
  {
    var segments := Segments(sequence, asSet);
    if asSet == [] {
      assert segments[1..] == [];
    } else {
      var rest := [ASSegment(AS_SET, asSet)];
      assert segments[1..] == rest && rest[1..] == [];
      assert SegmentsLen(rest, width) == 2 + width * |asSet|;
    }
  }

  lemma PathAttrsOk(p: Paths.Announcement, as4: bool)
    requires Sendable(p)
    ensures forall a <- NormalMany(PathAttrs(p, as4)) :: WellFormed(a, as4)
  {
    hide WellFormed;
    if as4 {
      SegmentsFit(p.asSequence, p.asSet, true);
    } else {
      SplitSizes(p.asSequence);
      SplitSizes(p.asSet);
      SegmentsFit(Translated(p.asSequence), TranslatedSet(p.asSet), false);
      SegmentsFit(Large(p.asSequence), Large(p.asSet), true);
    }
  }

  lemma OtherAttrsOk(p: Paths.Announcement, as4: bool)
    requires Sendable(p)
    ensures forall a <- OtherAttrs(p) :: WellFormed(a, as4)
    ensures NormalMany(OtherAttrs(p)) == OtherAttrs(p)
  {
  }

  lemma OriginOk(p: Paths.Announcement, as4: bool)
    requires Sendable(p)
    ensures WellFormed(Origin(AttrBase(FLAG_TRANSITIVE, ORIGIN), p.origin), as4)
  {
  }

  lemma NormalCodes(attrs: seq<Attribute>)
    ensures forall i :: 0 <= i < |attrs| ==> NormalMany(attrs)[i].base == attrs[i].base
  {
  }

  lemma PathCodes(p: Paths.Announcement, as4: bool)
    ensures 1 <= |PathAttrs(p, as4)| <= 2 && PathAttrs(p, as4)[0].base.code == AS_PATH
    ensures |PathAttrs(p, as4)| == 2 ==> PathAttrs(p, as4)[1].base.code == AS4_PATH
  {
  }

  lemma OtherCodes(p: Paths.Announcement)
    requires p.nextHops != []
    ensures CodecLaws.DistinctCodes(OtherAttrs(p))
    ensures forall a <- OtherAttrs(p) :: a.base.code in {NEXT_HOP, LOCAL_PREF, MULTI_EXIT_DISC}
  {
  }

  lemma CodesDistinct(p: Paths.Announcement, as4: bool)
    requires Sendable(p)
    ensures CodecLaws.DistinctCodes(NormalMany(ToAttributes(p, as4).value))
  {
    hide Normal, PathAttrs, OtherAttrs;
    var attrs := ToAttributes(p, as4).value;
    PathCodes(p, as4);
    OtherCodes(p);
    assert attrs[0].base.code == ORIGIN;
    NormalCodes(attrs);
  }

  lemma AttributesSurvive(p: Paths.Announcement, as4: bool)
    requires Sendable(p)
    ensures Codec.ParseAttrs(EncodeMany(ToAttributes(p, as4).value, as4), 0, {}, as4)
            == Ok(NormalMany(ToAttributes(p, as4).value), [])
  {
    hide WellFormed, PathAttrs, OtherAttrs, EncodeMany, CodecLaws.DistinctCodes, Codec.ParseAttrs;
    var attrs := ToAttributes(p, as4).value;
    var normal := NormalMany(attrs);
    var o := Origin(AttrBase(FLAG_TRANSITIVE, ORIGIN), p.origin);
    NormalConcat([o] + PathAttrs(p, as4), OtherAttrs(p));
    NormalConcat([o], PathAttrs(p, as4));
    assert NormalMany([o]) == [o];
    OriginOk(p, as4);
    PathAttrsOk(p, as4);
    OtherAttrsOk(p, as4);
    CodesDistinct(p, as4);
    NormalManyEncoding(attrs, as4);
    AttrCount(p, as4);
    Bounded(normal, as4);
    assert EncodeMany(normal, as4) + [] == EncodeMany(normal, as4);
    CodecLaws.AttrsInvert(normal, {}, as4, []);
  }

  /** Six well-formed attributes at most, each under sixteen bits long. */
  lemma {:induction false} BoundedBy(attrs: seq<Attribute>, as4: bool)
    requires forall a <- attrs :: WellFormed(a, as4)
    ensures |EncodeMany(attrs, as4)| <= |attrs| * 0x1_0004
  {
    hide Encode, Len, FlagOk, ValueOk;
    if attrs != [] {
      LenAgrees(attrs[0], as4);
      assert attrs[0] in attrs;
      BoundedBy(attrs[1..], as4);
    }
  }

  lemma AttrCount(p: Paths.Announcement, as4: bool)
    requires Sendable(p)
    ensures |ToAttributes(p, as4).value| <= 6
  {
    hide Large, Translated, TranslatedSet, NewAsPath, NewAs4Path;
  }

  lemma Bounded(attrs: seq<Attribute>, as4: bool)
    requires forall a <- attrs :: WellFormed(a, as4)
    requires |attrs| < 0x1000
    ensures |EncodeMany(attrs, as4)| < 0x1_0000_0000_0000_0000
  {
    hide WellFormed, EncodeMany;
    BoundedBy(attrs, as4);
  }

  // ---------------------------------------------------------------- what the receiving builder collects

  lemma {:induction false} WithAttrsConcat(d: Draft, xs: seq<Attribute>, ys: seq<Attribute>)
    ensures WithAttrs(d, xs + ys) == WithAttrs(WithAttrs(d, xs), ys)
    decreases |xs|
  {
    hide WithAttr;
    if xs == [] {
      assert xs + ys == ys;
    } else {
      assert (xs + ys)[1..] == xs[1..] + ys;
      WithAttrsConcat(WithAttr(d, xs[0]), xs[1..], ys);
    }
  }

  lemma CollectSegments(d: Draft, sequence: seq<u32>, asSet: seq<u32>)
    ensures WithAttr(d, Normal(NewAsPath(sequence, asSet)))
            == d.(asSequence := d.asSequence + sequence, asSet := d.asSet + asSet)
    ensures WithAttr(d, Normal(NewAs4Path(sequence, asSet)))
            == d.(as4Sequence := d.as4Sequence + sequence, as4Set := d.as4Set + asSet,
                  propagate := d.propagate + [Normal(NewAs4Path(sequence, asSet))])
  {
    var segments := Segments(sequence, asSet);
    assert segments[1..] == if asSet == [] then [] else [ASSegment(AS_SET, asSet)];
    if AllEmpty(segments) {
      assert sequence == [] && asSet == [] by {
        assert segments[0].numbers == [];
        assert asSet != [] ==> ASSegment(AS_SET, asSet) in segments;
      }
    }
    CollectTwo(d, sequence, asSet, false);
    var d' := d.(propagate := d.propagate + [Normal(NewAs4Path(sequence, asSet))]);
    CollectTwo(d', sequence, asSet, true);
    CollectNone(d, false);
    CollectNone(d', true);
  }

  lemma CollectNone(d: Draft, as4: bool)
    ensures WithSegments(d, [], as4) == d
    ensures d.asSequence + [] == d.asSequence && d.asSet + [] == d.asSet
    ensures d.as4Sequence + [] == d.as4Sequence && d.as4Set + [] == d.as4Set
  {
  }

  lemma CollectTwo(d: Draft, sequence: seq<u32>, asSet: seq<u32>, as4: bool)
    ensures WithSegments(d, Segments(sequence, asSet), as4)
            == if as4 then d.(as4Sequence := d.as4Sequence + sequence, as4Set := d.as4Set + asSet)
               else d.(asSequence := d.asSequence + sequence, asSet := d.asSet + asSet)
  {
    var segments := Segments(sequence, asSet);
    CollectNone(d, as4);
    if asSet == [] {
      assert segments[1..] == [];
    } else {
      var rest := [ASSegment(AS_SET, asSet)];
      assert segments[1..] == rest && rest[1..] == [];
      var d' := if as4 then d.(as4Sequence := d.as4Sequence + sequence) else d.(asSequence := d.asSequence + sequence);
      assert WithSegments(d', rest, as4) == if as4 then d'.(as4Set := d.as4Set + asSet) else d'.(asSet := d.asSet + asSet);
    }
  }

  lemma CollectPath(d: Draft, p: Paths.Announcement, as4: bool)
    requires d == EMPTY.(origin := p.origin)
    ensures var large := Large(p.asSequence) != [] || Large(p.asSet) != [];
            WithAttrs(d, NormalMany(PathAttrs(p, as4)))
            == d.(asSequence := if as4 then p.asSequence else Translated(p.asSequence),
                  asSet := if as4 then p.asSet else TranslatedSet(p.asSet),
                  as4Sequence := if as4 then [] else Large(p.asSequence),
                  as4Set := if as4 then [] else Large(p.asSet),
                  propagate := if !as4 && large then [Normal(NewAs4Path(Large(p.asSequence), Large(p.asSet)))] else [])
  {
    hide WithAttr, Normal, NewAsPath, NewAs4Path, Translated, TranslatedSet, Large;
    var a := if as4 then NewAsPath(p.asSequence, p.asSet) else NewAsPath(Translated(p.asSequence), TranslatedSet(p.asSet));
    var normal := NormalMany(PathAttrs(p, as4));
    assert normal[0] == Normal(a);
    if as4 {
      CollectSegments(d, p.asSequence, p.asSet);
      assert normal[1..] == [];
    } else {
      CollectSegments(d, Translated(p.asSequence), TranslatedSet(p.asSet));
      var d1 := WithAttr(d, normal[0]);
      CollectSegments(d1, Large(p.asSequence), Large(p.asSet));
      if Large(p.asSequence) != [] || Large(p.asSet) != [] {
        var rest := [Normal(NewAs4Path(Large(p.asSequence), Large(p.asSet)))];
        assert normal[1..] == rest && rest[1..] == [];
        assert WithAttrs(d1, rest) == WithAttr(d1, rest[0]);
      } else {
        assert normal[1..] == [];
      }
    }
  }

  lemma CollectOther(d: Draft, p: Paths.Announcement)
    requires Sendable(p) && d.nextHops == [] && d.localPref == 0 && d.med == 0
    ensures WithAttrs(d, OtherAttrs(p))
            == d.(nextHops := if p.nextHops[0].V4? then [p.nextHops[0]] else [], localPref := p.localPref, med := p.med)
  {
    var a := if p.nextHops[0].V4? then [NextHop(AttrBase(FLAG_TRANSITIVE, NEXT_HOP), p.nextHops[0].v4)] else [];
    var b := if p.localPref != 0 then [LocalPref(AttrBase(FLAG_TRANSITIVE, LOCAL_PREF), p.localPref)] else [];
    var c := if p.med != 0 then [MultiExitDisc(AttrBase(FLAG_OPTIONAL, MULTI_EXIT_DISC), p.med)] else [];
    WithAttrsConcat(d, a + b, c);
    WithAttrsConcat(d, a, b);
    var d1 := WithAttrs(d, a);
    assert d1 == d.(nextHops := if p.nextHops[0].V4? then [p.nextHops[0]] else []);
    var d2 := WithAttrs(d1, b);
    assert d2 == d1.(localPref := p.localPref);
    assert WithAttrs(d2, c) == d2.(med := p.med);
  }

  /** Every sendable path arrives: the receiver collects its origin, preference, discriminator, next hop and both AS paths. */
  lemma RelayDelivers(p: Paths.Announcement, as4: bool)
    requires Sendable(p)
    ensures Relay(p, as4) == Some(Expected(p, as4))
  {
    hide PathAttrs, OtherAttrs, Codec.ParseAttrs, EncodeMany, WithAttr;
    AttributesSurvive(p, as4);
    var o := Origin(AttrBase(FLAG_TRANSITIVE, ORIGIN), p.origin);
    NormalConcat([o] + PathAttrs(p, as4), OtherAttrs(p));
    NormalConcat([o], PathAttrs(p, as4));
    OtherAttrsOk(p, as4);
    assert NormalMany([o]) == [o];
    var xs := NormalMany(PathAttrs(p, as4));
    WithAttrsConcat(EMPTY, [o] + xs, OtherAttrs(p));
    WithAttrsConcat(EMPTY, [o], xs);
    CollectOrigin(p);
    CollectPath(EMPTY.(origin := p.origin), p, as4);
    CollectOther(WithAttrs(EMPTY.(origin := p.origin), xs), p);
  }

  lemma CollectOrigin(p: Paths.Announcement)
    ensures WithAttrs(EMPTY, [Origin(AttrBase(FLAG_TRANSITIVE, ORIGIN), p.origin)]) == EMPTY.(origin := p.origin)
  {
    var o := Origin(AttrBase(FLAG_TRANSITIVE, ORIGIN), p.origin);
    assert [o][1..] == [];
  }

  // ---------------------------------------------------------------- merging

  /** The large numbers are consumed in order, one for each AS_TRANS that stands for one. */
  lemma {:induction false} RestoreTranslated(ns: seq<u32>, pool: seq<u32>, i: nat)
    requires AS_TRANS !in ns
    requires i + |Large(ns)| <= |pool| && pool[i..i + |Large(ns)|] == Large(ns)
    ensures Restore(Translated(ns), pool, i) == Some((ns, i + |Large(ns)|))
  {
    if ns != [] {
      assert Translated(ns)[1..] == Translated(ns[1..]);
      if ns[0] > AS_2BYTES_LIMIT {
        assert pool[i] == pool[i..i + |Large(ns)|][0];
        assert pool[i + 1..i + 1 + |Large(ns[1..])|] == pool[i..i + |Large(ns)|][1..];
        RestoreTranslated(ns[1..], pool, i + 1);
      } else {
        assert ns[0] != AS_TRANS;
        RestoreTranslated(ns[1..], pool, i);
      }
      assert [ns[0]] + ns[1..] == ns;
    }
  }

  lemma {:induction false} RestorePlain(ns: seq<u32>, pool: seq<u32>, i: nat)
    ensures AS_TRANS !in ns ==> Restore(ns, pool, i) == Some((ns, i))
    ensures AS_TRANS in ns && i == |pool| ==> Restore(ns, pool, i) == None
  {
    if ns != [] {
      RestorePlain(ns[1..], pool, i);
      assert [ns[0]] + ns[1..] == ns;
    }
  }

  /** AS_TRANS never comes out of a merge whose pool does not hold it. */
  lemma {:induction false} RestoreRemoves(ns: seq<u32>, pool: seq<u32>, i: nat)
    requires AS_TRANS !in pool
    ensures Restore(ns, pool, i).Some? ==> AS_TRANS !in Restore(ns, pool, i).value.0
    decreases |ns|
  {
    if ns != [] {
      RestoreRemoves(ns[1..], pool, i);
      RestoreRemoves(ns[1..], pool, i + 1);
    }
  }

  lemma {:induction false} LargeMembers(ns: seq<u32>)
    ensures forall n :: n in Large(ns) <==> n in ns && n > AS_2BYTES_LIMIT
    ensures Large(ns) == [] ==> Small(ns) == ns
  {
    if ns != [] {
      LargeMembers(ns[1..]);
      assert [ns[0]] + ns[1..] == ns;
    }
  }

  /**
   Over a session without four-octet AS numbers the AS path comes back unchanged, if and only if AS_TRANS
   is not itself one of its numbers and no member of the set needs four octets.
   */
  lemma TwoOctetRoundTripIff(p: Paths.Announcement)
    requires Sendable(p)
    ensures Relay(p, false).Some?
    ensures Merged(Relay(p, false).value) == Success((p.asSequence, p.asSet))
            <==> 23456 !in p.asSequence && 23456 !in p.asSet && forall n <- p.asSet :: n <= 65535
  {
    hide Relay;
    RelayDelivers(p, false);
    var pool := Large(p.asSequence);
    SplitSizes(p.asSequence);
    SplitSizes(p.asSet);
    LargeMembers(p.asSet);
    RestoreRemoves(Translated(p.asSequence), pool, 0);
    if AS_TRANS !in p.asSequence {
      assert pool[0..0 + |pool|] == pool;
      RestoreTranslated(p.asSequence, pool, 0);
      RestorePlain(TranslatedSet(p.asSet), pool, |pool|);
      if Large(p.asSet) != [] {
        assert Large(p.asSet)[0] in Large(p.asSet);
        assert AS_TRANS in TranslatedSet(p.asSet);
      }
    }
  }

  /** With four-octet AS numbers the only thing lost is a path that holds AS_TRANS itself: merging it panics. */
  lemma FourOctetRoundTripIff(p: Paths.Announcement)
    requires Sendable(p)
    ensures Relay(p, true).Some?
    ensures Merged(Relay(p, true).value) == Success((p.asSequence, p.asSet))
            <==> 23456 !in p.asSequence && 23456 !in p.asSet
    ensures 23456 in p.asSequence || 23456 in p.asSet ==> Merged(Relay(p, true).value) == Failure(IndexOutOfRange)
  {
    hide Relay;
    RelayDelivers(p, true);
    RestorePlain(p.asSequence, [], 0);
    RestorePlain(p.asSet, [], 0);
  }

  // ---------------------------------------------------------------- more numbers than a count byte holds

  function SequenceCount(segments: seq<ASSegment>): nat {
    if segments == [] then 0
    else (if segments[0].segmentType == AS_SEQUENCE then |segments[0].numbers| else 0) + SequenceCount(segments[1..])
  }

  function SetCount(segments: seq<ASSegment>): nat {
    if segments == [] then 0
    else (if segments[0].segmentType == AS_SEQUENCE then 0 else |segments[0].numbers|) + SetCount(segments[1..])
  }

  lemma {:induction false} CollectCounts(d: Draft, segments: seq<ASSegment>)
    ensures |WithSegments(d, segments, false).asSequence| == |d.asSequence| + SequenceCount(segments)
    ensures |WithSegments(d, segments, false).asSet| == |d.asSet| + SetCount(segments)
    decreases |segments|
  {
    if segments != [] {
      var s := segments[0];
      var d' := if s.segmentType == AS_SEQUENCE then d.(asSequence := d.asSequence + s.numbers) else d.(asSet := d.asSet + s.numbers);
      CollectCounts(d', segments[1..]);
    }
  }

  lemma {:induction false} AsnsRead(s: Bytes, count: nat, as4: bool)
    ensures var p := ParseAsns(s, count, as4);
            p.Ok? ==> |p.value| == count && |s| == |p.rest| + (if as4 then 4 * count else 2 * count)
    decreases count
  {
    if count > 0 && ParseAsn(s, as4).Ok? {
      AsnsRead(ParseAsn(s, as4).rest, count - 1, as4);
    }
  }

  lemma SegmentRead(s: Bytes, as4: bool)
    ensures var p := ParseSegment(s, as4);
            p.Ok? ==> |p.value.numbers| < 0x100 && |s| == |p.rest| + 2 + (if as4 then 4 else 2) * |p.value.numbers|
  {
    hide ParseAsns;
    if ParseSegment(s, as4).Ok? {
      AsnsRead(s[2..], s[1], as4);
    }
  }

  predicate ShortSegments(segments: seq<ASSegment>) {
    forall s <- segments :: |s.numbers| < 0x100
  }

  /** However the bytes are cut into segments: two for each, and the width for each number. */
  lemma {:induction false} SegmentsRead(s: Bytes, tail: nat, as4: bool)
    ensures var p := ParseSegments(s, tail, as4);
            p.Ok? ==>
              && ShortSegments(p.value)
              && |s| == |p.rest| + 2 * |p.value| + (if as4 then 4 else 2) * (SequenceCount(p.value) + SetCount(p.value))
    decreases |s|
  {
    hide ParseSegment;
    if |s| > tail && ParseSegment(s, as4).Ok? {
      SegmentRead(s, as4);
      var rest := ParseSegment(s, as4).rest;
      SegmentsRead(rest, tail, as4);
      if ParseSegments(rest, tail, as4).Ok? {
        var more := ParseSegments(rest, tail, as4).value;
        assert ([ParseSegment(s, as4).value] + more)[1..] == more;
      }
    }
  }

  /** As many segments as it takes to hold the numbers. */
  lemma {:induction false} SegmentsNeeded(segments: seq<ASSegment>)
    requires ShortSegments(segments)
    ensures var n, m := SequenceCount(segments), SetCount(segments);
            |segments| >= (if n > 255 then 2 else if n > 0 then 1 else 0) + (if m > 255 then 2 else if m > 0 then 1 else 0)
  {
    if segments != [] {
      assert segments[0] in segments;
      SegmentsNeeded(segments[1..]);
    }
  }

  /** A first segment of a sequence is one that the numbers of the set cannot be in. */
  lemma FirstIsSequence(segments: seq<ASSegment>)
    requires ShortSegments(segments) && segments != [] && segments[0].segmentType == AS_SEQUENCE
    requires SequenceCount(segments) > 255 || SetCount(segments) > 255
    ensures |segments| > if SetCount(segments) > 0 then 2 else 1
  {
    assert segments[0] in segments;
    SegmentsNeeded(segments[1..]);
  }

  /**
   A sequence or set of more than 255 numbers comes back, if at all, from bytes that are not its own: a reader that
   collects all its numbers has read on into what follows the attribute.  So with nothing behind it, it never comes back.
   */
  lemma LongPathOverruns(sequence: seq<u32>, asSet: seq<u32>, as4: bool, rest: Bytes)
    requires (|sequence| > 255 || |asSet| > 255) && AsnsFit(sequence, as4) && AsnsFit(asSet, as4)
    ensures var p := ParseSegments(PutSegments(Segments(sequence, asSet), as4) + rest, |rest|, as4);
            p.Ok? && WithSegments(EMPTY, p.value, false).asSequence == sequence && WithSegments(EMPTY, p.value, false).asSet == asSet
            ==> |p.rest| < |rest|
  {
    hide WithSegments, PutSegment, ParseSegment, AsnsFit;
    var s := PutSegments(Segments(sequence, asSet), as4) + rest;
    var p := ParseSegments(s, |rest|, as4);
    SegmentsRead(s, |rest|, as4);
    LongBodyLen(sequence, asSet, as4);
    if p.Ok? {
      CollectCounts(EMPTY, p.value);
      FirstHeader(sequence, asSet, as4, rest);
      if SequenceCount(p.value) == |sequence| && SetCount(p.value) == |asSet| {
        FirstIsSequence(p.value);
      }
    }
  }

  lemma LongBodyLen(sequence: seq<u32>, asSet: seq<u32>, as4: bool)
    ensures |PutSegments(Segments(sequence, asSet), as4)|
            == (if asSet == [] then 2 else 4) + (if as4 then 4 else 2) * (|sequence| + |asSet|)
  {
    hide PutSegments;
    SegmentsLenAgrees(Segments(sequence, asSet), as4);
    var segments := Segments(sequence, asSet);
    if asSet == [] {
      assert segments[1..] == [];
    } else {
      var second := [ASSegment(AS_SET, asSet)];
      assert segments[1..] == second && second[1..] == [];
      assert SegmentsLen(second, Width(as4)) == 2 + Width(as4) * |asSet|;
    }
  }

  /** The first segment that is read has the type of the first that was written. */
  lemma FirstHeader(sequence: seq<u32>, asSet: seq<u32>, as4: bool, rest: Bytes)
    requires AsnsFit(sequence, as4)
    ensures var p := ParseSegments(PutSegments(Segments(sequence, asSet), as4) + rest, |rest|, as4);
            p.Ok? ==> p.value != [] && p.value[0].segmentType == AS_SEQUENCE
  {
    hide PutSegment, ParseSegment, ParseSegments, PutAsns, PutSegments, AsnsFit;
    var first := ASSegment(AS_SEQUENCE, sequence);
    var more := PutSegments(Segments(sequence, asSet)[1..], as4);
    SplitFirst(Segments(sequence, asSet), as4);
    var s := PutSegment(first, as4) + (more + rest);
    assert PutSegments(Segments(sequence, asSet), as4) + rest == s;
    SegmentTruncated(first, as4, more + rest);
    SegmentNotEmpty(first, as4);
    ReadsFirst(s, |rest|, as4);
  }

  lemma SplitFirst(segments: seq<ASSegment>, as4: bool)
    requires segments != []
    ensures PutSegments(segments, as4) == PutSegment(segments[0], as4) + PutSegments(segments[1..], as4)
  {
  }

  lemma ReadsFirst(s: Bytes, tail: nat, as4: bool)
    requires |s| > tail
    ensures var p := ParseSegments(s, tail, as4);
            p.Ok? ==> ParseSegment(s, as4).Ok? && p.value != [] && p.value[0] == ParseSegment(s, as4).value
  {
    hide ParseSegment;
  }

  const WITH_TRANS := Paths.Announcement(
    [1, 1, 1, 1], 100, [2, 2, 2, 2], V4([2, 2, 2, 2]), 200, Family.IPV4_UNICAST,
    0, 100, 0, [200, AS_TRANS], [], [V4([2, 2, 2, 2])], [], Net4([10, 0, 0, 0], 8))

  /** A path through AS 23456 cannot be built by the receiver, whatever the session. */
  lemma TransCannotBeBuilt(as4: bool)
    ensures var p := WITH_TRANS;
            Sendable(p) && Relay(p, as4).Some? && Merged(Relay(p, as4).value) != Success((p.asSequence, p.asSet))
  {
    hide Relay, Merged;
    var p := WITH_TRANS;
    assert p.asSequence[1] == AS_TRANS && AS_TRANS in p.asSequence;
    if as4 {
      FourOctetRoundTripIff(p);
    } else {
      TwoOctetRoundTripIff(p);
    }
  }

  const WITH_LARGE_SET := Paths.Announcement(
    [1, 1, 1, 1], 100, [2, 2, 2, 2], V4([2, 2, 2, 2]), 200, Family.IPV4_UNICAST,
    0, 100, 0, [200], [70000], [V4([2, 2, 2, 2])], [], Net4([10, 0, 0, 0], 8))

  /** A set member that needs four octets arrives as AS_TRANS over a session without them. */
  lemma LargeSetMemberIsLost()
    ensures var p := WITH_LARGE_SET;
            Sendable(p) && Relay(p, false).Some? && Merged(Relay(p, false).value) != Success((p.asSequence, p.asSet))
  {
    hide Relay, Merged;
    var p := WITH_LARGE_SET;
    assert p.asSet[0] in p.asSet && p.asSet[0] > AS_2BYTES_LIMIT;
    TwoOctetRoundTripIff(p);
  }
}
