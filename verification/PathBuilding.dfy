/**
 A path to attributes and back (`Path::attributes`, `PathBuilder` in `sartd/src/bgp/src/path.rs`).
 On a session without four-octet AS numbers the path is split into AS_PATH, where a large number is
 written as AS_TRANS, and AS4_PATH, which carries the large numbers only; `build` puts them together
 again (sections 4.2.2 and 4.2.3 of RFC 6793, with this program's own reading of AS4_PATH).
 */
module PathBuilding {
  import opened Base
  import opened Net
  import opened Family
  import opened Attributes
  import Paths
  import Prefixes

  const AS_2BYTES_LIMIT: u32 := 65535

  datatype PathError = InvalidOrigin | InvalidNextHop | IndexOutOfRange

  // ---------------------------------------------------------------- a path as attributes

  function Large(ns: seq<u32>): seq<u32> {
    if ns == [] then []
    else if ns[0] > AS_2BYTES_LIMIT then [ns[0]] + Large(ns[1..])
    else Large(ns[1..])
  }

  function Small(ns: seq<u32>): seq<u32> {
    if ns == [] then []
    else if ns[0] > AS_2BYTES_LIMIT then Small(ns[1..])
    else [ns[0]] + Small(ns[1..])
  }

  function Translated(ns: seq<u32>): (r: seq<u32>)
    ensures |r| == |ns|
    ensures forall i :: 0 <= i < |ns| ==> r[i] == if ns[i] > AS_2BYTES_LIMIT then AS_TRANS else ns[i]
  {
    seq(|ns|, i requires 0 <= i < |ns| => if ns[i] > AS_2BYTES_LIMIT then AS_TRANS else ns[i])
  }

  /** The set keeps its small members, and one AS_TRANS stands for all the large ones. */
  function TranslatedSet(ns: seq<u32>): seq<u32> {
    if |Small(ns)| < |ns| then Small(ns) + [AS_TRANS] else Small(ns)
  }

  function Segments(sequence: seq<u32>, asSet: seq<u32>): seq<ASSegment> {
    if asSet == [] then [ASSegment(AS_SEQUENCE, sequence)]
    else [ASSegment(AS_SEQUENCE, sequence), ASSegment(AS_SET, asSet)]
  }

  function NewAsPath(sequence: seq<u32>, asSet: seq<u32>): Attribute {
    ASPath(AttrBase(FLAG_TRANSITIVE + FLAG_EXTENDED, AS_PATH), Segments(sequence, asSet))
  }

  function NewAs4Path(sequence: seq<u32>, asSet: seq<u32>): Attribute {
    AS4Path(AttrBase(FLAG_TRANSITIVE + FLAG_OPTIONAL + FLAG_EXTENDED, AS4_PATH), Segments(sequence, asSet))
  }

  function PathAttrs(p: Paths.Announcement, as4: bool): seq<Attribute> {
    if as4 then [NewAsPath(p.asSequence, p.asSet)]
    else
      [NewAsPath(Translated(p.asSequence), TranslatedSet(p.asSet))]
      + if Large(p.asSequence) != [] || Large(p.asSet) != []
        then [NewAs4Path(Large(p.asSequence), Large(p.asSet))] else []
  }

  function OtherAttrs(p: Paths.Announcement): seq<Attribute>
    requires p.nextHops != []
  {
    (if p.nextHops[0].V4? then [NextHop(AttrBase(FLAG_TRANSITIVE, NEXT_HOP), p.nextHops[0].v4)] else [])
    + (if p.localPref != 0 then [LocalPref(AttrBase(FLAG_TRANSITIVE, LOCAL_PREF), p.localPref)] else [])
    + (if p.med != 0 then [MultiExitDisc(AttrBase(FLAG_OPTIONAL, MULTI_EXIT_DISC), p.med)] else [])
  }

  /** `Path::attributes`. */
  function ToAttributes(p: Paths.Announcement, as4: bool): Result<seq<Attribute>, PathError> {
    if p.origin > 2 then Failure(InvalidOrigin)
    else if p.nextHops == [] then Failure(InvalidNextHop)
    else Success([Origin(AttrBase(FLAG_TRANSITIVE, ORIGIN), p.origin)] + PathAttrs(p, as4) + OtherAttrs(p))
  }

  // ---------------------------------------------------------------- attributes as a path

  /** What a builder has collected. */
  datatype Draft = Draft(
    family: AddressFamily,
    nextHops: seq<IpAddr>,
    origin: u8,
    asSequence: seq<u32>,
    asSet: seq<u32>,
    as4Sequence: seq<u32>,
    as4Set: seq<u32>,
    localPref: u32,
    med: u32,
    propagate: seq<Attribute>,
    nlri: seq<Prefixes.Prefix>)

  const EMPTY := Draft(IPV4_UNICAST, [], 0, [], [], [], [], 0, 0, [], [])

  function WithSegments(d: Draft, segments: seq<ASSegment>, as4: bool): Draft
    decreases |segments|
  {
    if segments == [] then d
    else
      var s := segments[0];
      var d' :=
        if as4 then
          if s.segmentType == AS_SEQUENCE then d.(as4Sequence := d.as4Sequence + s.numbers)
          else d.(as4Set := d.as4Set + s.numbers)
        else if s.segmentType == AS_SEQUENCE then d.(asSequence := d.asSequence + s.numbers)
        else d.(asSet := d.asSet + s.numbers);
      WithSegments(d', segments[1..], as4)
  }

  /** `PathBuilder::attr`. */
  function WithAttr(d: Draft, a: Attribute): Draft {
    var d := if Optional(a.base) && Transitive(a.base) && !a.Unsupported? then d.(propagate := d.propagate + [a]) else d;
    match a
    case Origin(_, val) => d.(origin := val)
    case ASPath(_, segments) => WithSegments(d, segments, false)
    case NextHop(_, hop) => d.(nextHops := d.nextHops + [V4(hop)])
    case MultiExitDisc(_, val) => d.(med := val)
    case LocalPref(_, val) => d.(localPref := val)
    case MPReachNLRI(_, family, hops, nlri) =>
      d.(nextHops := d.nextHops + hops, nlri := d.nlri + nlri, family := family)
    case AS4Path(_, segments) => WithSegments(d, segments, true)
    case Unsupported(b, data) =>
      var b' := if Optional(b) && Transitive(b) then b.(flag := (b.flag + 0x20) % 0x100) else b;
      d.(propagate := d.propagate + [Unsupported(b', data)])
    case _ => d
  }

  function WithAttrs(d: Draft, attrs: seq<Attribute>): Draft
    decreases |attrs|
  {
    if attrs == [] then d else WithAttrs(WithAttr(d, attrs[0]), attrs[1..])
  }

  /** Each AS_TRANS takes the next number of `pool`, counting from `i`; running out of numbers panics. */
  function Restore(ns: seq<u32>, pool: seq<u32>, i: nat): Option<(seq<u32>, nat)> {
    if ns == [] then Some(([], i))
    else if ns[0] == AS_TRANS then
      if i >= |pool| then None
      else After([pool[i]], Restore(ns[1..], pool, i + 1))
    else After([ns[0]], Restore(ns[1..], pool, i))
  }

  function After(done: seq<u32>, more: Option<(seq<u32>, nat)>): Option<(seq<u32>, nat)> {
    match more
    case None => None
    case Some((rest, j)) => Some((done + rest, j))
  }

  lemma AfterOne(done: seq<u32>, n: u32, more: Option<(seq<u32>, nat)>)
    ensures After([], more) == more
    ensures After(done, After([n], more)) == After(done + [n], more)
  {
    if more.Some? {
      assert [] + more.value.0 == more.value.0;
      assert done + ([n] + more.value.0) == done + [n] + more.value.0;
    }
  }

  /** Sequence and set after `build`; both draw on the sequence part of AS4_PATH, with one counter. */
  function Merged(d: Draft): Result<(seq<u32>, seq<u32>), PathError> {
    match Restore(d.asSequence, d.as4Sequence, 0)
    case None => Failure(IndexOutOfRange)
    case Some((sequence, i)) =>
      match Restore(d.asSet, d.as4Sequence, i)
      case None => Failure(IndexOutOfRange)
      case Some((asSet, _)) => Success((sequence, asSet))
  }

  /** Who the path was learnt from. */
  datatype Peering = Peering(localId: Octets4, localAsn: u32, peerId: Octets4, peerAddr: IpAddr, peerAsn: u32)

  /** The path says of itself what the builder knows: the session's fields, the collected ones, and the merged AS path. */
  predicate Carries(p: Paths.Path, who: Peering, d: Draft, sequence: seq<u32>, asSet: seq<u32>) {
    && p.what.localId == who.localId && p.what.localAsn == who.localAsn
    && p.what.peerId == who.peerId && p.what.peerAddr == who.peerAddr && p.what.peerAsn == who.peerAsn
    && p.what.family == d.family && p.what.origin == d.origin && p.what.localPref == d.localPref && p.what.med == d.med
    && p.what.asSequence == sequence && p.what.asSet == asSet
    && p.what.nextHops == d.nextHops && p.what.propagate == d.propagate
  }

  /** Paths of one builder: unmarked, with one identifier, and announced alike except for the prefix. */
  predicate Siblings(paths: seq<Paths.Path>) {
    && (forall i :: 0 <= i < |paths| ==> !paths[i].best && paths[i].reason == Paths.NotBest)
    && forall i, j :: 0 <= i < j < |paths| ==>
         paths[i].id == paths[j].id && paths[i].what.(prefix := paths[j].what.prefix) == paths[j].what
  }

  // ---------------------------------------------------------------- the builder in place

  class PathBuilder {
    const who: Peering
    var draft: Draft

    constructor (who: Peering)
      ensures this.who == who && draft == EMPTY
    {
      this.who := who;
      draft := EMPTY;
    }

    method AsSegments(segments: seq<ASSegment>, as4: bool)
      modifies this
      ensures draft == WithSegments(old(draft), segments, as4)
    {
      for i := 0 to |segments|
        invariant WithSegments(draft, segments[i..], as4) == WithSegments(old(draft), segments, as4)
      {
        var s := segments[i];
        assert segments[i..][0] == s && segments[i..][1..] == segments[i + 1..];
        if as4 {
          if s.segmentType == AS_SEQUENCE {
            draft := draft.(as4Sequence := draft.as4Sequence + s.numbers);
          } else {
            draft := draft.(as4Set := draft.as4Set + s.numbers);
          }
        } else if s.segmentType == AS_SEQUENCE {
          draft := draft.(asSequence := draft.asSequence + s.numbers);
        } else {
          draft := draft.(asSet := draft.asSet + s.numbers);
        }
      }
    }

    method Attr(a: Attribute)
      modifies this
      ensures draft == WithAttr(old(draft), a)
    {
      if Optional(a.base) && Transitive(a.base) && !a.Unsupported? {
        draft := draft.(propagate := draft.propagate + [a]);
      }
      match a
      case Origin(_, val) => draft := draft.(origin := val);
      case ASPath(_, segments) => AsSegments(segments, false);
      case NextHop(_, hop) => draft := draft.(nextHops := draft.nextHops + [V4(hop)]);
      case MultiExitDisc(_, val) => draft := draft.(med := val);
      case LocalPref(_, val) => draft := draft.(localPref := val);
      case MPReachNLRI(_, family, hops, nlri) =>
        draft := draft.(nextHops := draft.nextHops + hops, nlri := draft.nlri + nlri, family := family);
      case AS4Path(_, segments) => AsSegments(segments, true);
      case Unsupported(b, data) =>
        var b' := if Optional(b) && Transitive(b) then b.(flag := (b.flag + 0x20) % 0x100) else b;
        draft := draft.(propagate := draft.propagate + [Unsupported(b', data)]);
      case _ =>
    }

    method Nlri(prefixes: seq<Prefixes.Prefix>)
      modifies this
      ensures draft == old(draft).(nlri := old(draft.nlri) + prefixes)
    {
      draft := draft.(nlri := draft.nlri + prefixes);
    }

    /** One `map` over a number list, sharing the counter `i` with the other. */
    method Rebuild(ns: seq<u32>, start: nat) returns (r: Option<(seq<u32>, nat)>)
      ensures r == Restore(ns, draft.as4Sequence, start)
    {
      var i := start;
      var out := [];
      ghost var whole := Restore(ns, draft.as4Sequence, start);
      AfterOne([], 0, whole);
      assert ns[0..] == ns;
      for k := 0 to |ns|
        invariant 0 <= i
        invariant whole == After(out, Restore(ns[k..], draft.as4Sequence, i))
      {
        assert ns[k..][0] == ns[k] && ns[k..][1..] == ns[k + 1..];
        if ns[k] == AS_TRANS {
          if i >= |draft.as4Sequence| {
            return None;
          }
          AfterOne(out, draft.as4Sequence[i], Restore(ns[k + 1..], draft.as4Sequence, i + 1));
          out := out + [draft.as4Sequence[i]];
          i := i + 1;
        } else {
          AfterOne(out, ns[k], Restore(ns[k + 1..], draft.as4Sequence, i));
          out := out + [ns[k]];
        }
      }
      assert ns[|ns|..] == [] && out + [] == out;
      r := Some((out, i));
    }

    /** `build`: one path per prefix, all with the merged AS path; the identifier and the clock, read for each, come from outside. */
    method Build(id: u64, clock: seq<nat>) returns (r: Result<seq<Paths.Path>, PathError>)
      requires |clock| == |draft.nlri|
      ensures match Merged(draft)
              case Failure(e) => r == Failure(e)
              case Success((sequence, asSet)) =>
                && r.Success? && |r.value| == |draft.nlri| && Siblings(r.value)
                && forall k :: 0 <= k < |draft.nlri| ==>
                     && Carries(r.value[k], who, draft, sequence, asSet)
                     && r.value[k].id == id && r.value[k].timestamp == clock[k] && r.value[k].what.prefix == draft.nlri[k].inner
    {
      var first := Rebuild(draft.asSequence, 0);
      match first
      case None => r := Failure(IndexOutOfRange);
      case Some((sequence, i)) =>
        var second := Rebuild(draft.asSet, i);
        match second {
          case None => r := Failure(IndexOutOfRange);
          case Some((asSet, _)) =>
            var paths := [];
            for k := 0 to |draft.nlri|
              invariant |paths| == k
              invariant forall j :: 0 <= j < k ==>
                          && Carries(paths[j], who, draft, sequence, asSet)
                          && paths[j].id == id && paths[j].timestamp == clock[j] && paths[j].what.prefix == draft.nlri[j].inner
                          && !paths[j].best && paths[j].reason == Paths.NotBest
            {
              var what := Paths.Announcement(who.localId, who.localAsn, who.peerId, who.peerAddr, who.peerAsn, draft.family,
                                             draft.origin, draft.localPref, draft.med, sequence, asSet, draft.nextHops,
                                             draft.propagate, draft.nlri[k].inner);
              paths := paths + [Paths.Path(id, false, Paths.NotBest, clock[k], what)];
            }
            r := Success(paths);
        }
    }
  }
}
