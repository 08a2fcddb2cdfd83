/**
 The decision process (`get_comparison_funcs` and the `compare_*` functions of `sartd/src/bgp/src/rib.rs`), and the
 order it is meant to follow: section 9.1.2.2 of RFC 4271, one criterion after the other.
 */
module Decision {
  import opened Base
  import opened Net
  import opened Paths

  /** The criteria in order; multi-path mode stops before the ones that only break ties. */
  function Criteria(multi: bool): seq<Reason> {
    [Weight, LocalPref, LocalOriginated, ASPath, Origin, MultiExitDisc, External]
    + if multi then [] else [OlderRoute, RouterId, PeerAddr]
  }

  /** `Less` means that the new path `a` is preferred to the stored path `b`. */
  function Compare(r: Reason, a: Path, b: Path): Ordering {
    match r
    case LocalPref => Cmp(b.what.localPref, a.what.localPref)
    case LocalOriginated =>
      if a.IsLocal() == b.IsLocal() then Equal else if a.IsLocal() then Less else Greater
    case ASPath => Cmp(|a.what.asSequence|, |b.what.asSequence|)
    case Origin => Cmp(a.what.origin, b.what.origin)
    case MultiExitDisc => Cmp(a.what.med, b.what.med)
    case External =>
      if a.IsIbgp() == b.IsIbgp() then Equal else if !a.IsIbgp() then Less else Greater
    case OlderRoute =>
      if a.IsIbgp() == b.IsIbgp() then Cmp(a.timestamp, b.timestamp) else Equal
    case RouterId => Cmp(Value(a.what.peerId), Value(b.what.peerId))
    case PeerAddr => Cmp(AddrKey(a.what.peerAddr), AddrKey(b.what.peerAddr))
    case _ => Equal
  }

  /** The first criterion that prefers `a`, whatever the ones before it say. */
  function FirstBetter(criteria: seq<Reason>, a: Path, b: Path): (r: Option<Reason>)
    ensures r.Some? ==> r.value in criteria && Compare(r.value, a, b) == Less
    ensures r.None? ==> forall c <- criteria :: Compare(c, a, b) != Less
  {
    if criteria == [] then None
    else if Compare(criteria[0], a, b) == Less then Some(criteria[0])
    else FirstBetter(criteria[1..], a, b)
  }

  /** Where the placement scan stops: at the first stored path that `x` is better than on some criterion. */
  function Scan(criteria: seq<Reason>, x: Path, paths: seq<Path>): (r: (nat, Reason))
    ensures r.0 <= |paths|
    ensures forall i :: 0 <= i < r.0 ==> FirstBetter(criteria, x, paths[i]).None?
    ensures r.0 < |paths| ==> FirstBetter(criteria, x, paths[r.0]) == Some(r.1)
    ensures r.0 == |paths| ==> r.1 == NotBest
  {
    if paths == [] then (0, NotBest)
    else match FirstBetter(criteria, x, paths[0])
      case Some(reason) => (0, reason)
      case None => var (i, reason) := Scan(criteria, x, paths[1..]); (i + 1, reason)
  }

  // ---------------------------------------------------------------- the intended order

  /** What a criterion looks at, smaller being better.  Age is left out: paths of one list always have the same age. */
  function Key(r: Reason, p: Announcement): int {
    match r
    case LocalPref => var pref: int := p.localPref; -pref
    case LocalOriginated => if p.IsLocal() then 0 else 1
    case ASPath => |p.asSequence|
    case Origin => p.origin
    case MultiExitDisc => p.med
    case External => if p.IsIbgp() then 1 else 0
    case RouterId => Value(p.peerId)
    case PeerAddr => AddrKey(p.peerAddr)
    case _ => 0
  }

  /** Criterion by criterion, the first difference decides. */
  function Lex(criteria: seq<Reason>, a: Announcement, b: Announcement): Ordering {
    if criteria == [] then Equal
    else match Cmp(Key(criteria[0], a), Key(criteria[0], b))
      case Equal => Lex(criteria[1..], a, b)
      case o => o
  }

  predicate NotAfter(criteria: seq<Reason>, a: Path, b: Path) {
    Lex(criteria, a.what, b.what) != Greater
  }

  predicate Sorted(criteria: seq<Reason>, paths: seq<Path>) {
    forall i, j :: 0 <= i < j < |paths| ==> NotAfter(criteria, paths[i], paths[j])
  }

  /** Two criteria prefer the two announcements in opposite directions. */
  predicate Conflict(criteria: seq<Reason>, a: Announcement, b: Announcement) {
    && (exists c <- criteria :: Key(c, a) < Key(c, b))
    && (exists c <- criteria :: Key(c, b) < Key(c, a))
  }

  // ---------------------------------------------------------------- laws

  /** With the same time stamp every comparison is the comparison of its keys; age never decides. */
  lemma CompareIsKeys(r: Reason, a: Path, b: Path)
    requires a.timestamp == b.timestamp
    ensures Compare(r, a, b) == Cmp(Key(r, a.what), Key(r, b.what))
  {
  }

  lemma BetterIffKey(criteria: seq<Reason>, a: Path, b: Path)
    requires a.timestamp == b.timestamp
    ensures FirstBetter(criteria, a, b).Some? <==> exists c <- criteria :: Key(c, a.what) < Key(c, b.what)
  {
    hide Key, Compare;
    forall c | c in criteria
      ensures Compare(c, a, b) == Less <==> Key(c, a.what) < Key(c, b.what)
    {
      CompareIsKeys(c, a, b);
    }
  }

  lemma {:induction false} LexFlips(criteria: seq<Reason>, a: Announcement, b: Announcement)
    ensures Lex(criteria, a, b) == Less <==> Lex(criteria, b, a) == Greater
    ensures Lex(criteria, a, b) == Equal <==> Lex(criteria, b, a) == Equal
  {
    hide Key;
    if criteria != [] {
      LexFlips(criteria[1..], a, b);
    }
  }

  lemma {:induction false} LexTransitive(criteria: seq<Reason>, a: Announcement, b: Announcement, c: Announcement)
    requires Lex(criteria, a, b) != Greater && Lex(criteria, b, c) != Greater
    ensures Lex(criteria, a, c) != Greater
    ensures Lex(criteria, a, b) == Less || Lex(criteria, b, c) == Less ==> Lex(criteria, a, c) == Less
  {
    hide Key;
    if criteria != [] && Key(criteria[0], a) == Key(criteria[0], b) == Key(criteria[0], c) {
      LexTransitive(criteria[1..], a, b, c);
    }
  }

  lemma {:induction false} LexEqual(criteria: seq<Reason>, a: Announcement, b: Announcement)
    ensures Lex(criteria, a, b) == Equal <==> forall c <- criteria :: Key(c, a) == Key(c, b)
  {
    hide Key;
    if criteria != [] {
      LexEqual(criteria[1..], a, b);
      assert criteria == [criteria[0]] + criteria[1..];
    }
  }

  /** An announcement that is better on no criterion does not come first. */
  lemma {:induction false} NoneBetter(criteria: seq<Reason>, x: Announcement, p: Announcement)
    requires forall c <- criteria :: Key(c, x) >= Key(c, p)
    ensures Lex(criteria, p, x) != Greater
  {
    hide Key;
    if criteria != [] {
      NoneBetter(criteria[1..], x, p);
    }
  }

  /** Without a conflict, better on some criterion means first in order. */
  lemma BetterIsFirst(criteria: seq<Reason>, x: Announcement, p: Announcement)
    requires (exists c <- criteria :: Key(c, x) < Key(c, p)) && !Conflict(criteria, x, p)
    ensures Lex(criteria, x, p) == Less
  {
    hide Key;
    NoneBetter(criteria, p, x);
    LexEqual(criteria, x, p);
  }

  /** Equal cost, and agreement on local origination, is a tie on every multi-path criterion. */
  lemma EqualCostIsTie(a: Announcement, b: Announcement)
    ensures Lex(Criteria(true), a, b) == Equal <==> a.EqualCost(b) && a.IsLocal() == b.IsLocal()
  {
    hide Lex;
    LexEqual(Criteria(true), a, b);
    var c := Criteria(true);
    assert Weight in c && LocalPref in c && LocalOriginated in c && ASPath in c && Origin in c && MultiExitDisc in c && External in c;
  }
}
