/** Concrete lists on which a property fails once one of its hypotheses is dropped. */
module Witnesses {
  import opened Base
  import opened Net
  import opened Family
  import opened Paths
  import opened Decision
  import opened LocRibs
  import opened LocRibLists
  import opened LocRibRuns
  import opened LocRibReplay
  import opened RibManagers

  const NET := Net4([10, 0, 0, 0], 8)

  /** A path as a builder of the given kind makes it, with a given preference and AS path. */
  function Sample(id: u64, best: bool, pref: u32, asPath: seq<u32>, kind: PathKind): (p: Path)
    ensures p.Kind() == kind && p.Prefix() == NET
  {
    var peer := if kind == Local then [1, 1, 1, 1] else [2, 2, 2, 2];
    var addr := if kind == Local then [0, 0, 0, 0] else [2, 2, 2, 2];
    Path(id, best, NotBest, 7,
         Announcement([1, 1, 1, 1], 100, peer, V4(addr), if kind == Ebgp then 200 else 100, IPV4_UNICAST,
                      0, pref, 0, asPath, [], [V4([2, 2, 2, 2])], [], NET))
  }

  /** A path that is better on any criterion at all takes the first place. */
  lemma TakesFirstPlace(multi: bool, p: Path, x: Path, c: Reason)
    requires p.Prefix() == x.Prefix() && c in Criteria(multi) && Key(c, x.what) < Key(c, p.what)
    ensures Place(multi, [p], x) == 0
  {
    hide Criteria, Key;
    PlaceSpec(multi, p.Prefix(), [p], x);
    BetterIffKey(Criteria(multi), x, p.(timestamp := x.timestamp));
  }

  /**
   Criteria that contradict each other: the stored path has the higher local preference, the new one the shorter AS
   path.  The new path is made best, although the decision process prefers the stored one.
   */
  lemma ShorterPathBeatsPreference()
    ensures var p, x := Sample(1, true, 200, [1, 2], Ebgp), Sample(2, false, 100, [1], Ebgp);
            && SingleBest([p])
            && Lex(Criteria(false), p.what, x.what) == Less
            && ListInsert(false, [p], x).Success?
            && ListInsert(false, [p], x).value.0[0].id == 2 && ListInsert(false, [p], x).value.0[0].best
  {
    var p, x := Sample(1, true, 200, [1, 2], Ebgp), Sample(2, false, 100, [1], Ebgp);
    hide ListInsert, OldPaths, OutcomeFor, Place, Lex;
    var c := Criteria(false);
    assert c[3] == ASPath && ASPath in c;
    TakesFirstPlace(false, p, x, ASPath);
    PreferenceDecides(p.what, x.what);
    assert LastBest([p]).Some? by { SomeBest(false, [p]); }
    OutcomeAtHead(p, x);
    InsertShape(false, NET, [p], x);
  }

  lemma PreferenceDecides(a: Announcement, b: Announcement)
    requires a.IsLocal() == b.IsLocal() && a.localPref > b.localPref
    ensures Lex(Criteria(false), a, b) == Less
  {
    var c := Criteria(false);
    assert c[1..][0] == LocalPref;
  }

  lemma OutcomeAtHead(p: Path, x: Path)
    requires Place(false, [p], x) == 0 && LastBest([p]).Some?
    ensures OutcomeFor(false, [p], x) == Takes
  {
  }

  /**
   Equal cost without agreement on local origination: of two best paths one is local and one learnt over iBGP, and a
   further local path of the same cost lands between them, leaving the head without its mark.
   */
  lemma DisagreementBreaksPrefix()
    ensures var p, q, x := Sample(1, true, 100, [1], Local), Sample(2, true, 100, [1], Internal), Sample(3, false, 100, [1], Local);
            && BestPrefix([p, q]) && x.EqualCost(p) && x.EqualCost(q)
            && ListInsert(true, [p, q], x).Success? && !BestPrefix(ListInsert(true, [p, q], x).value.0)
  {
    var p, q, x := Sample(1, true, 100, [1], Local), Sample(2, true, 100, [1], Internal), Sample(3, false, 100, [1], Local);
    var paths := [p, q];
    var c := Criteria(true);
    assert c[2] == LocalOriginated && LocalOriginated in c;
    assert BestPrefix(paths);
    assert Keyed(NET, paths);
    TieWithFirst(paths, x, c);
    MultiInsertIff(NET, paths, x);
    LastBestIsPrefix(paths);
  }

  lemma TieWithFirst(paths: seq<Path>, x: Path, c: seq<Reason>)
    requires |paths| == 2 && Keyed(NET, paths) && x.Prefix() == NET && c == Criteria(true) && LocalOriginated in c
    requires x.EqualCost(paths[0]) && x.IsLocal() && paths[0].IsLocal() && !paths[1].IsLocal()
    ensures Place(true, paths, x) == 1
  {
    hide Criteria;
    PlaceSpec(true, NET, paths, x);
    EqualCostIsTie(x.what, paths[0].what);
    LexEqual(c, x.what, paths[0].what);
    BetterIffKey(c, x, paths[0].(timestamp := x.timestamp));
    BetterIffKey(c, x, paths[1].(timestamp := x.timestamp));
    assert Key(LocalOriginated, x.what) < Key(LocalOriginated, paths[1].what);
  }

  /** After the only best path has gone two paths are best, and the report names one of them. */
  lemma SecondBestGoesUnreported()
    ensures var paths := [Sample(1, true, 200, [1], Ebgp), Sample(2, false, 100, [1], Ebgp), Sample(3, false, 100, [1], Ebgp)];
            && ListDrop(true, NET, paths, 1).Success?
            && ListDrop(true, NET, paths, 1).value.1 == BestPathChanged(NET, 2)
            && BestIds(ListDrop(true, NET, paths, 1).value.0) != {2}
  {
    var paths := [Sample(1, true, 200, [1], Ebgp), Sample(2, false, 100, [1], Ebgp), Sample(3, false, 100, [1], Ebgp)];
    assert PositionOf(paths, 1) == Some(0);
    assert ListOk(true, NET, paths);
    assert DistinctIds(paths) && PlainReasons(paths) && Underreports(paths, 1);
    ReplayDropIff(NET, paths, 1, IPv4, BestIds(paths));
  }

  /**
   Two announcements of one prefix with different identifiers, which no builder makes but `install_paths` would take: the
   first is advertised although it is no longer at the head.
   */
  lemma RepeatedPrefixAdvertisesOldBest()
    ensures var p, x := Sample(1, false, 100, [1], Ebgp), Sample(2, false, 200, [1], Ebgp);
            var s := State(map[IPv4 := map[]], false, 0, 0);
            var b := Install(s, IPv4, [p, x], false, 0);
            && b.error.None? && b.changed == [(NET, 1), (NET, 2)]
            && At(b.state, IPv4, NET) != [] && At(b.state, IPv4, NET)[0].id == 2
            && Lookup(b.state, IPv4, NET, 1).Some? && Lookup(b.state, IPv4, NET, 1).value.id == 1
  {
    var p, x := Sample(1, false, 100, [1], Ebgp), Sample(2, false, 200, [1], Ebgp);
    var s := State(map[IPv4 := map[]], false, 0, 0);
    var s1, p' := FirstInstall(s, p);
    var s2, x' := SecondInstall(s1, p', x);
    TwoInstalls(s, s1, s2, p, x, p', x');
  }

  lemma FirstInstall(s: State, p: Path) returns (after: State, p': Path)
    requires p.id == 1 && p.Prefix() == NET && s == State(map[IPv4 := map[]], false, 0, 0)
    ensures p'.what == p.what && p'.id == 1 && p'.best && At(after, IPv4, NET) == [p'] && !after.multi && IPv4 in after.table
    ensures InsertStep(s, IPv4, p) == (after, Success((p', BestPathChanged(NET, 1))))
  {
    after := InsertStep(s, IPv4, p).0;
    p' := p.(best := true, reason := OnlyPath);
  }

  lemma SecondInstall(s: State, p: Path, x: Path) returns (after: State, x': Path)
    requires IPv4 in s.table && !s.multi && At(s, IPv4, NET) == [p] && p.best && p.id == 1 && p.Prefix() == NET
    requires x.id == 2 && x.Prefix() == NET && p.what.localPref < x.what.localPref
    ensures InsertStep(s, IPv4, x) == (after, Success((x', BestPathChanged(NET, 2))))
    ensures At(after, IPv4, NET) != [] && At(after, IPv4, NET)[0].id == 2
    ensures Lookup(after, IPv4, NET, 1).Some? && Lookup(after, IPv4, NET, 1).value.id == 1
  {
    hide Lex, Key;
    assert Criteria(false)[1] == LocalPref && LocalPref in Criteria(false);
    assert Key(LocalPref, x.what) < Key(LocalPref, p.what) by { KeyOfPreference(x.what, p.what); }
    TakesFirstPlace(false, p, x, LocalPref);
    assert LastBest([p]).Some? by { SomeBest(false, [p]); }
    InsertShape(false, NET, [p], x);
    after := InsertStep(s, IPv4, x).0;
    x' := InsertStep(s, IPv4, x).1.value.0;
    var stored := At(after, IPv4, NET);
    assert stored[0].id == 2 && stored[1].id == 1;
    assert PositionOf(stored, 1).Some?;
  }

  lemma KeyOfPreference(a: Announcement, b: Announcement)
    requires b.localPref < a.localPref
    ensures Key(LocalPref, a) < Key(LocalPref, b)
  {
  }

  lemma TwoInstalls(s: State, s1: State, s2: State, p: Path, x: Path, p': Path, x': Path)
    requires InsertStep(s, IPv4, p) == (s1, Success((p', BestPathChanged(NET, 1))))
    requires InsertStep(s1, IPv4, x) == (s2, Success((x', BestPathChanged(NET, 2))))
    ensures Install(s, IPv4, [p, x], false, 0) == Batch(s2, [(NET, 1), (NET, 2)], [], [], None)
  {
    hide InsertStep;
    assert [p, x][1..] == [x] && [x][1..] == [];
    assert Install(s2, IPv4, [], false, 0) == Batch(s2, [], [], [], None);
    assert Install(s1, IPv4, [x], false, 0) == Batch(s2, [(NET, 2)], [], [], None);
  }

  /** `delete_path` on a prefix announced locally twice: the second path becomes best, goes as well, and the peers cannot be told. */
  lemma DroppedBestCannotBeTold(peer: NeighborPair)
    ensures var a, b := Sample(1, true, 200, [1], Local), Sample(2, false, 100, [1], Local);
            var s := State(map[IPv4 := map[NET := [a, b]]], false, 0, 0);
            var after := DropAll(s, IPv4, [(NET, 1), (NET, 2)], false, 0);
            && Inv(s) && after.error.None? && after.withdrawn == [(NET, Local)]
            && Adverts(after.state, IPv4, after.changed, 100, peer, None) == Failure(PathNotFound)
  {
    var a, b := Sample(1, true, 200, [1], Local), Sample(2, false, 100, [1], Local);
    var s := State(map[IPv4 := map[NET := [a, b]]], false, 0, 0);
    assert Inv(s);
    var b' := b.(best := true, reason := OnlyPath);
    var s1 := Put(s, IPv4, NET, [b']).(dropped := 1);
    var s2 := Put(s1, IPv4, NET, []).(dropped := 2);
    assert RemoveAt([a, b], 0) == [b] && RemoveAt([b'], 0) == [];
    assert DropStep(s, IPv4, NET, 1) == (s1, Success(BestPathChanged(NET, 2)));
    assert DropStep(s1, IPv4, NET, 2) == (s2, Success(Withdrawn(NET, Local)));
    assert Lookup(s1, IPv4, NET, 2) == Some(b') && Lookup(s2, IPv4, NET, 2) == None;
    TwoDrops(s, s1, s2);
  }

  lemma TwoDrops(s: State, s1: State, s2: State)
    requires DropStep(s, IPv4, NET, 1) == (s1, Success(BestPathChanged(NET, 2))) && Lookup(s1, IPv4, NET, 2).Some?
    requires DropStep(s1, IPv4, NET, 2) == (s2, Success(Withdrawn(NET, Local)))
    ensures DropAll(s, IPv4, [(NET, 1), (NET, 2)], false, 0) == Batch(s2, [(NET, 2)], [(NET, Local)], [], None)
  {
    hide DropStep, Lookup;
    var ids := [(NET, 1), (NET, 2)];
    assert ids[1..] == [(NET, 2)] && [(NET, 2)][1..] == [];
    assert DropAll(s2, IPv4, [], false, 0) == Batch(s2, [], [], [], None);
    assert DropAll(s1, IPv4, ids[1..], false, 0) == Batch(s2, [], [(NET, Local)], [], None);
  }
}
