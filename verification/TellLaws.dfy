/**
 Who is told what, in terms of the announcements and the lists: which peers hear of a path or a withdrawal, and what the
 FIB is asked for (`install_paths` and `drop_paths` in `sartd/src/bgp/src/rib.rs`).
 */
module TellLaws {
  import opened Base
  import opened Net
  import opened Family
  import opened Paths
  import opened Decision
  import opened LocRibs
  import opened LocRibLists
  import opened LocRibRuns
  import opened RibManagers
  import opened RibManagerLaws
  import opened DecisionFields

  /** Learnt over iBGP and the peer is in the local AS, or learnt over eBGP from this very peer. */
  predicate KeptFrom(a: Announcement, asn: u32, peer: NeighborPair, source: Option<NeighborPair>) {
    !Own(a) && if SameAs(a) then peer.asn == asn else source == Some(peer)
  }

  predicate HeadOfSome(s: State, afi: Afi, changed: seq<Change>, p: Path) {
    exists i :: 0 <= i < |changed| && At(s, afi, changed[i].0) != [] && p == At(s, afi, changed[i].0)[0]
  }

  /** A peer is sent a path if and only if it is the head of a changed list and is not kept from the peer. */
  lemma {:induction false} SentIff(s: State, afi: Afi, changed: seq<Change>, asn: u32, peer: NeighborPair, source: Option<NeighborPair>, p: Path)
    requires NamesHeads(s, afi, changed)
    ensures var sent := Adverts(s, afi, changed, asn, peer, source);
            sent.Success? && (p in sent.value <==> HeadOfSome(s, afi, changed, p) && !KeptFrom(p.what, asn, peer, source))
  {
    hide Lookup, At;
    if changed != [] {
      assert Heads(s, afi, changed[0]);
      LookupHead(s, afi, changed[0]);
      SentIff(s, afi, changed[1..], asn, peer, source, p);
      HeadsSplit(s, afi, changed, p);
    }
  }

  lemma HeadsSplit(s: State, afi: Afi, changed: seq<Change>, p: Path)
    requires changed != [] && Heads(s, afi, changed[0])
    ensures HeadOfSome(s, afi, changed, p) <==> p == At(s, afi, changed[0].0)[0] || HeadOfSome(s, afi, changed[1..], p)
  {
    if HeadOfSome(s, afi, changed[1..], p) {
      var i :| 0 <= i < |changed[1..]| && At(s, afi, changed[1..][i].0) != [] && p == At(s, afi, changed[1..][i].0)[0];
      assert changed[i + 1] == changed[1..][i];
    }
    if HeadOfSome(s, afi, changed, p) {
      var i :| 0 <= i < |changed| && At(s, afi, changed[i].0) != [] && p == At(s, afi, changed[i].0)[0];
      assert i > 0 ==> changed[i] == changed[1..][i - 1];
    }
  }

  /** A peer is told that a prefix is gone, unless the last path was internal and so is the peer, or it came from this peer. */
  lemma {:induction false} WithdrawnIff(withdrawn: seq<(IpNet, PathKind)>, asn: u32, peer: NeighborPair, source: NeighborPair, d: IpNet)
    ensures d in Withdrawals(withdrawn, asn, peer, Some(source))
            <==> exists w <- withdrawn :: w.0 == d && (w.1 == Local || (w.1 == Internal && peer.asn != asn) || (w.1 == Ebgp && source != peer))
  {
    if withdrawn != [] {
      WithdrawnIff(withdrawn[1..], asn, peer, source, d);
      assert forall w :: w in withdrawn <==> w == withdrawn[0] || w in withdrawn[1..];
    }
  }

  // ---------------------------------------------------------------- the FIB

  /** Routes learnt over eBGP have distance 20, all others 200. */
  function RouteFor(p: Path, accepts: nat): Result<seq<FibCall>, RibError> {
    if p.what.nextHops == [] then Failure(NextHopMustBeSet)
    else if accepts == 0 then Failure(EndpointFailed)
    else if !Own(p.what) && !SameAs(p.what) then Success([AddRoute(p.what.prefix, p.what.nextHops[0], 20, false)])
    else Success([AddRoute(p.what.prefix, p.what.nextHops[0], 200, true)])
  }

  /** A route is added when the new path takes the head, joined to when it shares it, and left alone otherwise. */
  lemma InsertAsks(s: State, afi: Afi, x: Path, accepts: nat)
    requires Inv(s) && OpOk(s, Insert(afi, x)) && afi in s.table
    ensures var paths := At(s, afi, x.Prefix());
            var (s', r) := InsertStep(s, afi, x);
            && r.Success?
            && InstallCalls(r.value.0, r.value.1, true, accepts)
               == (if paths == [] || Beats(s.multi, x.what, paths[0].what) then RouteFor(x, accepts)
                   else if s.multi && (forall p <- paths :: p.best ==> x.EqualCost(p)) && JoinsBest(paths, x) then
                     if x.what.nextHops == [] then Failure(NextHopMustBeSet)
                     else if accepts == 0 then Failure(EndpointFailed)
                     else Success([AddMultiPathRoute(x.what.prefix, x.what.nextHops[0],
                                                     if !Own(x.what) && !SameAs(x.what) then 20 else 200, Own(x.what) || SameAs(x.what))])
                   else Success([]))
            && InstallCalls(r.value.0, r.value.1, false, accepts) == Success([])
  {
    hide ListInsert, Inv, BestPrefix, SingleBest, Agree, SameTime, Keyed, Joins, Beats;
    var d := x.Prefix();
    var paths := At(s, afi, d);
    InvAt(s, afi, d);
    ReportedIff(s.multi, d, paths, x);
    if paths != [] {
      SharesIff(s.multi, d, paths, x);
    } else {
      FirstStored(s.multi, x);
    }
  }

  lemma FirstStored(multi: bool, x: Path)
    ensures ListInsert(multi, [], x).Success? && ListInsert(multi, [], x).value.1.what == x.what
  {
  }

  /** The scan passes all best paths and stops right behind them. */
  predicate JoinsBest(paths: seq<Path>, x: Path) {
    LastBest(paths).Some? && Place(true, paths, x) == LastBest(paths).value + 1
  }

  lemma SharesIff(multi: bool, d: IpNet, paths: seq<Path>, x: Path)
    requires ListOk(multi, d, paths) && x.Prefix() == d && !x.best && (multi ==> Joins(paths, x)) && paths != []
    ensures ListInsert(multi, paths, x).Success?
    ensures var (_, x', status) := ListInsert(multi, paths, x).value;
            && x'.what == x.what
            && (status.MultiPathAdded? <==> multi && JoinsBest(paths, x) && forall p <- paths :: p.best ==> x.EqualCost(p))
            && (status.MultiPathAdded? || status.BestPathChanged? || status.NotChanged?)
            && (status.MultiPathAdded? ==> !Beats(multi, x.what, paths[0].what))
  {
    hide Scan, Criteria, LastBest, Place, ListInsert, OldPaths, Beats;
    SomeBest(multi, paths);
    InsertShape(multi, d, paths, x);
    ReportedIff(multi, d, paths, x);
    if multi {
      BestCostsSame(d, paths, x);
    }
  }

  /** Costing the same as the last best path is costing the same as all of them. */
  lemma BestCostsSame(d: IpNet, paths: seq<Path>, x: Path)
    requires ListOk(true, d, paths) && paths != [] && LastBest(paths).Some? && x.Prefix() == d
    ensures x.EqualCost(Retimed(paths, x)[LastBest(paths).value]) <==> forall p <- paths :: p.best ==> x.EqualCost(p)
  {
    hide LastBest, SameTime, Agree;
    LastBestIsPrefix(paths);
    RetimedAll(d, paths, x);
    var last := LastBest(paths).value;
    assert paths[last].best && paths[last] in paths;
    if x.EqualCost(paths[last]) {
      forall p | p in paths && p.best
        ensures x.EqualCost(p)
      {
        var i :| 0 <= i < |paths| && paths[i] == p;
        assert i < last ==> paths[i].EqualCost(paths[last]);
      }
    }
  }

  /**
   What a removal asks of the FIB, read off the old list: the route of the new head when there is one, the end of the route
   when the last path goes, the end of one hop - the first next hop of the removed path - when other best paths stay.
   */
  lemma DropAsks(s: State, afi: Afi, d: IpNet, id: u64, accepts: nat)
    requires Inv(s) && afi in s.table && PositionOf(At(s, afi, d), id).Some?
    ensures var paths := At(s, afi, d);
            var k := PositionOf(paths, id).value;
            var (s', r) := DropStep(s, afi, d, id);
            && r.Success?
            && DropCalls(s', afi, r.value, true, accepts)
               == (if !paths[k].best then Success([])
                   else if |paths| == 1 then Asked(DeleteRoute(d), accepts)
                   else if Promotes(s.multi, paths, k) then RouteFor(paths[if k == 0 then 1 else 0], accepts)
                   else if paths[k].what.nextHops == [] then Success([])
                   else Asked(DeleteMultiPathRoute(d, paths[k].what.nextHops[0]), accepts))
            && DropCalls(s', afi, r.value, false, accepts) == Success([])
  {
    hide Inv, BestPrefix, SingleBest, Agree, SameTime, Keyed, Recomputed, Crowned, Lookup;
    var paths := At(s, afi, d);
    var k := PositionOf(paths, id).value;
    InvAt(s, afi, d);
    DropNamesHead(s, afi, d, id);
    DropShape(s.multi, d, paths, id);
    var (s', r) := DropStep(s, afi, d, id);
    var after := ListDrop(s.multi, d, paths, id).value.0;
    assert At(s', afi, d) == after;
    if after != [] {
      assert Same(RemoveAt(paths, k)[0], after[0]);
      LookupHead(s', afi, (d, after[0].id));
      ListOkPrefix(s.multi, d, paths);
    }
  }

  lemma ListOkPrefix(multi: bool, d: IpNet, paths: seq<Path>)
    requires ListOk(multi, d, paths)
    ensures forall p <- paths :: p.what.prefix == d
  {
  }

  function Asked(call: FibCall, accepts: nat): Result<seq<FibCall>, RibError> {
    if accepts == 0 then Failure(EndpointFailed) else Success([call])
  }

  /** What a removal reports, read off the old list, with the kind of the last path and the hop that goes. */
  lemma DropReports(multi: bool, d: IpNet, paths: seq<Path>, id: u64)
    requires PositionOf(paths, id).Some?
    ensures ListDrop(multi, d, paths, id).Success?
    ensures var k := PositionOf(paths, id).value;
            var status := ListDrop(multi, d, paths, id).value.1;
            if !paths[k].best then status == NotChanged
            else if |paths| == 1 then
              status == Withdrawn(d, if Own(paths[k].what) then Local else if SameAs(paths[k].what) then Internal else Ebgp)
            else if Promotes(multi, paths, k) then status == BestPathChanged(d, Promoted(paths, k))
            else
              status == MultiPathWithdrawn(d, Promoted(paths, k),
                                           if paths[k].what.nextHops == [] then None else Some(paths[k].what.nextHops[0]))
  {
    hide Recomputed, FirstBetter, Crowned;
    var k := PositionOf(paths, id).value;
    var left := RemoveAt(paths, k);
    assert left != [] ==> left[0] == paths[if k == 0 then 1 else 0];
  }
}
