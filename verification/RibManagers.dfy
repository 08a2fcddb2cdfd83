/**
 Batches of announcements and withdrawals (`RibManager::install_paths` and `drop_paths` in `sartd/src/bgp/src/rib.rs`):
 the Loc-RIB is changed path by path, the FIB is told on the way, and then every peer gets what it may know.
 The FIB and the channels to the peers may fail: since the first failed request ends a batch, the FIB is given by the
 number of requests it accepts before one fails, and the channels by the set of peers that no longer listen.
 */
module RibManagers {
  import opened Base
  import opened Net
  import opened Family
  import opened Paths
  import opened LocRibs
  import opened LocRibRuns

  datatype NeighborPair = NeighborPair(addr: IpAddr, asn: u32)

  const AD_EBGP: u8 := 20
  const AD_IBGP: u8 := 200

  datatype FibCall =
    | AddRoute(destination: IpNet, gateway: IpAddr, ad: u8, ibgp: bool)
    | AddMultiPathRoute(destination: IpNet, gateway: IpAddr, ad: u8, ibgp: bool)
    | DeleteRoute(destination: IpNet)
    | DeleteMultiPathRoute(destination: IpNet, gateway: IpAddr)

  function Distance(p: Path): u8 { if p.IsExternal() then AD_EBGP else AD_IBGP }

  type Change = (IpNet, u64)

  /** The Loc-RIB after a batch, the best paths that changed, prefixes withdrawn, what the FIB was told, and what stopped the batch. */
  datatype Batch = Batch(
    state: State, changed: seq<Change>, withdrawn: seq<(IpNet, PathKind)>, calls: seq<FibCall>, error: Option<RibError>)

  function Before(changed: seq<Change>, withdrawn: seq<(IpNet, PathKind)>, calls: seq<FibCall>, rest: Batch): Batch {
    rest.(changed := changed + rest.changed, withdrawn := withdrawn + rest.withdrawn, calls := calls + rest.calls)
  }

  function Stopped(s: State, e: RibError): Batch { Batch(s, [], [], [], Some(e)) }

  /** One request to the FIB, which may have accepted its last one. */
  function Request(call: FibCall, accepts: nat): (r: Result<seq<FibCall>, RibError>)
    ensures r.Success? ==> accepts > 0 && r.value == [call]
  {
    if accepts == 0 then Failure(EndpointFailed) else Success([call])
  }

  /** How many more requests the FIB accepts after these. */
  function Left(accepts: nat, calls: seq<FibCall>): nat {
    if |calls| <= accepts then accepts - |calls| else 0
  }

  // ---------------------------------------------------------------- installing

  /** What the FIB is told about a status, if it is to be told. */
  function InstallCalls(x: Path, status: Status, fib: bool, accepts: nat): Result<seq<FibCall>, RibError> {
    match status
    case BestPathChanged(_, _) =>
      if !fib then Success([])
      else if x.what.nextHops == [] then Failure(NextHopMustBeSet)
      else Request(AddRoute(x.Prefix(), x.what.nextHops[0], Distance(x), !x.IsExternal()), accepts)
    case MultiPathAdded =>
      if !fib then Success([])
      else if x.what.nextHops == [] then Failure(NextHopMustBeSet)
      else Request(AddMultiPathRoute(x.Prefix(), x.what.nextHops[0], Distance(x), !x.IsExternal()), accepts)
    case _ => Success([])
  }

  function ChangedBy(status: Status): seq<Change> {
    match status
    case BestPathChanged(d, id) => [(d, id)]
    case _ => []
  }

  function Install(s: State, afi: Afi, paths: seq<Path>, fib: bool, accepts: nat): Batch
    decreases |paths|
  {
    if paths == [] then Batch(s, [], [], [], None)
    else
      match InsertStep(s, afi, paths[0])
      case (s', Failure(e)) => Stopped(s', e)
      case (s', Success((x, status))) =>
        match InstallCalls(x, status, fib, accepts)
        case Failure(e) => Before(ChangedBy(status), [], [], Stopped(s', e))
        case Success(calls) => Before(ChangedBy(status), [], calls, Install(s', afi, paths[1..], fib, Left(accepts, calls)))
  }

  // ---------------------------------------------------------------- dropping

  function WithdrawnBy(status: Status): seq<(IpNet, PathKind)> {
    match status
    case Withdrawn(d, kind) => [(d, kind)]
    case _ => []
  }

  /** What the FIB is told about a removal; the new best path is looked up by its identifier. */
  function DropCalls(s: State, afi: Afi, status: Status, fib: bool, accepts: nat): Result<seq<FibCall>, RibError> {
    match status
    case BestPathChanged(d, id) => (
      match Lookup(s, afi, d, id)
      case None => Failure(PathNotFound)
      case Some(p) =>
        if !fib then Success([])
        else if p.what.nextHops == [] then Failure(NextHopMustBeSet)
        else Request(AddRoute(p.Prefix(), p.what.nextHops[0], Distance(p), !p.IsExternal()), accepts))
    case MultiPathWithdrawn(d, id, gateway) => (
      match Lookup(s, afi, d, id)
      case None => Failure(PathNotFound)
      case Some(p) => if fib && gateway.Some? then Request(DeleteMultiPathRoute(d, gateway.value), accepts) else Success([]))
    case Withdrawn(d, _) => if fib then Request(DeleteRoute(d), accepts) else Success([])
    case _ => Success([])
  }

  function DropAll(s: State, afi: Afi, ids: seq<Change>, fib: bool, accepts: nat): Batch
    decreases |ids|
  {
    if ids == [] then Batch(s, [], [], [], None)
    else
      match DropStep(s, afi, ids[0].0, ids[0].1)
      case (s', Failure(e)) => Stopped(s', e)
      case (s', Success(status)) =>
        match DropCalls(s', afi, status, fib, accepts)
        case Failure(e) => Before(ChangedBy(status), WithdrawnBy(status), [], Stopped(s', e))
        case Success(calls) => Before(ChangedBy(status), WithdrawnBy(status), calls, DropAll(s', afi, ids[1..], fib, Left(accepts, calls)))
  }

  // ---------------------------------------------------------------- telling the peers

  /** Split horizon: a path learnt over iBGP stays out of the local AS; on installation an eBGP path is not sent back. */
  predicate MayTell(kind: PathKind, asn: u32, peer: NeighborPair, source: Option<NeighborPair>) {
    match kind
    case Local => true
    case Ebgp => source != Some(peer)
    case Internal => asn != peer.asn
  }

  function Adverts(s: State, afi: Afi, changed: seq<Change>, asn: u32, peer: NeighborPair, source: Option<NeighborPair>)
    : Result<seq<Path>, RibError>
  {
    if changed == [] then Success([])
    else
      match Lookup(s, afi, changed[0].0, changed[0].1)
      case None => Failure(PathNotFound)
      case Some(p) =>
        var rest :- Adverts(s, afi, changed[1..], asn, peer, source);
        Success((if MayTell(p.Kind(), asn, peer, source) then [p] else []) + rest)
  }

  function Withdrawals(withdrawn: seq<(IpNet, PathKind)>, asn: u32, peer: NeighborPair, source: Option<NeighborPair>): seq<IpNet> {
    if withdrawn == [] then []
    else (if MayTell(withdrawn[0].1, asn, peer, source) then [withdrawn[0].0] else [])
         + Withdrawals(withdrawn[1..], asn, peer, source)
  }

  // ---------------------------------------------------------------- in place

  class RibManager {
    const asn: u32
    const locRib: LocRib
    var peers: set<NeighborPair>
    var endpoint: bool

    constructor (asn: u32, protocols: seq<Afi>, multi: bool, endpoint: bool)
      ensures this.asn == asn && fresh(locRib) && peers == {} && this.endpoint == endpoint
      ensures locRib.multi == multi && Fresh(locRib.View())
    {
      this.asn := asn;
      locRib := new LocRib(protocols, multi);
      peers := {};
      this.endpoint := endpoint;
    }

    /** The first loop of `install_paths`. */
    method InstallLoop(afi: Afi, paths: seq<Path>, fib: bool, accepts: nat)
      returns (ghost b: Batch, changed: seq<Change>, calls: seq<FibCall>, error: Option<RibError>)
      modifies locRib
      ensures b == Install(old(locRib.View()), afi, paths, fib, accepts)
      ensures locRib.View() == b.state && changed == b.changed && calls == b.calls && error == b.error
    {
      hide InsertStep, InstallCalls, ChangedBy, Left;
      ghost var whole := Install(locRib.View(), afi, paths, fib, accepts);
      var left := accepts;
      changed, calls, error := [], [], None;
      b := whole;
      BeforeNothing(whole);
      for i := 0 to |paths|
        invariant whole == Before(changed, [], calls, Install(locRib.View(), afi, paths[i..], fib, left))
      {
        assert paths[i..][0] == paths[i] && paths[i..][1..] == paths[i + 1..];
        var r := locRib.InsertPath(afi, paths[i]);
        if r.Failure? {
          BeforeStopped(changed, calls, locRib.View(), r.error);
          error := Some(r.error);
          return;
        }
        var (x, status) := r.value;
        var told := InstallCalls(x, status, fib, left);
        if told.Failure? {
          BeforeBefore(changed, [], calls, ChangedBy(status), [], [], Stopped(locRib.View(), told.error));
          changed := changed + ChangedBy(status);
          BeforeStopped(changed, calls, locRib.View(), told.error);
          assert calls + [] == calls;
          error := Some(told.error);
          return;
        }
        BeforeBefore(changed, [], calls, ChangedBy(status), [], told.value, Install(locRib.View(), afi, paths[i + 1..], fib, Left(left, told.value)));
        changed := changed + ChangedBy(status);
        calls := calls + told.value;
        left := Left(left, told.value);
      }
      BeforeEnd(changed, [], calls, locRib.View());
    }

    /** `install_paths`: the messages sent are given per peer; one that would be empty is not sent. */
    method InstallPaths(neighbor: NeighborPair, paths: seq<Path>, applyToFib: bool, accepts: nat, deaf: set<NeighborPair>)
      returns (error: Option<RibError>, sent: map<NeighborPair, seq<Path>>, calls: seq<FibCall>)
      modifies locRib
      ensures paths == [] ==> error == None && sent == map[] && calls == [] && locRib.View() == old(locRib.View())
      ensures paths != [] ==>
                var afi := paths[0].what.family.afi;
                var b := Install(old(locRib.View()), afi, paths, applyToFib && endpoint, accepts);
                && locRib.View() == b.state && calls == b.calls
                && (b.error.Some? ==> error == b.error && sent == map[])
                && (b.error.None? ==> Sent(error, sent, b.state, afi, b.changed, asn, peers, Some(neighbor), deaf))
    {
      error, sent := None, map[];
      if paths == [] {
        calls := [];
        return;
      }
      var afi := paths[0].what.family.afi;
      ghost var b;
      var changed;
      b, changed, calls, error := InstallLoop(afi, paths, applyToFib && endpoint, accepts);
      if error.Some? {
        return;
      }
      error, sent := Advertise(afi, changed, Some(neighbor), deaf);
    }

    /** The loop over the peers, up to the first lookup or channel that fails. */
    method Advertise(afi: Afi, changed: seq<Change>, source: Option<NeighborPair>, deaf: set<NeighborPair>)
      returns (error: Option<RibError>, sent: map<NeighborPair, seq<Path>>)
      ensures Sent(error, sent, locRib.View(), afi, changed, asn, peers, source, deaf)
    {
      hide Adverts;
      error, sent := None, map[];
      ghost var s := locRib.View();
      var todo := peers;
      while todo != {}
        invariant todo <= peers
        invariant forall p :: p in peers - todo ==> TellsPeer(sent, p, Adverts(s, afi, changed, asn, p, source))
        invariant forall p :: p in sent ==> p in peers - todo && p !in deaf
        decreases |todo|
      {
        var peer :| peer in todo;
        var advert := AdvertsFor(afi, changed, peer, source);
        if advert.Failure? {
          assert Stops(peer, Adverts(s, afi, changed, asn, peer, source), advert.error, deaf);
          error := Some(advert.error);
          return;
        }
        if advert.value != [] {
          if peer in deaf {
            assert Stops(peer, Adverts(s, afi, changed, asn, peer, source), ChannelClosed, deaf);
            error := Some(ChannelClosed);
            return;
          }
          sent := sent[peer := advert.value];
        }
        todo := todo - {peer};
      }
    }

    method AdvertsFor(afi: Afi, changed: seq<Change>, peer: NeighborPair, source: Option<NeighborPair>)
      returns (r: Result<seq<Path>, RibError>)
      ensures r == Adverts(locRib.View(), afi, changed, asn, peer, source)
    {
      hide Lookup;
      var out: seq<Path> := [];
      ghost var whole := Adverts(locRib.View(), afi, changed, asn, peer, source);
      JoinedTwice([], [], whole);
      assert changed[0..] == changed;
      for i := 0 to |changed|
        invariant whole == Joined(out, Adverts(locRib.View(), afi, changed[i..], asn, peer, source))
      {
        assert changed[i..][0] == changed[i] && changed[i..][1..] == changed[i + 1..];
        var p := locRib.GetById(afi, changed[i].0, changed[i].1);
        if p.None? {
          return Failure(PathNotFound);
        }
        var told := if MayTell(p.value.Kind(), asn, peer, source) then [p.value] else [];
        JoinedTwice(out, told, Adverts(locRib.View(), afi, changed[i + 1..], asn, peer, source));
        out := out + told;
      }
      assert out + [] == out;
      r := Success(out);
    }

    /** The first loop of `drop_paths`. */
    method DropLoop(afi: Afi, ids: seq<Change>, fib: bool, accepts: nat)
      returns (ghost b: Batch, changed: seq<Change>, withdrawn: seq<(IpNet, PathKind)>, calls: seq<FibCall>, error: Option<RibError>)
      modifies locRib
      ensures b == DropAll(old(locRib.View()), afi, ids, fib, accepts)
      ensures locRib.View() == b.state && changed == b.changed && withdrawn == b.withdrawn && calls == b.calls && error == b.error
    {
      hide DropStep, DropCalls, ChangedBy, WithdrawnBy, Left;
      ghost var whole := DropAll(locRib.View(), afi, ids, fib, accepts);
      var left := accepts;
      changed, withdrawn, calls, error := [], [], [], None;
      b := whole;
      BeforeNothing(whole);
      for i := 0 to |ids|
        invariant whole == Before(changed, withdrawn, calls, DropAll(locRib.View(), afi, ids[i..], fib, left))
      {
        assert ids[i..][0] == ids[i] && ids[i..][1..] == ids[i + 1..];
        var r := locRib.DropPath(afi, ids[i].0, ids[i].1);
        if r.Failure? {
          BeforeEnd(changed, withdrawn, calls, locRib.View());
          error := Some(r.error);
          return;
        }
        var told := ToldAboutDrop(afi, r.value, fib, left);
        if told.Failure? {
          BeforeBefore(changed, withdrawn, calls, ChangedBy(r.value), WithdrawnBy(r.value), [], Stopped(locRib.View(), told.error));
          changed := changed + ChangedBy(r.value);
          withdrawn := withdrawn + WithdrawnBy(r.value);
          BeforeEnd(changed, withdrawn, calls, locRib.View());
          assert calls + [] == calls;
          error := Some(told.error);
          return;
        }
        BeforeBefore(changed, withdrawn, calls, ChangedBy(r.value), WithdrawnBy(r.value), told.value,
                     DropAll(locRib.View(), afi, ids[i + 1..], fib, Left(left, told.value)));
        changed := changed + ChangedBy(r.value);
        withdrawn := withdrawn + WithdrawnBy(r.value);
        calls := calls + told.value;
        left := Left(left, told.value);
      }
      BeforeEnd(changed, withdrawn, calls, locRib.View());
    }

    method ToldAboutDrop(afi: Afi, status: Status, fib: bool, accepts: nat) returns (r: Result<seq<FibCall>, RibError>)
      ensures r == DropCalls(locRib.View(), afi, status, fib, accepts)
    {
      hide Lookup;
      match status
      case BestPathChanged(d, id) =>
        var p := locRib.GetById(afi, d, id);
        if p.None? {
          return Failure(PathNotFound);
        }
        if !fib {
          return Success([]);
        }
        if p.value.what.nextHops == [] {
          return Failure(NextHopMustBeSet);
        }
        r := Request(AddRoute(p.value.Prefix(), p.value.what.nextHops[0], Distance(p.value), !p.value.IsExternal()), accepts);
      case MultiPathWithdrawn(d, id, gateway) =>
        var p := locRib.GetById(afi, d, id);
        if p.None? {
          return Failure(PathNotFound);
        }
        r := if fib && gateway.Some? then Request(DeleteMultiPathRoute(d, gateway.value), accepts) else Success([]);
      case Withdrawn(d, _) => r := if fib then Request(DeleteRoute(d), accepts) else Success([]);
      case _ => r := Success([]);
    }

    /** The first loop over the peers in `drop_paths`. */
    method Withdraw(withdrawn: seq<(IpNet, PathKind)>, source: Option<NeighborPair>, deaf: set<NeighborPair>)
      returns (error: Option<RibError>, sent: map<NeighborPair, seq<IpNet>>)
      ensures Withdrew(error, sent, withdrawn, asn, peers, source, deaf)
    {
      hide Withdrawals;
      error, sent := None, map[];
      var todo := peers;
      while todo != {}
        invariant todo <= peers
        invariant forall p :: p in peers - todo ==> WithdrawnFrom(sent, p, Withdrawals(withdrawn, asn, p, source))
        invariant forall p :: p in sent ==> p in peers - todo && p !in deaf
        decreases |todo|
      {
        var peer :| peer in todo;
        var withdraw := WithdrawalsFor(withdrawn, peer, source);
        if withdraw != [] {
          if peer in deaf {
            assert Withdrawals(withdrawn, asn, peer, source) != [];
            error := Some(ChannelClosed);
            return;
          }
          sent := sent[peer := withdraw];
        }
        todo := todo - {peer};
      }
    }

    method WithdrawalsFor(withdrawn: seq<(IpNet, PathKind)>, peer: NeighborPair, source: Option<NeighborPair>) returns (r: seq<IpNet>)
      ensures r == Withdrawals(withdrawn, asn, peer, source)
    {
      hide MayTell;
      r := [];
      ghost var whole := Withdrawals(withdrawn, asn, peer, source);
      assert withdrawn[0..] == withdrawn && [] + whole == whole;
      for i := 0 to |withdrawn|
        invariant whole == r + Withdrawals(withdrawn[i..], asn, peer, source)
      {
        assert withdrawn[i..][0] == withdrawn[i] && withdrawn[i..][1..] == withdrawn[i + 1..];
        var told := if MayTell(withdrawn[i].1, asn, peer, source) then [withdrawn[i].0] else [];
        ghost var rest := Withdrawals(withdrawn[i + 1..], asn, peer, source);
        assert r + (told + rest) == r + told + rest;
        r := r + told;
      }
      assert r + [] == r;
    }

    /** `drop_paths`: withdrawals first, then the new best paths, which go to the neighbour the old ones came from as well. */
    method DropPaths(neighbor: NeighborPair, afi: Afi, ids: seq<Change>, applyToFib: bool, accepts: nat, deaf: set<NeighborPair>)
      returns (error: Option<RibError>, withdrawals: map<NeighborPair, seq<IpNet>>, sent: map<NeighborPair, seq<Path>>, calls: seq<FibCall>)
      modifies locRib
      ensures var b := DropAll(old(locRib.View()), afi, ids, applyToFib && endpoint, accepts);
              && locRib.View() == b.state && calls == b.calls
              && (b.error.Some? ==> error == b.error && withdrawals == map[] && sent == map[])
              && (b.error.None? ==> DropsTold(error, withdrawals, sent, b, afi, asn, peers, neighbor, deaf))
    {
      hide DropAll, Sent, Withdrew;
      ghost var b;
      var changed, withdrawn;
      withdrawals, sent := map[], map[];
      b, changed, withdrawn, calls, error := DropLoop(afi, ids, applyToFib && endpoint, accepts);
      if error.Some? {
        return;
      }
      error, withdrawals := Withdraw(withdrawn, Some(neighbor), deaf);
      if error.Some? {
        return;
      }
      error, sent := Advertise(afi, changed, None, deaf);
    }

    /** `delete_path`: all local paths of each prefix. */
    method LocalPaths(afi: Afi, network: seq<IpNet>) returns (ids: seq<Change>)
      ensures ids == LocalIds(locRib.View(), afi, network)
    {
      hide LocalIds, Locals;
      ids := [];
      ghost var s := locRib.View();
      assert network[0..] == network && [] + LocalIds(s, afi, network) == LocalIds(s, afi, network);
      for i := 0 to |network|
        invariant LocalIds(s, afi, network) == ids + LocalIds(s, afi, network[i..])
      {
        LocalIdsFrom(s, afi, network, i);
        var d := network[i];
        var paths := if afi in locRib.table && d in locRib.table[afi] then locRib.table[afi][d] else [];
        assert paths == At(s, afi, d);
        var own := LocalPathsOf(paths);
        assert ids + (own + LocalIds(s, afi, network[i + 1..])) == ids + own + LocalIds(s, afi, network[i + 1..]);
        ids := ids + own;
      }
      LocalIdsOfNone(s, afi);
      assert network[|network|..] == [] && ids + [] == ids;
    }

    method LocalPathsOf(paths: seq<Path>) returns (ids: seq<Change>)
      ensures ids == Locals(paths)
    {
      hide Locals, LocalOne;
      ids := [];
      assert paths[0..] == paths && [] + Locals(paths) == Locals(paths);
      for i := 0 to |paths|
        invariant Locals(paths) == ids + Locals(paths[i..])
      {
        LocalsFrom(paths, i);
        var own := LocalOne(paths[i]);
        assert ids + (own + Locals(paths[i + 1..])) == ids + own + Locals(paths[i + 1..]);
        ids := ids + own;
      }
      NoLocals();
      assert paths[|paths|..] == [] && ids + [] == ids;
    }

    method DeletePath(routerId: Octets4, afi: Afi, network: seq<IpNet>, deaf: set<NeighborPair>)
      returns (error: Option<RibError>, withdrawals: map<NeighborPair, seq<IpNet>>, sent: map<NeighborPair, seq<Path>>)
      modifies locRib
      ensures var s := old(locRib.View());
              var b := DropAll(s, afi, LocalIds(s, afi, network), false, 0);
              && locRib.View() == b.state
              && (b.error.Some? ==> error == b.error && withdrawals == map[] && sent == map[])
              && (b.error.None? ==> DropsTold(error, withdrawals, sent, b, afi, asn, peers, NeighborPair(V4(routerId), asn), deaf))
    {
      hide DropAll, DropsTold, LocalIds;
      var ids := LocalPaths(afi, network);
      var calls;
      error, withdrawals, sent, calls := DropPaths(NeighborPair(V4(routerId), asn), afi, ids, false, 0, deaf);
    }
  }

  function Joined(out: seq<Path>, rest: Result<seq<Path>, RibError>): Result<seq<Path>, RibError> {
    match rest
    case Failure(e) => Failure(e)
    case Success(more) => Success(out + more)
  }

  lemma JoinedTwice(out: seq<Path>, told: seq<Path>, rest: Result<seq<Path>, RibError>)
    ensures Joined(out, Joined(told, rest)) == Joined(out + told, rest)
    ensures Joined([], rest) == rest
  {
    if rest.Success? {
      assert [] + rest.value == rest.value;
      assert out + (told + rest.value) == out + told + rest.value;
    }
  }

  /** The peer has been sent what it may know, or nothing if that is nothing. */
  predicate TellsPeer(sent: map<NeighborPair, seq<Path>>, p: NeighborPair, advert: Result<seq<Path>, RibError>) {
    advert.Success? && (if p in sent then sent[p] else []) == advert.value && (p in sent ==> sent[p] != [])
  }

  predicate WithdrawnFrom(sent: map<NeighborPair, seq<IpNet>>, p: NeighborPair, withdrawals: seq<IpNet>) {
    (if p in sent then sent[p] else []) == withdrawals && (p in sent ==> sent[p] != [])
  }

  /** What ends the loop at a peer: its lookup fails, or there is something to send and nobody listens. */
  predicate Stops(p: NeighborPair, advert: Result<seq<Path>, RibError>, e: RibError, deaf: set<NeighborPair>) {
    advert == Failure(e) || (e == ChannelClosed && p in deaf && advert.Success? && advert.value != [])
  }

  /** What was sent is what each peer may know; without an error all peers were told, with one some peer stopped the loop. */
  ghost predicate Sent(error: Option<RibError>, sent: map<NeighborPair, seq<Path>>, s: State, afi: Afi, changed: seq<Change>, asn: u32,
                       peers: set<NeighborPair>, source: Option<NeighborPair>, deaf: set<NeighborPair>)
  {
    && sent.Keys <= peers - deaf
    && (forall p :: p in sent ==> TellsPeer(sent, p, Adverts(s, afi, changed, asn, p, source)))
    && match error
       case None => forall p :: p in peers ==> TellsPeer(sent, p, Adverts(s, afi, changed, asn, p, source))
       case Some(e) => exists p :: p in peers && Stops(p, Adverts(s, afi, changed, asn, p, source), e, deaf)
  }

  ghost predicate Withdrew(error: Option<RibError>, sent: map<NeighborPair, seq<IpNet>>, withdrawn: seq<(IpNet, PathKind)>, asn: u32,
                           peers: set<NeighborPair>, source: Option<NeighborPair>, deaf: set<NeighborPair>)
  {
    && sent.Keys <= peers - deaf
    && (forall p :: p in sent ==> WithdrawnFrom(sent, p, Withdrawals(withdrawn, asn, p, source)))
    && match error
       case None => forall p :: p in peers ==> WithdrawnFrom(sent, p, Withdrawals(withdrawn, asn, p, source))
       case Some(e) => e == ChannelClosed && exists p :: p in peers * deaf && Withdrawals(withdrawn, asn, p, source) != []
  }

  /** The two rounds of messages after a batch of withdrawals; the second is not begun when the first fails. */
  ghost predicate DropsTold(error: Option<RibError>, withdrawals: map<NeighborPair, seq<IpNet>>, sent: map<NeighborPair, seq<Path>>,
                            b: Batch, afi: Afi, asn: u32, peers: set<NeighborPair>, neighbor: NeighborPair, deaf: set<NeighborPair>)
  {
    || (error.Some? && sent == map[] && Withdrew(error, withdrawals, b.withdrawn, asn, peers, Some(neighbor), deaf))
    || (&& Withdrew(None, withdrawals, b.withdrawn, asn, peers, Some(neighbor), deaf)
        && Sent(error, sent, b.state, afi, b.changed, asn, peers, None, deaf))
  }

  /** The local paths of a list, in order. */
  function Locals(paths: seq<Path>): seq<Change> {
    if paths == [] then [] else LocalOne(paths[0]) + Locals(paths[1..])
  }

  function LocalOne(p: Path): seq<Change> {
    if p.IsLocal() then [(p.Prefix(), p.id)] else []
  }

  lemma LocalsFrom(paths: seq<Path>, i: nat)
    requires i < |paths|
    ensures Locals(paths[i..]) == LocalOne(paths[i]) + Locals(paths[i + 1..])
  {
    assert paths[i..][0] == paths[i] && paths[i..][1..] == paths[i + 1..];
  }

  lemma NoLocals()
    ensures Locals([]) == []
  {
  }

  function LocalIds(s: State, afi: Afi, network: seq<IpNet>): seq<Change> {
    if network == [] then [] else Locals(At(s, afi, network[0])) + LocalIds(s, afi, network[1..])
  }

  lemma LocalIdsFrom(s: State, afi: Afi, network: seq<IpNet>, i: nat)
    requires i < |network|
    ensures LocalIds(s, afi, network[i..]) == Locals(At(s, afi, network[i])) + LocalIds(s, afi, network[i + 1..])
  {
    assert network[i..][0] == network[i] && network[i..][1..] == network[i + 1..];
  }

  lemma LocalIdsOfNone(s: State, afi: Afi)
    ensures LocalIds(s, afi, []) == []
  {
  }

  lemma BeforeNothing(b: Batch)
    ensures Before([], [], [], b) == b
  {
    assert [] + b.changed == b.changed && [] + b.withdrawn == b.withdrawn && [] + b.calls == b.calls;
  }

  lemma BeforeBefore(c: seq<Change>, w: seq<(IpNet, PathKind)>, f: seq<FibCall>,
                     c': seq<Change>, w': seq<(IpNet, PathKind)>, f': seq<FibCall>, b: Batch)
    ensures Before(c, w, f, Before(c', w', f', b)) == Before(c + c', w + w', f + f', b)
  {
    assert c + (c' + b.changed) == c + c' + b.changed;
    assert w + (w' + b.withdrawn) == w + w' + b.withdrawn;
    assert f + (f' + b.calls) == f + f' + b.calls;
  }

  lemma BeforeEnd(c: seq<Change>, w: seq<(IpNet, PathKind)>, f: seq<FibCall>, s: State)
    ensures Before(c, w, f, Batch(s, [], [], [], None)) == Batch(s, c, w, f, None)
    ensures forall e :: Before(c, w, f, Stopped(s, e)) == Batch(s, c, w, f, Some(e))
  {
    assert c + [] == c && w + [] == w && f + [] == f;
  }

  lemma BeforeStopped(c: seq<Change>, f: seq<FibCall>, s: State, e: RibError)
    ensures Before(c, [], f, Stopped(s, e)) == Batch(s, c, [], f, Some(e))
  {
    BeforeEnd(c, [], f, s);
  }
}
