/** The FIB's table (`sartd/src/fib/src/rib.rs`, `sartd/src/fib/src/route.rs`): per destination, routes by administrative distance. */
module FibRib {
  import opened Base
  import opened Net

  datatype IpVersion = Version4 | Version6

  datatype Protocol = Unspec | Redirect | Kernel | Boot | Static | Bgp | Ospf | Rip | Other(value: u8)

  datatype Distance = Connected | StaticRoute | EBGP | OSPF | RIP | IBGP

  function Rank(d: Distance): nat {
    match d
    case Connected => 0
    case StaticRoute => 1
    case EBGP => 20
    case OSPF => 110
    case RIP => 120
    case IBGP => 200
  }

  datatype NextHop = NextHop(gateway: IpAddr, weight: u32, flags: u8, iface: u32)

  datatype Route = Route(
    destination: IpNet,
    version: IpVersion,
    protocol: Protocol,
    scope: u8,
    kind: u8,
    nextHops: seq<NextHop>,
    source: Option<IpAddr>,
    priority: u32,
    ad: Distance,
    tableId: u8)

  /** What an operation tells its caller: a route, and whether one was there before (insert) or is left (remove). */
  type Report = Option<(Route, bool)>

  // ---------------------------------------------------------------- sorting

  /** `Vec::sort` is stable: an element goes after those of its own distance that came before it. */
  function Place(r: Route, sorted: seq<Route>): seq<Route> {
    if sorted == [] then [r]
    else if Rank(r.ad) < Rank(sorted[0].ad) then [r] + sorted
    else [sorted[0]] + Place(r, sorted[1..])
  }

  function Sort(rs: seq<Route>): seq<Route> {
    if rs == [] then [] else Place(rs[|rs| - 1], Sort(rs[..|rs| - 1]))
  }

  predicate Sorted(rs: seq<Route>) {
    forall i, j :: 0 <= i < j < |rs| ==> Rank(rs[i].ad) <= Rank(rs[j].ad)
  }

  /** The routes of one distance, in order. */
  function AtDistance(rs: seq<Route>, d: Distance): seq<Route> {
    if rs == [] then []
    else AtDistance(rs[..|rs| - 1], d) + if rs[|rs| - 1].ad == d then [rs[|rs| - 1]] else []
  }

  lemma {:induction false} PlaceElements(r: Route, sorted: seq<Route>)
    ensures multiset(Place(r, sorted)) == multiset(sorted) + multiset{r}
  {
    hide Rank;
    if sorted != [] {
      PlaceElements(r, sorted[1..]);
      assert sorted == [sorted[0]] + sorted[1..];
    }
  }

  lemma {:induction false} PlaceSorted(r: Route, sorted: seq<Route>)
    requires Sorted(sorted)
    ensures Sorted(Place(r, sorted))
  {
    hide Rank;
    if sorted != [] && Rank(r.ad) >= Rank(sorted[0].ad) {
      var rest := Place(r, sorted[1..]);
      PlaceSorted(r, sorted[1..]);
      PlaceElements(r, sorted[1..]);
      forall k | 0 <= k < |rest|
        ensures Rank(sorted[0].ad) <= Rank(rest[k].ad)
      {
        assert rest[k] in multiset(rest);
        assert rest[k] == r || rest[k] in sorted[1..];
      }
    }
  }

  lemma {:induction false} AtDistanceFirst(x: Route, rs: seq<Route>, d: Distance)
    ensures AtDistance([x] + rs, d) == (if x.ad == d then [x] else []) + AtDistance(rs, d)
    decreases |rs|
  {
    var all := [x] + rs;
    if rs == [] {
      assert all[..0] == [] && all[0] == x;
    } else {
      assert all[..|all| - 1] == [x] + rs[..|rs| - 1];
      AtDistanceFirst(x, rs[..|rs| - 1], d);
    }
  }

  lemma {:induction false} AtDistanceNone(rs: seq<Route>, d: Distance)
    requires forall i :: 0 <= i < |rs| ==> rs[i].ad != d
    ensures AtDistance(rs, d) == []
    decreases |rs|
  {
    if rs != [] {
      AtDistanceNone(rs[..|rs| - 1], d);
    }
  }

  lemma {:induction false} PlaceStable(r: Route, sorted: seq<Route>, d: Distance)
    requires Sorted(sorted)
    ensures AtDistance(Place(r, sorted), d) == AtDistance(sorted, d) + if r.ad == d then [r] else []
    decreases |sorted|
  {
    hide Rank, AtDistance;
    AtDistanceNone([], d);
    if sorted == [] {
      AtDistanceFirst(r, [], d);
      assert [r] + [] == [r];
    } else if Rank(r.ad) < Rank(sorted[0].ad) {
      AtDistanceFirst(r, sorted, d);
      if r.ad == d {
        AtDistanceNone(sorted, d);
      }
    } else {
      PlaceStable(r, sorted[1..], d);
      AtDistanceFirst(sorted[0], Place(r, sorted[1..]), d);
      AtDistanceFirst(sorted[0], sorted[1..], d);
      assert [sorted[0]] + sorted[1..] == sorted;
    }
  }

  /** Sorting sorts, loses and invents nothing, and keeps the order of routes of the same distance. */
  lemma {:induction false} SortOk(rs: seq<Route>)
    ensures Sorted(Sort(rs)) && multiset(Sort(rs)) == multiset(rs)
    ensures forall d :: AtDistance(Sort(rs), d) == AtDistance(rs, d)
    decreases |rs|
  {
    if rs != [] {
      var n := |rs| - 1;
      SortOk(rs[..n]);
      PlaceSorted(rs[n], Sort(rs[..n]));
      PlaceElements(rs[n], Sort(rs[..n]));
      assert rs == rs[..n] + [rs[n]];
      forall d
        ensures AtDistance(Sort(rs), d) == AtDistance(rs, d)
      {
        PlaceStable(rs[n], Sort(rs[..n]), d);
      }
    }
  }

  // ---------------------------------------------------------------- one destination's routes

  /** The first route of a protocol, or the length. */
  function Find(rs: seq<Route>, protocol: Protocol): (k: nat)
    ensures k <= |rs|
    ensures k < |rs| ==> rs[k].protocol == protocol
    ensures forall j :: 0 <= j < k ==> rs[j].protocol != protocol
  {
    if rs == [] || rs[0].protocol == protocol then 0 else 1 + Find(rs[1..], protocol)
  }

  /** The routes with `route` in place of the one of its protocol, or at the end. */
  function Substitute(rs: seq<Route>, route: Route): seq<Route> {
    var k := Find(rs, route.protocol);
    if k < |rs| then rs[k := route] else rs + [route]
  }

  function InsertRoute(rs: seq<Route>, route: Route): (seq<Route>, Report) {
    if rs == [] then ([route], Some((route, false)))
    else
      SortOk(Substitute(rs, route));
      var after := Sort(Substitute(rs, route));
      assert |after| == |multiset(after)| == |multiset(Substitute(rs, route))|;
      (after, if Rank(after[0].ad) > Rank(rs[0].ad) then None else Some((after[0], true)))
  }

  /** The hop comparison of `remove`: the lengths, and all gateways but the last; two empty lists make it panic. */
  predicate SameHops(r: Route, route: Route) {
    && |r.nextHops| == |route.nextHops|
    && forall i :: 0 <= i < |r.nextHops| - 1 ==> r.nextHops[i].gateway == route.nextHops[i].gateway
  }

  predicate PanicsOn(r: Route, route: Route) {
    r.nextHops == [] && route.nextHops == []
  }

  datatype Search = Found(index: nat) | Missing | Panic

  function Position(rs: seq<Route>, route: Route, i: nat): (r: Search)
    requires i <= |rs|
    ensures r.Found? ==> i <= r.index < |rs| && SameHops(rs[r.index], route)
    decreases |rs| - i
  {
    if i == |rs| then Missing
    else if PanicsOn(rs[i], route) then Panic
    else if SameHops(rs[i], route) then Found(i)
    else Position(rs, route, i + 1)
  }

  function RemoveRoute(rs: seq<Route>, route: Route): Result<(seq<Route>, Report), ()> {
    match Position(rs, route, 0)
    case Panic => Failure(())
    case Missing => Success((rs, None))
    case Found(k) =>
      var after := rs[..k] + rs[k + 1..];
      Success((after,
               if k > 0 then None
               else if after != [] then Some((after[0], true))
               else Some((rs[0], false))))
  }

  // ---------------------------------------------------------------- the table

  datatype State = State(version: IpVersion, table: map<IpNet, seq<Route>>)

  datatype Op = Insert(destination: IpNet, route: Route) | Remove(route: Route)

  function At(s: State, d: IpNet): seq<Route> {
    if d in s.table then s.table[d] else []
  }

  function Target(op: Op): IpNet {
    match op
    case Insert(d, _) => d
    case Remove(r) => r.destination
  }

  /** One operation; `Failure` is the panic of `remove`, which leaves the table as it was. */
  function Step(s: State, op: Op): (State, Result<Report, ()>) {
    if op.route.version != s.version then (s, Success(None))
    else
      match op
      case Insert(d, route) =>
        var (after, report) := InsertRoute(At(s, d), route);
        (s.(table := s.table[d := after]), Success(report))
      case Remove(route) =>
        if route.destination !in s.table then (s, Success(None))
        else
          match RemoveRoute(s.table[route.destination], route)
          case Failure(_) => (s, Failure(()))
          case Success((after, report)) => (s.(table := s.table[route.destination := after]), Success(report))
  }

  class Rib {
    const version: IpVersion
    var table: map<IpNet, seq<Route>>

    ghost function View(): State
      reads this
    {
      State(version, table)
    }

    constructor (version: IpVersion)
      ensures View() == State(version, map[])
    {
      this.version := version;
      table := map[];
    }

    method Insert(destination: IpNet, route: Route) returns (report: Report)
      modifies this
      ensures (View(), Success(report)) == Step(old(View()), Op.Insert(destination, route))
    {
      hide Rank, Sort;
      if route.version != version {
        return None;
      }
      if destination !in table || table[destination] == [] {
        table := table[destination := [route]];
        return Some((route, false));
      }
      var routes := table[destination];
      var published := routes[0];
      var k := 0;
      while k < |routes| && routes[k].protocol != route.protocol
        invariant k <= |routes|
        invariant Find(routes, route.protocol) >= k
      {
        k := k + 1;
      }
      assert k == Find(routes, route.protocol);
      routes := if k < |routes| then routes[k := route] else routes + [route];
      SortOk(routes);
      var sorted := Sort(routes);
      assert |sorted| == |multiset(sorted)| == |multiset(routes)|;
      table := table[destination := sorted];
      if Rank(sorted[0].ad) > Rank(published.ad) {
        return None;
      }
      report := Some((sorted[0], true));
    }

    method GetPublished(destination: IpNet) returns (r: Option<Route>)
      ensures r == Published(At(View(), destination))
    {
      if destination !in table || table[destination] == [] {
        return None;
      }
      r := Some(table[destination][0]);
    }

    method Remove(route: Route) returns (r: Result<Report, ()>)
      modifies this
      ensures (View(), r) == Step(old(View()), Op.Remove(route))
    {
      if route.version != version || route.destination !in table {
        return Success(None);
      }
      var routes := table[route.destination];
      var k := 0;
      while k < |routes|
        invariant 0 <= k <= |routes|
        invariant Position(routes, route, 0) == Position(routes, route, k)
      {
        if PanicsOn(routes[k], route) {
          return Failure(());
        }
        if SameHops(routes[k], route) {
          var removed := routes[k];
          routes := routes[..k] + routes[k + 1..];
          table := table[route.destination := routes];
          if k > 0 {
            return Success(None);
          }
          return Success(if routes != [] then Some((routes[0], true)) else Some((removed, false)));
        }
        k := k + 1;
      }
      table := table[route.destination := routes];
      r := Success(None);
    }
  }

  // ---------------------------------------------------------------- what every run keeps

  function Published(rs: seq<Route>): Option<Route> {
    if rs == [] then None else Some(rs[0])
  }

  predicate OnePerProtocol(rs: seq<Route>) {
    forall i, j :: 0 <= i < j < |rs| ==> rs[i].protocol != rs[j].protocol
  }

  /** The list of a destination: least distance first, one route for each protocol. */
  predicate Ordered(rs: seq<Route>) {
    Sorted(rs) && OnePerProtocol(rs)
  }

  ghost predicate AllOrdered(s: State) {
    forall d :: d in s.table ==> Ordered(s.table[d])
  }

  lemma SortKeepsProtocols(rs: seq<Route>)
    requires OnePerProtocol(rs)
    ensures OnePerProtocol(Sort(rs))
  {
    SortOk(rs);
    var after := Sort(rs);
    forall i, j | 0 <= i < j < |after|
      ensures after[i].protocol != after[j].protocol
    {
      assert after[i] in multiset(rs) && after[j] in multiset(rs);
      var p :| 0 <= p < |rs| && rs[p] == after[i];
      var q :| 0 <= q < |rs| && rs[q] == after[j];
      if p == q {
        Twice(after, i, j);
        Once(rs, p);
      }
    }
  }

  lemma Twice(rs: seq<Route>, i: nat, j: nat)
    requires i < j < |rs| && rs[i] == rs[j]
    ensures multiset(rs)[rs[i]] >= 2
  {
    var before, after := rs[..j], rs[j..];
    assert rs == before + after && rs[i] in before && rs[j] in after by { assert before[i] == rs[i] && after[0] == rs[j]; }
    assert multiset(rs) == multiset(before) + multiset(after);
  }

  lemma Once(rs: seq<Route>, p: nat)
    requires p < |rs| && OnePerProtocol(rs)
    ensures multiset(rs)[rs[p]] == 1
  {
    assert rs == rs[..p] + [rs[p]] + rs[p + 1..];
    assert rs[p] !in rs[..p] && rs[p] !in rs[p + 1..];
  }

  lemma InsertOrdered(rs: seq<Route>, route: Route)
    requires Ordered(rs)
    ensures Ordered(InsertRoute(rs, route).0)
  {
    if rs != [] {
      SortOk(Substitute(rs, route));
      SortKeepsProtocols(Substitute(rs, route));
    }
  }

  lemma StepOrdered(s: State, op: Op)
    requires AllOrdered(s)
    ensures AllOrdered(Step(s, op).0)
  {
    hide InsertRoute, Ordered;
    assert Ordered([]) by { EmptyOrdered(); }
    match op
    case Insert(d, route) => InsertOrdered(At(s, d), route);
    case Remove(route) =>
      if route.destination in s.table {
        RemoveOrdered(s.table[route.destination], route);
      }
  }

  lemma EmptyOrdered()
    ensures Ordered([])
  {
  }

  lemma RemoveOrdered(rs: seq<Route>, route: Route)
    requires Ordered(rs)
    ensures RemoveRoute(rs, route).Success? ==> Ordered(RemoveRoute(rs, route).value.0)
  {
  }

  function Run(s: State, ops: seq<Op>): State
    decreases |ops|
  {
    if ops == [] then s else Run(Step(s, ops[0]).0, ops[1..])
  }

  lemma {:induction false} RunOrdered(s: State, ops: seq<Op>)
    requires AllOrdered(s)
    ensures AllOrdered(Run(s, ops))
    decreases |ops|
  {
    hide AllOrdered;
    if ops != [] {
      StepOrdered(s, ops[0]);
      RunOrdered(Step(s, ops[0]).0, ops[1..]);
    }
  }

  /** After any run from an empty table the published route has the least distance, and each protocol has one route at most. */
  lemma PublishedIsLeast(version: IpVersion, ops: seq<Op>, d: IpNet)
    ensures var rs := At(Run(State(version, map[]), ops), d);
            OnePerProtocol(rs) && Sorted(rs) && forall r <- rs :: Rank(Published(rs).value.ad) <= Rank(r.ad)
  {
    RunOrdered(State(version, map[]), ops);
    EmptyOrdered();
  }

  /** `remove` panics exactly when it is given no next hops and meets a stored route without any. */
  lemma {:induction false} PanicIff(rs: seq<Route>, route: Route, i: nat)
    requires i <= |rs|
    ensures Position(rs, route, i) == Panic <==> route.nextHops == [] && exists k :: i <= k < |rs| && rs[k].nextHops == []
    decreases |rs| - i
  {
    if i < |rs| {
      PanicIff(rs, route, i + 1);
    }
  }

  // ---------------------------------------------------------------- replaying the reports

  /** What a listener believes is published, after one more report. */
  function Replay(belief: map<IpNet, Route>, op: Op, r: Result<Report, ()>): map<IpNet, Route> {
    match r
    case Success(Some((route, flag))) =>
      if op.Remove? && !flag then belief - {Target(op)} else belief[Target(op) := route]
    case _ => belief
  }

  ghost predicate Mirrors(belief: map<IpNet, Route>, s: State) {
    forall d :: (if d in belief then Some(belief[d]) else None) == Published(At(s, d))
  }

  /**
   The replacement that `insert` does not report: the published route gives way to one of its own protocol that is
   further away, and no other route is as near as the old one was.
   */
  predicate Demotes(rs: seq<Route>, route: Route) {
    && rs != []
    && rs[0].protocol == route.protocol
    && Rank(route.ad) > Rank(rs[0].ad)
    && (|rs| == 1 || Rank(rs[1].ad) > Rank(rs[0].ad))
  }

  lemma HeadIsLeast(rs: seq<Route>, route: Route)
    requires rs != []
    ensures var after := InsertRoute(rs, route).0;
            after != [] && after[0] in Substitute(rs, route)
            && forall x <- Substitute(rs, route) :: Rank(after[0].ad) <= Rank(x.ad)
  {
    hide Rank, Sort;
    var before := Substitute(rs, route);
    SortOk(before);
    var after := Sort(before);
    assert |after| == |multiset(after)| == |multiset(before)|;
    assert after[0] in multiset(before);
    forall x | x in before
      ensures Rank(after[0].ad) <= Rank(x.ad)
    {
      assert x in multiset(after);
    }
  }

  lemma DemotesIff(rs: seq<Route>, route: Route)
    requires Ordered(rs) && rs != []
    ensures InsertRoute(rs, route).0 != []
    ensures Demotes(rs, route) <==> Rank(InsertRoute(rs, route).0[0].ad) > Rank(rs[0].ad)
  {
    hide Rank, InsertRoute;
    HeadIsLeast(rs, route);
    var before := Substitute(rs, route);
    if Find(rs, route.protocol) == 0 {
      assert before == [route] + rs[1..];
      if |rs| > 1 {
        assert rs[1..][0] == rs[1] && rs[1] in before;
      }
    } else {
      assert before[0] == rs[0];
    }
  }

  /** One step of a mirrored table: the listener is right afterwards, if and only if the step is no unreported replacement. */
  lemma StepMirrorsIff(belief: map<IpNet, Route>, s: State, op: Op)
    requires Mirrors(belief, s) && AllOrdered(s)
    ensures Mirrors(Replay(belief, op, Step(s, op).1), Step(s, op).0)
            <==> !(op.Insert? && op.route.version == s.version && Demotes(At(s, op.destination), op.route))
  {
    hide Ordered, Demotes;
    var d := Target(op);
    var (s', r) := Step(s, op);
    assert forall e :: e != d ==> At(s', e) == At(s, e);
    match op
    case Insert(_, route) =>
      if route.version == s.version && At(s, d) != [] {
        DemotesIff(At(s, d), route);
      } else if route.version == s.version {
        NeverDemotesNothing(route);
      }
      var belief' := Replay(belief, op, r);
      if (if d in belief' then Some(belief'[d]) else None) == Published(At(s', d)) {
        forall e
          ensures (if e in belief' then Some(belief'[e]) else None) == Published(At(s', e))
        {
          assert e != d ==> (e in belief' <==> e in belief);
        }
      }
    case Remove(route) =>
      var belief' := Replay(belief, op, r);
      assert (if d in belief' then Some(belief'[d]) else None) == Published(At(s', d));
  }

  lemma NeverDemotesNothing(route: Route)
    ensures !Demotes([], route)
  {
  }

  ghost predicate AlwaysMirrors(belief: map<IpNet, Route>, s: State, ops: seq<Op>)
    decreases |ops|
  {
    Mirrors(belief, s) && (ops == [] || AlwaysMirrors(Replay(belief, ops[0], Step(s, ops[0]).1), Step(s, ops[0]).0, ops[1..]))
  }

  predicate NeverDemotes(s: State, ops: seq<Op>)
    decreases |ops|
  {
    ops == [] ||
    (!(ops[0].Insert? && ops[0].route.version == s.version && Demotes(At(s, ops[0].destination), ops[0].route))
     && NeverDemotes(Step(s, ops[0]).0, ops[1..]))
  }

  /** Over a whole run, replaying the reports mirrors the published routes after every step iff no insert is an unreported replacement. */
  lemma {:induction false} RunMirrorsIff(belief: map<IpNet, Route>, s: State, ops: seq<Op>)
    requires Mirrors(belief, s) && AllOrdered(s)
    ensures AlwaysMirrors(belief, s, ops) <==> NeverDemotes(s, ops)
    decreases |ops|
  {
    hide Demotes, AllOrdered, Step;
    if ops != [] {
      StepMirrorsIff(belief, s, ops[0]);
      StepOrdered(s, ops[0]);
      var belief' := Replay(belief, ops[0], Step(s, ops[0]).1);
      if Mirrors(belief', Step(s, ops[0]).0) {
        RunMirrorsIff(belief', Step(s, ops[0]).0, ops[1..]);
      }
    }
  }

  /** A published eBGP route gives way to an iBGP route: the table publishes the new one, the report says nothing. */
  lemma ReplacementGoesUnreported()
    ensures var near := Route(Net4([10, 0, 0, 0], 8), Version4, Bgp, 0, 0, [], None, 0, EBGP, 254);
            var far := near.(ad := IBGP);
            var s := Step(State(Version4, map[]), Insert(near.destination, near)).0;
            var (s', report) := Step(s, Insert(near.destination, far));
            Published(At(s, near.destination)) == Some(near) && report == Success(None) && Published(At(s', near.destination)) == Some(far)
  {
    var near := Route(Net4([10, 0, 0, 0], 8), Version4, Bgp, 0, 0, [], None, 0, EBGP, 254);
    var far := near.(ad := IBGP);
    assert Substitute([near], far) == [far];
    assert [far][..0] == [] && Sort([far]) == [far];
  }

  // ---------------------------------------------------------------- multipath

  predicate Compatible(a: Route, b: Route) {
    && a.destination == b.destination && a.version == b.version && a.protocol == b.protocol
    && a.scope == b.scope && a.kind == b.kind && a.ad == b.ad && a.tableId == b.tableId
  }

  predicate HasGateway(hops: seq<NextHop>, gateway: IpAddr) {
    exists h <- hops :: h.gateway == gateway
  }

  /** The hops whose gateway is not among those of `others`. */
  function Without(hops: seq<NextHop>, others: seq<NextHop>): seq<NextHop> {
    if hops == [] then []
    else (if HasGateway(others, hops[0].gateway) then [] else [hops[0]]) + Without(hops[1..], others)
  }

  function Merge(a: Route, b: Route): Option<Route> {
    if !Compatible(a, b) then None else Some(a.(nextHops := a.nextHops + Without(b.nextHops, a.nextHops)))
  }

  function Pop(a: Route, b: Route): Option<Route> {
    if !Compatible(a, b) then None else Some(a.(nextHops := Without(a.nextHops, b.nextHops)))
  }

  lemma {:induction false} WithoutConcat(xs: seq<NextHop>, ys: seq<NextHop>, others: seq<NextHop>)
    ensures Without(xs + ys, others) == Without(xs, others) + Without(ys, others)
  {
    if xs == [] {
      assert xs + ys == ys;
    } else {
      assert (xs + ys)[1..] == xs[1..] + ys;
      WithoutConcat(xs[1..], ys, others);
    }
  }

  lemma {:induction false} WithoutIff(hops: seq<NextHop>, others: seq<NextHop>)
    ensures |Without(hops, others)| <= |hops|
    ensures Without(hops, others) == hops <==> forall h <- hops :: !HasGateway(others, h.gateway)
    ensures (forall h <- hops :: HasGateway(others, h.gateway)) ==> Without(hops, others) == []
    ensures forall h <- Without(hops, others) :: h in hops
  {
    if hops != [] {
      WithoutIff(hops[1..], others);
      assert hops == [hops[0]] + hops[1..];
      assert forall h :: h in hops <==> h == hops[0] || h in hops[1..];
    }
  }

  /** Popping what was merged gives the route back, if and only if it had no gateway in common with it. */
  lemma PopUndoesMergeIff(a: Route, b: Route)
    requires Compatible(a, b)
    ensures Merge(a, b).Some? && Pop(Merge(a, b).value, b) == Some(a)
            <==> forall h <- a.nextHops :: !HasGateway(b.nextHops, h.gateway)
  {
    var added := Without(b.nextHops, a.nextHops);
    WithoutConcat(a.nextHops, added, b.nextHops);
    WithoutIff(b.nextHops, a.nextHops);
    WithoutIff(a.nextHops, b.nextHops);
    assert forall h <- added :: HasGateway(b.nextHops, h.gateway);
    WithoutIff(added, b.nextHops);
    var left := Without(a.nextHops, b.nextHops);
    assert left + [] == left;
    assert Pop(Merge(a, b).value, b) == Some(a.(nextHops := left));
  }

  /** Which hops stay. */
  lemma {:induction false} WithoutMembers(hops: seq<NextHop>, others: seq<NextHop>)
    ensures forall h :: h in Without(hops, others) <==> h in hops && forall o <- others :: o.gateway != h.gateway
  {
    if hops != [] {
      WithoutMembers(hops[1..], others);
      assert forall h :: h in hops <==> h == hops[0] || h in hops[1..];
    }
  }

  /**
   Which hops a merged and a popped route have: merging keeps the hops of the first in front and adds those of the
   second that lead to a new gateway, popping takes away the hops whose gateway the second has; nothing else changes.
   */
  lemma MultipathHops(a: Route, b: Route)
    ensures Merge(a, b).Some? <==> Pop(a, b).Some?
    ensures Merge(a, b).Some? <==> b == a.(nextHops := b.nextHops, source := b.source, priority := b.priority)
    ensures Merge(a, b).Some? ==>
              && a.nextHops <= Merge(a, b).value.nextHops
              && Merge(a, b).value.(nextHops := a.nextHops) == a == Pop(a, b).value.(nextHops := a.nextHops)
              && (forall h :: h in Merge(a, b).value.nextHops <==>
                    h in a.nextHops || (h in b.nextHops && forall o <- a.nextHops :: o.gateway != h.gateway))
              && forall h :: h in Pop(a, b).value.nextHops <==> h in a.nextHops && forall o <- b.nextHops :: o.gateway != h.gateway
  {
    WithoutMembers(a.nextHops, b.nextHops);
    WithoutMembers(b.nextHops, a.nextHops);
    assert forall h :: h in a.nextHops + Without(b.nextHops, a.nextHops) <==> h in a.nextHops || h in Without(b.nextHops, a.nextHops);
  }

  // ---------------------------------------------------------------- one operation on the old list

  /** Nearest first. */
  lemma DistanceOrder()
    ensures Rank(Connected) < Rank(StaticRoute) < Rank(EBGP) < Rank(OSPF) < Rank(RIP) < Rank(IBGP)
  {
  }

  /**
   An insert leaves the new route and those of the other protocols, and reports the head unless the distance of
   the published route has grown.
   */
  lemma InsertContents(rs: seq<Route>, route: Route)
    requires Ordered(rs)
    ensures var (after, report) := InsertRoute(rs, route);
            && after != []
            && (forall x :: x in after <==> x == route || (x in rs && x.protocol != route.protocol))
            && report == if rs == [] then Some((route, false))
                         else if forall x <- after :: Rank(x.ad) > Rank(rs[0].ad) then None
                         else Some((after[0], true))
  {
    hide Rank, Sort;
    var before := Substitute(rs, route);
    if rs != [] {
      HeadIsLeast(rs, route);
      SortOk(before);
      var after := InsertRoute(rs, route).0;
      assert forall x :: x in after <==> x in multiset(after);
      assert forall x :: x in before <==> x in multiset(before);
      SubstituteMembers(rs, route);
      assert after[0] in after;
    }
  }

  lemma SubstituteMembers(rs: seq<Route>, route: Route)
    requires OnePerProtocol(rs)
    ensures forall x :: x in Substitute(rs, route) <==> x == route || (x in rs && x.protocol != route.protocol)
  {
    var after := Substitute(rs, route);
    var k := Find(rs, route.protocol);
    forall x
      ensures x in after <==> x == route || (x in rs && x.protocol != route.protocol)
    {
      if x in rs && x.protocol != route.protocol {
        var i :| 0 <= i < |rs| && rs[i] == x;
        assert after[i] == x;
      }
      if x == route {
        assert after[if k < |rs| then k else |rs|] == x;
      }
    }
  }

  /** The route has as many hops as `route`, and the same gateways except perhaps the last. */
  predicate Named(r: Route, route: Route) {
    && |r.nextHops| == |route.nextHops|
    && forall i :: 0 <= i < |r.nextHops| && i + 1 < |r.nextHops| ==> r.nextHops[i].gateway == route.nextHops[i].gateway
  }

  /** The first named route goes, and the report is about the head: nothing unless it went, and then what is left or that nothing is. */
  lemma RemoveContents(rs: seq<Route>, route: Route)
    requires route.nextHops != []
    ensures (forall x <- rs :: !Named(x, route)) ==> RemoveRoute(rs, route) == Success((rs, None))
    ensures forall k :: 0 <= k < |rs| && Named(rs[k], route) && (forall j :: 0 <= j < k ==> !Named(rs[j], route)) ==>
              RemoveRoute(rs, route)
              == Success((rs[..k] + rs[k + 1..],
                          if k > 0 then None else if |rs| > 1 then Some((rs[1], true)) else Some((rs[0], false))))
  {
    FirstNamed(rs, route, 0);
  }

  lemma {:induction false} FirstNamed(rs: seq<Route>, route: Route, i: nat)
    requires i <= |rs| && route.nextHops != []
    ensures Position(rs, route, i).Missing? <==> forall j :: i <= j < |rs| ==> !Named(rs[j], route)
    ensures !Position(rs, route, i).Panic?
    ensures Position(rs, route, i).Found? ==>
              Named(rs[Position(rs, route, i).index], route) && forall j :: i <= j < Position(rs, route, i).index ==> !Named(rs[j], route)
    decreases |rs| - i
  {
    if i < |rs| {
      FirstNamed(rs, route, i + 1);
      assert SameHops(rs[i], route) <==> Named(rs[i], route);
    }
  }
}
