/** What reaches the peers after a batch: which lookups succeed, when every path sent is a head, and split horizon. */
module RibManagerLaws {
  import opened Base
  import opened Net
  import opened Family
  import opened Paths
  import opened Decision
  import opened LocRibs
  import opened LocRibLists
  import opened LocRibRuns
  import opened LocRibCounts
  import opened RibManagers
  import PathBuilding

  function InstallOps(afi: Afi, paths: seq<Path>): (ops: seq<Op>)
    ensures |ops| == |paths| && forall i :: 0 <= i < |paths| ==> ops[i] == Insert(afi, paths[i])
  {
    seq(|paths|, i requires 0 <= i < |paths| => Insert(afi, paths[i]))
  }

  /** A change that names the head of its prefix's list. */
  predicate Heads(s: State, afi: Afi, c: Change) {
    At(s, afi, c.0) != [] && At(s, afi, c.0)[0].id == c.1
  }

  predicate NamesHeads(s: State, afi: Afi, changed: seq<Change>) {
    forall i :: 0 <= i < |changed| ==> Heads(s, afi, changed[i])
  }

  predicate Listed(s: State, afi: Afi, c: Change) {
    c.1 in Bag(At(s, afi, c.0))
  }

  lemma LookupIff(s: State, afi: Afi, c: Change)
    ensures Lookup(s, afi, c.0, c.1).Some? <==> Listed(s, afi, c)
  {
    var paths := At(s, afi, c.0);
    if PositionOf(paths, c.1).Some? {
      assert IdsOf(paths)[PositionOf(paths, c.1).value] == c.1;
    }
  }

  lemma LookupHead(s: State, afi: Afi, c: Change)
    requires Heads(s, afi, c)
    ensures Lookup(s, afi, c.0, c.1) == Some(At(s, afi, c.0)[0])
  {
  }

  // ---------------------------------------------------------------- what a peer is told

  lemma {:induction false} AdvertsIff(s: State, afi: Afi, changed: seq<Change>, asn: u32, peer: NeighborPair, source: Option<NeighborPair>)
    ensures Adverts(s, afi, changed, asn, peer, source).Success? <==> forall c <- changed :: Listed(s, afi, c)
  {
    hide Lookup, Listed;
    if changed != [] {
      LookupIff(s, afi, changed[0]);
      AdvertsIff(s, afi, changed[1..], asn, peer, source);
      assert forall c :: c in changed <==> c == changed[0] || c in changed[1..];
    }
  }

  /** Split horizon: nothing learnt over iBGP goes to a peer of the local AS, and nothing back to an eBGP source. */
  lemma {:induction false} Screened(s: State, afi: Afi, changed: seq<Change>, asn: u32, peer: NeighborPair, source: Option<NeighborPair>)
    ensures var sent := Adverts(s, afi, changed, asn, peer, source);
            sent.Success? ==> forall p <- sent.value ::
              !(p.Kind() == Internal && peer.asn == asn) && !(p.Kind() == Ebgp && source == Some(peer))
  {
    hide Lookup;
    if changed != [] {
      Screened(s, afi, changed[1..], asn, peer, source);
    }
  }

  /** The heads of the changed lists that the peer may know about, in the order of the changes. */
  function HeadsFor(s: State, afi: Afi, changed: seq<Change>, asn: u32, peer: NeighborPair, source: Option<NeighborPair>): seq<Path>
    requires NamesHeads(s, afi, changed)
  {
    if changed == [] then []
    else
      assert Heads(s, afi, changed[0]);
      var p := At(s, afi, changed[0].0)[0];
      (if MayTell(p.Kind(), asn, peer, source) then [p] else []) + HeadsFor(s, afi, changed[1..], asn, peer, source)
  }

  /** When every change names a head, the peer is sent those heads that it may know about, all of them and no others. */
  lemma {:induction false} AdvertsAreHeads(s: State, afi: Afi, changed: seq<Change>, asn: u32, peer: NeighborPair, source: Option<NeighborPair>)
    requires NamesHeads(s, afi, changed)
    ensures Adverts(s, afi, changed, asn, peer, source) == Success(HeadsFor(s, afi, changed, asn, peer, source))
  {
    hide Lookup, MayTell;
    if changed != [] {
      assert Heads(s, afi, changed[0]);
      LookupHead(s, afi, changed[0]);
      AdvertsAreHeads(s, afi, changed[1..], asn, peer, source);
    }
  }

  lemma {:induction false} HeadsAreBest(s: State, afi: Afi, changed: seq<Change>, asn: u32, peer: NeighborPair, source: Option<NeighborPair>)
    requires NamesHeads(s, afi, changed) && Inv(s)
    ensures forall p <- HeadsFor(s, afi, changed, asn, peer, source) ::
              At(s, afi, p.Prefix()) != [] && p == At(s, afi, p.Prefix())[0] && p.best
  {
    hide Inv, BestPrefix, SingleBest, Agree, SameTime, MayTell;
    if changed != [] {
      assert Heads(s, afi, changed[0]);
      HeadsAreBest(s, afi, changed[1..], asn, peer, source);
      InvAt(s, afi, changed[0].0);
      HeadOk(s.multi, changed[0].0, At(s, afi, changed[0].0));
    }
  }

  lemma HeadOk(multi: bool, d: IpNet, paths: seq<Path>)
    requires ListOk(multi, d, paths) && paths != []
    ensures paths[0].Prefix() == d && paths[0].best
  {
  }

  // ---------------------------------------------------------------- one insertion

  /** A best path that an insertion reports is at the head of its list; without a report the head stays. */
  lemma InsertNamesHead(s: State, afi: Afi, x: Path)
    requires Inv(s) && OpOk(s, Insert(afi, x)) && afi in s.table
    ensures InsertStep(s, afi, x).1.Success?
    ensures var (s', r) := InsertStep(s, afi, x);
            && (forall c <- ChangedBy(r.value.1) :: c.0 == x.Prefix() && Heads(s', afi, c))
            && (ChangedBy(r.value.1) == [] ==>
                  At(s, afi, x.Prefix()) != [] && Heads(s', afi, (x.Prefix(), At(s, afi, x.Prefix())[0].id)))
  {
    hide ListInsert, Inv, BestPrefix, SingleBest, Agree, SameTime, Keyed, Joins, Beats;
    var d := x.Prefix();
    var paths := At(s, afi, d);
    InvAt(s, afi, d);
    ReportedIff(s.multi, d, paths, x);
    var after := ListInsert(s.multi, paths, x).value.0;
    assert At(InsertStep(s, afi, x).0, afi, d) == after;
  }

  /** Better on some criterion of the mode: all that the scan asks. */
  predicate Beats(multi: bool, a: Announcement, b: Announcement) {
    exists c <- Criteria(multi) :: Key(c, a) < Key(c, b)
  }

  /** A new path takes the head of its list, and is reported, if and only if there is none or it beats the one there. */
  lemma ReportedIff(multi: bool, d: IpNet, paths: seq<Path>, x: Path)
    requires ListOk(multi, d, paths) && x.Prefix() == d && !x.best && (multi ==> Joins(paths, x))
    ensures ListInsert(multi, paths, x).Success?
    ensures var (after, _, status) := ListInsert(multi, paths, x).value;
            && after != []
            && if paths == [] || Beats(multi, x.what, paths[0].what)
               then status == BestPathChanged(d, x.id) && Same(x, after[0])
               else !status.BestPathChanged? && Same(paths[0], after[0])
  {
    hide Scan, Criteria, LastBest, Place, FirstBetter, Key, OldPaths;
    if paths != [] {
      SomeBest(multi, paths);
      InsertShape(multi, d, paths, x);
      PlaceSpec(multi, d, paths, x);
      BetterIffKey(Criteria(multi), x, paths[0].(timestamp := x.timestamp));
      assert Beats(multi, x.what, paths[0].what) <==> Place(multi, paths, x) == 0;
      if multi {
        AgreementPlacesFirst(d, paths, x);
      }
    }
  }

  lemma InsertStepIsStep(s: State, afi: Afi, x: Path, a: Afi, d: IpNet)
    ensures Step(s, Insert(afi, x)).0 == InsertStep(s, afi, x).0
    ensures (a, d) != (afi, x.Prefix()) ==> At(InsertStep(s, afi, x).0, a, d) == At(s, a, d)
    ensures InsertStep(s, afi, x).0.table.Keys == s.table.Keys
  {
    hide ListInsert;
  }

  lemma InsertLists(s: State, afi: Afi, x: Path, c: Change)
    requires Listed(s, afi, c)
    ensures Listed(InsertStep(s, afi, x).0, afi, c)
  {
    hide ListInsert, Bag;
    if afi in s.table && c.0 == x.Prefix() && ListInsert(s.multi, At(s, afi, c.0), x).Success? {
      InsertBag(s.multi, At(s, afi, c.0), x);
    }
  }

  // ---------------------------------------------------------------- installing a batch

  predicate LastFor(changed: seq<Change>, i: nat)
    requires i < |changed|
  {
    forall j :: i < j < |changed| ==> changed[j].0 != changed[i].0
  }

  /** Every change names a stored path, and the last one for each prefix names the head of its list. */
  ghost predicate Current(s: State, afi: Afi, changed: seq<Change>) {
    && (forall c <- changed :: Listed(s, afi, c))
    && forall i :: 0 <= i < |changed| && LastFor(changed, i) ==> Heads(s, afi, changed[i])
  }

  lemma CurrentCons(s: State, afi: Afi, first: seq<Change>, rest: seq<Change>)
    requires Current(s, afi, rest) && |first| <= 1
    requires forall c <- first :: Listed(s, afi, c) && ((forall r <- rest :: r.0 != c.0) ==> Heads(s, afi, c))
    ensures Current(s, afi, first + rest)
  {
    hide Listed, Heads, LastFor;
    var all := first + rest;
    forall i | 0 <= i < |all| && LastFor(all, i)
      ensures Heads(s, afi, all[i])
    {
      if i < |first| {
        LastOfFirst(first, rest, i);
        assert first[i] in first;
      } else {
        LastOfRest(first, rest, i);
      }
    }
  }

  lemma LastOfFirst(first: seq<Change>, rest: seq<Change>, i: nat)
    requires i < |first| && LastFor(first + rest, i)
    ensures forall r <- rest :: r.0 != first[i].0
  {
    var all := first + rest;
    forall j | 0 <= j < |rest|
      ensures rest[j].0 != first[i].0
    {
      assert all[|first| + j] == rest[j];
    }
  }

  lemma LastOfRest(first: seq<Change>, rest: seq<Change>, i: nat)
    requires |first| <= i < |first + rest| && LastFor(first + rest, i)
    ensures LastFor(rest, i - |first|) && (first + rest)[i] == rest[i - |first|]
  {
    var all, k := first + rest, i - |first|;
    forall j | k < j < |rest|
      ensures rest[j].0 != rest[k].0
    {
      assert all[|first| + j] == rest[j];
    }
  }

  lemma {:induction false} InstallLists(s: State, afi: Afi, paths: seq<Path>, fib: bool, accepts: nat, c: Change)
    requires Listed(s, afi, c)
    ensures Listed(Install(s, afi, paths, fib, accepts).state, afi, c)
    decreases |paths|
  {
    hide InsertStep, InstallCalls, ChangedBy, Listed;
    if paths != [] {
      InsertLists(s, afi, paths[0], c);
      var (s', r) := InsertStep(s, afi, paths[0]);
      if r.Success? {
        var told := InstallCalls(r.value.0, r.value.1, fib, accepts);
        if told.Success? {
          InstallLists(s', afi, paths[1..], fib, Left(accepts, told.value), c);
        }
      }
    }
  }

  /** The head of a list stays where it is as long as the batch reports no change for its prefix. */
  lemma {:induction false} HeadStays(s: State, afi: Afi, paths: seq<Path>, fib: bool, accepts: nat, c: Change)
    requires Inv(s) && afi in s.table && OpsOk(s, InstallOps(afi, paths)) && Heads(s, afi, c)
    requires forall r <- Install(s, afi, paths, fib, accepts).changed :: r.0 != c.0
    ensures Heads(Install(s, afi, paths, fib, accepts).state, afi, c)
    decreases |paths|
  {
    hide Inv, OpOk, InsertStep, Step, At, ChangedBy;
    if paths != [] {
      var x := paths[0];
      BatchStep(s, afi, paths);
      InsertNamesHead(s, afi, x);
      var (s', r) := InsertStep(s, afi, x);
      var told := InstallCalls(r.value.0, r.value.1, fib, accepts);
      var more := if told.Success? then Left(accepts, told.value) else 0;
      var first := ChangedBy(r.value.1);
      InsertStepIsStep(s, afi, x, afi, c.0);
      assert forall y <- first :: y in Install(s, afi, paths, fib, accepts).changed;
      if x.Prefix() == c.0 && first != [] {
        assert first[0] in first;
      }
      assert Heads(s', afi, c);
      if told.Success? {
        assert forall y <- Install(s', afi, paths[1..], fib, more).changed :: y in Install(s, afi, paths, fib, accepts).changed;
        HeadStays(s', afi, paths[1..], fib, more, c);
      }
    }
  }

  /** The first path of a batch, and what the rest of it starts from. */
  lemma BatchStep(s: State, afi: Afi, paths: seq<Path>)
    requires Inv(s) && afi in s.table && OpsOk(s, InstallOps(afi, paths)) && paths != []
    ensures var s' := InsertStep(s, afi, paths[0]).0;
            && OpOk(s, Insert(afi, paths[0])) && Inv(s') && afi in s'.table && OpsOk(s', InstallOps(afi, paths[1..]))
  {
    hide Inv, OpOk, InsertStep, Step, At;
    var ops := InstallOps(afi, paths);
    assert ops[0] == Insert(afi, paths[0]) && ops[1..] == InstallOps(afi, paths[1..]);
    StepInv(s, ops[0]);
    InsertStepIsStep(s, afi, paths[0], afi, paths[0].Prefix());
  }

  lemma {:induction false} InstallKeeps(s: State, afi: Afi, paths: seq<Path>, fib: bool, accepts: nat)
    requires Inv(s) && afi in s.table && OpsOk(s, InstallOps(afi, paths))
    ensures var b := Install(s, afi, paths, fib, accepts);
            Inv(b.state) && Current(b.state, afi, b.changed) && (b.error.Some? ==> b.error.value in {NextHopMustBeSet, EndpointFailed} && fib)
    decreases |paths|
  {
    hide Inv, OpOk, OpsOk, InsertStep, Step, Current, At, ChangedBy, Listed, Heads;
    NothingCurrent(s, afi);
    if paths != [] {
      var x := paths[0];
      BatchStep(s, afi, paths);
      InsertNamesHead(s, afi, x);
      var (s', r) := InsertStep(s, afi, x);
      var told := InstallCalls(r.value.0, r.value.1, fib, accepts);
      var more := if told.Success? then Left(accepts, told.value) else 0;
      var first := ChangedBy(r.value.1);
      OneChange(r.value.1);
      NothingCurrent(s', afi);
      if told.Success? {
        InstallKeeps(s', afi, paths[1..], fib, more);
        var rest := Install(s', afi, paths[1..], fib, more);
        forall c | c in first
          ensures Listed(rest.state, afi, c) && ((forall y <- rest.changed :: y.0 != c.0) ==> Heads(rest.state, afi, c))
        {
          HeadListed(s', afi, c);
          InstallLists(s', afi, paths[1..], fib, more, c);
          if forall y <- rest.changed :: y.0 != c.0 {
            HeadStays(s', afi, paths[1..], fib, more, c);
          }
        }
        CurrentCons(rest.state, afi, first, rest.changed);
      } else {
        forall c | c in first
          ensures Listed(s', afi, c)
        {
          HeadListed(s', afi, c);
        }
        CurrentCons(s', afi, first, []);
      }
    }
  }

  lemma NothingCurrent(s: State, afi: Afi)
    ensures Current(s, afi, [])
  {
  }

  lemma OneChange(status: Status)
    ensures |ChangedBy(status)| <= 1
  {
  }

  lemma HeadListed(s: State, afi: Afi, c: Change)
    requires Heads(s, afi, c)
    ensures Listed(s, afi, c)
  {
    assert IdsOf(At(s, afi, c.0))[0] == c.1;
  }

  /** No prefix gets one best path and then another in the same batch. */
  predicate OncePerPrefix(changed: seq<Change>) {
    forall i, j :: 0 <= i < j < |changed| && changed[i].0 == changed[j].0 ==> changed[i].1 == changed[j].1
  }

  lemma {:induction false} LastIndex(changed: seq<Change>, i: nat) returns (k: nat)
    requires i < |changed|
    ensures i <= k < |changed| && changed[k].0 == changed[i].0 && LastFor(changed, k)
    decreases |changed| - i
  {
    k := i;
    if !LastFor(changed, i) {
      var j :| i < j < |changed| && changed[j].0 == changed[i].0;
      k := LastIndex(changed, j);
    }
  }

  lemma HeadsIff(s: State, afi: Afi, changed: seq<Change>)
    requires Current(s, afi, changed)
    ensures NamesHeads(s, afi, changed) <==> OncePerPrefix(changed)
  {
    if OncePerPrefix(changed) {
      forall i | 0 <= i < |changed|
        ensures Heads(s, afi, changed[i])
      {
        var k := LastIndex(changed, i);
        assert Heads(s, afi, changed[k]);
      }
    } else {
      var i, j :| 0 <= i < j < |changed| && changed[i].0 == changed[j].0 && changed[i].1 != changed[j].1;
      assert !(Heads(s, afi, changed[i]) && Heads(s, afi, changed[j]));
    }
  }

  /** The announcement at the head of a list. */
  function HeadOf(s: State, afi: Afi, d: IpNet): Option<Announcement> {
    if At(s, afi, d) == [] then None else Some(At(s, afi, d)[0].what)
  }

  /** Read off the old head and the batch: the announcements of a prefix that each beat the head they meet. */
  function Takers(multi: bool, head: Option<Announcement>, paths: seq<Path>, d: IpNet): seq<u64>
    decreases |paths|
  {
    if paths == [] then []
    else if paths[0].Prefix() == d && (head.None? || Beats(multi, paths[0].what, head.value)) then
      [paths[0].id] + Takers(multi, Some(paths[0].what), paths[1..], d)
    else Takers(multi, head, paths[1..], d)
  }

  predicate AllEqual(ids: seq<u64>) {
    forall i, j :: 0 <= i < j < |ids| ==> ids[i] == ids[j]
  }

  /** No announcement that takes the head of its prefix is overtaken by a later one with another identifier. */
  ghost predicate NoneOvertaken(s: State, afi: Afi, paths: seq<Path>) {
    forall d :: AllEqual(Takers(s.multi, HeadOf(s, afi, d), paths, d))
  }

  function IdsFor(changed: seq<Change>, d: IpNet): seq<u64> {
    if changed == [] then []
    else (if changed[0].0 == d then [changed[0].1] else []) + IdsFor(changed[1..], d)
  }

  lemma IdsForConcat(first: seq<Change>, rest: seq<Change>, d: IpNet)
    requires |first| <= 1
    ensures IdsFor(first + rest, d) == IdsFor(first, d) + IdsFor(rest, d)
  {
    if first == [] {
      assert first + rest == rest;
    } else {
      assert (first + rest)[1..] == rest && first[1..] == [];
    }
  }

  lemma {:induction false} IdsForMembers(changed: seq<Change>, d: IpNet, id: u64)
    ensures id in IdsFor(changed, d) <==> (d, id) in changed
  {
    if changed != [] {
      IdsForMembers(changed[1..], d, id);
      assert (d, id) in changed <==> (d, id) == changed[0] || (d, id) in changed[1..];
    }
  }

  lemma AllEqualIff(ids: seq<u64>)
    ensures AllEqual(ids) <==> forall a, b :: a in ids && b in ids ==> a == b
  {
    if !AllEqual(ids) {
      var i, j :| 0 <= i < j < |ids| && ids[i] != ids[j];
      assert ids[i] in ids && ids[j] in ids;
    }
  }

  lemma OncePerPrefixIff(changed: seq<Change>)
    ensures OncePerPrefix(changed) <==> forall d :: AllEqual(IdsFor(changed, d))
  {
    hide IdsFor, AllEqual;
    if OncePerPrefix(changed) {
      forall d
        ensures AllEqual(IdsFor(changed, d))
      {
        forall a, b | a in IdsFor(changed, d) && b in IdsFor(changed, d)
          ensures a == b
        {
          IdsForMembers(changed, d, a);
          IdsForMembers(changed, d, b);
        }
        AllEqualIff(IdsFor(changed, d));
      }
    } else {
      var i, j :| 0 <= i < j < |changed| && changed[i].0 == changed[j].0 && changed[i].1 != changed[j].1;
      var d := changed[i].0;
      IdsForMembers(changed, d, changed[i].1);
      IdsForMembers(changed, d, changed[j].1);
      assert changed[j] == (d, changed[j].1);
      AllEqualIff(IdsFor(changed, d));
    }
  }

  /** One insertion, seen from the heads. */
  lemma InsertTakes(s: State, afi: Afi, x: Path, d: IpNet)
    requires Inv(s) && OpOk(s, Insert(afi, x)) && afi in s.table
    ensures InsertStep(s, afi, x).1.Success?
    ensures var (s', r) := InsertStep(s, afi, x);
            var takes := x.Prefix() == d && (HeadOf(s, afi, d).None? || Beats(s.multi, x.what, HeadOf(s, afi, d).value));
            && s'.multi == s.multi
            && IdsFor(ChangedBy(r.value.1), d) == (if takes then [x.id] else [])
            && HeadOf(s', afi, d) == (if takes then Some(x.what) else HeadOf(s, afi, d))
  {
    hide ListInsert, Inv, BestPrefix, SingleBest, Agree, SameTime, Keyed, Joins, Beats;
    var paths := At(s, afi, x.Prefix());
    InvAt(s, afi, x.Prefix());
    ReportedIff(s.multi, x.Prefix(), paths, x);
    var after := ListInsert(s.multi, paths, x).value.0;
    assert At(InsertStep(s, afi, x).0, afi, x.Prefix()) == after;
    InsertStepIsStep(s, afi, x, afi, d);
  }

  /** What a batch reports for a prefix, in order, is told by the old head and the batch alone. */
  lemma {:induction false} ChangesAreTakers(s: State, afi: Afi, paths: seq<Path>, fib: bool, accepts: nat, d: IpNet)
    requires Inv(s) && afi in s.table && OpsOk(s, InstallOps(afi, paths)) && Install(s, afi, paths, fib, accepts).error.None?
    ensures IdsFor(Install(s, afi, paths, fib, accepts).changed, d) == Takers(s.multi, HeadOf(s, afi, d), paths, d)
    decreases |paths|
  {
    hide Inv, OpOk, OpsOk, InsertStep, Step, HeadOf, ChangedBy, Beats, InstallCalls;
    if paths != [] {
      var x := paths[0];
      BatchStep(s, afi, paths);
      InsertTakes(s, afi, x, d);
      var (s', r) := InsertStep(s, afi, x);
      var told := InstallCalls(r.value.0, r.value.1, fib, accepts);
      var more := if told.Success? then Left(accepts, told.value) else 0;
      OneChange(r.value.1);
      ChangesAreTakers(s', afi, paths[1..], fib, more, d);
      IdsForConcat(ChangedBy(r.value.1), Install(s', afi, paths[1..], fib, more).changed, d);
    }
  }

  /** Each prefix is announced at most once. */
  predicate DistinctPrefixes(paths: seq<Path>) {
    forall i, j :: 0 <= i < j < |paths| ==> paths[i].Prefix() != paths[j].Prefix()
  }

  /** A batch reports its own announcements only. */
  lemma {:induction false} ChangedPaths(s: State, afi: Afi, paths: seq<Path>, fib: bool, accepts: nat)
    requires Inv(s) && afi in s.table && OpsOk(s, InstallOps(afi, paths))
    ensures forall c <- Install(s, afi, paths, fib, accepts).changed :: exists x <- paths :: (x.Prefix(), x.id) == c
    decreases |paths|
  {
    hide Inv, OpOk, OpsOk, InsertStep, Step, At, ChangedBy, Heads, Beats, HeadOf;
    if paths != [] {
      var x := paths[0];
      BatchStep(s, afi, paths);
      ReportsItself(s, afi, x);
      var (s', r) := InsertStep(s, afi, x);
      var told := InstallCalls(r.value.0, r.value.1, fib, accepts);
      var more := if told.Success? then Left(accepts, told.value) else 0;
      OneChange(r.value.1);
      assert x in paths && forall y <- paths[1..] :: y in paths;
      ChangedPaths(s', afi, paths[1..], fib, more);
    }
  }

  lemma {:induction false} DistinctOnce(s: State, afi: Afi, paths: seq<Path>, fib: bool, accepts: nat)
    requires Inv(s) && afi in s.table && OpsOk(s, InstallOps(afi, paths)) && DistinctPrefixes(paths)
    ensures OncePerPrefix(Install(s, afi, paths, fib, accepts).changed)
    decreases |paths|
  {
    hide Inv, OpOk, OpsOk, InsertStep, Step, At, ChangedBy, Heads, Beats, HeadOf;
    if paths != [] {
      var x := paths[0];
      BatchStep(s, afi, paths);
      ReportsItself(s, afi, x);
      var (s', r) := InsertStep(s, afi, x);
      var told := InstallCalls(r.value.0, r.value.1, fib, accepts);
      var more := if told.Success? then Left(accepts, told.value) else 0;
      OneChange(r.value.1);
      ChangedPaths(s', afi, paths[1..], fib, more);
      DistinctOnce(s', afi, paths[1..], fib, more);
      forall c | c in Install(s', afi, paths[1..], fib, more).changed
        ensures c.0 != x.Prefix()
      {
        var y :| y in paths[1..] && (y.Prefix(), y.id) == c;
        var j :| 0 <= j < |paths[1..]| && paths[1..][j] == y;
        assert paths[j + 1] == y;
      }
      var first := ChangedBy(r.value.1);
      OnceCons(first, []);
      OnceCons(first, Install(s', afi, paths[1..], fib, more).changed);
    }
  }

  lemma OnceCons(first: seq<Change>, rest: seq<Change>)
    requires |first| <= 1
    ensures OncePerPrefix(rest) && (forall c <- first, r <- rest :: c.0 != r.0) ==> OncePerPrefix(first + rest)
  {
    if OncePerPrefix(rest) && forall c <- first, r <- rest :: c.0 != r.0 {
      var all := first + rest;
      forall i, j | 0 <= i < j < |all| && all[i].0 == all[j].0
        ensures all[i].1 == all[j].1
      {
        assert all[j] == rest[j - |first|];
        assert i >= |first| ==> all[i] == rest[i - |first|];
      }
    }
  }

  lemma ReportsItself(s: State, afi: Afi, x: Path)
    requires Inv(s) && OpOk(s, Insert(afi, x)) && afi in s.table
    ensures InsertStep(s, afi, x).1.Success?
    ensures forall c <- ChangedBy(InsertStep(s, afi, x).1.value.1) :: c == (x.Prefix(), x.id)
  {
    hide ListInsert, Inv, BestPrefix, SingleBest, Agree, SameTime, Keyed, Joins, Beats;
    InvAt(s, afi, x.Prefix());
    ReportedIff(s.multi, x.Prefix(), At(s, afi, x.Prefix()), x);
  }

  /** The path is the head of its prefix's list, and best. */
  predicate SentAsHead(s: State, afi: Afi, p: Path) {
    At(s, afi, p.Prefix()) != [] && p == At(s, afi, p.Prefix())[0] && p.best
  }

  /**
   A batch of announcements: every lookup succeeds; split horizon holds for every path sent; the last change of each
   prefix names the head of its list; and all changes name heads - so that exactly the heads are sent, all best - if and
   only if no announcement that takes the head of its prefix is overtaken later in the batch, as when each prefix is
   announced once.
   */
  lemma InstallBatch(s: State, afi: Afi, paths: seq<Path>, fib: bool, accepts: nat, asn: u32, peer: NeighborPair, source: NeighborPair)
    requires Inv(s) && afi in s.table && OpsOk(s, InstallOps(afi, paths))
    ensures var b := Install(s, afi, paths, fib, accepts);
            var sent := Adverts(b.state, afi, b.changed, asn, peer, Some(source));
            && (b.error.Some? ==> b.error.value in {NextHopMustBeSet, EndpointFailed} && fib)
            && sent.Success?
            && (forall p <- sent.value :: !(p.Kind() == Internal && peer.asn == asn) && !(p.Kind() == Ebgp && source == peer))
            && (forall i :: 0 <= i < |b.changed| && LastFor(b.changed, i) ==> Heads(b.state, afi, b.changed[i]))
            && (b.error.None? ==> (NamesHeads(b.state, afi, b.changed) <==> NoneOvertaken(s, afi, paths)))
            && (DistinctPrefixes(paths) ==> NamesHeads(b.state, afi, b.changed))
            && (NamesHeads(b.state, afi, b.changed) ==> forall p <- sent.value :: SentAsHead(b.state, afi, p))
  {
    hide Inv, OpsOk, Install, Adverts, HeadsFor, Heads, Listed, DistinctPrefixes, OncePerPrefix, NamesHeads, At, AllEqual, Takers;
    InstallKeeps(s, afi, paths, fib, accepts);
    if DistinctPrefixes(paths) {
      DistinctOnce(s, afi, paths, fib, accepts);
    }
    var b := Install(s, afi, paths, fib, accepts);
    AdvertsIff(b.state, afi, b.changed, asn, peer, Some(source));
    Screened(b.state, afi, b.changed, asn, peer, Some(source));
    HeadsIff(b.state, afi, b.changed);
    if b.error.None? {
      OvertakenIff(s, afi, paths, fib, accepts);
    }
    if NamesHeads(b.state, afi, b.changed) {
      AdvertsAreHeads(b.state, afi, b.changed, asn, peer, Some(source));
      HeadsAreBest(b.state, afi, b.changed, asn, peer, Some(source));
    }
  }

  lemma OvertakenIff(s: State, afi: Afi, paths: seq<Path>, fib: bool, accepts: nat)
    requires Inv(s) && afi in s.table && OpsOk(s, InstallOps(afi, paths)) && Install(s, afi, paths, fib, accepts).error.None?
    ensures OncePerPrefix(Install(s, afi, paths, fib, accepts).changed) <==> NoneOvertaken(s, afi, paths)
  {
    hide Inv, OpsOk, Install, OncePerPrefix, AllEqual, HeadOf;
    var changed := Install(s, afi, paths, fib, accepts).changed;
    OncePerPrefixIff(changed);
    if NoneOvertaken(s, afi, paths) {
      forall d
        ensures AllEqual(IdsFor(changed, d))
      {
        ChangesAreTakers(s, afi, paths, fib, accepts, d);
        assert AllEqual(Takers(s.multi, HeadOf(s, afi, d), paths, d));
      }
    } else {
      var d :| !AllEqual(Takers(s.multi, HeadOf(s, afi, d), paths, d));
      ChangesAreTakers(s, afi, paths, fib, accepts, d);
    }
  }

  // ---------------------------------------------------------------- the batches that arrive

  /** What the paths of one builder have to keep to: in multi-path mode, agreement with what is stored. */
  predicate AgreesWithStored(s: State, afi: Afi, paths: seq<Path>) {
    s.multi ==> forall x <- paths :: Joins(At(s, afi, x.Prefix()), x)
  }

  /** One sibling stored leaves the others in agreement. */
  lemma SiblingJoins(multi: bool, d: IpNet, paths: seq<Path>, x: Path, y: Path)
    requires Keyed(d, paths) && x.Prefix() == d && Joins(paths, y) && x.IsLocal() == y.IsLocal()
    ensures ListInsert(multi, paths, x).Success? ==> Joins(ListInsert(multi, paths, x).value.0, y)
  {
    hide Scan, Criteria, LastBest, Place, OldPaths, OutcomeFor;
    StoredIff(multi, paths, x);
    if paths != [] && LastBest(paths).Some? {
      hide ListInsert;
      InsertShape(multi, d, paths, x);
      var after, k := ListInsert(multi, paths, x).value.0, Place(multi, paths, x);
      forall i | 0 <= i < |after| && y.EqualCost(after[i])
        ensures y.IsLocal() == after[i].IsLocal()
      {
        if i != k {
          assert Same(paths[if i < k then i else i - 1], after[i]);
        }
      }
    }
  }

  lemma SiblingsTail(paths: seq<Path>)
    requires PathBuilding.Siblings(paths) && paths != []
    ensures PathBuilding.Siblings(paths[1..]) && !paths[0].best
    ensures forall y <- paths[1..] :: y.IsLocal() == paths[0].IsLocal()
  {
  }

  lemma {:induction false} SiblingsOk(s: State, afi: Afi, paths: seq<Path>)
    requires AllKeyed(s) && afi in s.table && PathBuilding.Siblings(paths) && AgreesWithStored(s, afi, paths)
    ensures OpsOk(s, InstallOps(afi, paths))
    decreases |paths|
  {
    hide AllKeyed, Step, InsertStep, PathBuilding.Siblings, Joins, Keyed, ListInsert;
    if paths != [] {
      var x, d := paths[0], paths[0].Prefix();
      var ops := InstallOps(afi, paths);
      assert ops[0] == Insert(afi, x) && ops[1..] == InstallOps(afi, paths[1..]);
      SiblingsTail(paths);
      StepKeyed(s, ops[0]);
      InsertStepIsStep(s, afi, x, afi, d);
      StepAt(s, ops[0], afi, d);
      KeyedAt(s, afi, d);
      var s' := Step(s, ops[0]).0;
      assert x in paths && forall y <- paths[1..] :: y in paths;
      if s.multi {
        forall y | y in paths[1..]
          ensures Joins(At(s', afi, y.Prefix()), y)
        {
          StepAt(s, ops[0], afi, y.Prefix());
          if y.Prefix() == d {
            SiblingJoins(s.multi, d, At(s, afi, d), x, y);
          }
        }
      }
      SiblingsOk(s', afi, paths[1..]);
    }
  }

  lemma InvKeyed(s: State)
    requires Inv(s)
    ensures AllKeyed(s)
  {
    hide SingleBest, BestPrefix, SameTime, Agree;
  }

  /** One identifier, so no change of a prefix contradicts another. */
  lemma SiblingsOnce(s: State, afi: Afi, paths: seq<Path>, fib: bool, accepts: nat)
    requires Inv(s) && afi in s.table && OpsOk(s, InstallOps(afi, paths)) && PathBuilding.Siblings(paths)
    ensures OncePerPrefix(Install(s, afi, paths, fib, accepts).changed)
  {
    hide Inv, OpsOk, Install;
    ChangedPaths(s, afi, paths, fib, accepts);
    var changed := Install(s, afi, paths, fib, accepts).changed;
    forall i, j | 0 <= i < j < |changed| && changed[i].0 == changed[j].0
      ensures changed[i].1 == changed[j].1
    {
      assert changed[i] in changed && changed[j] in changed;
      var x :| x in paths && (x.Prefix(), x.id) == changed[i];
      var y :| y in paths && (y.Prefix(), y.id) == changed[j];
    }
  }

  /**
   Every batch that a builder makes, as both callers of `install_paths` pass it, and whether it repeats a prefix or not:
   every change names a head, and the peer is sent exactly the heads that it may know, all best.
   */
  lemma BuiltBatch(s: State, afi: Afi, paths: seq<Path>, fib: bool, accepts: nat, asn: u32, peer: NeighborPair, source: NeighborPair)
    requires Inv(s) && afi in s.table && PathBuilding.Siblings(paths) && AgreesWithStored(s, afi, paths)
    ensures var b := Install(s, afi, paths, fib, accepts);
            && Inv(b.state) && NamesHeads(b.state, afi, b.changed)
            && Adverts(b.state, afi, b.changed, asn, peer, Some(source))
               == Success(HeadsFor(b.state, afi, b.changed, asn, peer, Some(source)))
            && forall p <- HeadsFor(b.state, afi, b.changed, asn, peer, Some(source)) :: SentAsHead(b.state, afi, p)
  {
    hide Inv, OpsOk, Install, Adverts, HeadsFor, NamesHeads, PathBuilding.Siblings, AgreesWithStored, At, AllKeyed, Current, OncePerPrefix;
    InvKeyed(s);
    SiblingsOk(s, afi, paths);
    SiblingsOnce(s, afi, paths, fib, accepts);
    InstallKeeps(s, afi, paths, fib, accepts);
    var b := Install(s, afi, paths, fib, accepts);
    HeadsIff(b.state, afi, b.changed);
    AdvertsAreHeads(b.state, afi, b.changed, asn, peer, Some(source));
    HeadsAreBest(b.state, afi, b.changed, asn, peer, Some(source));
  }

  // ---------------------------------------------------------------- one removal

  lemma DropNamesHead(s: State, afi: Afi, d: IpNet, id: u64)
    requires Inv(s) && afi in s.table && PositionOf(At(s, afi, d), id).Some?
    ensures DropStep(s, afi, d, id).1.Success?
    ensures var (s', r) := DropStep(s, afi, d, id);
            && (forall c <- ChangedBy(r.value) :: c.0 == d && Heads(s', afi, c))
            && (r.value.BestPathChanged? || r.value.MultiPathWithdrawn? ==>
                  r.value.prefix == d && At(s', afi, d) != [] && At(s', afi, d)[0].id == r.value.id)
  {
    hide Recomputed, FirstBetter, Criteria, Inv, BestPrefix, SingleBest, Agree, SameTime, Keyed;
    var paths := At(s, afi, d);
    InvAt(s, afi, d);
    DropReportsHead(s.multi, d, paths, id);
    assert At(DropStep(s, afi, d, id).0, afi, d) == ListDrop(s.multi, d, paths, id).value.0;
  }

  lemma DropReportsHead(multi: bool, d: IpNet, paths: seq<Path>, id: u64)
    requires ListOk(multi, d, paths) && ListDrop(multi, d, paths, id).Success?
    ensures var (after, status) := ListDrop(multi, d, paths, id).value;
            status.BestPathChanged? || status.MultiPathWithdrawn? ==> status.prefix == d && after != [] && after[0].id == status.id
  {
    hide FirstBetter, Criteria, Recomputed;
    var k := PositionOf(paths, id).value;
    var left := RemoveAt(paths, k);
    DropShape(multi, d, paths, id);
  }

  lemma DropStepFrame(s: State, afi: Afi, d: IpNet, id: u64, e: IpNet)
    ensures Step(s, Drop(afi, d, id)).0 == DropStep(s, afi, d, id).0
    ensures e != d ==> At(DropStep(s, afi, d, id).0, afi, e) == At(s, afi, e)
    ensures DropStep(s, afi, d, id).0.table.Keys == s.table.Keys
  {
    hide ListDrop;
  }

  /** No identifier is stored twice under one prefix. */
  ghost predicate Unique(s: State, afi: Afi) {
    forall d, id :: Bag(At(s, afi, d))[id] <= 1
  }

  /** A removal takes one identifier away and keeps the others. */
  lemma DropLists(s: State, afi: Afi, r: Change, c: Change)
    requires Unique(s, afi) && DropStep(s, afi, r.0, r.1).1.Success?
    ensures Unique(DropStep(s, afi, r.0, r.1).0, afi)
    ensures Listed(DropStep(s, afi, r.0, r.1).0, afi, c) <==> Listed(s, afi, c) && c != r
  {
    hide ListDrop, Bag;
    var s' := DropStep(s, afi, r.0, r.1).0;
    DropBag(s.multi, r.0, At(s, afi, r.0), r.1);
    assert Bag(At(s', afi, r.0)) + multiset{r.1} == Bag(At(s, afi, r.0));
    assert forall e :: e != r.0 ==> At(s', afi, e) == At(s, afi, e);
    forall d, id
      ensures Bag(At(s', afi, d))[id] <= Bag(At(s, afi, d))[id]
    {
      if d == r.0 {
        assert (Bag(At(s', afi, d)) + multiset{r.1})[id] == Bag(At(s, afi, d))[id];
      }
    }
    assert (Bag(At(s', afi, r.0)) + multiset{r.1})[c.1] == Bag(At(s, afi, r.0))[c.1];
  }

  /** The head of a list stays where it is when another path goes. */
  lemma DropKeepsHead(s: State, afi: Afi, r: Change, c: Change)
    requires Inv(s) && DropStep(s, afi, r.0, r.1).1.Success? && Heads(s, afi, c) && c != r
    ensures Heads(DropStep(s, afi, r.0, r.1).0, afi, c)
  {
    hide ListDrop, Inv, BestPrefix, SingleBest, Agree, SameTime, Keyed;
    DropStepFrame(s, afi, r.0, r.1, c.0);
    if r.0 == c.0 {
      var paths := At(s, afi, r.0);
      InvAt(s, afi, r.0);
      DropShape(s.multi, r.0, paths, r.1);
      var k := PositionOf(paths, r.1).value;
      assert k > 0 && RemoveAt(paths, k)[0] == paths[0];
      assert At(DropStep(s, afi, r.0, r.1).0, afi, r.0) == ListDrop(s.multi, r.0, paths, r.1).value.0;
    }
  }

  // ---------------------------------------------------------------- dropping a batch

  /** Read off the list: the removal of its path at `k` makes another one best that is reported. */
  predicate Promotes(multi: bool, paths: seq<Path>, k: nat)
    requires k < |paths|
  {
    paths[k].best && |paths| >= 2 && (|paths| == 2 || !multi || (k == 0 && !paths[1].best))
  }

  /** The one that is then reported: the first path left. */
  function Promoted(paths: seq<Path>, k: nat): u64
    requires k < |paths| && |paths| >= 2
  {
    if k == 0 then paths[1].id else paths[0].id
  }

  /** A removal reports a new best path if and only if the list says so, and names the first path left. */
  lemma PromotesIff(multi: bool, d: IpNet, paths: seq<Path>, id: u64)
    requires ListDrop(multi, d, paths, id).Success?
    ensures PositionOf(paths, id).Some?
    ensures var k := PositionOf(paths, id).value;
            ChangedBy(ListDrop(multi, d, paths, id).value.1)
            == if Promotes(multi, paths, k) then [(d, Promoted(paths, k))] else []
  {
    hide Recomputed, FirstBetter, Criteria;
    var k := PositionOf(paths, id).value;
    var left := RemoveAt(paths, k);
    assert left != [] ==> left[0].id == Promoted(paths, k);
    assert k == 0 && |left| >= 1 ==> left[0] == paths[1];
  }

  /** No path that a removal makes best is removed later in the same batch. */
  predicate NewBestSurvives(s: State, afi: Afi, ids: seq<Change>)
    decreases |ids|
  {
    ids == [] ||
    var (d, id) := ids[0];
    var paths := At(s, afi, d);
    match PositionOf(paths, id)
    case None => true
    case Some(k) =>
      && (Promotes(s.multi, paths, k) ==> (d, Promoted(paths, k)) !in ids[1..])
      && NewBestSurvives(DropStep(s, afi, d, id).0, afi, ids[1..])
  }

  lemma SurvivesStep(s: State, afi: Afi, ids: seq<Change>)
    requires ids != []
    ensures NewBestSurvives(s, afi, ids) <==>
              match DropStep(s, afi, ids[0].0, ids[0].1)
              case (s', Success(status)) => (forall c <- ChangedBy(status) :: c !in ids[1..]) && NewBestSurvives(s', afi, ids[1..])
              case (_, Failure(_)) => true
  {
    hide ListDrop, ChangedBy, Promotes;
    var (d, id) := ids[0];
    var paths := At(s, afi, d);
    DropSucceeds(s.multi, d, paths, id);
    if DropStep(s, afi, d, id).1.Success? {
      PromotesIff(s.multi, d, paths, id);
    }
  }

  lemma DropSucceeds(multi: bool, d: IpNet, paths: seq<Path>, id: u64)
    ensures ListDrop(multi, d, paths, id).Success? <==> PositionOf(paths, id).Some?
    ensures PositionOf([], id).None?
  {
    hide AfterBest;
  }

  /** Over a batch that is carried out, a listed path stays listed, and a head stays head, unless the batch names it. */
  lemma {:induction false} Survives(s: State, afi: Afi, ids: seq<Change>, fib: bool, accepts: nat, c: Change)
    requires Unique(s, afi) && DropAll(s, afi, ids, fib, accepts).error.None?
    ensures Listed(DropAll(s, afi, ids, fib, accepts).state, afi, c) <==> Listed(s, afi, c) && c !in ids
    ensures Inv(s) && Heads(s, afi, c) && c !in ids ==> Heads(DropAll(s, afi, ids, fib, accepts).state, afi, c)
    decreases |ids|
  {
    hide DropStep, DropCalls, ChangedBy, WithdrawnBy, Listed, Heads, Unique, Inv, Step;
    if ids != [] {
      var r := ids[0];
      var (s', status) := DropStep(s, afi, r.0, r.1);
      DropLists(s, afi, r, c);
      Survives(s', afi, ids[1..], fib, Left(accepts, DropCalls(s', afi, status.value, fib, accepts).value), c);
      assert c in ids <==> c == r || c in ids[1..];
      if Inv(s) && Heads(s, afi, c) && c !in ids {
        DropStepFrame(s, afi, r.0, r.1, r.0);
        StepInv(s, Drop(afi, r.0, r.1));
        DropKeepsHead(s, afi, r, c);
      }
    }
  }

  lemma {:induction false} DropKeeps(s: State, afi: Afi, ids: seq<Change>, fib: bool, accepts: nat)
    requires Inv(s) && Unique(s, afi) && DropAll(s, afi, ids, fib, accepts).error.None?
    ensures var b := DropAll(s, afi, ids, fib, accepts);
            && Inv(b.state)
            && ((forall c <- b.changed :: Listed(b.state, afi, c)) <==> NewBestSurvives(s, afi, ids))
            && (NewBestSurvives(s, afi, ids) ==> NamesHeads(b.state, afi, b.changed))
    decreases |ids|
  {
    hide Inv, Unique, DropStep, Step, At, ChangedBy, WithdrawnBy, DropCalls, Listed, Heads, PositionOf, Promotes;
    if ids != [] {
      SurvivesStep(s, afi, ids);
      var (d, id) := ids[0];
      var (s', r) := DropStep(s, afi, d, id);
      var told := DropCalls(s', afi, r.value, fib, accepts);
      var more := if told.Success? then Left(accepts, told.value) else 0;
      DropFinds(s, afi, d, id);
      DropNamesHead(s, afi, d, id);
      StepInv(s, Drop(afi, d, id));
      DropStepFrame(s, afi, d, id, d);
      DropLists(s, afi, (d, id), (d, id));
      DropKeeps(s', afi, ids[1..], fib, more);
      var rest := DropAll(s', afi, ids[1..], fib, more);
      var first := ChangedBy(r.value);
      forall c | c in first
        ensures Listed(rest.state, afi, c) <==> c !in ids[1..]
        ensures c !in ids[1..] ==> Heads(rest.state, afi, c)
      {
        HeadListed(s', afi, c);
        Survives(s', afi, ids[1..], fib, more, c);
      }
      assert forall c :: c in first + rest.changed <==> c in first || c in rest.changed;
      assert DropAll(s, afi, ids, fib, accepts).changed == first + rest.changed;
    }
  }

  lemma DropFinds(s: State, afi: Afi, d: IpNet, id: u64)
    requires DropStep(s, afi, d, id).1.Success?
    ensures afi in s.table && PositionOf(At(s, afi, d), id).Some?
  {
  }

  /** Each prefix is named at most once, as in the batches of a peer, whose announcements are kept in a map. */
  predicate DistinctTargets(ids: seq<Change>) {
    forall i, j :: 0 <= i < j < |ids| ==> ids[i].0 != ids[j].0
  }

  lemma {:induction false} DistinctSurvive(s: State, afi: Afi, ids: seq<Change>)
    requires Inv(s) && DistinctTargets(ids)
    ensures NewBestSurvives(s, afi, ids)
    decreases |ids|
  {
    hide Inv, DropStep, Step, At, ChangedBy, Heads, PositionOf, Promotes;
    if ids != [] {
      SurvivesStep(s, afi, ids);
      var (d, id) := ids[0];
      var (s', r) := DropStep(s, afi, d, id);
      if r.Success? {
        DropFinds(s, afi, d, id);
        DropNamesHead(s, afi, d, id);
        StepInv(s, Drop(afi, d, id));
        DropStepFrame(s, afi, d, id, d);
        DistinctSurvive(s', afi, ids[1..]);
      }
    }
  }

  /**
   A batch of withdrawals that is carried out: the peers can be told if and only if no path that one removal makes best
   is removed by a later one, as when each prefix is named once; then exactly the heads of the changed lists are sent,
   all best, under split horizon.
   */
  lemma DropBatch(s: State, afi: Afi, ids: seq<Change>, fib: bool, accepts: nat, asn: u32, peer: NeighborPair)
    requires Inv(s) && Unique(s, afi) && DropAll(s, afi, ids, fib, accepts).error.None?
    ensures var b := DropAll(s, afi, ids, fib, accepts);
            var sent := Adverts(b.state, afi, b.changed, asn, peer, None);
            && (sent.Success? <==> NewBestSurvives(s, afi, ids))
            && (DistinctTargets(ids) ==> sent.Success?)
            && (sent.Success? ==> NamesHeads(b.state, afi, b.changed) && forall p <- sent.value ::
                  SentAsHead(b.state, afi, p) && !(p.Kind() == Internal && peer.asn == asn))
  {
    hide Inv, DropAll, Adverts, HeadsFor, NamesHeads, Listed, Unique, NewBestSurvives, At, DistinctTargets;
    DropKeeps(s, afi, ids, fib, accepts);
    if DistinctTargets(ids) {
      DistinctSurvive(s, afi, ids);
    }
    var b := DropAll(s, afi, ids, fib, accepts);
    AdvertsIff(b.state, afi, b.changed, asn, peer, None);
    Screened(b.state, afi, b.changed, asn, peer, None);
    if NewBestSurvives(s, afi, ids) {
      AdvertsAreHeads(b.state, afi, b.changed, asn, peer, None);
      HeadsAreBest(b.state, afi, b.changed, asn, peer, None);
    }
  }

  predicate NoRepeats(ids: seq<Change>) {
    forall i, j :: 0 <= i < j < |ids| ==> ids[i] != ids[j]
  }

  /** What stops a batch of withdrawals: nothing but a new best path without a next hop, when all it names is stored. */
  lemma {:induction false} DropErrors(s: State, afi: Afi, ids: seq<Change>, fib: bool, accepts: nat)
    requires Inv(s) && Unique(s, afi) && afi in s.table
    requires (forall c <- ids :: Listed(s, afi, c)) && NoRepeats(ids)
    ensures var b := DropAll(s, afi, ids, fib, accepts);
            b.error.Some? ==> b.error.value in {NextHopMustBeSet, EndpointFailed} && fib
    decreases |ids|
  {
    hide Inv, Unique, DropStep, Step, At, ChangedBy, WithdrawnBy, DropCalls, Listed, PositionOf;
    if ids != [] {
      var (d, id) := ids[0];
      assert ids[0] in ids;
      LookupIff(s, afi, ids[0]);
      LookupFinds(s, afi, d, id);
      DropNamesHead(s, afi, d, id);
      StepInv(s, Drop(afi, d, id));
      DropStepFrame(s, afi, d, id, d);
      var (s', r) := DropStep(s, afi, d, id);
      var told := DropCalls(s', afi, r.value, fib, accepts);
      var more := if told.Success? then Left(accepts, told.value) else 0;
      DropCallsOk(s', afi, r.value, fib, accepts);
      DropLists(s, afi, ids[0], ids[0]);
      forall c | c in ids[1..]
        ensures Listed(s', afi, c)
      {
        assert c in ids && c != ids[0];
        DropLists(s, afi, ids[0], c);
      }
      DropErrors(s', afi, ids[1..], fib, more);
    }
  }

  lemma LookupFinds(s: State, afi: Afi, d: IpNet, id: u64)
    requires Lookup(s, afi, d, id).Some?
    ensures PositionOf(At(s, afi, d), id).Some?
  {
  }

  lemma DropCallsOk(s: State, afi: Afi, status: Status, fib: bool, accepts: nat)
    requires status.BestPathChanged? || status.MultiPathWithdrawn? ==> Heads(s, afi, (status.prefix, status.id))
    ensures DropCalls(s, afi, status, fib, accepts).Failure? ==> DropCalls(s, afi, status, fib, accepts).error in {NextHopMustBeSet, EndpointFailed} && fib
  {
    hide Lookup, At;
    if status.BestPathChanged? || status.MultiPathWithdrawn? {
      LookupHead(s, afi, (status.prefix, status.id));
    }
  }
}
