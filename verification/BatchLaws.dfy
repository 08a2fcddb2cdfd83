/** Batches as runs of the Loc-RIB, the requests that the FIB accepts, and the prefixes that are withdrawn. */
module BatchLaws {
  import opened Base
  import opened Net
  import opened Family
  import opened Paths
  import opened LocRibs
  import opened LocRibLists
  import opened LocRibRuns
  import opened RibManagers
  import opened RibManagerLaws
  import opened DecisionFields
  import TellLaws

  function DropOps(afi: Afi, ids: seq<Change>): (ops: seq<Op>)
    ensures |ops| == |ids| && forall i :: 0 <= i < |ids| ==> ops[i] == Drop(afi, ids[i].0, ids[i].1)
  {
    seq(|ids|, i requires 0 <= i < |ids| => Drop(afi, ids[i].0, ids[i].1))
  }

  /** The FIB has accepted these requests: no more than it can, and all it can if one was refused. */
  predicate Accepted(b: Batch, fib: bool, accepts: nat) {
    && |b.calls| <= accepts
    && (b.error == Some(EndpointFailed) ==> |b.calls| == accepts)
    && (!fib ==> b.calls == [])
  }

  /** A change asks for one request at most, and for none without a FIB. */
  predicate AsksOnce(told: Result<seq<FibCall>, RibError>, fib: bool, accepts: nat) {
    match told
    case Success(calls) => calls == [] || (|calls| == 1 && fib && accepts > 0)
    case Failure(e) => e == EndpointFailed ==> fib && accepts == 0
  }

  lemma InstallAsksOnce(x: Path, status: Status, fib: bool, accepts: nat)
    ensures AsksOnce(InstallCalls(x, status, fib, accepts), fib, accepts)
  {
  }

  lemma DropAsksOnce(s: State, afi: Afi, status: Status, fib: bool, accepts: nat)
    ensures AsksOnce(DropCalls(s, afi, status, fib, accepts), fib, accepts)
  {
    hide Lookup;
  }

  lemma RunCons(s: State, op: Op, ops: seq<Op>)
    ensures Run(s, [op] + ops) == Run(Step(s, op).0, ops)
  {
    hide Step;
    assert ([op] + ops)[1..] == ops;
  }

  /** A batch of announcements is a run of insertions: of all of them, or up to the one that stopped it. */
  lemma {:induction false} InstallIsRun(s: State, afi: Afi, paths: seq<Path>, fib: bool, accepts: nat) returns (n: nat)
    ensures var b := Install(s, afi, paths, fib, accepts);
            && n <= |paths| && b.state == Run(s, InstallOps(afi, paths)[..n])
            && (b.error.None? ==> n == |paths|) && (b.error.Some? ==> n > 0)
            && Accepted(b, fib, accepts)
    decreases |paths|
  {
    hide InsertStep, InstallCalls, Step, ChangedBy, InstallOps;
    if paths == [] {
      n := 0;
    } else {
      var op := Insert(afi, paths[0]);
      assert Step(s, op).0 == InsertStep(s, afi, paths[0]).0 by { StepIsInsert(s, afi, paths[0]); }
      var (s', r) := InsertStep(s, afi, paths[0]);
      n := 1;
      if r.Success? {
        var told := InstallCalls(r.value.0, r.value.1, fib, accepts);
        InstallAsksOnce(r.value.0, r.value.1, fib, accepts);
        if told.Success? {
          var m := InstallIsRun(s', afi, paths[1..], fib, Left(accepts, told.value));
          n := m + 1;
        }
      }
      InstallOpsFrom(afi, paths, n);
      RunCons(s, op, InstallOps(afi, paths[1..])[..n - 1]);
      InsertFails(s, afi, paths[0]);
    }
  }

  lemma InstallOpsFrom(afi: Afi, paths: seq<Path>, n: nat)
    requires 0 < n <= |paths|
    ensures InstallOps(afi, paths)[..n] == [Insert(afi, paths[0])] + InstallOps(afi, paths[1..])[..n - 1]
  {
  }

  lemma DropOpsFrom(afi: Afi, ids: seq<Change>, n: nat)
    requires 0 < n <= |ids|
    ensures DropOps(afi, ids)[..n] == [Drop(afi, ids[0].0, ids[0].1)] + DropOps(afi, ids[1..])[..n - 1]
  {
  }

  lemma StepIsInsert(s: State, afi: Afi, x: Path)
    ensures Step(s, Insert(afi, x)).0 == InsertStep(s, afi, x).0
  {
    hide InsertStep;
  }

  lemma InsertFails(s: State, afi: Afi, x: Path)
    ensures InsertStep(s, afi, x).1 != Failure(EndpointFailed)
  {
    hide Placed, LastBest;
  }

  /** A batch of withdrawals is a run of removals. */
  lemma {:induction false} DropIsRun(s: State, afi: Afi, ids: seq<Change>, fib: bool, accepts: nat) returns (n: nat)
    ensures var b := DropAll(s, afi, ids, fib, accepts);
            && n <= |ids| && b.state == Run(s, DropOps(afi, ids)[..n])
            && (b.error.None? ==> n == |ids|) && (b.error.Some? ==> n > 0)
            && Accepted(b, fib, accepts)
    decreases |ids|
  {
    hide DropStep, DropCalls, Step, ChangedBy, WithdrawnBy, DropOps;
    if ids == [] {
      n := 0;
    } else {
      var op := Drop(afi, ids[0].0, ids[0].1);
      DropStepFrame(s, afi, ids[0].0, ids[0].1, ids[0].0);
      var (s', r) := DropStep(s, afi, ids[0].0, ids[0].1);
      n := 1;
      if r.Success? {
        var told := DropCalls(s', afi, r.value, fib, accepts);
        DropAsksOnce(s', afi, r.value, fib, accepts);
        if told.Success? {
          var m := DropIsRun(s', afi, ids[1..], fib, Left(accepts, told.value));
          n := m + 1;
        }
      }
      DropOpsFrom(afi, ids, n);
      RunCons(s, op, DropOps(afi, ids[1..])[..n - 1]);
      DropFails(s, afi, ids[0].0, ids[0].1);
    }
  }

  lemma DropFails(s: State, afi: Afi, d: IpNet, id: u64)
    ensures DropStep(s, afi, d, id).1 != Failure(EndpointFailed)
  {
    hide AfterBest, PositionOf;
  }

  predicate Names(withdrawn: seq<(IpNet, PathKind)>, d: IpNet) {
    exists w <- withdrawn :: w.0 == d
  }

  /** A batch that is carried out withdraws exactly the prefixes whose lists it has emptied. */
  lemma {:induction false} WithdrawnIffEmptied(s: State, afi: Afi, ids: seq<Change>, fib: bool, accepts: nat, d: IpNet)
    requires Inv(s) && afi in s.table
    ensures var b := DropAll(s, afi, ids, fib, accepts);
            b.error.None? ==> (Names(b.withdrawn, d) <==> At(s, afi, d) != [] && At(b.state, afi, d) == [])
    decreases |ids|
  {
    hide DropStep, Inv, DropCalls;
    var b := DropAll(s, afi, ids, fib, accepts);
    if ids != [] && b.error.None? {
      var (d0, id) := ids[0];
      var (s', r) := DropStep(s, afi, d0, id);
      StepInv(s, Drop(afi, d0, id));
      DropStepFrame(s, afi, d0, id, d);
      var rest := DropAll(s', afi, ids[1..], fib, Left(accepts, DropCalls(s', afi, r.value, fib, accepts).value));
      WithdrawnIffEmptied(s', afi, ids[1..], fib, Left(accepts, DropCalls(s', afi, r.value, fib, accepts).value), d);
      OneEmptied(s, afi, d0, id);
      NamesEither(WithdrawnBy(r.value), rest.withdrawn, d);
      if At(s', afi, d) == [] {
        StaysEmpty(s', afi, ids[1..], fib, Left(accepts, DropCalls(s', afi, r.value, fib, accepts).value), d);
      }
    }
  }

  lemma NamesEither(first: seq<(IpNet, PathKind)>, rest: seq<(IpNet, PathKind)>, d: IpNet)
    ensures Names(first + rest, d) <==> Names(first, d) || Names(rest, d)
  {
    assert forall w :: w in first + rest <==> w in first || w in rest;
  }

  lemma OneEmptied(s: State, afi: Afi, d: IpNet, id: u64)
    requires Inv(s) && DropStep(s, afi, d, id).1.Success?
    ensures var (s', r) := DropStep(s, afi, d, id);
            At(s, afi, d) != [] && forall e :: Names(WithdrawnBy(r.value), e) <==> e == d && At(s', afi, d) == []
  {
    hide AfterBest, PositionOf, Inv, BestPrefix, SingleBest, Agree, SameTime, Keyed, RemoveAt;
    var paths := At(s, afi, d);
    InvAt(s, afi, d);
    HeadOk(s.multi, d, paths);
    DropShape(s.multi, d, paths, id);
    TellLaws.DropReports(s.multi, d, paths, id);
    var (s', r) := DropStep(s, afi, d, id);
    assert At(s', afi, d) == ListDrop(s.multi, d, paths, id).value.0;
    assert r.value == ListDrop(s.multi, d, paths, id).value.1;
    assert At(s', afi, d) == [] <==> |paths| == 1;
    if r.value.Withdrawn? {
      assert WithdrawnBy(r.value)[0].0 == d;
    }
  }

  lemma {:induction false} StaysEmpty(s: State, afi: Afi, ids: seq<Change>, fib: bool, accepts: nat, d: IpNet)
    requires At(s, afi, d) == []
    ensures At(DropAll(s, afi, ids, fib, accepts).state, afi, d) == []
    decreases |ids|
  {
    hide ListDrop, DropCalls;
    if ids != [] {
      DropStepFrame(s, afi, ids[0].0, ids[0].1, d);
      var (s', r) := DropStep(s, afi, ids[0].0, ids[0].1);
      if r.Success? {
        var told := DropCalls(s', afi, r.value, fib, accepts);
        if told.Success? {
          StaysEmpty(s', afi, ids[1..], fib, Left(accepts, told.value), d);
        }
      }
    }
  }
}
