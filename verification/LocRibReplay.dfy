/** What a listener can know of the Loc-RIB from its reports in multi-path mode: the set of best paths. */
module LocRibReplay {
  import opened Base
  import opened Net
  import opened Family
  import opened Paths
  import opened Decision
  import opened LocRibs
  import opened LocRibLists
  import opened LocRibRuns

  // ---------------------------------------------------------------- multi-path reports as set operations

  /** The best paths of one prefix as a listener has them, after one more report. */
  function ListenSet(r: set<u64>, op: Op, status: Status): set<u64> {
    match status
    case NotChanged => r
    case Withdrawn(_, _) => {}
    case BestPathChanged(_, id) => {id}
    case MultiPathAdded => if op.Insert? then r + {op.path.id} else r
    case MultiPathWithdrawn(_, _, _) => if op.Drop? then r - {op.id} else r
  }

  lemma BestIdsMembers(paths: seq<Path>, id: u64)
    ensures id in BestIds(paths) <==> exists i :: 0 <= i < |paths| && paths[i].best && paths[i].id == id
  {
  }

  /** What an arriving path keeps to in multi-path mode. */
  predicate Arrives(d: IpNet, paths: seq<Path>, x: Path) {
    ListOk(true, d, paths) && !x.best && Joins(paths, x)
  }

  /**
   An insertion is reported soundly always: what the listener called best is best.  It is reported in full, so that what
   was exact stays exact, when the path keeps to the rules of the mode.
   */
  lemma ReplayInsert(d: IpNet, paths: seq<Path>, x: Path, afi: Afi, r: set<u64>)
    requires Keyed(d, paths) && x.Prefix() == d
    ensures Arrives(d, paths, x) ==> ListInsert(true, paths, x).Success?
    ensures ListInsert(true, paths, x).Success? ==>
              var (after, _, status) := ListInsert(true, paths, x).value;
              var r' := ListenSet(r, Insert(afi, x), status);
              && (r <= BestIds(paths) ==> r' <= BestIds(after))
              && (r == BestIds(paths) && Arrives(d, paths, x) ==> r' == BestIds(after))
  {
    hide ListInsert, BestIds;
    if Arrives(d, paths, x) {
      InsertExact(d, paths, x, afi);
    }
    if ListInsert(true, paths, x).Success? && r <= BestIds(paths) {
      InsertSound(d, paths, x, afi, r);
    }
  }

  lemma InsertSound(d: IpNet, paths: seq<Path>, x: Path, afi: Afi, r: set<u64>)
    requires Keyed(d, paths) && x.Prefix() == d && ListInsert(true, paths, x).Success? && r <= BestIds(paths)
    ensures var (after, _, status) := ListInsert(true, paths, x).value;
            ListenSet(r, Insert(afi, x), status) <= BestIds(after)
  {
    hide ListInsert, Scan, Criteria, LastBest, Place, BestIds;
    StoredIff(true, paths, x);
    if paths == [] {
      FirstPath(x);
    } else {
      InsertShape(true, d, paths, x);
      InsertShapeSame(d, paths, x);
      var (after, x', status) := ListInsert(true, paths, x).value;
      var k, outcome := Place(true, paths, x), OutcomeFor(true, paths, x);
      if outcome != Waits {
        BestIdsMembers(after, x.id);
      }
      if outcome != Takes {
        MarksKept(d, paths, x);
        forall id | id in BestIds(paths)
          ensures id in BestIds(after)
        {
          BestIdsMembers(paths, id);
          var i :| 0 <= i < |paths| && paths[i].best && paths[i].id == id;
          assert after[if i < k then i else i + 1].id == id;
          BestIdsMembers(after, id);
        }
      }
    }
  }

  /** Unless the new path takes the best place, a stored path keeps its mark. */
  lemma MarksKept(d: IpNet, paths: seq<Path>, x: Path)
    requires Keyed(d, paths) && x.Prefix() == d && paths != [] && LastBest(paths).Some? && OutcomeFor(true, paths, x) != Takes
    ensures ListInsert(true, paths, x).Success? && Place(true, paths, x) <= |paths|
    ensures var after, k := ListInsert(true, paths, x).value.0, Place(true, paths, x);
            && |after| == |paths| + 1
            && forall i :: 0 <= i < |paths| ==> after[if i < k then i else i + 1].best == paths[i].best
  {
    hide ListInsert, LastBest, Place, OutcomeFor, InsertAt, OldPaths;
    InsertShape(true, d, paths, x);
    OldMarks(d, paths, x);
  }

  lemma OldMarks(d: IpNet, paths: seq<Path>, x: Path)
    requires Keyed(d, paths) && x.Prefix() == d && paths != [] && LastBest(paths).Some? && OutcomeFor(true, paths, x) != Takes
    ensures |OldPaths(true, paths, x)| == |paths|
    ensures forall i :: 0 <= i < |paths| ==> OldPaths(true, paths, x)[i].best == paths[i].best
  {
    hide LastBest, Place, OutcomeFor, Retimed;
    RetimedAll(d, paths, x);
  }

  lemma InsertExact(d: IpNet, paths: seq<Path>, x: Path, afi: Afi)
    requires Arrives(d, paths, x) && x.Prefix() == d
    ensures ListInsert(true, paths, x).Success?
    ensures var (after, _, status) := ListInsert(true, paths, x).value;
            ListenSet(BestIds(paths), Insert(afi, x), status) == BestIds(after)
  {
    hide ListInsert, Scan, Criteria, LastBest, Place, BestIds;
    if paths == [] {
      FirstPath(x);
    } else {
      LastBestIsPrefix(paths);
      AgreementPlacesFirst(d, paths, x);
      var k, last := Place(true, paths, x), LastBest(paths).value;
      InsertOk(true, d, paths, x);
      var (after, x', status) := ListInsert(true, paths, x).value;
      InsertShapeSame(d, paths, x);
      if k <= last {
        InsertUnmarks(d, paths, x);
        OnlyOneBest(after, k);
      } else {
        InsertExtends(d, paths, x);
        var joins := k == last + 1 && x.EqualCost(paths[0]);
        assert BestIds(after) == BestIds(paths) + (if joins then {x.id} else {}) by {
          GrownBest(paths, after, x, k, last, joins);
        }
      }
    }
  }

  lemma FirstPath(x: Path)
    ensures ListInsert(true, [], x).Success?
    ensures ListInsert(true, [], x).value.2 == BestPathChanged(x.Prefix(), x.id)
    ensures BestIds(ListInsert(true, [], x).value.0) == {x.id}
  {
    var after := ListInsert(true, [], x).value.0;
    assert after[0].best && after[0].id == x.id;
  }

  lemma InsertShapeSame(d: IpNet, paths: seq<Path>, x: Path)
    requires Keyed(d, paths) && x.Prefix() == d && paths != [] && LastBest(paths).Some?
    ensures ListInsert(true, paths, x).Success? && Place(true, paths, x) <= |paths|
    ensures var after, k := ListInsert(true, paths, x).value.0, Place(true, paths, x);
            && |after| == |paths| + 1 && after[k].id == x.id
            && (forall i :: 0 <= i < k ==> after[i].id == paths[i].id)
            && (forall i :: k < i < |after| ==> after[i].id == paths[i - 1].id)
  {
    hide Scan, Criteria, LastBest, ListInsert, Place, OldPaths, OutcomeFor;
    InsertShape(true, d, paths, x);
    var k, old' := Place(true, paths, x), OldPaths(true, paths, x);
    assert forall i :: 0 <= i < |paths| ==> Same(paths[i], old'[i]);
  }

  lemma OnlyOneBest(paths: seq<Path>, k: nat)
    requires k < |paths| && forall i :: 0 <= i < |paths| ==> (paths[i].best <==> i == k)
    ensures BestIds(paths) == {paths[k].id}
  {
    assert paths[k].best;
  }

  lemma GrownBest(paths: seq<Path>, after: seq<Path>, x: Path, k: nat, last: nat, joins: bool)
    requires last < k <= |paths| && |after| == |paths| + 1 && after[k].id == x.id
    requires forall i :: 0 <= i < k ==> after[i].id == paths[i].id
    requires forall i :: 0 <= i < |paths| ==> (paths[i].best <==> i <= last)
    requires forall i :: 0 <= i < |after| ==> (after[i].best <==> i <= last || (joins && i == k))
    ensures BestIds(after) == BestIds(paths) + (if joins then {x.id} else {})
  {
    forall id
      ensures id in BestIds(after) <==> id in BestIds(paths) || (joins && id == x.id)
    {
      if id in BestIds(paths) {
        var i :| 0 <= i < |paths| && paths[i].best && paths[i].id == id;
        assert after[i].best && after[i].id == id;
      }
      if joins {
        assert after[k].best;
      }
    }
  }

  /** The only best path goes, and the two that follow cost the same: both become best, only the first is reported. */
  predicate Underreports(paths: seq<Path>, id: u64) {
    && PositionOf(paths, id) == Some(0) && |paths| >= 3
    && paths[0].best && !paths[1].best && paths[1].EqualCost(paths[2])
  }

  lemma ShrunkBest(paths: seq<Path>, k: nat, removed: u64)
    requires k < |paths| && paths[k].id == removed && DistinctIds(paths)
    ensures BestIds(RemoveAt(paths, k)) == BestIds(paths) - {removed}
  {
    var left := RemoveAt(paths, k);
    forall id
      ensures id in BestIds(left) <==> id in BestIds(paths) && id != removed
    {
      if id in BestIds(left) {
        var i :| 0 <= i < |left| && left[i].best && left[i].id == id;
        assert paths[if i < k then i else i + 1] == left[i];
      }
      if id in BestIds(paths) && id != removed {
        var i :| 0 <= i < |paths| && paths[i].best && paths[i].id == id;
        assert left[if i < k then i else i - 1] == paths[i];
      }
    }
  }

  /** After the recomputation the reported head is best; it is the only best path unless the next one costs the same. */
  lemma RecomputedIds(left: seq<Path>)
    requires |left| >= 2 && (forall i :: 0 <= i < |left| ==> !left[i].best) && DistinctIds(left)
    ensures left[0].id in BestIds(Recomputed(left))
    ensures Agree(left) && PlainReasons(left) && SameTime(left) ==>
              (BestIds(Recomputed(left)) == {left[0].id} <==> !left[0].EqualCost(left[1]))
  {
    hide Recomputed, Criteria, FirstBetter, Key;
    var m := RecomputedSpec(left);
    var after := Recomputed(left);
    assert after[0].best && after[0].id == left[0].id;
    if m == 0 {
      OnlyOneBest(after, 0);
    } else {
      assert left[0].EqualCost(left[1]);
      assert after[1].best && after[1].id == left[1].id;
      assert left[1].id in BestIds(after);
    }
    if Agree(left) && PlainReasons(left) && SameTime(left) && left[0].EqualCost(left[1]) {
      TiesAreNotBetter(left[0], left[1]);
      assert m > 0;
    }
  }

  lemma TiesAreNotBetter(a: Path, b: Path)
    requires a.EqualCost(b) && a.IsLocal() == b.IsLocal() && a.timestamp == b.timestamp
    ensures FirstBetter(Criteria(true), a, b).None?
  {
    hide Criteria, FirstBetter, Key;
    EqualCostIsTie(a.what, b.what);
    LexEqual(Criteria(true), a.what, b.what);
    BetterIffKey(Criteria(true), a, b);
  }

  lemma LeftDistinct(paths: seq<Path>, k: nat)
    requires k < |paths| && DistinctIds(paths)
    ensures DistinctIds(RemoveAt(paths, k))
  {
    var left := RemoveAt(paths, k);
    assert forall i :: 0 <= i < |left| ==> left[i] == paths[if i < k then i else i + 1];
  }

  /**
   A removal is reported soundly always, and exactly if and only if it does not leave two new best paths: when the only
   best path goes, the recomputation names the new head alone.
   */
  lemma ReplayDropIff(d: IpNet, paths: seq<Path>, id: u64, afi: Afi, r: set<u64>)
    requires DistinctIds(paths) && ListDrop(true, d, paths, id).Success?
    ensures var (after, status) := ListDrop(true, d, paths, id).value;
            var r' := ListenSet(r, Drop(afi, d, id), status);
            && (r <= BestIds(paths) ==> r' <= BestIds(after))
            && (r == BestIds(paths) && ListOk(true, d, paths) && PlainReasons(paths) ==>
                  (r' == BestIds(after) <==> !Underreports(paths, id)))
  {
    hide ListDrop, BestIds, ListOk, Underreports, PlainReasons;
    DropSound(d, paths, id, afi, r);
    if ListOk(true, d, paths) && PlainReasons(paths) {
      DropExactIff(d, paths, id, afi);
    }
  }

  lemma DropSound(d: IpNet, paths: seq<Path>, id: u64, afi: Afi, r: set<u64>)
    requires DistinctIds(paths) && ListDrop(true, d, paths, id).Success?
    ensures var (after, status) := ListDrop(true, d, paths, id).value;
            r <= BestIds(paths) ==> ListenSet(r, Drop(afi, d, id), status) <= BestIds(after)
  {
    hide Recomputed, BestIds, FirstBetter, Criteria;
    var k := PositionOf(paths, id).value;
    var left := RemoveAt(paths, k);
    ShrunkBest(paths, k, id);
    if !paths[k].best {
      NotBestId(paths, k);
    } else if |left| == 1 {
      OnlyOneBest([left[0].(best := true, reason := OnlyPath)], 0);
    } else if Recomputes(paths, k) {
      RecomputedSame(left);
      BestIdsMembers(Recomputed(left), left[0].id);
    }
  }

  lemma DropExactIff(d: IpNet, paths: seq<Path>, id: u64, afi: Afi)
    requires DistinctIds(paths) && ListDrop(true, d, paths, id).Success? && ListOk(true, d, paths) && PlainReasons(paths)
    ensures var (after, status) := ListDrop(true, d, paths, id).value;
            ListenSet(BestIds(paths), Drop(afi, d, id), status) == BestIds(after) <==> !Underreports(paths, id)
  {
    hide Recomputed, BestIds;
    var k := PositionOf(paths, id).value;
    var left := RemoveAt(paths, k);
    ShrunkBest(paths, k, id);
    if !paths[k].best {
      NotBestId(paths, k);
    } else if |left| == 1 {
      OnlyOneBest([left[0].(best := true, reason := OnlyPath)], 0);
    } else if Recomputes(paths, k) {
      OnlyBest(paths, left);
      LeftDistinct(paths, k);
      LeftPlain(paths, left);
      RecomputedIds(left);
    } else if left == [] {
      NoBest();
    }
  }

  lemma NoBest()
    ensures BestIds([]) == {}
  {
  }

  lemma NotBestId(paths: seq<Path>, k: nat)
    requires k < |paths| && !paths[k].best && DistinctIds(paths)
    ensures paths[k].id !in BestIds(paths)
  {
  }

  lemma LeftPlain(paths: seq<Path>, left: seq<Path>)
    requires paths != [] && left == RemoveAt(paths, 0)
    ensures Agree(paths) ==> Agree(left)
    ensures PlainReasons(paths) ==> PlainReasons(left)
    ensures SameTime(paths) ==> SameTime(left)
  {
    assert forall i :: 0 <= i < |left| ==> left[i] == paths[i + 1];
  }

  // ---------------------------------------------------------------- whole multi-path runs

  type SetBelief = map<(Afi, IpNet), set<u64>>

  function Heard(b: SetBelief, a: Afi, d: IpNet): set<u64> {
    if (a, d) in b then b[(a, d)] else {}
  }

  function ListenAll(b: SetBelief, op: Op, r: Result<Status, RibError>): SetBelief {
    match r
    case Failure(_) => b
    case Success(status) => b[KeyOf(op) := ListenSet(Heard(b, KeyOf(op).0, KeyOf(op).1), op, status)]
  }

  function RunListeningAll(s: State, b: SetBelief, ops: seq<Op>): (State, SetBelief)
    decreases |ops|
  {
    if ops == [] then (s, b)
    else
      var (s', r) := Step(s, ops[0]);
      RunListeningAll(s', ListenAll(b, ops[0], r), ops[1..])
  }

  /** No two stored paths of a prefix have the same identifier, and a new path brings a new one. */
  predicate FreshId(s: State, op: Op) {
    op.Insert? ==> forall i :: 0 <= i < |At(s, op.afi, op.path.Prefix())| ==> At(s, op.afi, op.path.Prefix())[i].id != op.path.id
  }

  predicate FreshIds(s: State, ops: seq<Op>)
    decreases |ops|
  {
    ops == [] || (FreshId(s, ops[0]) && FreshIds(Step(s, ops[0]).0, ops[1..]))
  }

  ghost predicate Sound(b: SetBelief, s: State) {
    forall a, d :: DistinctIds(At(s, a, d)) && Heard(b, a, d) <= BestIds(At(s, a, d))
  }

  lemma StepSound(s: State, b: SetBelief, op: Op)
    requires AllKeyed(s) && s.multi && FreshId(s, op) && Sound(b, s)
    ensures Sound(ListenAll(b, op, Step(s, op).1), Step(s, op).0)
  {
    hide ListInsert, ListDrop, Step, AllKeyed, BestIds, PositionOf, Keyed, Arrives;
    var (s', r) := Step(s, op);
    var (a0, d0) := KeyOf(op);
    var paths := At(s, a0, d0);
    StepAt(s, op, a0, d0);
    KeyedAt(s, a0, d0);
    assert DistinctIds(paths) && Heard(b, a0, d0) <= BestIds(paths);
    if a0 in s.table {
      match op
      case Insert(_, x) =>
        ReplayInsert(d0, paths, x, a0, Heard(b, a0, d0));
        if ListInsert(true, paths, x).Success? {
          InsertDistinct(d0, paths, x);
        }
      case Drop(_, _, id) =>
        if ListDrop(true, d0, paths, id).Success? {
          ReplayDropIff(d0, paths, id, a0, Heard(b, a0, d0));
          DropDistinct(d0, paths, id);
        }
    }
    forall a, d
      ensures DistinctIds(At(s', a, d)) && Heard(ListenAll(b, op, r), a, d) <= BestIds(At(s', a, d))
    {
      StepAt(s, op, a, d);
      assert DistinctIds(At(s, a, d)) && Heard(b, a, d) <= BestIds(At(s, a, d));
    }
  }

  lemma InsertDistinct(d: IpNet, paths: seq<Path>, x: Path)
    requires Keyed(d, paths) && x.Prefix() == d && DistinctIds(paths) && ListInsert(true, paths, x).Success?
    requires forall i :: 0 <= i < |paths| ==> paths[i].id != x.id
    ensures DistinctIds(ListInsert(true, paths, x).value.0)
  {
    hide Scan, Criteria, LastBest, Place;
    if paths != [] {
      StoredIff(true, paths, x);
      InsertShapeSame(d, paths, x);
      var after, k := ListInsert(true, paths, x).value.0, Place(true, paths, x);
      forall i, j | 0 <= i < j < |after|
        ensures after[i].id != after[j].id
      {
        if i != k {
          assert after[i].id == paths[if i < k then i else i - 1].id;
        }
        if j != k {
          assert after[j].id == paths[if j < k then j else j - 1].id;
        }
      }
    }
  }

  lemma DropDistinct(d: IpNet, paths: seq<Path>, id: u64)
    requires DistinctIds(paths) && ListDrop(true, d, paths, id).Success?
    ensures DistinctIds(ListDrop(true, d, paths, id).value.0)
  {
    hide ListDrop, PositionOf, RemoveAt;
    DropShape(true, d, paths, id);
    var k := PositionOf(paths, id).value;
    LeftDistinct(paths, k);
    var left, after := RemoveAt(paths, k), ListDrop(true, d, paths, id).value.0;
    assert forall i :: 0 <= i < |after| ==> after[i].id == left[i].id;
  }

  lemma {:induction false} RunSound(s: State, b: SetBelief, ops: seq<Op>)
    requires AllKeyed(s) && s.multi && FreshIds(s, ops) && Sound(b, s)
    ensures Sound(RunListeningAll(s, b, ops).1, RunListeningAll(s, b, ops).0)
    ensures RunListeningAll(s, b, ops).0 == Run(s, ops)
    decreases |ops|
  {
    hide AllKeyed, Sound, Step, ListenAll, FreshId;
    if ops != [] {
      StepSound(s, b, ops[0]);
      StepKeyed(s, ops[0]);
      RunSound(Step(s, ops[0]).0, ListenAll(b, ops[0], Step(s, ops[0]).1), ops[1..]);
    }
  }

  /** Over every multi-path run from an empty table with distinct identifiers, a path that the reports call best is best. */
  lemma MultiPathReplaySound(s: State, ops: seq<Op>, a: Afi, d: IpNet, id: u64)
    requires Fresh(s) && s.multi && FreshIds(s, ops)
    requires id in Heard(RunListeningAll(s, map[], ops).1, a, d)
    ensures exists i :: 0 <= i < |At(Run(s, ops), a, d)| && At(Run(s, ops), a, d)[i].best && At(Run(s, ops), a, d)[i].id == id
  {
    hide Run, RunListeningAll, FreshIds;
    FreshKeyed(s);
    RunSound(s, map[], ops);
    var paths := At(Run(s, ops), a, d);
    assert Heard(RunListeningAll(s, map[], ops).1, a, d) <= BestIds(paths);
    BestIdsMembers(paths, id);
  }

  // ---------------------------------------------------------------- when the reports are complete

  ghost predicate Exact(b: SetBelief, s: State) {
    forall a, d :: Heard(b, a, d) == BestIds(At(s, a, d))
  }

  /** Identifiers differ within each prefix, and only best paths carry a reason. */
  ghost predicate Tidy(s: State) {
    forall a, d :: DistinctIds(At(s, a, d)) && PlainReasons(At(s, a, d))
  }

  predicate OpUnderreports(s: State, op: Op) {
    op.Drop? && op.afi in s.table && Underreports(At(s, op.afi, op.prefix), op.id)
  }

  lemma PlainInsert(d: IpNet, paths: seq<Path>, x: Path)
    requires ListOk(true, d, paths) && x.Prefix() == d && !x.best && Joins(paths, x) && PlainReasons(paths) && x.reason == NotBest
    ensures ListInsert(true, paths, x).Success? && PlainReasons(ListInsert(true, paths, x).value.0)
  {
    hide Scan, Criteria, LastBest, Place;
    if paths != [] {
      LastBestIsPrefix(paths);
      if Place(true, paths, x) <= LastBest(paths).value {
        InsertUnmarks(d, paths, x);
      } else {
        InsertExtends(d, paths, x);
      }
    }
  }

  lemma StepTidy(s: State, op: Op)
    requires Inv(s) && s.multi && OpOk(s, op) && FreshId(s, op) && Tidy(s) && (op.Insert? ==> op.path.reason == NotBest)
    ensures Tidy(Step(s, op).0)
  {
    hide ListInsert, ListDrop, Step, Inv, PositionOf, Joins, SameTime, Agree, BestPrefix, Keyed, PlainReasons;
    var s' := Step(s, op).0;
    var (a0, d0) := KeyOf(op);
    var paths := At(s, a0, d0);
    StepAt(s, op, a0, d0);
    InvAt(s, a0, d0);
    assert DistinctIds(paths) && PlainReasons(paths);
    if a0 in s.table {
      match op
      case Insert(_, x) =>
        PlainInsert(d0, paths, x);
        InsertDistinct(d0, paths, x);
      case Drop(_, _, id) =>
        if ListDrop(true, d0, paths, id).Success? {
          MultiDrop(d0, paths, id);
          DropDistinct(d0, paths, id);
        }
    }
    forall a, d
      ensures DistinctIds(At(s', a, d)) && PlainReasons(At(s', a, d))
    {
      StepAt(s, op, a, d);
      assert DistinctIds(At(s, a, d)) && PlainReasons(At(s, a, d));
    }
  }

  lemma StepExactIff(s: State, b: SetBelief, op: Op)
    requires Inv(s) && s.multi && OpOk(s, op) && Tidy(s) && Exact(b, s)
    ensures Exact(ListenAll(b, op, Step(s, op).1), Step(s, op).0) <==> !OpUnderreports(s, op)
  {
    hide ListInsert, ListDrop, Step, Inv, BestIds, PositionOf, Joins, SameTime, Agree, BestPrefix, Keyed, PlainReasons, Underreports;
    var (s', r) := Step(s, op);
    var (a0, d0) := KeyOf(op);
    var paths := At(s, a0, d0);
    StepAt(s, op, a0, d0);
    InvAt(s, a0, d0);
    assert DistinctIds(paths) && PlainReasons(paths) && Heard(b, a0, d0) == BestIds(paths);
    if a0 in s.table {
      match op
      case Insert(_, x) => ReplayInsert(d0, paths, x, a0, Heard(b, a0, d0));
      case Drop(_, _, id) =>
        if paths != [] && ListDrop(true, d0, paths, id).Success? {
          ReplayDropIff(d0, paths, id, a0, Heard(b, a0, d0));
        } else {
          NothingToDrop(d0, paths, id);
        }
    }
    var b' := ListenAll(b, op, r);
    if Heard(b', a0, d0) == BestIds(At(s', a0, d0)) {
      forall a, d
        ensures Heard(b', a, d) == BestIds(At(s', a, d))
      {
        StepAt(s, op, a, d);
        assert Heard(b, a, d) == BestIds(At(s, a, d));
      }
    }
  }

  lemma NothingToDrop(d: IpNet, paths: seq<Path>, id: u64)
    requires paths == [] || ListDrop(true, d, paths, id).Failure?
    ensures !Underreports(paths, id)
  {
  }

  ghost predicate AlwaysExact(s: State, b: SetBelief, ops: seq<Op>)
    decreases |ops|
  {
    Exact(b, s) && (ops == [] || AlwaysExact(Step(s, ops[0]).0, ListenAll(b, ops[0], Step(s, ops[0]).1), ops[1..]))
  }

  predicate NeverUnderreports(s: State, ops: seq<Op>)
    decreases |ops|
  {
    ops == [] || (!OpUnderreports(s, ops[0]) && NeverUnderreports(Step(s, ops[0]).0, ops[1..]))
  }

  /** Over a whole multi-path run the listener has exactly the best paths after every step, iff no removal is underreported. */
  lemma {:induction false} RunExactIff(s: State, b: SetBelief, ops: seq<Op>)
    requires Inv(s) && s.multi && OpsOk(s, ops) && FreshIds(s, ops) && Tidy(s) && Exact(b, s) && ReasonsPlain(ops)
    ensures AlwaysExact(s, b, ops) <==> NeverUnderreports(s, ops)
    decreases |ops|
  {
    hide Inv, OpOk, Tidy, Exact, Step, ListenAll, FreshId, OpUnderreports;
    if ops != [] {
      StepExactIff(s, b, ops[0]);
      StepTidy(s, ops[0]);
      StepInv(s, ops[0]);
      StepAt(s, ops[0], IPv4, Net4([0, 0, 0, 0], 0));
      if !OpUnderreports(s, ops[0]) {
        RunExactIff(Step(s, ops[0]).0, ListenAll(b, ops[0], Step(s, ops[0]).1), ops[1..]);
      }
    }
  }
}
