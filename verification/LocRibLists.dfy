/** What one insertion or removal does to the list of a prefix. */
module LocRibLists {
  import opened Base
  import opened Net
  import opened Paths
  import opened Decision
  import opened LocRibs

  // ---------------------------------------------------------------- what a list is like

  /** All paths of a list are paths to its prefix. */
  predicate Keyed(d: IpNet, paths: seq<Path>) {
    forall i :: 0 <= i < |paths| ==> paths[i].Prefix() == d
  }

  predicate SameTime(paths: seq<Path>) {
    forall i, j :: 0 <= i < j < |paths| ==> paths[i].timestamp == paths[j].timestamp
  }

  /** The same announcement: flags, reason and time apart. */
  predicate Same(a: Path, b: Path) {
    a.id == b.id && a.what == b.what
  }

  /** Exactly one best path, at the head. */
  predicate SingleBest(paths: seq<Path>) {
    forall i :: 0 <= i < |paths| ==> (paths[i].best <==> i == 0)
  }

  /** The best paths are a non-empty prefix of the list and of pairwise equal cost. */
  predicate BestPrefix(paths: seq<Path>) {
    && (paths != [] ==> paths[0].best)
    && (forall i, j :: 0 <= i < j < |paths| && paths[j].best ==> paths[i].best)
    && (forall i, j :: 0 <= i < j < |paths| && paths[j].best ==> paths[i].EqualCost(paths[j]))
  }

  /** Paths of equal cost are both local or both not. */
  predicate Agree(paths: seq<Path>) {
    forall i, j :: 0 <= i < j < |paths| && paths[i].EqualCost(paths[j]) ==> paths[i].IsLocal() == paths[j].IsLocal()
  }

  predicate Joins(paths: seq<Path>, x: Path) {
    forall i :: 0 <= i < |paths| && x.EqualCost(paths[i]) ==> x.IsLocal() == paths[i].IsLocal()
  }

  predicate PlainReasons(paths: seq<Path>) {
    forall i :: 0 <= i < |paths| ==> paths[i].best || paths[i].reason == NotBest
  }

  /** The best paths are exactly those of equal cost to the head. */
  predicate BestExactly(paths: seq<Path>) {
    forall i :: 0 <= i < |paths| ==> (paths[i].best <==> paths[0].EqualCost(paths[i]))
  }

  predicate DistinctIds(paths: seq<Path>) {
    forall i, j :: 0 <= i < j < |paths| ==> paths[i].id != paths[j].id
  }

  function BestIds(paths: seq<Path>): set<u64> {
    set i | 0 <= i < |paths| && paths[i].best :: paths[i].id
  }

  // ---------------------------------------------------------------- the position of a new path

  function Place(multi: bool, paths: seq<Path>, x: Path): nat {
    Scan(Criteria(multi), x, Retimed(paths, x)).0
  }

  /** Since they share the prefix, all stored paths take on the new path's time. */
  lemma RetimedAll(d: IpNet, paths: seq<Path>, x: Path)
    requires Keyed(d, paths) && x.Prefix() == d
    ensures forall i :: 0 <= i < |paths| ==> Retimed(paths, x)[i] == paths[i].(timestamp := x.timestamp)
  {
  }

  /** The outcome of an insertion into a non-empty list. */
  function OutcomeFor(multi: bool, paths: seq<Path>, x: Path): Outcome
    requires LastBest(paths).Some?
  {
    OutcomeOf(multi, Retimed(paths, x), x, LastBest(paths).value, Place(multi, paths, x))
  }

  /** The stored paths as an insertion leaves them. */
  function OldPaths(multi: bool, paths: seq<Path>, x: Path): seq<Path>
    requires LastBest(paths).Some?
  {
    Remarked(multi, Retimed(paths, x), LastBest(paths).value, OutcomeFor(multi, paths, x))
  }

  lemma OldPathsSame(multi: bool, d: IpNet, paths: seq<Path>, x: Path)
    requires Keyed(d, paths) && x.Prefix() == d && LastBest(paths).Some?
    ensures |OldPaths(multi, paths, x)| == |paths|
    ensures forall i :: 0 <= i < |paths| ==>
              Same(paths[i], OldPaths(multi, paths, x)[i]) && OldPaths(multi, paths, x)[i].timestamp == x.timestamp
  {
    hide Scan, LastBest, Criteria, Remarked, OutcomeOf;
    RetimedAll(d, paths, x);
  }

  /** Whatever an insertion reports, the list is the old one with the new path put in at its place. */
  lemma InsertShape(multi: bool, d: IpNet, paths: seq<Path>, x: Path)
    requires Keyed(d, paths) && x.Prefix() == d && paths != [] && LastBest(paths).Some?
    ensures ListInsert(multi, paths, x).Success? && Place(multi, paths, x) <= |paths|
    ensures var (after, x', status) := ListInsert(multi, paths, x).value;
            var k, outcome, old' := Place(multi, paths, x), OutcomeFor(multi, paths, x), OldPaths(multi, paths, x);
            && |old'| == |paths| && after == InsertAt(old', k, x') && status == InsertStatus(x, outcome)
            && Same(x, x') && x'.timestamp == x.timestamp
            && (x'.best <==> x.best || outcome != Waits) && (outcome == Waits ==> x' == x)
    ensures forall i :: 0 <= i < |paths| ==>
              Same(paths[i], OldPaths(multi, paths, x)[i]) && OldPaths(multi, paths, x)[i].timestamp == x.timestamp
  {
    hide Scan, LastBest, Criteria, Remarked, InsertAt, OutcomeOf, Retimed;
    OldPathsSame(multi, d, paths, x);
    var last := LastBest(paths).value;
    var (k, reason) := Scan(Criteria(multi), x, Retimed(paths, x));
    assert ListInsert(multi, paths, x) == Success(Placed(multi, Retimed(paths, x), x, last, k, reason));
  }

  /** The keys and the common time of a list are kept. */
  lemma InsertKeyed(multi: bool, d: IpNet, paths: seq<Path>, x: Path)
    requires Keyed(d, paths) && x.Prefix() == d && ListInsert(multi, paths, x).Success?
    ensures Keyed(d, ListInsert(multi, paths, x).value.0) && SameTime(ListInsert(multi, paths, x).value.0)
  {
    hide Scan, LastBest, Criteria, Remarked, OutcomeFor;
    if paths != [] {
      InsertShape(multi, d, paths, x);
      var after, k := ListInsert(multi, paths, x).value.0, Place(multi, paths, x);
      forall i | 0 <= i < |after|
        ensures after[i].Prefix() == d && after[i].timestamp == x.timestamp
      {
        if i != k {
          assert after[i].timestamp == x.timestamp;
        }
      }
    }
  }

  /** The place is at the first stored path that the new one is better than on some criterion. */
  lemma PlaceSpec(multi: bool, d: IpNet, paths: seq<Path>, x: Path)
    requires Keyed(d, paths) && x.Prefix() == d
    ensures var k := Place(multi, paths, x);
            && k <= |paths|
            && (forall i :: 0 <= i < k ==> FirstBetter(Criteria(multi), x, paths[i].(timestamp := x.timestamp)).None?)
            && (k < |paths| ==> FirstBetter(Criteria(multi), x, paths[k].(timestamp := x.timestamp)).Some?)
  {
    hide FirstBetter, Criteria;
    RetimedAll(d, paths, x);
  }

  // ---------------------------------------------------------------- single-path mode

  lemma SingleInsert(d: IpNet, paths: seq<Path>, x: Path)
    requires Keyed(d, paths) && x.Prefix() == d && SingleBest(paths) && !x.best
    ensures ListInsert(false, paths, x).Success?
    ensures var (after, _, status) := ListInsert(false, paths, x).value;
            && SingleBest(after) && after != []
            && (status == BestPathChanged(d, after[0].id)
                || (status == NotChanged && paths != [] && after[0].id == paths[0].id))
  {
    hide Scan, Criteria, LastBest;
    if paths != [] {
      assert paths[0].best;
      InsertShape(false, d, paths, x);
      RetimedAll(d, paths, x);
      var after, k := ListInsert(false, paths, x).value.0, Place(false, paths, x);
      assert k == 0 ==> forall i :: 0 < i < |after| ==> !after[i].best;
    }
  }

  lemma SingleDrop(d: IpNet, paths: seq<Path>, id: u64)
    requires SingleBest(paths) && ListDrop(false, d, paths, id).Success?
    ensures var (after, status) := ListDrop(false, d, paths, id).value;
            && SingleBest(after)
            && (status.Withdrawn? <==> after == [])
            && (after != [] ==> status == BestPathChanged(d, after[0].id)
                                || (status == NotChanged && paths != [] && after[0].id == paths[0].id))
  {
    hide FirstBetter, Criteria;
  }

  // ---------------------------------------------------------------- multi-path mode: the best paths come first

  lemma LastBestIsPrefix(paths: seq<Path>)
    requires BestPrefix(paths) && paths != []
    ensures LastBest(paths).Some? && forall i :: 0 <= i < |paths| ==> (paths[i].best <==> i <= LastBest(paths).value)
  {
    assert paths[0].best;
  }

  /** The shape is kept by an insertion if and only if the scan does not stop inside the run of best paths. */
  lemma MultiInsertIff(d: IpNet, paths: seq<Path>, x: Path)
    requires Keyed(d, paths) && x.Prefix() == d && BestPrefix(paths) && paths != [] && !x.best
    ensures LastBest(paths).Some? && ListInsert(true, paths, x).Success?
    ensures BestPrefix(ListInsert(true, paths, x).value.0)
            <==> !(0 < Place(true, paths, x) <= LastBest(paths).value)
  {
    hide Scan, Criteria;
    LastBestIsPrefix(paths);
    InsertShape(true, d, paths, x);
    RetimedAll(d, paths, x);
    var last, k := LastBest(paths).value, Place(true, paths, x);
    var after := ListInsert(true, paths, x).value.0;
    if k <= last {
      InsertUnmarks(d, paths, x);
      if k > 0 {
        assert after[k].best && !after[0].best;
      } else {
        assert forall j :: 0 < j < |after| ==> !after[j].best;
      }
    } else {
      ExtendsKeeps(d, paths, x);
    }
  }

  lemma OutcomeBefore(d: IpNet, paths: seq<Path>, x: Path)
    requires Keyed(d, paths) && x.Prefix() == d && paths != [] && LastBest(paths).Some?
    requires Place(true, paths, x) <= LastBest(paths).value
    ensures OutcomeFor(true, paths, x) == Takes
    ensures var old' := OldPaths(true, paths, x);
            |old'| == |paths| && forall i :: 0 <= i < |paths| ==> !old'[i].best && (PlainReasons(paths) ==> old'[i].reason == NotBest)
  {
    hide Scan, LastBest, Criteria;
    RetimedAll(d, paths, x);
    assert OldPaths(true, paths, x) == Unmarked(Retimed(paths, x));
  }

  /** Placed at or before the last best path, the new one becomes the only best path. */
  lemma InsertUnmarks(d: IpNet, paths: seq<Path>, x: Path)
    requires Keyed(d, paths) && x.Prefix() == d && paths != [] && LastBest(paths).Some?
    requires Place(true, paths, x) <= LastBest(paths).value
    ensures var (after, x', status) := ListInsert(true, paths, x).value;
            var k := Place(true, paths, x);
            && |after| == |paths| + 1 && status == BestPathChanged(d, x.id) && Same(x, x') && after[k] == x'
            && (forall i :: 0 <= i < |after| ==> (after[i].best <==> i == k))
            && (PlainReasons(paths) ==> PlainReasons(after))
  {
    hide Scan, LastBest, Criteria, ListInsert, OldPaths, OutcomeFor, Place, InsertAt, Keyed;
    OutcomeBefore(d, paths, x);
    InsertShape(true, d, paths, x);
  }

  lemma OutcomeBehind(d: IpNet, paths: seq<Path>, x: Path)
    requires Keyed(d, paths) && x.Prefix() == d && BestPrefix(paths) && paths != []
    requires LastBest(paths).Some? && Place(true, paths, x) > LastBest(paths).value
    ensures var last, k := LastBest(paths).value, Place(true, paths, x);
            k <= |paths| && OutcomeFor(true, paths, x) == if k == last + 1 && x.EqualCost(paths[0]) then Shares else Waits
    ensures var last, old' := LastBest(paths).value, OldPaths(true, paths, x);
            && |old'| == |paths|
            && forall i :: 0 <= i < |paths| ==> (old'[i].best <==> i <= last) && (i != last ==> old'[i].reason == paths[i].reason)
  {
    hide Scan, LastBest, Criteria;
    LastBestIsPrefix(paths);
    RetimedAll(d, paths, x);
    var last := LastBest(paths).value;
    assert x.EqualCost(Retimed(paths, x)[last]) <==> x.EqualCost(paths[0]) by {
      assert last > 0 ==> paths[0].EqualCost(paths[last]);
    }
  }

  /** Placed after the best paths, the new one joins them when it comes next and costs the same, and changes nothing otherwise. */
  lemma InsertExtends(d: IpNet, paths: seq<Path>, x: Path)
    requires Keyed(d, paths) && x.Prefix() == d && BestPrefix(paths) && paths != [] && !x.best
    requires LastBest(paths).Some? && Place(true, paths, x) > LastBest(paths).value
    ensures ListInsert(true, paths, x).Success?
    ensures var (after, x', status) := ListInsert(true, paths, x).value;
            var last, k := LastBest(paths).value, Place(true, paths, x);
            var joins := k == last + 1 && x.EqualCost(paths[0]);
            && |after| == |paths| + 1 && Same(x, x') && k < |after| && after[k] == x'
            && status == (if joins then MultiPathAdded else NotChanged)
            && (forall i :: 0 <= i < |after| ==> (after[i].best <==> i <= last || (joins && i == k)))
            && (PlainReasons(paths) && x.reason == NotBest ==> PlainReasons(after))
  {
    hide Scan, LastBest, Criteria, ListInsert, OldPaths, OutcomeFor, Place, InsertAt, Keyed, BestPrefix;
    OutcomeBehind(d, paths, x);
    InsertShape(true, d, paths, x);
  }

  lemma ExtendsKeeps(d: IpNet, paths: seq<Path>, x: Path)
    requires Keyed(d, paths) && x.Prefix() == d && BestPrefix(paths) && paths != [] && !x.best
    requires LastBest(paths).Some? && Place(true, paths, x) > LastBest(paths).value
    ensures BestPrefix(ListInsert(true, paths, x).value.0)
  {
    hide Scan, LastBest, Criteria, ListInsert, Remarked, OutcomeFor, Retimed;
    LastBestIsPrefix(paths);
    InsertShape(true, d, paths, x);
    InsertExtends(d, paths, x);
    var after, last, k := ListInsert(true, paths, x).value.0, LastBest(paths).value, Place(true, paths, x);
    forall i, j | 0 <= i < j < |after| && after[j].best
      ensures after[i].best && after[i].EqualCost(after[j])
    {
      assert Same(paths[i], after[i]);
      if j < k {
        assert Same(paths[j], after[j]);
      } else {
        assert Same(x, after[j]) && (i > 0 ==> paths[0].EqualCost(paths[i]));
      }
    }
  }

  /** When equal cost implies agreement on local origination, the scan stops at the head or past the best paths. */
  lemma AgreementPlacesFirst(d: IpNet, paths: seq<Path>, x: Path)
    requires Keyed(d, paths) && x.Prefix() == d && BestPrefix(paths) && paths != [] && Agree(paths)
    ensures LastBest(paths).Some? && !(0 < Place(true, paths, x) <= LastBest(paths).value)
  {
    hide Scan, LastBest, FirstBetter, Criteria;
    LastBestIsPrefix(paths);
    PlaceSpec(true, d, paths, x);
    var k := Place(true, paths, x);
    if 0 < k <= LastBest(paths).value {
      var p, q := paths[0].(timestamp := x.timestamp), paths[k].(timestamp := x.timestamp);
      assert paths[k].best && paths[0].EqualCost(paths[k]);
      BetterThanBoth(x, p, q);
    }
  }

  /** Among paths that tie on every criterion, being better than one is being better than the other. */
  lemma BetterThanBoth(x: Path, p: Path, q: Path)
    requires p.EqualCost(q) && p.IsLocal() == q.IsLocal() && x.timestamp == p.timestamp == q.timestamp
    ensures FirstBetter(Criteria(true), x, q).Some? ==> FirstBetter(Criteria(true), x, p).Some?
  {
    hide Criteria, Compare, Key;
    var c := Criteria(true);
    EqualCostIsTie(p.what, q.what);
    LexEqual(c, p.what, q.what);
    if FirstBetter(c, x, q).Some? {
      var r := FirstBetter(c, x, q).value;
      CompareIsKeys(r, x, p);
      CompareIsKeys(r, x, q);
    }
  }

  // ---------------------------------------------------------------- multi-path mode: removal

  /** From `i` the marking reaches `m`, the end of the run of neighbours of equal cost. */
  lemma {:induction false} MarkEqualSpec(paths: seq<Path>, i: nat) returns (m: nat)
    requires i < |paths|
    ensures i <= m < |paths| && |MarkEqual(paths, i)| == |paths|
    ensures m + 1 < |paths| ==> !paths[m].EqualCost(paths[m + 1])
    ensures forall j :: i <= j <= m ==> paths[i].EqualCost(paths[j])
    ensures forall j :: 0 <= j < |paths| ==>
              Same(paths[j], MarkEqual(paths, i)[j]) && MarkEqual(paths, i)[j].timestamp == paths[j].timestamp
    ensures forall j :: 0 <= j < |paths| ==> (MarkEqual(paths, i)[j].best <==> paths[j].best || i < j <= m)
    ensures forall j :: 0 <= j < |paths| && !MarkEqual(paths, i)[j].best ==>
              paths[j].reason == MarkEqual(paths, i)[j].reason || j == i
    decreases |paths| - i
  {
    if i + 1 == |paths| || !paths[i].EqualCost(paths[i + 1]) {
      m := i;
    } else {
      var next := paths[i := paths[i].(reason := EqualCostMultiPath)]
                  [i + 1 := paths[i + 1].(best := true, reason := EqualCostMultiPath)];
      m := MarkEqualSpec(next, i + 1);
      forall j | i <= j <= m
        ensures paths[i].EqualCost(paths[j])
      {
        assert j > i ==> next[i + 1].EqualCost(next[j]);
      }
    }
  }

  /** The recomputed list: the same paths, the head best, and with it a run of paths of its cost, up to `m`. */
  lemma RecomputedSpec(left: seq<Path>) returns (m: nat)
    requires |left| >= 2 && forall i :: 0 <= i < |left| ==> !left[i].best
    ensures m < |left| && |Recomputed(left)| == |left|
    ensures forall i :: 0 <= i < |left| ==>
              && Same(left[i], Recomputed(left)[i]) && Recomputed(left)[i].timestamp == left[i].timestamp
              && (Recomputed(left)[i].best <==> i <= m)
    ensures forall i :: 0 <= i <= m ==> left[0].EqualCost(left[i])
    ensures PlainReasons(left) ==> PlainReasons(Recomputed(left))
    ensures PlainReasons(left) && FirstBetter(Criteria(true), left[0], left[1]).None? && m + 1 < |left| ==>
              !left[m].EqualCost(left[m + 1])
    ensures FirstBetter(Criteria(true), left[0], left[1]).Some? ==> m == 0
  {
    hide FirstBetter, Criteria;
    CriteriaDecide(true);
    var crowned := left[0 := Crowned(true, left)];
    if crowned[0].reason == NotBest || crowned[0].reason == EqualCostMultiPath {
      m := MarkEqualSpec(crowned, 0);
    } else {
      m := 0;
    }
  }

  /** Whatever the marks were, the recomputation keeps every announcement and makes the head best. */
  lemma RecomputedSame(left: seq<Path>)
    requires |left| >= 2
    ensures |Recomputed(left)| == |left| && Recomputed(left)[0].best
    ensures forall i :: 0 <= i < |left| ==> Same(left[i], Recomputed(left)[i]) && Recomputed(left)[i].timestamp == left[i].timestamp
  {
    hide FirstBetter, Criteria;
    var crowned := left[0 := Crowned(true, left)];
    if crowned[0].reason == NotBest || crowned[0].reason == EqualCostMultiPath {
      var m := MarkEqualSpec(crowned, 0);
    }
  }

  lemma MultiDrop(d: IpNet, paths: seq<Path>, id: u64)
    requires BestPrefix(paths) && ListDrop(true, d, paths, id).Success?
    ensures BestPrefix(ListDrop(true, d, paths, id).value.0)
    ensures PlainReasons(paths) ==> PlainReasons(ListDrop(true, d, paths, id).value.0)
  {
    hide Recomputed;
    var k := PositionOf(paths, id).value;
    var left := RemoveAt(paths, k);
    if Recomputes(paths, k) {
      OnlyBest(paths, left);
      var m := RecomputedSpec(left);
    } else if paths[k].best && |left| > 1 {
      assert forall i :: 0 <= i < k ==> left[i] == paths[i];
      assert forall i :: k <= i < |left| ==> left[i] == paths[i + 1];
    }
  }

  /** The drop has to work out the best paths again. */
  predicate Recomputes(paths: seq<Path>, k: nat)
    requires k < |paths|
  {
    paths[k].best && k == 0 && |paths| >= 3 && !paths[1].best
  }

  lemma OnlyBest(paths: seq<Path>, left: seq<Path>)
    requires BestPrefix(paths) && |paths| >= 3 && !paths[1].best && left == RemoveAt(paths, 0)
    ensures forall i :: 0 <= i < |left| ==> left[i] == paths[i + 1] && !left[i].best
  {
  }

  /** A removal keeps the other paths as announced, in their order, and their times. */
  lemma DropShape(multi: bool, d: IpNet, paths: seq<Path>, id: u64)
    requires ListDrop(multi, d, paths, id).Success?
    ensures PositionOf(paths, id).Some?
    ensures var left := RemoveAt(paths, PositionOf(paths, id).value);
            var after := ListDrop(multi, d, paths, id).value.0;
            && |after| == |left|
            && forall i :: 0 <= i < |after| ==> Same(left[i], after[i]) && after[i].timestamp == left[i].timestamp
  {
    hide Recomputed, FirstBetter, Criteria;
    var k := PositionOf(paths, id).value;
    var left := RemoveAt(paths, k);
    if multi && Recomputes(paths, k) {
      RecomputedSame(left);
    }
  }
}
