/** The list after an insertion or a removal as a whole: places, marks, reasons and times, read off the old list's announcements. */
module MarkLaws {
  import opened Base
  import opened Net
  import opened Family
  import opened Paths
  import opened Decision
  import opened LocRibs
  import opened LocRibLists
  import opened DecisionFields

  /** Equal cost, field by field. */
  predicate SameCost(a: Announcement, b: Announcement) {
    a.localPref == b.localPref && |a.asSequence| == |b.asSequence| && a.origin == b.origin && a.med == b.med && SameAs(a) == SameAs(b)
  }

  /** The first path that the announcement has an advantage over, or the length. */
  function FirstBeaten(multi: bool, paths: seq<Path>, a: Announcement): (k: nat)
    ensures k <= |paths|
    ensures k < |paths| ==> Advantage(multi, a, paths[k].what).Some?
    ensures forall i :: 0 <= i < k ==> Advantage(multi, a, paths[i].what).None?
  {
    if paths == [] || Advantage(multi, a, paths[0].what).Some? then 0 else 1 + FirstBeaten(multi, paths[1..], a)
  }

  lemma PlaceIsFirstBeaten(multi: bool, d: IpNet, paths: seq<Path>, x: Path)
    requires Keyed(d, paths) && x.Prefix() == d
    ensures var k := FirstBeaten(multi, paths, x.what);
            Scan(Criteria(multi), x, Retimed(paths, x))
            == (k, if k < |paths| then Advantage(multi, x.what, paths[k].what).value else NotBest)
  {
    hide Scan, FirstBetter, Criteria, Advantage, Retimed;
    RetimedAll(d, paths, x);
    var timed := Retimed(paths, x);
    assert |timed| == |paths|;
    forall i | 0 <= i < |paths|
      ensures FirstBetter(Criteria(multi), x, timed[i]) == Advantage(multi, x.what, paths[i].what)
    {
      AdvantageIs(multi, x, timed[i]);
    }
    var k := FirstBeaten(multi, paths, x.what);
    ScanIs(Criteria(multi), x, timed, k, if k < |paths| then Advantage(multi, x.what, paths[k].what).value else NotBest);
  }

  /** A stored path afterwards: with the new time, unmarked when the new path takes its place, noted when it shares it. */
  function Stored(multi: bool, p: Path, first: bool, last: bool, takes: bool, shares: bool, now: nat): Path {
    var p := p.(timestamp := now);
    if takes && (if multi then p.best else first) then p.(best := false, reason := NotBest)
    else if shares && last then p.(reason := EqualCostMultiPath)
    else p
  }

  /**
   Insertion into a list with a best path, whatever else it is like.  The new path goes to the first one it has an
   advantage over.  It takes the best place if that is not behind the last best path (in single-path mode: if that is
   the head), with that advantage for a reason; it shares it right behind paths of its cost; otherwise it waits.
   */
  lemma InsertWhole(multi: bool, d: IpNet, paths: seq<Path>, x: Path)
    requires Keyed(d, paths) && x.Prefix() == d && LastBest(paths).Some?
    ensures ListInsert(multi, paths, x).Success?
    ensures var b, k := LastBest(paths).value, FirstBeaten(multi, paths, x.what);
            var takes := if multi then k <= b else k == 0;
            var shares := multi && k == b + 1 && SameCost(x.what, paths[b].what);
            var (after, x', status) := ListInsert(multi, paths, x).value;
            && x' == (if takes then x.(best := true, reason := Advantage(multi, x.what, paths[k].what).value)
                      else if shares then x.(best := true, reason := EqualCostMultiPath)
                      else x)
            && status == (if takes then BestPathChanged(d, x.id) else if shares then MultiPathAdded else NotChanged)
            && |after| == |paths| + 1 && after[k] == x'
            && forall i :: 0 <= i < |paths| ==>
                 after[if i < k then i else i + 1] == Stored(multi, paths[i], i == 0, i == b, takes, shares, x.timestamp)
  {
    hide Scan, FirstBetter, Criteria, Advantage, Retimed, FirstBeaten, LastBest;
    PlaceIsFirstBeaten(multi, d, paths, x);
    RetimedAll(d, paths, x);
    var b, k := LastBest(paths).value, FirstBeaten(multi, paths, x.what);
    assert paths[b].best;
    var reason := if k < |paths| then Advantage(multi, x.what, paths[k].what).value else NotBest;
    assert ListInsert(multi, paths, x) == Success(Placed(multi, Retimed(paths, x), x, b, k, reason));
    PlacedWhole(multi, paths, Retimed(paths, x), x, b, k, reason);
  }

  lemma PlacedWhole(multi: bool, paths: seq<Path>, timed: seq<Path>, x: Path, b: nat, k: nat, reason: Reason)
    requires b < |paths| == |timed| && k <= |paths|
    requires forall i :: 0 <= i < |paths| ==> timed[i] == paths[i].(timestamp := x.timestamp)
    ensures var takes := if multi then k <= b else k == 0;
            var shares := multi && k == b + 1 && SameCost(x.what, paths[b].what);
            var (after, x', status) := Placed(multi, timed, x, b, k, reason);
            && x' == (if takes then x.(best := true, reason := reason)
                      else if shares then x.(best := true, reason := EqualCostMultiPath)
                      else x)
            && status == (if takes then BestPathChanged(x.Prefix(), x.id) else if shares then MultiPathAdded else NotChanged)
            && |after| == |paths| + 1 && after[k] == x'
            && forall i :: 0 <= i < |paths| ==>
                 after[if i < k then i else i + 1] == Stored(multi, paths[i], i == 0, i == b, takes, shares, x.timestamp)
  {
    hide InsertAt;
    var outcome := OutcomeOf(multi, timed, x, b, k);
    var old' := Remarked(multi, timed, b, outcome);
    var after := Placed(multi, timed, x, b, k, reason).0;
    forall i | 0 <= i < |paths|
      ensures after[if i < k then i else i + 1] == old'[i]
    {
    }
  }

  // ---------------------------------------------------------------- removal

  /** The end of the run of neighbours of the same cost that starts at `i`. */
  function RunEnd(paths: seq<Path>, i: nat): (m: nat)
    requires i < |paths|
    ensures i <= m < |paths|
    decreases |paths| - i
  {
    if i + 1 == |paths| || !SameCost(paths[i].what, paths[i + 1].what) then i else RunEnd(paths, i + 1)
  }

  lemma {:induction false} RunEndSame(a: seq<Path>, b: seq<Path>, i: nat)
    requires |a| == |b| && i < |a| && forall j :: 0 <= j < |a| ==> a[j].what == b[j].what
    ensures RunEnd(a, i) == RunEnd(b, i)
    decreases |a| - i
  {
    if i + 1 < |a| && SameCost(a[i].what, a[i + 1].what) {
      RunEndSame(a, b, i + 1);
    }
  }

  lemma {:induction false} MarkEqualWhole(paths: seq<Path>, i: nat)
    requires i < |paths|
    ensures var m := RunEnd(paths, i);
            forall j :: 0 <= j < |paths| ==>
              MarkEqual(paths, i)[j] == if i < j <= m then paths[j].(best := true, reason := EqualCostMultiPath)
                                        else if j == i < m then paths[j].(reason := EqualCostMultiPath)
                                        else paths[j]
    decreases |paths| - i
  {
    if i + 1 < |paths| && SameCost(paths[i].what, paths[i + 1].what) {
      var next := paths[i := paths[i].(reason := EqualCostMultiPath)]
                  [i + 1 := paths[i + 1].(best := true, reason := EqualCostMultiPath)];
      MarkEqualWhole(next, i + 1);
      RunEndSame(paths, next, i + 1);
    }
  }

  /** The reason of a new head: its advantage over the next path, or the one it had. */
  function HeadReason(multi: bool, left: seq<Path>): Reason
    requires |left| >= 2
  {
    match Advantage(multi, left[0].what, left[1].what)
    case Some(reason) => reason
    case None => left[0].reason
  }

  lemma CrownedIs(multi: bool, left: seq<Path>)
    requires |left| >= 2 && left[0].timestamp == left[1].timestamp
    ensures Crowned(multi, left) == left[0].(best := true, reason := HeadReason(multi, left))
  {
    hide FirstBetter, Criteria, Advantage;
    AdvantageIs(multi, left[0], left[1]);
  }

  /** The run of the head's cost, all best and noted as equal, when nothing sets the head apart. */
  lemma RecomputedWhole(left: seq<Path>)
    requires |left| >= 2 && left[0].timestamp == left[1].timestamp
    ensures var r := HeadReason(true, left);
            var m := if r in {NotBest, EqualCostMultiPath} then RunEnd(left, 0) else 0;
            && |Recomputed(left)| == |left|
            && forall j :: 0 <= j < |left| ==>
                 Recomputed(left)[j] == if j <= m && 0 < m then left[j].(best := true, reason := EqualCostMultiPath)
                                        else if j == 0 then left[0].(best := true, reason := r)
                                        else left[j]
  {
    hide Crowned, HeadReason;
    CrownedIs(true, left);
    var crowned := left[0 := Crowned(true, left)];
    RunEndSame(left, crowned, 0);
    MarkEqualWhole(crowned, 0);
  }

  /**
   Removal from a list of one age, in either mode: the other paths stay as they are, except that a sole survivor is
   best as the only path, and that a head which was not best before becomes so - alone, or with the run of its cost.
   */
  lemma DropWhole(multi: bool, d: IpNet, paths: seq<Path>, id: u64)
    requires SameTime(paths) && PositionOf(paths, id).Some?
    ensures ListDrop(multi, d, paths, id).Success?
    ensures var k := PositionOf(paths, id).value;
            var left, after := paths[..k] + paths[k + 1..], ListDrop(multi, d, paths, id).value.0;
            if !paths[k].best || left == [] then after == left
            else if |left| == 1 then after == [left[0].(best := true, reason := OnlyPath)]
            else if !multi then after == left[0 := left[0].(best := true, reason := HeadReason(false, left))]
            else if k > 0 || left[0].best then after == left
            else
              var r := HeadReason(true, left);
              var m := if r in {NotBest, EqualCostMultiPath} then RunEnd(left, 0) else 0;
              && |after| == |left|
              && forall j :: 0 <= j < |left| ==>
                   after[j] == if j <= m && 0 < m then left[j].(best := true, reason := EqualCostMultiPath)
                               else if j == 0 then left[0].(best := true, reason := r)
                               else left[j]
  {
    hide Crowned, Recomputed, HeadReason, PositionOf, SameTime;
    var k := PositionOf(paths, id).value;
    var left := paths[..k] + paths[k + 1..];
    assert left == RemoveAt(paths, k);
    if |left| >= 2 {
      LeftTimes(paths, k);
      CrownedIs(false, left);
      RecomputedWhole(left);
    }
  }

  lemma LeftTimes(paths: seq<Path>, k: nat)
    requires SameTime(paths) && k < |paths| && |paths| >= 3
    ensures RemoveAt(paths, k)[0].timestamp == RemoveAt(paths, k)[1].timestamp
  {
  }

  // ---------------------------------------------------------------- the table

  /** Only the list of the path's own prefix changes, and one arrival is counted; what is refused, and for what. */
  lemma InsertTable(s: State, afi: Afi, x: Path)
    ensures var (s', r) := InsertStep(s, afi, x);
            var paths := At(s, afi, x.what.prefix);
            && s'.multi == s.multi && s'.dropped == s.dropped && s'.table.Keys == s.table.Keys
            && s'.received == s.received + (if afi in s.table then 1 else 0)
            && (forall a, e :: (a, e) != (afi, x.what.prefix) ==> At(s', a, e) == At(s, a, e))
            && if afi !in s.table then r == Failure(InvalidAddressFamily)
               else if paths == [] then
                 var only := x.(best := true, reason := OnlyPath);
                 r == Success((only, BestPathChanged(x.what.prefix, x.id))) && At(s', afi, x.what.prefix) == [only]
               else if forall p <- paths :: !p.best then r == Failure(PathNotFound) && s'.table == s.table
               else r.Success? && At(s', afi, x.what.prefix) == ListInsert(s.multi, paths, x).value.0
  {
    hide Scan, Criteria, Placed, Retimed, LastBest;
    var paths := At(s, afi, x.what.prefix);
    if LastBest(paths).Some? {
      assert paths[LastBest(paths).value] in paths;
    }
  }

  /** The same for a removal; one that finds no list is not counted, one that finds no path is. */
  lemma DropTable(s: State, afi: Afi, d: IpNet, id: u64)
    ensures var (s', r) := DropStep(s, afi, d, id);
            var paths := At(s, afi, d);
            && s'.multi == s.multi && s'.received == s.received && s'.table.Keys == s.table.Keys
            && s'.dropped == s.dropped + (if paths == [] then 0 else 1)
            && (forall a, e :: (a, e) != (afi, d) ==> At(s', a, e) == At(s, a, e))
            && if afi !in s.table then r == Failure(InvalidAddressFamily)
               else if forall p <- paths :: p.id != id then r == Failure(PathNotFound) && s'.table == s.table
               else r.Success? && At(s', afi, d) == ListDrop(s.multi, d, paths, id).value.0
  {
    hide AfterBest, PositionOf;
    var paths := At(s, afi, d);
    if PositionOf(paths, id).Some? {
      assert paths[PositionOf(paths, id).value] in paths;
    }
  }
}
