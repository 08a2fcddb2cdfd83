/**
 How the lists of the Loc-RIB relate to the decision process: when the scan keeps a list in the order of the criteria,
 and which paths of it are then marked best.
 */
module LocRibOrder {
  import opened Base
  import opened Net
  import opened Paths
  import opened Decision
  import opened LocRibs
  import opened LocRibLists

  // ---------------------------------------------------------------- order

  /** The scan has no reason to stop, or it stops at a path that the new one really comes before. */
  predicate StopsRight(multi: bool, paths: seq<Path>, x: Path) {
    var k := Place(multi, paths, x);
    k < |paths| ==> Lex(Criteria(multi), x.what, paths[k].what) == Less
  }

  lemma BeforePlace(multi: bool, d: IpNet, paths: seq<Path>, x: Path, i: nat)
    requires Keyed(d, paths) && x.Prefix() == d && i < |paths|
    ensures Place(multi, paths, x) <= |paths|
    ensures i < Place(multi, paths, x) ==> NotAfter(Criteria(multi), paths[i], x)
    ensures i == Place(multi, paths, x) ==> exists c <- Criteria(multi) :: Key(c, x.what) < Key(c, paths[i].what)
  {
    hide Criteria, Key, FirstBetter, Place, Lex;
    PlaceSpec(multi, d, paths, x);
    var p := paths[i].(timestamp := x.timestamp);
    BetterIffKey(Criteria(multi), x, p);
    if i < Place(multi, paths, x) {
      NoneBetter(Criteria(multi), x.what, p.what);
    }
  }

  /**
   An insertion keeps the list in the order of the criteria, if and only if the path at which the scan stops does not
   come before the new one: the scan goes on past a criterion that speaks against the new path.
   */
  lemma SortedInsertIff(multi: bool, d: IpNet, paths: seq<Path>, x: Path)
    requires Keyed(d, paths) && x.Prefix() == d && paths != [] && LastBest(paths).Some? && Sorted(Criteria(multi), paths)
    ensures ListInsert(multi, paths, x).Success?
    ensures Sorted(Criteria(multi), ListInsert(multi, paths, x).value.0) <==> StopsRight(multi, paths, x)
  {
    hide Criteria, Key, Place, Lex, ListInsert, LastBest, OldPaths, OutcomeFor;
    InsertShape(multi, d, paths, x);
    var c, k, after := Criteria(multi), Place(multi, paths, x), ListInsert(multi, paths, x).value.0;
    if StopsRight(multi, paths, x) {
      forall i, j | 0 <= i < j < |after|
        ensures NotAfter(c, after[i], after[j])
      {
        InOrder(multi, d, paths, x, i, j);
      }
    } else {
      BeforePlace(multi, d, paths, x, k);
      LexEqual(c, x.what, paths[k].what);
      assert !NotAfter(c, after[k], after[k + 1]);
    }
  }

  lemma InOrder(multi: bool, d: IpNet, paths: seq<Path>, x: Path, i: nat, j: nat)
    requires Keyed(d, paths) && x.Prefix() == d && paths != [] && LastBest(paths).Some? && Sorted(Criteria(multi), paths)
    requires StopsRight(multi, paths, x) && i < j <= |paths|
    ensures ListInsert(multi, paths, x).Success? && |ListInsert(multi, paths, x).value.0| == |paths| + 1
    ensures NotAfter(Criteria(multi), ListInsert(multi, paths, x).value.0[i], ListInsert(multi, paths, x).value.0[j])
  {
    hide Criteria, Key, Place, Lex, ListInsert, LastBest, OldPaths, OutcomeFor;
    InsertShape(multi, d, paths, x);
    var c, k := Criteria(multi), Place(multi, paths, x);
    if i < k && j == k {
      BeforePlace(multi, d, paths, x, i);
    } else if i == k && j > k + 1 {
      assert NotAfter(c, paths[k], paths[j - 1]);
      LexTransitive(c, x.what, paths[k].what, paths[j - 1].what);
    } else if i < k < j {
      assert NotAfter(c, paths[i], paths[j - 1]);
    } else if i > k {
      assert NotAfter(c, paths[i - 1], paths[j - 1]);
    }
  }

  /** No two criteria disagree about the new path and a stored one. */
  ghost predicate NoConflicts(multi: bool, paths: seq<Path>, x: Path) {
    forall i :: 0 <= i < |paths| ==> !Conflict(Criteria(multi), x.what, paths[i].what)
  }

  lemma NoConflictStopsRight(multi: bool, d: IpNet, paths: seq<Path>, x: Path)
    requires Keyed(d, paths) && x.Prefix() == d && NoConflicts(multi, paths, x)
    ensures StopsRight(multi, paths, x)
  {
    hide Criteria, Key, Place, Lex;
    var k := Place(multi, paths, x);
    if k < |paths| {
      BeforePlace(multi, d, paths, x, k);
      BetterIsFirst(Criteria(multi), x.what, paths[k].what);
    }
  }

  lemma SortedDrop(multi: bool, d: IpNet, paths: seq<Path>, id: u64)
    requires ListDrop(multi, d, paths, id).Success? && Sorted(Criteria(multi), paths)
    ensures Sorted(Criteria(multi), ListDrop(multi, d, paths, id).value.0)
  {
    hide Criteria, Lex, ListDrop;
    DropShape(multi, d, paths, id);
    var k, after := PositionOf(paths, id).value, ListDrop(multi, d, paths, id).value.0;
    forall i, j | 0 <= i < j < |after|
      ensures NotAfter(Criteria(multi), after[i], after[j])
    {
      var p, q := if i < k then i else i + 1, if j < k then j else j + 1;
      assert Same(paths[p], after[i]) && Same(paths[q], after[j]);
      assert NotAfter(Criteria(multi), paths[p], paths[q]);
    }
  }

  // ---------------------------------------------------------------- which paths are best in multi-path mode

  lemma TieOrLess(paths: seq<Path>, i: nat)
    requires Sorted(Criteria(true), paths) && Agree(paths) && 0 < i < |paths|
    ensures paths[0].EqualCost(paths[i]) <==> Lex(Criteria(true), paths[0].what, paths[i].what) == Equal
    ensures !paths[0].EqualCost(paths[i]) ==> Lex(Criteria(true), paths[0].what, paths[i].what) == Less
  {
    hide Criteria, Lex;
    EqualCostIsTie(paths[0].what, paths[i].what);
    assert NotAfter(Criteria(true), paths[0], paths[i]);
  }

  /** In a sorted list the paths of the head's cost come first. */
  lemma EqualCostRun(paths: seq<Path>, i: nat, j: nat)
    requires Sorted(Criteria(true), paths) && Agree(paths) && i < j < |paths| && paths[0].EqualCost(paths[j])
    ensures paths[0].EqualCost(paths[i])
  {
    hide Criteria, Lex;
    if i > 0 {
      TieOrLess(paths, i);
      TieOrLess(paths, j);
      assert NotAfter(Criteria(true), paths[i], paths[j]);
      if !paths[0].EqualCost(paths[i]) {
        LexTransitive(Criteria(true), paths[0].what, paths[i].what, paths[j].what);
      }
    }
  }

  /** Everything that the multi-path theorem needs of a list. */
  ghost predicate Settled(paths: seq<Path>) {
    BestPrefix(paths) && Agree(paths) && PlainReasons(paths) && Sorted(Criteria(true), paths) && BestExactly(paths)
  }

  lemma ExactWhenBetter(d: IpNet, paths: seq<Path>, x: Path)
    requires Keyed(d, paths) && x.Prefix() == d && paths != [] && Settled(paths) && Joins(paths, x)
    requires Place(true, paths, x) == 0 && StopsRight(true, paths, x)
    ensures forall i :: 0 <= i < |paths| ==> !x.EqualCost(paths[i])
  {
    hide Criteria, Lex, Place, Key;
    forall i | 0 <= i < |paths|
      ensures !x.EqualCost(paths[i])
    {
      assert i > 0 ==> NotAfter(Criteria(true), paths[0], paths[i]);
      if i > 0 {
        LexTransitive(Criteria(true), x.what, paths[0].what, paths[i].what);
      }
      EqualCostIsTie(x.what, paths[i].what);
    }
  }

  /** A path placed further back than the run of best paths does not cost the same as they do. */
  lemma ExactWhenBehind(d: IpNet, paths: seq<Path>, x: Path)
    requires Keyed(d, paths) && x.Prefix() == d && paths != [] && Settled(paths) && Joins(paths, x)
    requires LastBest(paths).Some? && Place(true, paths, x) > LastBest(paths).value + 1
    ensures !x.EqualCost(paths[0])
  {
    hide Criteria, Lex, Place, Key, LastBest;
    LastBestIsPrefix(paths);
    var n := LastBest(paths).value + 1;
    BeforePlace(true, d, paths, x, 0);
    assert n < |paths| && !paths[n].best;
    BeforePlace(true, d, paths, x, n);
    TieOrLess(paths, n);
    if x.EqualCost(paths[0]) {
      EqualCostIsTie(x.what, paths[0].what);
      LexFlips(Criteria(true), x.what, paths[0].what);
      LexTransitive(Criteria(true), paths[0].what, paths[n].what, x.what);
    }
  }

  lemma AgreeInsert(d: IpNet, paths: seq<Path>, x: Path)
    requires Keyed(d, paths) && x.Prefix() == d && paths != [] && LastBest(paths).Some? && Agree(paths) && Joins(paths, x)
    ensures ListInsert(true, paths, x).Success? && Agree(ListInsert(true, paths, x).value.0)
  {
    hide Criteria, Place, ListInsert, LastBest, OldPaths, OutcomeFor;
    InsertShape(true, d, paths, x);
    var after, k := ListInsert(true, paths, x).value.0, Place(true, paths, x);
    forall i, j | 0 <= i < j < |after| && after[i].EqualCost(after[j])
      ensures after[i].IsLocal() == after[j].IsLocal()
    {
      var p, q := if i < k then i else i - 1, if j < k then j else j - 1;
      if i == k {
        assert x.EqualCost(paths[q]);
      } else if j == k {
        assert x.EqualCost(paths[p]);
      } else {
        assert paths[p].EqualCost(paths[q]);
      }
    }
  }

  lemma SettledInsert(d: IpNet, paths: seq<Path>, x: Path)
    requires Keyed(d, paths) && x.Prefix() == d && paths != [] && Settled(paths)
    requires Joins(paths, x) && StopsRight(true, paths, x) && !x.best && x.reason == NotBest
    ensures LastBest(paths).Some? && ListInsert(true, paths, x).Success? && Settled(ListInsert(true, paths, x).value.0)
  {
    hide Criteria, Lex, Place, ListInsert, LastBest, OldPaths, OutcomeFor, StopsRight;
    LastBestIsPrefix(paths);
    AgreementPlacesFirst(d, paths, x);
    MultiInsertIff(d, paths, x);
    SortedInsertIff(true, d, paths, x);
    AgreeInsert(d, paths, x);
    InsertShape(true, d, paths, x);
    var after, k, last := ListInsert(true, paths, x).value.0, Place(true, paths, x), LastBest(paths).value;
    if k <= last {
      InsertUnmarks(d, paths, x);
      ExactWhenBetter(d, paths, x);
      assert forall i :: 0 < i < |after| ==> Same(paths[i - 1], after[i]);
    } else {
      InsertExtends(d, paths, x);
      if k > last + 1 {
        ExactWhenBehind(d, paths, x);
      }
      assert Same(paths[0], after[0]) && Same(x, after[k]);
      forall i | 0 <= i < |after| && i != k
        ensures after[i].best <==> after[0].EqualCost(after[i])
      {
        assert Same(paths[if i < k then i else i - 1], after[i]);
      }
    }
  }

  lemma AgreeDrop(d: IpNet, paths: seq<Path>, id: u64)
    requires ListDrop(true, d, paths, id).Success? && Agree(paths)
    ensures Agree(ListDrop(true, d, paths, id).value.0)
  {
    hide ListDrop, PositionOf;
    DropShape(true, d, paths, id);
    var k, after := PositionOf(paths, id).value, ListDrop(true, d, paths, id).value.0;
    forall i, j | 0 <= i < j < |after| && after[i].EqualCost(after[j])
      ensures after[i].IsLocal() == after[j].IsLocal()
    {
      var p, q := if i < k then i else i + 1, if j < k then j else j + 1;
      assert Same(paths[p], after[i]) && Same(paths[q], after[j]);
      assert paths[p].EqualCost(paths[q]);
    }
  }

  /** Taking paths out of a sorted list leaves the head's cost to a run at the front; the recomputation marks exactly that run. */
  lemma RecomputedExact(left: seq<Path>)
    requires |left| >= 2 && (forall i :: 0 <= i < |left| ==> !left[i].best)
    requires Sorted(Criteria(true), left) && Agree(left) && PlainReasons(left) && SameTime(left)
    ensures BestExactly(Recomputed(left))
  {
    hide Criteria, Lex, Recomputed, Key, FirstBetter;
    var m := RecomputedSpec(left);
    var after := Recomputed(left);
    TieOrLess(left, 1);
    BetterIffKey(Criteria(true), left[0], left[1]);
    LexEqual(Criteria(true), left[0].what, left[1].what);
    if FirstBetter(Criteria(true), left[0], left[1]).None? {
      NoneBetter(Criteria(true), left[0].what, left[1].what);
      LexFlips(Criteria(true), left[0].what, left[1].what);
    }
    forall i | 0 <= i < |left|
      ensures after[i].best <==> after[0].EqualCost(after[i])
    {
      if i > m && left[0].EqualCost(left[i]) {
        EqualCostRun(left, m + 1, i);
      }
    }
  }

  lemma SettledDrop(d: IpNet, paths: seq<Path>, id: u64)
    requires Settled(paths) && SameTime(paths) && ListDrop(true, d, paths, id).Success?
    ensures Settled(ListDrop(true, d, paths, id).value.0)
  {
    hide Criteria, Lex, Recomputed;
    MultiDrop(d, paths, id);
    SortedDrop(true, d, paths, id);
    AgreeDrop(d, paths, id);
    var k := PositionOf(paths, id).value;
    var left := RemoveAt(paths, k);
    if Recomputes(paths, k) {
      OnlyBest(paths, left);
      LeftSettled(paths, left);
      RecomputedExact(left);
    } else {
      ExactRemoval(d, paths, id);
    }
  }

  lemma LeftSettled(paths: seq<Path>, left: seq<Path>)
    requires paths != [] && left == RemoveAt(paths, 0)
    requires Sorted(Criteria(true), paths) && Agree(paths) && PlainReasons(paths) && SameTime(paths)
    ensures Sorted(Criteria(true), left) && Agree(left) && PlainReasons(left) && SameTime(left)
  {
    hide Criteria, Lex;
    assert forall i :: 0 <= i < |left| ==> left[i] == paths[i + 1];
  }

  lemma ExactRemoval(d: IpNet, paths: seq<Path>, id: u64)
    requires BestPrefix(paths) && BestExactly(paths) && ListDrop(true, d, paths, id).Success?
    requires !Recomputes(paths, PositionOf(paths, id).value)
    ensures BestExactly(ListDrop(true, d, paths, id).value.0)
  {
    hide Recomputed;
    var k := PositionOf(paths, id).value;
    var left := RemoveAt(paths, k);
    if !paths[k].best || |left| >= 2 {
      assert ListDrop(true, d, paths, id).value.0 == left;
      forall i | 0 <= i < |left|
        ensures left[i].best <==> left[0].EqualCost(left[i])
      {
        assert left[0] == paths[if k == 0 then 1 else 0];
        assert left[i] == paths[if i < k then i else i + 1];
      }
    }
  }
}
