/** What holds of the Loc-RIB over every run of insertions and removals in a fixed mode. */
module LocRibRuns {
  import opened Base
  import opened Net
  import opened Family
  import opened Paths
  import opened Decision
  import opened LocRibs
  import opened LocRibLists
  import opened LocRibOrder

  // ---------------------------------------------------------------- runs

  function KeyOf(op: Op): (Afi, IpNet) {
    match op
    case Insert(afi, x) => (afi, x.Prefix())
    case Drop(afi, d, _) => (afi, d)
  }

  function Run(s: State, ops: seq<Op>): State
    decreases |ops|
  {
    if ops == [] then s else Run(Step(s, ops[0]).0, ops[1..])
  }

  /** A table in which nothing is stored yet. */
  ghost predicate Fresh(s: State) {
    s.received == 0 && s.dropped == 0 && forall a, d :: At(s, a, d) == []
  }

  /** A step touches the list of its own key only, and there it does what the list operation does. */
  lemma StepAt(s: State, op: Op, a: Afi, d: IpNet)
    ensures Step(s, op).0.multi == s.multi
    ensures (a, d) != KeyOf(op) || op.afi !in s.table ==> At(Step(s, op).0, a, d) == At(s, a, d)
    ensures (a, d) == KeyOf(op) && a in s.table && op.Insert? ==>
              match ListInsert(s.multi, At(s, a, d), op.path)
              case Success((after, _, status)) => At(Step(s, op).0, a, d) == after && Step(s, op).1 == Success(status)
              case Failure(e) => At(Step(s, op).0, a, d) == At(s, a, d) && Step(s, op).1 == Failure(e)
    ensures (a, d) == KeyOf(op) && a in s.table && op.Drop? && At(s, a, d) != [] ==>
              match ListDrop(s.multi, d, At(s, a, d), op.id)
              case Success((after, status)) => At(Step(s, op).0, a, d) == after && Step(s, op).1 == Success(status)
              case Failure(e) => At(Step(s, op).0, a, d) == At(s, a, d) && Step(s, op).1 == Failure(e)
    ensures (a, d) == KeyOf(op) && a in s.table && op.Drop? && At(s, a, d) == [] ==>
              At(Step(s, op).0, a, d) == [] && Step(s, op).1 == Failure(PathNotFound)
    ensures op.afi !in s.table ==> Step(s, op).1 == Failure(InvalidAddressFamily)
  {
    hide ListInsert, ListDrop;
  }

  // ---------------------------------------------------------------- the invariant of each mode

  /** One list in its mode: paths of its own prefix and of one age, with the best paths where they belong. */
  predicate ListOk(multi: bool, d: IpNet, paths: seq<Path>) {
    && Keyed(d, paths)
    && SameTime(paths)
    && if multi then BestPrefix(paths) && Agree(paths) else SingleBest(paths)
  }

  /** What a caller has to see to: a path arrives unmarked, and in multi-path mode equal cost implies the same origination. */
  predicate OpOk(s: State, op: Op) {
    op.Insert? ==> !op.path.best && (s.multi ==> Joins(At(s, op.afi, op.path.Prefix()), op.path))
  }

  predicate OpsOk(s: State, ops: seq<Op>)
    decreases |ops|
  {
    ops == [] || (OpOk(s, ops[0]) && OpsOk(Step(s, ops[0]).0, ops[1..]))
  }

  ghost predicate Inv(s: State) {
    forall a, d :: ListOk(s.multi, d, At(s, a, d))
  }

  lemma InsertOk(multi: bool, d: IpNet, paths: seq<Path>, x: Path)
    requires ListOk(multi, d, paths) && x.Prefix() == d && !x.best && (multi ==> Joins(paths, x))
    ensures ListInsert(multi, paths, x).Success? && ListOk(multi, d, ListInsert(multi, paths, x).value.0)
  {
    hide Scan, Criteria;
    if paths != [] {
      if multi {
        AgreementPlacesFirst(d, paths, x);
        MultiInsertIff(d, paths, x);
        AgreeInsert(d, paths, x);
      } else {
        SingleInsert(d, paths, x);
      }
    }
    InsertKeyed(multi, d, paths, x);
  }

  lemma DropOk(multi: bool, d: IpNet, paths: seq<Path>, id: u64)
    requires ListOk(multi, d, paths) && ListDrop(multi, d, paths, id).Success?
    ensures ListOk(multi, d, ListDrop(multi, d, paths, id).value.0)
  {
    hide ListDrop, PositionOf, RemoveAt;
    DropShape(multi, d, paths, id);
    var left, after := RemoveAt(paths, PositionOf(paths, id).value), ListDrop(multi, d, paths, id).value.0;
    LeftOver(d, paths, PositionOf(paths, id).value);
    assert forall i :: 0 <= i < |after| ==> after[i].Prefix() == left[i].Prefix();
    assert Keyed(d, after);
    if multi {
      MultiDrop(d, paths, id);
      AgreeDrop(d, paths, id);
    } else {
      SingleDrop(d, paths, id);
    }
  }

  lemma LeftOver(d: IpNet, paths: seq<Path>, k: nat)
    requires k < |paths| && Keyed(d, paths) && SameTime(paths)
    ensures Keyed(d, RemoveAt(paths, k)) && SameTime(RemoveAt(paths, k))
  {
    var left := RemoveAt(paths, k);
    assert forall i :: 0 <= i < |left| ==> left[i] == paths[if i < k then i else i + 1];
  }

  lemma StepInv(s: State, op: Op)
    requires Inv(s) && OpOk(s, op)
    ensures Inv(Step(s, op).0)
    ensures op.Insert? && op.afi in s.table ==> Step(s, op).1.Success?
  {
    hide ListOk, ListInsert, ListDrop, Joins, Step;
    var s' := Step(s, op).0;
    var (a0, d0) := KeyOf(op);
    var paths := At(s, a0, d0);
    StepAt(s, op, a0, d0);
    if a0 in s.table {
      match op
      case Insert(_, x) => InsertOk(s.multi, d0, paths, x);
      case Drop(_, _, id) =>
        if ListDrop(s.multi, d0, paths, id).Success? {
          DropOk(s.multi, d0, paths, id);
        }
    }
    forall a, d
      ensures ListOk(s'.multi, d, At(s', a, d))
    {
      StepAt(s, op, a, d);
    }
  }

  lemma FreshInv(s: State)
    requires Fresh(s)
    ensures Inv(s)
  {
  }

  lemma {:induction false} RunInv(s: State, ops: seq<Op>)
    requires Inv(s) && OpsOk(s, ops)
    ensures Inv(Run(s, ops)) && Run(s, ops).multi == s.multi
    decreases |ops|
  {
    hide Inv, OpOk, Step;
    if ops != [] {
      StepInv(s, ops[0]);
      StepAt(s, ops[0], IPv4, Net4([0, 0, 0, 0], 0));
      RunInv(Step(s, ops[0]).0, ops[1..]);
    }
  }

  /**
   Over every run from an empty table: in single-path mode a list has exactly one best path, at its head; in multi-path
   mode its best paths are a non-empty prefix of pairwise equal cost.  An insertion always finds a best path, and one
   that makes the new path the only best path puts it at the head.
   */
  lemma BestPathsComeFirst(s: State, ops: seq<Op>, op: Op)
    requires Fresh(s) && OpsOk(s, ops) && OpOk(Run(s, ops), op) && op.Insert? && op.afi in Run(s, ops).table
    ensures var s', paths := Run(s, ops), At(Run(s, ops), op.afi, op.path.Prefix());
            && (if s.multi then BestPrefix(paths) else SingleBest(paths))
            && Step(s', op).1.Success?
            && (s.multi && paths != [] ==>
                  && LastBest(paths).Some?
                  && (Place(true, paths, op.path) <= LastBest(paths).value ==> Place(true, paths, op.path) == 0))
  {
    hide Inv, OpsOk, Step, Place, LastBest, Run, Fresh;
    FreshInv(s);
    RunInv(s, ops);
    var s' := Run(s, ops);
    StepInv(s', op);
    var d := op.path.Prefix();
    var paths := At(s', op.afi, d);
    assert ListOk(s'.multi, d, paths) by { InvAt(s', op.afi, d); }
    if s.multi && paths != [] {
      AgreementPlacesFirst(d, paths, op.path);
    }
  }

  lemma InvAt(s: State, a: Afi, d: IpNet)
    requires Inv(s)
    ensures ListOk(s.multi, d, At(s, a, d))
  {
  }

  // ---------------------------------------------------------------- single-path mode: the reports mirror the table

  type Belief = map<(Afi, IpNet), u64>

  /** A listener's idea of the best path of each prefix, after one more report. */
  function Listen(b: Belief, op: Op, r: Result<Status, RibError>): Belief {
    match r
    case Success(BestPathChanged(_, id)) => b[KeyOf(op) := id]
    case Success(Withdrawn(_, _)) => b - {KeyOf(op)}
    case _ => b
  }

  function RunListening(s: State, b: Belief, ops: seq<Op>): (State, Belief)
    decreases |ops|
  {
    if ops == [] then (s, b)
    else
      var (s', r) := Step(s, ops[0]);
      RunListening(s', Listen(b, ops[0], r), ops[1..])
  }

  /** The belief holds the identifier of the head of every non-empty list, and nothing else. */
  ghost predicate Mirrors(b: Belief, s: State) {
    forall a, d :: MirrorsAt(b, a, d, At(s, a, d))
  }

  predicate MirrorsAt(b: Belief, a: Afi, d: IpNet, paths: seq<Path>) {
    if paths == [] then (a, d) !in b else (a, d) in b && b[(a, d)] == paths[0].id
  }

  lemma StepMirrors(s: State, b: Belief, op: Op)
    requires Inv(s) && !s.multi && OpOk(s, op) && Mirrors(b, s)
    ensures Mirrors(Listen(b, op, Step(s, op).1), Step(s, op).0)
  {
    hide ListInsert, ListDrop, Step, SingleBest, SameTime, Inv, PositionOf, Keyed;
    var (s', r) := Step(s, op);
    var (a0, d0) := KeyOf(op);
    var paths := At(s, a0, d0);
    assert MirrorsAt(b, a0, d0, paths);
    StepAt(s, op, a0, d0);
    InvAt(s, a0, d0);
    if a0 in s.table {
      match op
      case Insert(_, x) => SingleInsert(d0, paths, x);
      case Drop(_, _, id) =>
        if ListDrop(false, d0, paths, id).Success? {
          SingleDrop(d0, paths, id);
        }
    }
    forall a, d
      ensures MirrorsAt(Listen(b, op, r), a, d, At(s', a, d))
    {
      StepAt(s, op, a, d);
      assert MirrorsAt(b, a, d, At(s, a, d));
    }
  }

  lemma {:induction false} RunMirrors(s: State, b: Belief, ops: seq<Op>)
    requires Inv(s) && !s.multi && OpsOk(s, ops) && Mirrors(b, s)
    ensures Mirrors(RunListening(s, b, ops).1, RunListening(s, b, ops).0)
    ensures RunListening(s, b, ops).0 == Run(s, ops)
    decreases |ops|
  {
    hide Inv, OpOk, Mirrors, Step, Listen;
    if ops != [] {
      StepMirrors(s, b, ops[0]);
      StepInv(s, ops[0]);
      StepAt(s, ops[0], IPv4, Net4([0, 0, 0, 0], 0));
      RunMirrors(Step(s, ops[0]).0, Listen(b, ops[0], Step(s, ops[0]).1), ops[1..]);
    }
  }

  /** Over every single-path run from an empty table, replaying the reports gives the heads that `get_all_best` returns. */
  lemma SinglePathMirror(s: State, ops: seq<Op>, afi: Afi, order: seq<IpNet>, heads: seq<Path>)
    requires Fresh(s) && !s.multi && OpsOk(s, ops) && HeadsInOrder(Run(s, ops), afi, order, heads)
    ensures var b := RunListening(s, map[], ops).1;
            && (forall d :: d in order <==> (afi, d) in b)
            && forall i :: 0 <= i < |order| ==> (afi, order[i]) in b && b[(afi, order[i])] == heads[i].id && heads[i].best
  {
    hide OpsOk, Run, RunListening;
    FreshInv(s);
    RunMirrors(s, map[], ops);
    RunInv(s, ops);
    var (s', b) := RunListening(s, map[], ops);
    forall d
      ensures d in order <==> (afi, d) in b
    {
      assert MirrorsAt(b, afi, d, At(s', afi, d));
    }
    forall i | 0 <= i < |order|
      ensures (afi, order[i]) in b && b[(afi, order[i])] == heads[i].id && heads[i].best
    {
      assert MirrorsAt(b, afi, order[i], At(s', afi, order[i]));
      assert ListOk(false, order[i], At(s', afi, order[i]));
    }
  }

  // ---------------------------------------------------------------- the order of the criteria

  ghost predicate AllSorted(s: State) {
    forall a, d :: Sorted(Criteria(s.multi), At(s, a, d))
  }

  /** Every list holds paths of its own prefix; marks and ages are not looked at. */
  ghost predicate AllKeyed(s: State) {
    forall a, d :: Keyed(d, At(s, a, d))
  }

  lemma KeyedAt(s: State, a: Afi, d: IpNet)
    requires AllKeyed(s)
    ensures Keyed(d, At(s, a, d))
  {
  }

  lemma DropKeyed(multi: bool, d: IpNet, paths: seq<Path>, id: u64)
    requires Keyed(d, paths) && ListDrop(multi, d, paths, id).Success?
    ensures Keyed(d, ListDrop(multi, d, paths, id).value.0)
  {
    hide ListDrop, PositionOf, RemoveAt;
    DropShape(multi, d, paths, id);
    var k := PositionOf(paths, id).value;
    var left, after := RemoveAt(paths, k), ListDrop(multi, d, paths, id).value.0;
    assert forall i :: 0 <= i < |left| ==> left[i] == paths[if i < k then i else i + 1];
    assert forall i :: 0 <= i < |after| ==> after[i].Prefix() == left[i].Prefix();
  }

  lemma StepKeyed(s: State, op: Op)
    requires AllKeyed(s)
    ensures AllKeyed(Step(s, op).0) && Step(s, op).0.multi == s.multi
  {
    hide Keyed, ListInsert, ListDrop, Step;
    var s' := Step(s, op).0;
    var (a0, d0) := KeyOf(op);
    var paths := At(s, a0, d0);
    StepAt(s, op, a0, d0);
    if op.Insert? && ListInsert(s.multi, paths, op.path).Success? {
      InsertKeyed(s.multi, d0, paths, op.path);
    } else if op.Drop? && ListDrop(s.multi, d0, paths, op.id).Success? {
      DropKeyed(s.multi, d0, paths, op.id);
    }
    forall a, d
      ensures Keyed(d, At(s', a, d))
    {
      StepAt(s, op, a, d);
    }
  }

  lemma FreshKeyed(s: State)
    requires Fresh(s)
    ensures AllKeyed(s)
  {
  }

  lemma {:induction false} RunKeepsMode(s: State, ops: seq<Op>)
    ensures Run(s, ops).multi == s.multi
    decreases |ops|
  {
    hide Step;
    if ops != [] {
      StepAt(s, ops[0], IPv4, Net4([0, 0, 0, 0], 0));
      RunKeepsMode(Step(s, ops[0]).0, ops[1..]);
    }
  }

  /** The scan of an insertion, if there is one to be stored by, stops where it should. */
  predicate OpStopsRight(s: State, op: Op) {
    op.Insert? && op.afi in s.table && LastBest(At(s, op.afi, op.path.Prefix())).Some? ==>
      StopsRight(s.multi, At(s, op.afi, op.path.Prefix()), op.path)
  }

  ghost predicate AlwaysSorted(s: State, ops: seq<Op>)
    decreases |ops|
  {
    AllSorted(s) && (ops == [] || AlwaysSorted(Step(s, ops[0]).0, ops[1..]))
  }

  predicate AlwaysStopsRight(s: State, ops: seq<Op>)
    decreases |ops|
  {
    ops == [] || (OpStopsRight(s, ops[0]) && AlwaysStopsRight(Step(s, ops[0]).0, ops[1..]))
  }

  lemma StepSortedIff(s: State, op: Op)
    requires AllKeyed(s) && AllSorted(s)
    ensures AllSorted(Step(s, op).0) <==> OpStopsRight(s, op)
  {
    hide ListInsert, ListDrop, Step, Criteria, PositionOf, StopsRight, Sorted, LastBest, Keyed, AllKeyed;
    var s' := Step(s, op).0;
    var (a0, d0) := KeyOf(op);
    var paths := At(s, a0, d0);
    StepAt(s, op, a0, d0);
    KeyedAt(s, a0, d0);
    assert Sorted(Criteria(s.multi), paths);
    if a0 in s.table {
      match op
      case Insert(_, x) =>
        StoredIff(s.multi, paths, x);
        if paths == [] {
          OnePathSorted(s.multi, x);
        } else if LastBest(paths).Some? {
          SortedInsertIff(s.multi, d0, paths, x);
        }
      case Drop(_, _, id) =>
        if ListDrop(s.multi, d0, paths, id).Success? {
          SortedDrop(s.multi, d0, paths, id);
        }
    }
    if Sorted(Criteria(s.multi), At(s', a0, d0)) {
      forall a, d
        ensures Sorted(Criteria(s'.multi), At(s', a, d))
      {
        StepAt(s, op, a, d);
        assert Sorted(Criteria(s.multi), At(s, a, d));
      }
    }
  }

  /** A path is stored unless there are others and none of them is best. */
  lemma StoredIff(multi: bool, paths: seq<Path>, x: Path)
    ensures ListInsert(multi, paths, x).Success? <==> paths == [] || LastBest(paths).Some?
    ensures LastBest([]).None?
  {
    hide Scan, Criteria;
  }

  lemma SomeBest(multi: bool, paths: seq<Path>)
    requires paths != [] && if multi then BestPrefix(paths) else SingleBest(paths)
    ensures LastBest(paths).Some?
  {
    assert paths[0].best;
  }

  lemma OnePathSorted(multi: bool, x: Path)
    ensures ListInsert(multi, [], x).Success? && |ListInsert(multi, [], x).value.0| == 1
    ensures Sorted(Criteria(multi), ListInsert(multi, [], x).value.0)
  {
  }

  /**
   Over a whole run, in either mode and whatever the marks of the arriving paths: every list stays in the order of the
   criteria, if and only if no scan stops at a path that comes first.
   */
  lemma {:induction false} RunSortedIff(s: State, ops: seq<Op>)
    requires AllKeyed(s) && AllSorted(s)
    ensures AlwaysSorted(s, ops) <==> AlwaysStopsRight(s, ops)
    decreases |ops|
  {
    hide AllKeyed, AllSorted, OpStopsRight, Step;
    if ops != [] {
      StepSortedIff(s, ops[0]);
      StepKeyed(s, ops[0]);
      if OpStopsRight(s, ops[0]) {
        RunSortedIff(Step(s, ops[0]).0, ops[1..]);
      }
    }
  }

  /** No criterion contradicts another about a path that arrives and the stored paths of its prefix. */
  ghost predicate NeverConflicts(s: State, ops: seq<Op>)
    decreases |ops|
  {
    ops == [] ||
    ((ops[0].Insert? ==> NoConflicts(s.multi, At(s, ops[0].afi, ops[0].path.Prefix()), ops[0].path))
     && NeverConflicts(Step(s, ops[0]).0, ops[1..]))
  }

  lemma {:induction false} NoConflictsStopRight(s: State, ops: seq<Op>)
    requires AllKeyed(s) && NeverConflicts(s, ops)
    ensures AlwaysStopsRight(s, ops)
    decreases |ops|
  {
    hide Step, StopsRight, NoConflicts, AllKeyed, Keyed;
    if ops != [] {
      StepKeyed(s, ops[0]);
      NoConflictsStopRight(Step(s, ops[0]).0, ops[1..]);
      if ops[0].Insert? {
        var x := ops[0].path;
        KeyedAt(s, ops[0].afi, x.Prefix());
        NoConflictStopsRight(s.multi, x.Prefix(), At(s, ops[0].afi, x.Prefix()), x);
      }
    }
  }

  lemma {:induction false} SortedAtEnd(s: State, ops: seq<Op>)
    requires AlwaysSorted(s, ops)
    ensures AllSorted(Run(s, ops))
    decreases |ops|
  {
    hide Step, AllSorted;
    if ops != [] {
      SortedAtEnd(Step(s, ops[0]).0, ops[1..]);
    }
  }

  /**
   Without contradicting criteria, in either mode, the head of every list is the path that the decision process selects;
   it is marked best when the callers keep to the rules of the mode.
   */
  lemma HeadIsWinner(s: State, ops: seq<Op>, a: Afi, d: IpNet)
    requires Fresh(s) && NeverConflicts(s, ops)
    ensures var paths := At(Run(s, ops), a, d);
            && Run(s, ops).multi == s.multi
            && Sorted(Criteria(s.multi), paths)
            && (forall i :: 0 <= i < |paths| ==> NotAfter(Criteria(s.multi), paths[0], paths[i]))
            && (OpsOk(s, ops) && paths != [] ==> paths[0].best)
  {
    hide OpsOk, Run, NeverConflicts, Criteria, Lex, AlwaysSorted, AlwaysStopsRight, AllKeyed;
    FreshKeyed(s);
    FreshSorted(s);
    RunKeepsMode(s, ops);
    RunSortedIff(s, ops);
    NoConflictsStopRight(s, ops);
    SortedAtEnd(s, ops);
    var paths := At(Run(s, ops), a, d);
    assert Sorted(Criteria(s.multi), paths);
    if OpsOk(s, ops) {
      FreshInv(s);
      RunInv(s, ops);
      assert ListOk(s.multi, d, paths);
    }
    if paths != [] {
      LexEqual(Criteria(s.multi), paths[0].what, paths[0].what);
    }
  }

  lemma FreshSorted(s: State)
    requires Fresh(s)
    ensures AllSorted(s)
  {
  }

  // ---------------------------------------------------------------- multi-path mode: exactly the paths of equal cost are best

  ghost predicate AllSettled(s: State) {
    forall a, d :: Settled(At(s, a, d))
  }

  predicate ReasonsPlain(ops: seq<Op>) {
    forall i :: 0 <= i < |ops| && ops[i].Insert? ==> ops[i].path.reason == NotBest
  }

  lemma StepSettled(s: State, op: Op)
    requires Inv(s) && s.multi && OpOk(s, op) && AllSettled(s) && OpStopsRight(s, op)
    requires op.Insert? ==> op.path.reason == NotBest
    ensures AllSettled(Step(s, op).0)
  {
    hide ListInsert, ListDrop, Step, SingleBest, PositionOf, StopsRight, Settled, LastBest, Joins, Inv, Keyed, BestPrefix, Agree, SameTime;
    var s' := Step(s, op).0;
    var (a0, d0) := KeyOf(op);
    var paths := At(s, a0, d0);
    StepAt(s, op, a0, d0);
    InvAt(s, a0, d0);
    assert Settled(paths);
    if a0 in s.table {
      match op
      case Insert(_, x) =>
        if paths != [] {
          SomeBest(true, paths);
          SettledInsert(d0, paths, x);
        } else {
          OnePathSettled(x);
        }
      case Drop(_, _, id) =>
        if ListDrop(true, d0, paths, id).Success? {
          SettledDrop(d0, paths, id);
        }
    }
    forall a, d
      ensures Settled(At(s', a, d))
    {
      StepAt(s, op, a, d);
      assert Settled(At(s, a, d));
    }
  }

  lemma OnePathSettled(x: Path)
    ensures ListInsert(true, [], x).Success? && Settled(ListInsert(true, [], x).value.0)
  {
  }

  lemma {:induction false} RunSettled(s: State, ops: seq<Op>)
    requires Inv(s) && s.multi && OpsOk(s, ops) && AllSettled(s) && AlwaysStopsRight(s, ops) && ReasonsPlain(ops)
    ensures AllSettled(Run(s, ops))
    decreases |ops|
  {
    hide Inv, OpOk, AllSettled, OpStopsRight, Step;
    if ops != [] {
      StepSettled(s, ops[0]);
      StepInv(s, ops[0]);
      StepAt(s, ops[0], IPv4, Net4([0, 0, 0, 0], 0));
      RunSettled(Step(s, ops[0]).0, ops[1..]);
    }
  }

  /** Over every multi-path run without contradicting criteria, the best paths are exactly those of equal cost to the head. */
  lemma BestAreEqualCost(s: State, ops: seq<Op>, a: Afi, d: IpNet)
    requires Fresh(s) && s.multi && OpsOk(s, ops) && NeverConflicts(s, ops) && ReasonsPlain(ops)
    ensures var paths := At(Run(s, ops), a, d);
            forall i :: 0 <= i < |paths| ==> (paths[i].best <==> paths[0].EqualCost(paths[i]))
  {
    hide OpsOk, Run, NeverConflicts, AlwaysStopsRight, ReasonsPlain;
    FreshInv(s);
    FreshKeyed(s);
    NoConflictsStopRight(s, ops);
    FreshSettled(s);
    RunSettled(s, ops);
    assert Settled(At(Run(s, ops), a, d));
  }

  lemma FreshSettled(s: State)
    requires Fresh(s)
    ensures AllSettled(s)
  {
  }
}
