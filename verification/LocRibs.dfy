/**
 The Loc-RIB (`LocRib` in `sartd/src/bgp/src/rib.rs`): per prefix an ordered list of paths with `best` flags, and the
 status that each change reports.  What a change does is given as functions on lists and tables; the class runs it.
 */
module LocRibs {
  import opened Base
  import opened Net
  import opened Family
  import opened Paths
  import opened Decision

  datatype Status =
    | NotChanged
    | Withdrawn(prefix: IpNet, kind: PathKind)
    | BestPathChanged(prefix: IpNet, id: u64)
    | MultiPathAdded
    | MultiPathWithdrawn(prefix: IpNet, id: u64, nextHop: Option<IpAddr>)

  datatype RibError = InvalidAddressFamily | PathNotFound | NextHopMustBeSet | EndpointFailed | ChannelClosed

  // ---------------------------------------------------------------- insertion into one list

  /** The last best path. */
  function LastBest(paths: seq<Path>): (r: Option<nat>)
    ensures r.Some? ==> r.value < |paths| && paths[r.value].best && forall j :: r.value < j < |paths| ==> !paths[j].best
    ensures r.None? ==> forall j :: 0 <= j < |paths| ==> !paths[j].best
  {
    if paths == [] then None
    else if paths[|paths| - 1].best then Some(|paths| - 1)
    else LastBest(paths[..|paths| - 1])
  }

  /** Every stored path that shares a field with `x` takes on its time. */
  function Retimed(paths: seq<Path>, x: Path): (r: seq<Path>)
    ensures |r| == |paths|
    ensures forall i :: 0 <= i < |paths| ==>
              r[i] == if paths[i].SameAs(x) then paths[i].(timestamp := x.timestamp) else paths[i]
  {
    seq(|paths|, i requires 0 <= i < |paths| =>
      if paths[i].SameAs(x) then paths[i].(timestamp := x.timestamp) else paths[i])
  }

  function Unmark(p: Path): Path {
    if p.best then p.(best := false, reason := NotBest) else p
  }

  function Unmarked(paths: seq<Path>): (r: seq<Path>)
    ensures |r| == |paths| && forall i :: 0 <= i < |paths| ==> r[i] == Unmark(paths[i])
  {
    seq(|paths|, i requires 0 <= i < |paths| => Unmark(paths[i]))
  }

  function InsertAt(paths: seq<Path>, i: nat, x: Path): (r: seq<Path>)
    requires i <= |paths|
    ensures |r| == |paths| + 1 && r[i] == x
    ensures forall j :: 0 <= j < i ==> r[j] == paths[j]
    ensures forall j :: i < j < |r| ==> r[j] == paths[j - 1]
  {
    paths[..i] + [x] + paths[i..]
  }

  /** The new path takes the best place, shares it, or waits behind. */
  datatype Outcome = Takes | Shares | Waits

  function OutcomeOf(multi: bool, paths: seq<Path>, x: Path, bestIdx: nat, idx: nat): Outcome
    requires bestIdx < |paths| && idx <= |paths|
  {
    if multi then
      if bestIdx >= idx then Takes
      else if bestIdx + 1 == idx && x.EqualCost(paths[bestIdx]) then Shares
      else Waits
    else if idx == 0 then Takes
    else Waits
  }

  /** The stored paths with their new marks. */
  function Remarked(multi: bool, paths: seq<Path>, bestIdx: nat, outcome: Outcome): (r: seq<Path>)
    requires bestIdx < |paths|
    ensures |r| == |paths| && forall i :: 0 <= i < |paths| ==> r[i] == paths[i].(best := r[i].best, reason := r[i].reason)
  {
    match outcome
    case Takes => if multi then Unmarked(paths) else paths[0 := paths[0].(best := false, reason := NotBest)]
    case Shares => paths[bestIdx := paths[bestIdx].(reason := EqualCostMultiPath)]
    case Waits => paths
  }

  /** The new path with its mark. */
  function Marked(x: Path, outcome: Outcome, reason: Reason): Path {
    match outcome
    case Takes => x.(best := true, reason := reason)
    case Shares => x.(best := true, reason := EqualCostMultiPath)
    case Waits => x
  }

  function InsertStatus(x: Path, outcome: Outcome): Status {
    match outcome
    case Takes => BestPathChanged(x.Prefix(), x.id)
    case Shares => MultiPathAdded
    case Waits => NotChanged
  }

  type Inserted = (seq<Path>, Path, Status)

  /** The new list, the path as it was stored, and the status, once the position `idx` and the last best `bestIdx` are known. */
  function Placed(multi: bool, paths: seq<Path>, x: Path, bestIdx: nat, idx: nat, reason: Reason): Inserted
    requires bestIdx < |paths| && idx <= |paths|
  {
    var outcome := OutcomeOf(multi, paths, x, bestIdx, idx);
    var x' := Marked(x, outcome, reason);
    (InsertAt(Remarked(multi, paths, bestIdx, outcome), idx, x'), x', InsertStatus(x, outcome))
  }

  function ListInsert(multi: bool, paths: seq<Path>, x: Path): Result<Inserted, RibError> {
    if paths == [] then
      var x' := x.(best := true, reason := OnlyPath);
      Success(([x'], x', BestPathChanged(x.Prefix(), x.id)))
    else match LastBest(paths)
      case None => Failure(PathNotFound)
      case Some(bestIdx) =>
        var timed := Retimed(paths, x);
        var (idx, reason) := Scan(Criteria(multi), x, timed);
        Success(Placed(multi, timed, x, bestIdx, idx, reason))
  }

  // ---------------------------------------------------------------- removal from one list

  function PositionOf(paths: seq<Path>, id: u64): (r: Option<nat>)
    ensures r.Some? ==> r.value < |paths| && paths[r.value].id == id && forall j :: 0 <= j < r.value ==> paths[j].id != id
    ensures r.None? ==> forall j :: 0 <= j < |paths| ==> paths[j].id != id
  {
    if paths == [] then None
    else if paths[0].id == id then Some(0)
    else match PositionOf(paths[1..], id)
      case None => None
      case Some(k) => Some(k + 1)
  }

  function RemoveAt(paths: seq<Path>, k: nat): (r: seq<Path>)
    requires k < |paths|
    ensures |r| == |paths| - 1
    ensures forall j :: 0 <= j < k ==> r[j] == paths[j]
    ensures forall j :: k <= j < |r| ==> r[j] == paths[j + 1]
  {
    paths[..k] + paths[k + 1..]
  }

  /** The head made best, with the reason it beats the next path, if there is one. */
  function Crowned(multi: bool, paths: seq<Path>): Path
    requires |paths| >= 2
  {
    var p := paths[0].(best := true);
    match FirstBetter(Criteria(multi), paths[0], paths[1])
    case Some(reason) => p.(reason := reason)
    case None => p
  }

  /** From index `i` on, neighbours of equal cost are marked together. */
  function MarkEqual(paths: seq<Path>, i: nat): (r: seq<Path>)
    requires i < |paths|
    ensures |r| == |paths|
    decreases |paths| - i
  {
    if i + 1 == |paths| || !paths[i].EqualCost(paths[i + 1]) then paths
    else
      MarkEqual(paths[i := paths[i].(reason := EqualCostMultiPath)]
                [i + 1 := paths[i + 1].(best := true, reason := EqualCostMultiPath)], i + 1)
  }

  /** The best paths worked out again after the only best path has gone. */
  function Recomputed(paths: seq<Path>): seq<Path>
    requires |paths| >= 2
  {
    var p := Crowned(true, paths);
    var paths := paths[0 := p];
    if p.reason == NotBest || p.reason == EqualCostMultiPath then MarkEqual(paths, 0) else paths
  }

  function FirstHop(p: Path): Option<IpAddr> {
    if p.what.nextHops == [] then None else Some(p.what.nextHops[0])
  }

  /** What is left, and the status, after the best path at `k` has been taken out. */
  function AfterBest(multi: bool, prefix: IpNet, removed: Path, left: seq<Path>, k: nat): (seq<Path>, Status) {
    if left == [] then (left, Withdrawn(prefix, removed.Kind()))
    else if |left| == 1 then ([left[0].(best := true, reason := OnlyPath)], BestPathChanged(prefix, left[0].id))
    else if !multi then (left[0 := Crowned(false, left)], BestPathChanged(prefix, left[0].id))
    else if k == 0 && !left[0].best then (Recomputed(left), BestPathChanged(prefix, left[0].id))
    else (left, MultiPathWithdrawn(prefix, left[0].id, FirstHop(removed)))
  }

  function ListDrop(multi: bool, prefix: IpNet, paths: seq<Path>, id: u64): Result<(seq<Path>, Status), RibError> {
    match PositionOf(paths, id)
    case None => Failure(PathNotFound)
    case Some(k) =>
      if paths[k].best then Success(AfterBest(multi, prefix, paths[k], RemoveAt(paths, k), k))
      else Success((RemoveAt(paths, k), NotChanged))
  }

  lemma CriteriaDecide(multi: bool)
    ensures NotBest !in Criteria(multi) && EqualCostMultiPath !in Criteria(multi)
  {
  }

  /** The scan stops at the first path that the new one is better than on some criterion. */
  lemma ScanIs(criteria: seq<Reason>, x: Path, paths: seq<Path>, idx: nat, reason: Reason)
    requires idx <= |paths| && forall i :: 0 <= i < idx ==> FirstBetter(criteria, x, paths[i]).None?
    requires if idx < |paths| then FirstBetter(criteria, x, paths[idx]) == Some(reason) else reason == NotBest
    ensures (idx, reason) == Scan(criteria, x, paths)
  {
    hide FirstBetter, Scan;
    var k := Scan(criteria, x, paths).0;
    assert !(k < idx) && !(idx < k);
  }

  // ---------------------------------------------------------------- the table

  type Table = map<Afi, map<IpNet, seq<Path>>>

  datatype State = State(table: Table, multi: bool, received: nat, dropped: nat)

  datatype Op = Insert(afi: Afi, path: Path) | Drop(afi: Afi, prefix: IpNet, id: u64)

  function At(s: State, afi: Afi, d: IpNet): seq<Path> {
    if afi in s.table && d in s.table[afi] then s.table[afi][d] else []
  }

  function Put(s: State, afi: Afi, d: IpNet, paths: seq<Path>): State
    requires afi in s.table
  {
    s.(table := s.table[afi := s.table[afi][d := paths]])
  }

  function InsertStep(s: State, afi: Afi, x: Path): (State, Result<(Path, Status), RibError>) {
    if afi !in s.table then (s, Failure(InvalidAddressFamily))
    else
      var counted := s.(received := s.received + 1);
      match ListInsert(s.multi, At(s, afi, x.Prefix()), x)
      case Failure(e) => (counted, Failure(e))
      case Success((paths, x', status)) => (Put(counted, afi, x.Prefix(), paths), Success((x', status)))
  }

  function DropStep(s: State, afi: Afi, d: IpNet, id: u64): (State, Result<Status, RibError>) {
    if afi !in s.table then (s, Failure(InvalidAddressFamily))
    else if At(s, afi, d) == [] then (s, Failure(PathNotFound))
    else
      var counted := s.(dropped := s.dropped + 1);
      match ListDrop(s.multi, d, At(s, afi, d), id)
      case Failure(e) => (counted, Failure(e))
      case Success((paths, status)) => (Put(counted, afi, d, paths), Success(status))
  }

  function Step(s: State, op: Op): (State, Result<Status, RibError>) {
    match op
    case Insert(afi, x) => (
      match InsertStep(s, afi, x)
      case (s', Failure(e)) => (s', Failure(e))
      case (s', Success((_, status))) => (s', Success(status)))
    case Drop(afi, d, id) => DropStep(s, afi, d, id)
  }

  // ---------------------------------------------------------------- in place

  class LocRib {
    var table: Table
    var multi: bool
    var received: nat
    var dropped: nat

    ghost function View(): State
      reads this
    {
      State(table, multi, received, dropped)
    }

    constructor (protocols: seq<Afi>, multi: bool)
      ensures this.multi == multi && received == dropped == 0
      ensures table.Keys == (set a <- protocols) && forall a :: a in table ==> table[a] == map[]
    {
      this.multi := multi;
      received, dropped := 0, 0;
      table := map a | a in protocols :: map[];
    }

    static method FindLastBest(paths: seq<Path>) returns (r: Option<nat>)
      ensures r == LastBest(paths)
    {
      var i := |paths|;
      while i > 0
        invariant 0 <= i <= |paths|
        invariant LastBest(paths[..i]) == LastBest(paths)
      {
        assert paths[..i][..i - 1] == paths[..i - 1];
        if paths[i - 1].best {
          return Some(i - 1);
        }
        i := i - 1;
      }
      r := None;
    }

    /** The loop that passes the new path's time on. */
    static method Retime(paths: seq<Path>, x: Path) returns (r: seq<Path>)
      ensures r == Retimed(paths, x)
    {
      r := paths;
      for i := 0 to |paths|
        invariant |r| == |paths|
        invariant forall j :: 0 <= j < i ==> r[j] == Retimed(paths, x)[j]
        invariant forall j :: i <= j < |paths| ==> r[j] == paths[j]
      {
        if r[i].SameAs(x) {
          r := r[i := r[i].(timestamp := x.timestamp)];
        }
      }
    }

    /** The inner loop of best path selection: the first criterion that prefers the new path, or that it is not best. */
    static method ReasonFor(criteria: seq<Reason>, x: Path, p: Path) returns (reason: Reason)
      requires NotBest !in criteria
      ensures FirstBetter(criteria, x, p) == if reason == NotBest then None else Some(reason)
    {
      hide Compare;
      reason := NotBest;
      assert criteria[0..] == criteria;
      for k := 0 to |criteria|
        invariant FirstBetter(criteria[k..], x, p) == FirstBetter(criteria, x, p)
        invariant reason == NotBest
      {
        assert criteria[k..][0] == criteria[k] && criteria[k..][1..] == criteria[k + 1..];
        if Compare(criteria[k], x, p) == Less {
          reason := criteria[k];
          return;
        }
      }
    }

    /** The nested loops of best path selection. */
    static method FindPlace(criteria: seq<Reason>, x: Path, paths: seq<Path>) returns (idx: nat, reason: Reason)
      requires NotBest !in criteria
      ensures (idx, reason) == Scan(criteria, x, paths)
    {
      hide FirstBetter, Scan;
      idx, reason := 0, NotBest;
      while idx < |paths|
        invariant idx <= |paths| && reason == NotBest
        invariant forall i :: 0 <= i < idx ==> FirstBetter(criteria, x, paths[i]).None?
      {
        reason := ReasonFor(criteria, x, paths[idx]);
        if reason != NotBest {
          break;
        }
        idx := idx + 1;
      }
      ScanIs(criteria, x, paths, idx, reason);
    }

    /** Existing best paths lose their mark. */
    static method UnmarkAll(paths: seq<Path>) returns (r: seq<Path>)
      ensures r == Unmarked(paths)
    {
      r := paths;
      for i := 0 to |paths|
        invariant |r| == |paths|
        invariant forall j :: 0 <= j < i ==> r[j] == Unmark(paths[j])
        invariant forall j :: i <= j < |paths| ==> r[j] == paths[j]
      {
        if r[i].best {
          r := r[i := r[i].(best := false, reason := NotBest)];
        }
      }
    }

    method InsertPath(afi: Afi, path: Path) returns (r: Result<(Path, Status), RibError>)
      modifies this
      ensures (View(), r) == InsertStep(old(View()), afi, path)
    {
      hide Scan, LastBest, Placed, Retimed, Criteria;
      if afi !in table {
        return Failure(InvalidAddressFamily);
      }
      received := received + 1;
      if path.Prefix() !in table[afi] || table[afi][path.Prefix()] == [] {
        var only := path.(best := true, reason := OnlyPath);
        table := table[afi := table[afi][path.Prefix() := [only]]];
        return Success((only, BestPathChanged(path.Prefix(), path.id)));
      }
      var paths := table[afi][path.Prefix()];
      var last := FindLastBest(paths);
      if last.None? {
        return Failure(PathNotFound);
      }
      var bestIdx := last.value;
      paths := Retime(paths, path);
      CriteriaDecide(multi);
      var idx, reason := FindPlace(Criteria(multi), path, paths);
      var stored, x, status := Store(multi, paths, path, bestIdx, idx, reason);
      table := table[afi := table[afi][path.Prefix() := stored]];
      r := Success((x, status));
    }

    /** The four ways to store a path at `idx`. */
    static method Store(multi: bool, paths: seq<Path>, path: Path, bestIdx: nat, idx: nat, reason: Reason)
      returns (stored: seq<Path>, x: Path, status: Status)
      requires bestIdx < |paths| && idx <= |paths|
      ensures (stored, x, status) == Placed(multi, paths, path, bestIdx, idx, reason)
    {
      x, status, stored := path, NotChanged, paths;
      if multi {
        if bestIdx >= idx {
          x := x.(best := true, reason := reason);
          stored := UnmarkAll(paths);
          status := BestPathChanged(path.Prefix(), path.id);
        } else if bestIdx + 1 == idx && x.EqualCost(paths[bestIdx]) {
          x := x.(best := true, reason := EqualCostMultiPath);
          stored := paths[bestIdx := paths[bestIdx].(reason := EqualCostMultiPath)];
          status := MultiPathAdded;
        }
      } else if idx == 0 {
        x := x.(best := true, reason := reason);
        stored := paths[0 := paths[0].(best := false, reason := NotBest)];
        status := BestPathChanged(path.Prefix(), path.id);
      }
      stored := InsertAt(stored, idx, x);
    }

    static method FindId(paths: seq<Path>, id: u64) returns (r: Option<nat>)
      ensures r == PositionOf(paths, id)
    {
      for i := 0 to |paths|
        invariant forall j :: 0 <= j < i ==> paths[j].id != id
      {
        if paths[i].id == id {
          return Some(i);
        }
      }
      r := None;
    }

    /** The loop over the criteria that finds the head's reason. */
    static method Crown(multi: bool, paths: seq<Path>) returns (p: Path)
      requires |paths| >= 2
      ensures p == Crowned(multi, paths)
    {
      var criteria := Criteria(multi);
      p := paths[0].(best := true);
      for k := 0 to |criteria|
        invariant FirstBetter(criteria[k..], paths[0], paths[1]) == FirstBetter(criteria, paths[0], paths[1])
        invariant p == paths[0].(best := true)
      {
        assert criteria[k..][1..] == criteria[k + 1..];
        if Compare(criteria[k], paths[0], paths[1]) == Less {
          p := p.(reason := criteria[k]);
          break;
        }
      }
    }

    static method Recompute(paths: seq<Path>) returns (r: seq<Path>)
      requires |paths| >= 2
      ensures r == Recomputed(paths)
    {
      var p := Crown(true, paths);
      r := paths[0 := p];
      if p.reason == NotBest || p.reason == EqualCostMultiPath {
        for i := 0 to |paths| - 1
          invariant |r| == |paths|
          invariant MarkEqual(r, i) == Recomputed(paths)
        {
          if !r[i].EqualCost(r[i + 1]) {
            return;
          }
          r := r[i := r[i].(reason := EqualCostMultiPath)];
          r := r[i + 1 := r[i + 1].(best := true, reason := EqualCostMultiPath)];
        }
      }
    }

    method DropPath(afi: Afi, prefix: IpNet, id: u64) returns (r: Result<Status, RibError>)
      modifies this
      ensures (View(), r) == DropStep(old(View()), afi, prefix, id)
    {
      hide PositionOf, Recomputed, Crowned;
      if afi !in table {
        return Failure(InvalidAddressFamily);
      }
      if prefix !in table[afi] || table[afi][prefix] == [] {
        return Failure(PathNotFound);
      }
      var paths := table[afi][prefix];
      dropped := dropped + 1;
      var found := FindId(paths, id);
      if found.None? {
        return Failure(PathNotFound);
      }
      var k := found.value;
      var removed := paths[k];
      paths := RemoveAt(paths, k);
      var status := NotChanged;
      if removed.best {
        if paths == [] {
          status := Withdrawn(prefix, removed.Kind());
        } else if |paths| == 1 {
          paths := [paths[0].(best := true, reason := OnlyPath)];
          status := BestPathChanged(prefix, paths[0].id);
        } else if multi {
          if k == 0 && !paths[0].best {
            status := BestPathChanged(prefix, paths[0].id);
            paths := Recompute(paths);
          } else {
            status := MultiPathWithdrawn(prefix, paths[0].id, FirstHop(removed));
          }
        } else {
          status := BestPathChanged(prefix, paths[0].id);
          var head := Crown(false, paths);
          paths := paths[0 := head];
        }
      }
      table := table[afi := table[afi][prefix := paths]];
      r := Success(status);
    }

    method GetById(afi: Afi, prefix: IpNet, id: u64) returns (r: Option<Path>)
      ensures r == Lookup(View(), afi, prefix, id)
    {
      if afi !in table || prefix !in table[afi] {
        return None;
      }
      var paths := table[afi][prefix];
      var found := FindId(paths, id);
      r := if found.Some? then Some(paths[found.value]) else None;
    }

    /** `get_all_best`: the head of every non-empty list, in whatever order the map gives its prefixes. */
    method GetAllBest(afi: Afi) returns (r: Option<seq<Path>>, ghost order: seq<IpNet>)
      ensures r.None? <==> forall d :: At(View(), afi, d) == []
      ensures r.Some? ==> HeadsInOrder(View(), afi, order, r.value)
    {
      order := [];
      if afi !in table {
        r := None;
        return;
      }
      var best: seq<Path> := [];
      var todo := table[afi].Keys;
      while todo != {}
        invariant todo <= table[afi].Keys
        invariant |order| == |best| && forall i, j :: 0 <= i < j < |order| ==> order[i] != order[j]
        invariant forall d :: d in order <==> At(View(), afi, d) != [] && d !in todo
        invariant forall i :: 0 <= i < |order| ==> best[i] == At(View(), afi, order[i])[0]
        decreases |todo|
      {
        var d :| d in todo;
        todo := todo - {d};
        if table[afi][d] != [] {
          best := best + [table[afi][d][0]];
          order := order + [d];
        }
      }
      r := if best == [] then None else Some(best);
      if best != [] {
        assert order[0] in order;
      }
    }
  }

  /** The heads of all non-empty lists of a family, each once. */
  ghost predicate HeadsInOrder(s: State, afi: Afi, order: seq<IpNet>, heads: seq<Path>) {
    && |order| == |heads|
    && (forall i, j :: 0 <= i < j < |order| ==> order[i] != order[j])
    && (forall d :: d in order <==> At(s, afi, d) != [])
    && forall i :: 0 <= i < |order| ==> At(s, afi, order[i]) != [] && heads[i] == At(s, afi, order[i])[0]
  }

  /** `get_by_id`: the first path with that identifier. */
  function Lookup(s: State, afi: Afi, d: IpNet, id: u64): Option<Path> {
    match PositionOf(At(s, afi, d), id)
    case None => None
    case Some(k) => Some(At(s, afi, d)[k])
  }
}
