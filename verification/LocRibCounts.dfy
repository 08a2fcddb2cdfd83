/** Conservation: over every run whatever, the stored identifiers are the accepted ones minus the removed ones, and the counters account for them. */
module LocRibCounts {
  import opened Base
  import opened Net
  import opened Family
  import opened Paths
  import opened Decision
  import opened LocRibs
  import opened LocRibLists
  import opened LocRibRuns

  // ---------------------------------------------------------------- identifiers in a table

  function IdsOf(paths: seq<Path>): (r: seq<u64>)
    ensures |r| == |paths| && forall i :: 0 <= i < |paths| ==> r[i] == paths[i].id
  {
    seq(|paths|, i requires 0 <= i < |paths| => paths[i].id)
  }

  function Bag(paths: seq<Path>): multiset<u64> {
    multiset(IdsOf(paths))
  }

  /** The identifiers of all lists of a family. */
  ghost function BagOf(m: map<IpNet, seq<Path>>): multiset<u64>
    decreases |m|
  {
    if m == map[] then multiset{}
    else
      var d :| d in m;
      assert |m - {d}| < |m| by { assert m == (m - {d})[d := m[d]]; }
      Bag(m[d]) + BagOf(m - {d})
  }

  lemma MapSmaller<V>(m: map<IpNet, V>, d: IpNet)
    requires d in m
    ensures |m - {d}| < |m|
  {
    assert m == (m - {d})[d := m[d]];
  }

  /** Any list can be taken out first. */
  lemma {:induction false} BagTake(m: map<IpNet, seq<Path>>, d: IpNet)
    requires d in m
    ensures BagOf(m) == Bag(m[d]) + BagOf(m - {d})
    decreases |m|
  {
    hide Bag;
    assert m != map[];
    var e :| e in m && BagOf(m) == Bag(m[e]) + BagOf(m - {e});
    if e != d {
      MapSmaller(m, e);
      MapSmaller(m, d);
      BagTake(m - {e}, d);
      BagTake(m - {d}, e);
      assert m - {e} - {d} == m - {d} - {e};
    }
  }

  lemma BagPut(m: map<IpNet, seq<Path>>, d: IpNet, paths: seq<Path>)
    ensures BagOf(m[d := paths]) + (if d in m then Bag(m[d]) else multiset{}) == BagOf(m) + Bag(paths)
  {
    hide Bag, BagOf;
    BagTake(m[d := paths], d);
    assert m[d := paths] - {d} == m - {d};
    if d in m {
      BagTake(m, d);
    } else {
      assert m - {d} == m;
    }
  }

  ghost function Stored(s: State): multiset<u64> {
    (if IPv4 in s.table then BagOf(s.table[IPv4]) else multiset{})
    + (if IPv6 in s.table then BagOf(s.table[IPv6]) else multiset{})
  }

  lemma Beside(a': multiset<u64>, a: multiset<u64>, b: multiset<u64>, x: multiset<u64>, y: multiset<u64>)
    requires a' + x == a + y
    ensures a' + b + x == a + b + y
    ensures b + a' + x == b + a + y
  {
    assert a' + b + x == (a' + x) + b && a + b + y == (a + y) + b;
    assert b + a' + x == (a' + x) + b && b + a + y == (a + y) + b;
  }

  lemma Cancel(a': multiset<u64>, a: multiset<u64>, x: multiset<u64>, y: multiset<u64>)
    requires a' + x == a + (x + y)
    ensures a' == a + y
  {
    assert a' == (a' + x) - x && a + (x + y) == (a + y) + x;
  }

  lemma StoredPut(s: State, afi: Afi, d: IpNet, paths: seq<Path>)
    requires afi in s.table
    ensures Stored(Put(s, afi, d, paths)) + Bag(At(s, afi, d)) == Stored(s) + Bag(paths)
  {
    hide Bag, BagOf;
    var m, m' := s.table[afi], s.table[afi][d := paths];
    BagPut(m, d, paths);
    assert Bag([]) == multiset{} by { EmptyBag(); }
    var other := if afi == IPv4 then IPv6 else IPv4;
    var b := if other in s.table then BagOf(s.table[other]) else multiset{};
    Beside(BagOf(m'), BagOf(m), b, Bag(At(s, afi, d)), Bag(paths));
  }

  lemma EmptyBag()
    ensures Bag([]) == multiset{}
  {
  }

  // ---------------------------------------------------------------- what one operation does to the identifiers

  lemma BagInsertAt(paths: seq<Path>, k: nat, x: Path)
    requires k <= |paths|
    ensures Bag(InsertAt(paths, k, x)) == Bag(paths) + multiset{x.id}
  {
    var ids := IdsOf(paths);
    assert IdsOf(InsertAt(paths, k, x)) == ids[..k] + [x.id] + ids[k..];
    assert ids == ids[..k] + ids[k..];
  }

  lemma BagRemoveAt(paths: seq<Path>, k: nat)
    requires k < |paths|
    ensures Bag(RemoveAt(paths, k)) + multiset{paths[k].id} == Bag(paths)
  {
    var ids := IdsOf(paths);
    assert IdsOf(RemoveAt(paths, k)) == ids[..k] + ids[k + 1..];
    assert ids == ids[..k] + [ids[k]] + ids[k + 1..];
  }

  lemma BagSame(a: seq<Path>, b: seq<Path>)
    requires |a| == |b| && forall i :: 0 <= i < |a| ==> a[i].id == b[i].id
    ensures Bag(a) == Bag(b)
  {
    assert IdsOf(a) == IdsOf(b);
  }

  lemma InsertBag(multi: bool, paths: seq<Path>, x: Path)
    requires ListInsert(multi, paths, x).Success?
    ensures Bag(ListInsert(multi, paths, x).value.0) == Bag(paths) + multiset{x.id}
  {
    hide Scan, Criteria, LastBest, Bag, Remarked, OutcomeOf;
    if paths == [] {
      var x' := x.(best := true, reason := OnlyPath);
      BagInsertAt([], 0, x');
      assert InsertAt([], 0, x') == [x'];
    } else {
      var timed := Retimed(paths, x);
      var (k, reason) := Scan(Criteria(multi), x, timed);
      var outcome := OutcomeOf(multi, timed, x, LastBest(paths).value, k);
      var marked := Remarked(multi, timed, LastBest(paths).value, outcome);
      BagInsertAt(marked, k, Marked(x, outcome, reason));
      BagSame(paths, marked);
    }
  }

  lemma PositionNames(paths: seq<Path>, id: u64)
    ensures PositionOf(paths, id).Some? ==> PositionOf(paths, id).value < |paths| && paths[PositionOf(paths, id).value].id == id
  {
  }

  lemma DropBag(multi: bool, d: IpNet, paths: seq<Path>, id: u64)
    requires ListDrop(multi, d, paths, id).Success?
    ensures Bag(ListDrop(multi, d, paths, id).value.0) + multiset{id} == Bag(paths)
  {
    hide ListDrop, PositionOf, Bag;
    DropShape(multi, d, paths, id);
    var k := PositionOf(paths, id).value;
    var left := RemoveAt(paths, k);
    BagRemoveAt(paths, k);
    PositionNames(paths, id);
    BagSame(ListDrop(multi, d, paths, id).value.0, left);
  }

  // ---------------------------------------------------------------- whole runs

  /** Kept beside a run: identifiers accepted and removed, and insertions that found no best path. */
  datatype Ledger = Ledger(accepted: multiset<u64>, removed: multiset<u64>, lost: nat)

  function Note(l: Ledger, op: Op, r: Result<Status, RibError>): Ledger {
    match (op, r)
    case (Insert(_, x), Success(_)) => l.(accepted := l.accepted + multiset{x.id})
    case (Insert(_, _), Failure(PathNotFound)) => l.(lost := l.lost + 1)
    case (Drop(_, _, id), Success(_)) => l.(removed := l.removed + multiset{id})
    case _ => l
  }

  function RunNoting(s: State, l: Ledger, ops: seq<Op>): (State, Ledger)
    decreases |ops|
  {
    if ops == [] then (s, l)
    else
      var (s', r) := Step(s, ops[0]);
      RunNoting(s', Note(l, ops[0], r), ops[1..])
  }

  ghost predicate Balanced(s: State, l: Ledger) {
    && Stored(s) + l.removed == l.accepted
    && s.received == |l.accepted| + l.lost
    && |l.removed| <= s.dropped
  }

  lemma StepBalanced(s: State, l: Ledger, op: Op)
    requires Balanced(s, l)
    ensures Balanced(Step(s, op).0, Note(l, op, Step(s, op).1))
  {
    hide Bag, Stored, ListInsert, ListDrop;
    var (a, d) := KeyOf(op);
    if a in s.table {
      var paths := At(s, a, d);
      match op
      case Insert(_, x) =>
        var counted := s.(received := s.received + 1);
        assert Stored(counted) == Stored(s) by { SameTable(s, counted); }
        if ListInsert(s.multi, paths, x).Success? {
          InsertBag(s.multi, paths, x);
          var after := ListInsert(s.multi, paths, x).value.0;
          StoredPut(counted, a, d, after);
          assert At(counted, a, d) == paths;
          Cancel(Stored(Put(counted, a, d, after)), Stored(s), Bag(paths), multiset{x.id});
        } else {
          assert ListInsert(s.multi, paths, x).error == PathNotFound by { InsertError(s.multi, paths, x); }
        }
      case Drop(_, _, id) =>
        if paths != [] {
          var counted := s.(dropped := s.dropped + 1);
          assert Stored(counted) == Stored(s) by { SameTable(s, counted); }
          if ListDrop(s.multi, d, paths, id).Success? {
            DropBag(s.multi, d, paths, id);
            var after := ListDrop(s.multi, d, paths, id).value.0;
            StoredPut(counted, a, d, after);
            assert At(counted, a, d) == paths;
            Cancel(Stored(s), Stored(Put(counted, a, d, after)), Bag(after), multiset{id});
          }
        }
    }
  }

  lemma SameTable(s: State, t: State)
    requires s.table == t.table
    ensures Stored(s) == Stored(t)
  {
  }

  lemma InsertError(multi: bool, paths: seq<Path>, x: Path)
    ensures ListInsert(multi, paths, x).Failure? ==> ListInsert(multi, paths, x).error == PathNotFound
  {
  }

  lemma {:induction false} RunBalanced(s: State, l: Ledger, ops: seq<Op>)
    requires Balanced(s, l)
    ensures Balanced(RunNoting(s, l, ops).0, RunNoting(s, l, ops).1)
    ensures RunNoting(s, l, ops).0 == Run(s, ops)
    decreases |ops|
  {
    hide Balanced, Step, Note;
    if ops != [] {
      StepBalanced(s, l, ops[0]);
      RunBalanced(Step(s, ops[0]).0, Note(l, ops[0], Step(s, ops[0]).1), ops[1..]);
    }
  }

  lemma {:induction false} EmptyStored(m: map<IpNet, seq<Path>>)
    requires forall d :: d in m ==> m[d] == []
    ensures BagOf(m) == multiset{}
    decreases |m|
  {
    EmptyBag();
    if m != map[] {
      var d :| d in m;
      MapSmaller(m, d);
      BagTake(m, d);
      EmptyStored(m - {d});
    }
  }

  lemma FreshStored(s: State)
    requires Fresh(s)
    ensures Stored(s) == multiset{}
  {
    hide BagOf;
    forall a | a in s.table
      ensures BagOf(s.table[a]) == multiset{}
    {
      forall d | d in s.table[a]
        ensures s.table[a][d] == []
      {
        assert At(s, a, d) == [];
      }
      EmptyStored(s.table[a]);
    }
  }

  /**
   Over every run from an empty table, in either mode and whatever arrives: stored identifiers and removed ones together
   are the accepted ones; `received` counts the accepted insertions and the ones that found no best path; and no more
   removals succeed than `dropped` counts.
   */
  lemma Conservation(s: State, ops: seq<Op>)
    requires Fresh(s)
    ensures var (s', l) := RunNoting(s, Ledger(multiset{}, multiset{}, 0), ops);
            && s' == Run(s, ops)
            && Stored(s') + l.removed == l.accepted
            && |Stored(s')| + |l.removed| + l.lost == s'.received
            && |l.removed| <= s'.dropped
  {
    hide Stored, Run, RunNoting;
    FreshStored(s);
    RunBalanced(s, Ledger(multiset{}, multiset{}, 0), ops);
    var (s', l) := RunNoting(s, Ledger(multiset{}, multiset{}, 0), ops);
    assert |Stored(s') + l.removed| == |l.accepted|;
  }

  /** In a run whose callers keep to the rules of the mode no insertion is lost. */
  lemma {:induction false} NothingLost(s: State, l: Ledger, ops: seq<Op>)
    requires Inv(s) && OpsOk(s, ops)
    ensures RunNoting(s, l, ops).1.lost == l.lost
    decreases |ops|
  {
    hide Inv, OpOk, Step;
    if ops != [] {
      StepInv(s, ops[0]);
      StepAt(s, ops[0], KeyOf(ops[0]).0, KeyOf(ops[0]).1);
      NothingLost(Step(s, ops[0]).0, Note(l, ops[0], Step(s, ops[0]).1), ops[1..]);
    }
  }
}
