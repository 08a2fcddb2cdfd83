/** The block pool (`sartd/src/ipam/src/manager.rs`): block indices in a bit set, and the name that holds each. */
module Pools {
  import opened Base
  import opened Net
  import opened Bits
  import opened BitSets
  import Addresses

  datatype State = State(size: nat, held: set<nat>, blocks: map<string, u32>, counter: u32)

  datatype Op = Allocate(name: string) | AllocateWith(index: nat, name: string) | Release(block: u32)

  /** The index is one that `BitSet::set` acts on: up to and including the size, if there is a word for it. */
  predicate Settable(size: nat, index: nat) {
    index < size || (index == size && size % 128 != 0)
  }

  /** What `BitSet::set` reports when it does not act. */
  function SetError(size: nat, index: nat): BitSetError {
    if index > size then InvalidIndex else Panicked
  }

  predicate AllHeld(s: State) {
    forall j :: 0 <= j < s.size ==> j in s.held
  }

  predicate Holds(s: State, name: string, index: nat) {
    name in s.blocks && s.blocks[name] == index
  }

  /** One operation: the states and result that the code can go through. */
  ghost predicate Next(s: State, op: Op, s': State, r: Result<nat, BitSetError>) {
    match op
    case Allocate(name) =>
      if AllHeld(s) then s' == s && r == Failure(Full)
      else
        && r.Success? && r.value < s.size && r.value !in s.held && (forall j :: 0 <= j < r.value ==> j in s.held)
        && s' == State(s.size, s.held + {r.value}, s.blocks[name := r.value % 0x1_0000_0000], (s.counter + 1) % 0x1_0000_0000)
    case AllocateWith(index, name) =>
      if !Settable(s.size, index) then s' == s && r == Failure(SetError(s.size, index))
      else
        && r == Success(index)
        && s' == s.(held := s.held + {index}, blocks := s.blocks[name := index % 0x1_0000_0000])
    case Release(index) =>
      if !Settable(s.size, index) then s' == s && r == Failure(SetError(s.size, index))
      else
        && r == Success(index)
        && exists name :: ReleasedName(s, index, name) && s' == s.(held := s.held - {index}, blocks := s.blocks - {name})
  }

  /** The order in which a `BTreeMap` keeps its names. */
  predicate Before(a: string, b: string) {
    b != [] && (a == [] || a[0] < b[0] || (a[0] == b[0] && Before(a[1..], b[1..])))
  }

  lemma {:induction false} BeforeTotal(a: string, b: string)
    ensures a == b || Before(a, b) || Before(b, a)
  {
    if a != [] && b != [] {
      BeforeTotal(a[1..], b[1..]);
      assert a == [a[0]] + a[1..] && b == [b[0]] + b[1..];
    }
  }

  lemma {:induction false} BeforeTransitive(a: string, b: string, c: string)
    requires Before(a, b) && Before(b, c)
    ensures Before(a, c)
  {
    if a != [] && a[0] == b[0] == c[0] {
      BeforeTransitive(a[1..], b[1..], c[1..]);
    }
  }

  /** The name that a release removes: the first that holds the index, or the empty name when none does. */
  ghost predicate ReleasedName(s: State, index: nat, name: string) {
    if exists n :: Holds(s, n, index)
    then Holds(s, name, index) && forall n :: Holds(s, n, index) ==> n == name || Before(name, n)
    else name == ""
  }

  /** `2u128.pow(block_size - prefix_len)`: the subtraction wraps in 32 bits and the power in 128. */
  function PoolSize(cidr: IpNet, blockSize: u32): nat {
    var bits := (blockSize - cidr.PrefixLen()) % 0x1_0000_0000;
    if bits < 128 then Pow2(bits) else 0
  }

  // ---------------------------------------------------------------- in place

  class Pool {
    const allocator: BitSet
    var blocks: map<string, u32>
    var counter: u32

    ghost predicate Valid()
      reads this, allocator
    {
      allocator.Valid()
    }

    ghost function View(): State
      reads this, allocator
    {
      State(allocator.size, Members(allocator.inner), blocks, counter)
    }

    constructor (cidr: IpNet, blockSize: u32)
      requires PoolSize(cidr, blockSize) < 0x1_0000_0000_0000_0000
      ensures Valid() && fresh(allocator)
      ensures View() == State(PoolSize(cidr, blockSize), {}, map[], 0)
    {
      allocator := new BitSet(PoolSize(cidr, blockSize));
      blocks := map[];
      counter := 0;
    }

    method AllocateBlock(name: string) returns (r: Result<nat, BitSetError>)
      requires Valid()
      modifies this, allocator
      ensures Valid() && Next(old(View()), Allocate(name), View(), r)
    {
      hide Members;
      var index :- allocator.SetNext();
      blocks := blocks[name := index % 0x1_0000_0000];
      counter := (counter + 1) % 0x1_0000_0000;
      r := Success(index);
    }

    method Recover(index: nat, name: string) returns (r: Result<nat, BitSetError>)
      requires Valid()
      modifies this, allocator
      ensures Valid() && Next(old(View()), AllocateWith(index, name), View(), r)
    {
      hide Members;
      var _ :- allocator.Set(index, true);
      blocks := blocks[name := index % 0x1_0000_0000];
      r := Success(index);
    }

    method ReleaseBlock(index: u32) returns (r: Result<nat, BitSetError>)
      requires Valid()
      modifies this, allocator
      ensures Valid() && Next(old(View()), Release(index), View(), r)
    {
      hide Members;
      var _ :- allocator.Set(index, false);
      var name := FirstHolder(index);
      assert forall n :: Holds(View(), n, index) <==> Holds(old(View()), n, index);
      blocks := blocks - {name};
      r := Success(index);
    }

    /** The names in order, up to the first that holds the index; the empty name if none does. */
    method FirstHolder(index: u32) returns (name: string)
      ensures ReleasedName(View(), index, name)
    {
      hide Members;
      name := "";
      ghost var s := View();
      var found := false;
      var todo := blocks.Keys;
      while todo != {}
        invariant todo <= blocks.Keys
        invariant found ==> Holds(s, name, index)
        invariant !found ==> name == ""
        invariant forall n :: n in blocks.Keys - todo && blocks[n] == index ==> found && (n == name || Before(name, n))
        decreases |todo|
      {
        var n :| n in todo;
        if blocks[n] == index {
          if found {
            BeforeTotal(n, name);
          }
          if !found || Before(n, name) {
            forall m | m in blocks.Keys - todo && blocks[m] == index
              ensures m == n || Before(n, m)
            {
              if m != name {
                BeforeTransitive(n, name, m);
              }
            }
            found, name := true, n;
          }
        }
        todo := todo - {n};
      }
      assert forall n :: Holds(s, n, index) ==> n in blocks.Keys - todo;
    }
  }

  // ---------------------------------------------------------------- runs

  /** Names and set bits correspond one to one, and every set bit is a block. */
  ghost predicate Consistent(s: State) {
    && (forall i :: i in s.held ==> i < s.size)
    && (forall n :: n in s.blocks ==> s.blocks[n] in s.held)
    && (forall i :: i in s.held ==> exists n :: Holds(s, n, i))
    && (forall m, n :: m in s.blocks && n in s.blocks && s.blocks[m] == s.blocks[n] ==> m == n)
  }

  /**
   What the caller has to see to: a fresh name for a new block; for a recovered one a free index and a fresh name,
   or the pair already there; for a release an index in use, or at least no block with the empty name.
   */
  predicate Careful(s: State, op: Op) {
    match op
    case Allocate(name) => AllHeld(s) || name !in s.blocks
    case AllocateWith(index, name) =>
      || !Settable(s.size, index)
      || (index < s.size && ((index !in s.held && name !in s.blocks) || Holds(s, name, index)))
    case Release(index) => !Settable(s.size, index) || index in s.held || "" !in s.blocks
  }

  lemma AllocateKeeps(s: State, name: string, s': State, r: Result<nat, BitSetError>)
    requires Consistent(s) && s.size <= 0x1_0000_0000
    requires Next(s, Allocate(name), s', r)
    ensures Consistent(s') <==> Careful(s, Allocate(name))
  {
    if !AllHeld(s) {
      var i := r.value;
      assert Holds(s', name, i);
      if name !in s.blocks {
        forall j | j in s'.held
          ensures exists n :: Holds(s', n, j)
        {
          if j != i {
            var n :| Holds(s, n, j);
            assert Holds(s', n, j);
          }
        }
      } else {
        var lost := s.blocks[name];
        assert lost in s'.held && forall n :: !Holds(s', n, lost);
      }
    }
  }

  lemma RecoverKeeps(s: State, index: nat, name: string, s': State, r: Result<nat, BitSetError>)
    requires Consistent(s) && s.size <= 0x1_0000_0000
    requires Next(s, AllocateWith(index, name), s', r)
    ensures Consistent(s') <==> Careful(s, AllocateWith(index, name))
  {
    if index < s.size {
      assert Holds(s', name, index);
      if Holds(s, name, index) {
        assert s' == s;
      } else if name in s.blocks {
        var lost := s.blocks[name];
        assert lost in s'.held && forall n :: !Holds(s', n, lost);
      } else if index in s.held {
        var n :| Holds(s, n, index);
        assert Holds(s', n, index) && n != name;
      } else {
        forall j | j in s'.held
          ensures exists n :: Holds(s', n, j)
        {
          if j != index {
            var n :| Holds(s, n, j);
            assert Holds(s', n, j);
          }
        }
      }
    } else if Settable(s.size, index) {
      assert index in s'.held;
    }
  }

  lemma ReleaseKeeps(s: State, index: u32, s': State, r: Result<nat, BitSetError>)
    requires Consistent(s)
    requires Next(s, Release(index), s', r)
    ensures Consistent(s') <==> Careful(s, Release(index))
  {
    if Settable(s.size, index) {
      var name :| ReleasedName(s, index, name) && s' == s.(held := s.held - {index}, blocks := s.blocks - {name});
      if index in s.held {
        var n :| Holds(s, n, index);
        assert n == name;
        forall j | j in s'.held
          ensures exists m :: Holds(s', m, j)
        {
          var m :| Holds(s, m, j);
          assert Holds(s', m, j);
        }
      } else {
        assert !exists n :: Holds(s, n, index);
        if "" in s.blocks {
          var lost := s.blocks[""];
          assert lost in s'.held && forall n :: !Holds(s', n, lost);
        } else {
          assert s'.blocks == s.blocks && s'.held == s.held;
        }
      }
    }
  }

  /** One operation leaves a consistent pool consistent if and only if it is a careful one. */
  lemma StepKeepsIff(s: State, op: Op, s': State, r: Result<nat, BitSetError>)
    requires Consistent(s) && s.size <= 0x1_0000_0000
    requires Next(s, op, s', r)
    ensures Consistent(s') <==> Careful(s, op)
  {
    hide Consistent, Careful, Next;
    match op
    case Allocate(name) => AllocateKeeps(s, name, s', r);
    case AllocateWith(index, name) => RecoverKeeps(s, index, name, s', r);
    case Release(index) => ReleaseKeeps(s, index, s', r);
  }

  /** A run: one state more than there are operations, each step one of the code's. */
  ghost predicate IsRun(states: seq<State>, ops: seq<Op>, results: seq<Result<nat, BitSetError>>) {
    && |states| == |ops| + 1 && |results| == |ops|
    && forall k :: 0 <= k < |ops| ==> Next(states[k], ops[k], states[k + 1], results[k])
  }

  /** Over any run of at most 2^32 blocks from a consistent pool: it is consistent throughout iff every call was careful. */
  lemma {:induction false} RunConsistentIff(states: seq<State>, ops: seq<Op>, results: seq<Result<nat, BitSetError>>)
    requires IsRun(states, ops, results)
    requires Consistent(states[0]) && states[0].size <= 0x1_0000_0000
    ensures (forall k :: 0 <= k < |states| ==> Consistent(states[k]))
            <==> forall k :: 0 <= k < |ops| ==> Careful(states[k], ops[k])
    ensures forall k :: 0 <= k < |states| ==> states[k].size == states[0].size
    decreases |ops|
  {
    hide Consistent, Careful;
    if ops != [] {
      var n := |ops| - 1;
      RunConsistentIff(states[..n + 1], ops[..n], results[..n]);
      assert Next(states[n], ops[n], states[n + 1], results[n]);
      if forall k :: 0 <= k < |ops| ==> Careful(states[k], ops[k]) {
        StepKeepsIff(states[n], ops[n], states[n + 1], results[n]);
      }
      if forall k :: 0 <= k < |states| ==> Consistent(states[k]) {
        StepKeepsIff(states[n], ops[n], states[n + 1], results[n]);
      }
    }
  }

  /** A release of a free index while a block has the empty name: the block stays set and nobody holds it. */
  lemma EmptyNameLosesBlock()
    ensures var s, s' := State(2, {0}, map["" := 0], 1), State(2, {0}, map[], 1);
            Consistent(s) && Next(s, Release(1), s', Success(1)) && !Consistent(s')
  {
    var s, s' := State(2, {0}, map["" := 0], 1), State(2, {0}, map[], 1);
    assert Holds(s, "", 0);
    assert Consistent(s);
    assert forall n :: !Holds(s, n, 1);
    assert ReleasedName(s, 1, "");
    assert s'.held == s.held - {1} && s'.blocks == s.blocks - {""};
    StepKeepsIff(s, Release(1), s', Success(1));
  }

  /** A second block under a name in use: the first block stays set and nobody holds it. */
  lemma ReusedNameLeaksBlock()
    ensures var s, s' := State(2, {0}, map["a" := 0], 1), State(2, {0, 1}, map["a" := 1], 2);
            Consistent(s) && Next(s, Allocate("a"), s', Success(1)) && !Consistent(s')
  {
    var s, s' := State(2, {0}, map["a" := 0], 1), State(2, {0, 1}, map["a" := 1], 2);
    assert Holds(s, "a", 0);
    assert s'.held == s.held + {1} && s'.blocks == s.blocks["a" := 1];
    assert Consistent(s);
    StepKeepsIff(s, Allocate("a"), s', Success(1));
  }

  ghost predicate Taken(s: State, i: nat) {
    exists n :: Holds(s, n, i)
  }

  /** An allocation gives the name the lowest block that no name holds, or there is none; the other names keep theirs. */
  lemma AllocationNames(s: State, name: string, s': State, r: Result<nat, BitSetError>)
    requires Consistent(s) && s.size <= 0x1_0000_0000 && Next(s, Allocate(name), s', r)
    ensures r.Failure? ==> r.error == Full && (forall i: nat :: i < s.size ==> Taken(s, i)) && s' == s
    ensures r.Success? ==>
              && r.value < s.size && !Taken(s, r.value) && (forall i: nat :: i < r.value ==> Taken(s, i))
              && Holds(s', name, r.value) && s'.blocks - {name} == s.blocks - {name}
  {
    assert forall i :: i in s.held <==> Taken(s, i);
  }

  /** After the release of a block no name holds it, and every other block is held as before. */
  lemma ReleaseNames(s: State, index: u32, s': State, r: Result<nat, BitSetError>)
    requires Consistent(s) && Taken(s, index) && Next(s, Release(index), s', r)
    ensures r == Success(index) && !Taken(s', index)
    ensures forall n, i :: i != index ==> (Holds(s', n, i) <==> Holds(s, n, i))
  {
    var n :| Holds(s, n, index);
    assert index in s.held;
    var name :| ReleasedName(s, index, name) && s' == s.(held := s.held - {index}, blocks := s.blocks - {name});
  }

  function Allocations(ops: seq<Op>, results: seq<Result<nat, BitSetError>>): nat
    requires |results| == |ops|
  {
    if ops == [] then 0
    else Allocations(ops[..|ops| - 1], results[..|ops| - 1])
         + if ops[|ops| - 1].Allocate? && results[|ops| - 1].Success? then 1 else 0
  }

  /** The counter counts the allocations that succeeded, in 32 bits; recoveries and releases leave it. */
  lemma {:induction false} CounterCounts(states: seq<State>, ops: seq<Op>, results: seq<Result<nat, BitSetError>>)
    requires IsRun(states, ops, results) && states[0].counter == 0
    ensures states[|ops|].counter == Allocations(ops, results) % 0x1_0000_0000
    decreases |ops|
  {
    hide Next;
    if ops != [] {
      var n := |ops| - 1;
      CounterCounts(states[..n + 1], ops[..n], results[..n]);
      assert Next(states[n], ops[n], states[n + 1], results[n]);
      CounterStep(states[n], ops[n], states[n + 1], results[n], Allocations(ops[..n], results[..n]));
    }
  }

  lemma CounterStep(s: State, op: Op, s': State, r: Result<nat, BitSetError>, before: nat)
    requires Next(s, op, s', r) && s.counter == before % 0x1_0000_0000
    ensures s'.counter == (before + if op.Allocate? && r.Success? then 1 else 0) % 0x1_0000_0000
  {
    assert (before % 0x1_0000_0000 + 1) % 0x1_0000_0000 == (before + 1) % 0x1_0000_0000;
  }

  lemma {:induction false} Pow2Adds(a: nat, b: nat)
    ensures Pow2(a + b) == Pow2(a) * Pow2(b)
    decreases b
  {
    if b == 0 {
      assert Pow2(0) == 1;
    } else {
      Pow2Adds(a, b - 1);
      Swap(Pow2(a), 2, Pow2(b - 1));
    }
  }

  /** The blocks of a pool, each of the addresses that `blockSize` leaves, make up the CIDR, unless there are 2^128 of them. */
  lemma BlocksTileIff(cidr: IpNet, blockSize: u32)
    requires cidr.PrefixLen() <= blockSize <= 8 * |cidr.Addr()|
    ensures PoolSize(cidr, blockSize) * Pow2(8 * |cidr.Addr()| - blockSize) == Addresses.Size(cidr) <==> blockSize - cidr.PrefixLen() < 128
  {
    hide Pow2;
    Pow2Adds(blockSize - cidr.PrefixLen(), 8 * |cidr.Addr()| - blockSize);
  }
}
