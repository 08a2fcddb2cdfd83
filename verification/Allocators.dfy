/** The address allocator (`sartd/src/ipam/src/allocator.rs`): what each operation does, and what holds over every run. */
module Allocators {
  import opened Base
  import opened Net
  import opened Bits
  import opened BitSets
  import opened Addresses

  type AddrResult = Result<IpAddr, Error>

  /** The allocator's state: indices whose bit is set, and the running count. */
  datatype State = State(cidr: IpNet, held: set<nat>, count: nat)

  datatype Op = Allocate(addr: IpAddr, force: bool) | AllocateNext | Release(addr: IpAddr)

  /** The least index from `i` on that is not held, or `size`. */
  function Least(held: set<nat>, size: nat, i: nat): (r: nat)
    requires i <= size
    ensures i <= r <= size
    ensures forall j :: i <= j < r ==> j in held
    ensures r < size ==> r !in held
    decreases size - i
  {
    if i < size && i in held then Least(held, size, i + 1) else i
  }

  function Step(s: State, op: Op): (State, AddrResult) {
    match op
    case Allocate(addr, force) => (
      match IndexOf(addr, s.cidr)
      case Failure(e) => (s, Failure(e))
      case Success(i) =>
        if !force && i in s.held then (s, Failure(OfBitSet(AlreadySet)))
        else (s.(held := s.held + {i}, count := s.count + 1), Success(addr)))
    case AllocateNext => (
      var i := Least(s.held, Size(s.cidr), 0);
      if i == Size(s.cidr) then (s, Failure(Error.Full))
      else (s.(held := s.held + {i}, count := s.count + 1), Success(AddrAt(i, s.cidr))))
    case Release(addr) =>
      if s.count == 0 then (s, Failure(NoReleasableAddress))
      else
        match IndexOf(addr, s.cidr)
        case Failure(e) => (s, Failure(e))
        case Success(i) => (s.(held := s.held - {i}, count := s.count - 1), Success(addr))
  }

  // ---------------------------------------------------------------- in place

  class BitAllocator {
    const cidr: IpNet
    const allocator: BitSet
    var count: nat

    ghost predicate Valid()
      reads this, allocator
    {
      && allocator.Valid()
      && allocator.size == Size(cidr)
      && forall i :: i in Members(allocator.inner) ==> i < Size(cidr)
    }

    ghost function View(): State
      reads this, allocator
    {
      State(cidr, Members(allocator.inner), count)
    }

    constructor (cidr: IpNet)
      requires HostBits(cidr) <= 32
      ensures Valid() && fresh(allocator) && View() == State(cidr, {}, 0)
    {
      Pow2Grows(HostBits(cidr), 32);
      Pow2Of32();
      this.cidr := cidr;
      allocator := new BitSet(Pow2(HostBits(cidr)));
      count := 0;
    }

    method AllocateAddr(addr: IpAddr, force: bool) returns (r: AddrResult)
      requires Valid()
      modifies this, allocator
      ensures Valid() && (View(), r) == Step(old(View()), Allocate(addr, force))
    {
      hide Members, Size, AddrAt, Contains;
      var idx :- AddrToIndex(addr, cidr);
      AddrRoundTrip(addr, cidr);
      var res;
      if force {
        res := allocator.Set(idx, true);
      } else {
        res := allocator.SetTrue(idx);
      }
      match res
      case Failure(e) => r := Failure(OfBitSet(e));
      case Success(_) =>
        count := count + 1;
        r := Success(addr);
    }

    method Next() returns (r: AddrResult)
      requires Valid()
      modifies this, allocator
      ensures Valid() && (View(), r) == Step(old(View()), AllocateNext)
    {
      hide Members, Size, AddrAt, Contains;
      ghost var least := Least(Members(allocator.inner), Size(cidr), 0);
      var res := allocator.SetNext();
      match res
      case Failure(e) => r := Failure(if e == BitSetError.Full then Error.Full else OfBitSet(e));
      case Success(index) =>
        assert index == least;
        count := count + 1;
        r := IndexToAddrResult(index);
    }

    method IndexToAddrResult(index: nat) returns (r: AddrResult)
      ensures r == Success(AddrAt(index, cidr))
    {
      var addr := IndexToAddr(index, cidr);
      r := Success(addr);
    }

    method ReleaseAddr(addr: IpAddr) returns (r: AddrResult)
      requires Valid()
      modifies this, allocator
      ensures Valid() && (View(), r) == Step(old(View()), Release(addr))
    {
      hide Members, Size, AddrAt, Contains;
      if count == 0 {
        return Failure(NoReleasableAddress);
      }
      var idx :- AddrToIndex(addr, cidr);
      AddrRoundTrip(addr, cidr);
      var res := allocator.Set(idx, false);
      match res
      case Failure(e) => r := Failure(OfBitSet(e));
      case Success(_) =>
        count := count - 1;
        r := Success(addr);
    }
  }

  /** `Allocator::new`: an IPv6 block of more than 2^32 addresses is refused. */
  method NewAllocator(cidr: IpNet) returns (r: Result<BitAllocator, Error>)
    ensures cidr.Net6? && HostBits(cidr) > 32 ==> r == Failure(CidrTooLarge)
    ensures cidr.Net4? || HostBits(cidr) <= 32 ==> r.Success? && fresh(r.value) && r.value.Valid() && r.value.View() == State(cidr, {}, 0)
  {
    if cidr.Net6? && HostBits(cidr) > 32 {
      return Failure(CidrTooLarge);
    }
    var a := new BitAllocator(cidr);
    r := Success(a);
  }

  // ---------------------------------------------------------------- runs

  /** Seen from outside: the addresses handed out and not yet taken back, and the two kinds of careless call. */
  datatype Ledger = Ledger(outstanding: set<IpAddr>, doubled: nat, spurious: nat)

  function Note(l: Ledger, op: Op, r: AddrResult): Ledger {
    match r
    case Failure(_) => l
    case Success(a) =>
      if op.Release? then l.(outstanding := l.outstanding - {a}, spurious := l.spurious + if a in l.outstanding then 0 else 1)
      else l.(outstanding := l.outstanding + {a}, doubled := l.doubled + if a in l.outstanding then 1 else 0)
  }

  function Run(s: State, l: Ledger, ops: seq<Op>): (State, Ledger)
    decreases |ops|
  {
    if ops == [] then (s, l)
    else
      var (s', r) := Step(s, ops[0]);
      Run(s', Note(l, ops[0], r), ops[1..])
  }

  ghost predicate HeldAreOut(s: State, out: set<IpAddr>) {
    forall i :: i in s.held ==> i < Size(s.cidr) && AddrAt(i, s.cidr) in out
  }

  ghost predicate OutAreHeld(s: State, out: set<IpAddr>) {
    forall a :: a in out ==> Contains(s.cidr, a) && IndexOf(a, s.cidr).value in s.held
  }

  /** Set bits and outstanding addresses are the same thing, and the count differs from them by the careless calls only. */
  ghost predicate Matches(s: State, l: Ledger) {
    HeldAreOut(s, l.outstanding) && OutAreHeld(s, l.outstanding) && s.count + l.spurious == |l.outstanding| + l.doubled
  }

  lemma AddrIn(s: State, l: Ledger, a: IpAddr)
    requires Matches(s, l) && Contains(s.cidr, a)
    ensures IndexOf(a, s.cidr).Success? && IndexOf(a, s.cidr).value < Size(s.cidr)
    ensures a in l.outstanding <==> IndexOf(a, s.cidr).value in s.held
  {
    hide Contains, IndexOf, AddrAt;
    AddrRoundTrip(a, s.cidr);
  }

  lemma Gains(s: State, l: Ledger, a: IpAddr, i: nat)
    requires Matches(s, l) && Contains(s.cidr, a) && IndexOf(a, s.cidr) == Success(i)
    ensures Matches(s.(held := s.held + {i}, count := s.count + 1),
                    l.(outstanding := l.outstanding + {a}, doubled := l.doubled + if a in l.outstanding then 1 else 0))
  {
    hide Contains, IndexOf, AddrAt;
    AddrRoundTrip(a, s.cidr);
    if a in l.outstanding {
      assert l.outstanding + {a} == l.outstanding;
    }
  }

  lemma LosesHeld(s: State, out: set<IpAddr>, a: IpAddr, i: nat)
    requires HeldAreOut(s, out) && IndexOf(a, s.cidr) == Success(i)
    ensures HeldAreOut(s.(held := s.held - {i}), out - {a})
  {
    hide Contains, IndexOf, AddrAt, Size;
    forall j | j in s.held && j != i
      ensures AddrAt(j, s.cidr) != a
    {
      IndexRoundTrip(j, s.cidr);
    }
  }

  lemma LosesOut(s: State, out: set<IpAddr>, a: IpAddr, i: nat)
    requires OutAreHeld(s, out) && Contains(s.cidr, a) && IndexOf(a, s.cidr) == Success(i)
    ensures OutAreHeld(s.(held := s.held - {i}), out - {a})
  {
    hide Contains, IndexOf, AddrAt, Size;
    AddrRoundTrip(a, s.cidr);
    forall b | b in out && b != a
      ensures IndexOf(b, s.cidr).Success? && IndexOf(b, s.cidr).value != i
    {
      AddrRoundTrip(b, s.cidr);
    }
  }

  lemma Loses(s: State, l: Ledger, a: IpAddr, i: nat)
    requires Matches(s, l) && Contains(s.cidr, a) && IndexOf(a, s.cidr) == Success(i) && s.count > 0
    ensures Matches(s.(held := s.held - {i}, count := s.count - 1),
                    l.(outstanding := l.outstanding - {a}, spurious := l.spurious + if a in l.outstanding then 0 else 1))
  {
    hide HeldAreOut, OutAreHeld, Contains, IndexOf;
    var s' := s.(held := s.held - {i});
    LosesHeld(s, l.outstanding, a, i);
    LosesOut(s, l.outstanding, a, i);
    SameHeld(s', s'.(count := s.count - 1), l.outstanding - {a});
    if a !in l.outstanding {
      assert l.outstanding - {a} == l.outstanding;
    }
  }

  lemma SameHeld(s: State, s': State, out: set<IpAddr>)
    requires s.cidr == s'.cidr && s.held == s'.held
    ensures HeldAreOut(s, out) == HeldAreOut(s', out) && OutAreHeld(s, out) == OutAreHeld(s', out)
  {
    hide Contains, IndexOf, AddrAt, Size;
  }

  lemma StepMatches(s: State, l: Ledger, op: Op)
    requires Matches(s, l)
    ensures Matches(Step(s, op).0, Note(l, op, Step(s, op).1))
  {
    hide Matches, Contains, AddrAt, Size;
    match op
    case Allocate(a, _) =>
      if IndexOf(a, s.cidr).Success? {
        Gains(s, l, a, IndexOf(a, s.cidr).value);
      }
    case AllocateNext =>
      var i := Least(s.held, Size(s.cidr), 0);
      if i < Size(s.cidr) {
        IndexRoundTrip(i, s.cidr);
        Gains(s, l, AddrAt(i, s.cidr), i);
      }
    case Release(a) =>
      if s.count > 0 && IndexOf(a, s.cidr).Success? {
        Loses(s, l, a, IndexOf(a, s.cidr).value);
      }
  }

  lemma {:induction false} RunMatches(s: State, l: Ledger, ops: seq<Op>)
    requires Matches(s, l)
    ensures Run(s, l, ops).0.cidr == s.cidr
    ensures Matches(Run(s, l, ops).0, Run(s, l, ops).1)
    decreases |ops|
  {
    hide Matches;
    if ops != [] {
      StepMatches(s, l, ops[0]);
      RunMatches(Step(s, ops[0]).0, Note(l, ops[0], Step(s, ops[0]).1), ops[1..]);
    }
  }

  /** The state and ledger after a run that starts with an empty allocator. */
  function After(cidr: IpNet, ops: seq<Op>): (State, Ledger) {
    Run(State(cidr, {}, 0), Ledger({}, 0, 0), ops)
  }

  lemma AfterMatches(cidr: IpNet, ops: seq<Op>)
    ensures After(cidr, ops).0.cidr == cidr
    ensures Matches(After(cidr, ops).0, After(cidr, ops).1)
  {
    RunMatches(State(cidr, {}, 0), Ledger({}, 0, 0), ops);
  }

  /** After any run: an address handed out lies in the CIDR, and unless it was forced it was not outstanding. */
  lemma HandedOutIsFresh(cidr: IpNet, ops: seq<Op>, op: Op)
    requires !op.Release?
    ensures var (s, l) := After(cidr, ops);
            Step(s, op).1.Success? ==>
              && Contains(cidr, Step(s, op).1.value)
              && (op == AllocateNext || !op.force ==> Step(s, op).1.value !in l.outstanding)
  {
    hide Contains, AddrAt, Size, Matches, After;
    AfterMatches(cidr, ops);
    var (s, l) := After(cidr, ops);
    match op
    case Allocate(a, force) =>
      if Step(s, op).1.Success? {
        AddrIn(s, l, a);
      }
    case AllocateNext =>
      var i := Least(s.held, Size(cidr), 0);
      if i < Size(cidr) {
        IndexRoundTrip(i, cidr);
        AddrIn(s, l, AddrAt(i, cidr));
      }
  }

  /** After any run: the next address is the lowest one of the CIDR that is not outstanding. */
  lemma NextIsLowest(cidr: IpNet, ops: seq<Op>, b: IpAddr)
    requires Contains(cidr, b)
    ensures var (s, l) := After(cidr, ops);
            var r := Step(s, AllocateNext).1;
            r.Success? ==> Contains(cidr, r.value) && (AddrKey(b) < AddrKey(r.value) ==> b in l.outstanding)
  {
    hide Contains, AddrAt, Size, Matches, After, IndexOf;
    AfterMatches(cidr, ops);
    var (s, l) := After(cidr, ops);
    var i := Least(s.held, Size(cidr), 0);
    if i < Size(cidr) {
      IndexRoundTrip(i, cidr);
      AddrIn(s, l, b);
      AddrRoundTrip(b, cidr);
      var j := IndexOf(b, cidr).value;
      IndexOrder(j, i, cidr);
    }
  }

  /** After any run: the allocator reports that it is full exactly when every address of the CIDR is outstanding. */
  lemma FullIffAllOutstanding(cidr: IpNet, ops: seq<Op>)
    ensures var (s, l) := After(cidr, ops);
            Step(s, AllocateNext).1 == Failure(Error.Full) <==> forall a :: Contains(cidr, a) ==> a in l.outstanding
  {
    hide Contains, AddrAt, Size, Matches, After, IndexOf;
    AfterMatches(cidr, ops);
    var (s, l) := After(cidr, ops);
    var i := Least(s.held, Size(cidr), 0);
    if i < Size(cidr) {
      IndexRoundTrip(i, cidr);
      AddrIn(s, l, AddrAt(i, cidr));
    } else {
      forall a | Contains(cidr, a)
        ensures a in l.outstanding
      {
        AddrIn(s, l, a);
      }
    }
  }

  /**
   The count is the number of outstanding addresses, corrected by forced allocations of addresses already out
   and by releases of addresses that were not; so in a run without either, an outstanding address can be released.
   */
  lemma AllocationCount(cidr: IpNet, ops: seq<Op>)
    ensures var (s, l) := After(cidr, ops);
            && s.count + l.spurious == |l.outstanding| + l.doubled
            && (l.spurious == 0 ==> forall a :: a in l.outstanding ==> Step(s, Release(a)).1 == Success(a))
  {
    hide After, AddrAt, Size, Contains, IndexOf;
    AfterMatches(cidr, ops);
    var (s, l) := After(cidr, ops);
    if l.spurious == 0 {
      forall a | a in l.outstanding
        ensures Step(s, Release(a)).1 == Success(a)
      {
        assert |l.outstanding| > 0;
        AddrIn(s, l, a);
      }
    }
  }

  /**
   After any run, what a call is told, in terms of the addresses that are out: an allocation is refused for the wrong
   protocol, for an address outside the CIDR and, unless forced, for an outstanding address, and for nothing else.
   */
  lemma AllocationAnswers(cidr: IpNet, ops: seq<Op>, a: IpAddr, force: bool)
    ensures var (s, l) := After(cidr, ops);
            Step(s, Allocate(a, force)).1
            == if cidr.Net4? != a.V4? then Failure(ProtocolMismatch)
               else if !Contains(cidr, a) then Failure(NotContains)
               else if !force && a in l.outstanding then Failure(OfBitSet(AlreadySet))
               else Success(a)
  {
    hide Contains, AddrAt, Size, Matches, After;
    AfterMatches(cidr, ops);
    var (s, l) := After(cidr, ops);
    if Contains(cidr, a) {
      AddrIn(s, l, a);
    }
  }

  /** A release is refused when the count is used up, and otherwise for the wrong protocol and outside the CIDR only. */
  lemma ReleaseAnswers(cidr: IpNet, ops: seq<Op>, a: IpAddr)
    ensures var (s, l) := After(cidr, ops);
            Step(s, Release(a)).1
            == if |l.outstanding| + l.doubled == l.spurious then Failure(NoReleasableAddress)
               else if cidr.Net4? != a.V4? then Failure(ProtocolMismatch)
               else if !Contains(cidr, a) then Failure(NotContains)
               else Success(a)
  {
    hide Contains, AddrAt, Size, After, HeldAreOut, OutAreHeld;
    AfterMatches(cidr, ops);
    AllocationCount(cidr, ops);
  }
}
