/** The word-packed bit set (`sartd/src/ipam/src/bitset.rs`) and the finite set it stands for. */
module BitSets {
  import opened Base
  import opened Bits

  datatype BitSetError = InvalidIndex | Full | AlreadySet | Panicked

  /** The indices whose bit is set. */
  function Members(words: seq<u128>): set<nat> {
    set i: nat | i < 128 * |words| && Bit(words[i / 128], i % 128)
  }

  function Sum(words: seq<u128>): nat {
    if words == [] then 0 else Sum(words[..|words| - 1]) + words[|words| - 1]
  }

  function WrappingAdd(a: u128, b: u128): u128 {
    if a + b < Pow2(128) then a + b else a + b - Pow2(128)
  }

  function WrappedSum(words: seq<u128>): u128 {
    if words == [] then 0 else WrappingAdd(WrappedSum(words[..|words| - 1]), words[|words| - 1])
  }

  /** How often adding the words up wraps around. */
  function Carries(words: seq<u128>): nat {
    if words == [] then 0
    else
      var before, last := words[..|words| - 1], words[|words| - 1];
      Carries(before) + if WrappedSum(before) + last < Pow2(128) then 0 else 1
  }

  class BitSet {
    var inner: seq<u128>
    var size: nat

    /** One word for every 128 indices begun.  Below 2^64 the casts of index and size to `usize` lose nothing. */
    ghost predicate Valid()
      reads this
    {
      size < 0x1_0000_0000_0000_0000 && |inner| == (size + 127) / 128
    }

    constructor (size: nat)
      requires size < 0x1_0000_0000_0000_0000
      ensures Valid() && this.size == size && Members(inner) == {}
    {
      var l := size / 128 + if size % 128 > 0 then 1 else 0;
      inner := seq(l, _ => 0);
      this.size := size;
      new;
      forall i: nat | i < 128 * |inner|
        ensures !Bit(inner[i / 128], i % 128)
      {
        ZeroBit(i % 128);
      }
    }

    /** `is_set`; the bound lets `index == size` through, where a word may be missing. */
    method IsSet(index: nat) returns (r: Result<bool, BitSetError>)
      requires Valid()
      ensures index < size ==> r == Success(index in Members(inner))
      ensures index > size ==> r == Success(false)
      ensures index == size ==> r == if size % 128 == 0 then Failure(Panicked) else Success(index in Members(inner))
    {
      if index > size {
        return Success(false);
      }
      var v, n := index / 128, index % 128;
      if v >= |inner| {
        return Failure(Panicked);
      }
      r := Success(Bit(inner[v], n));
    }

    /** `set`: the two set operations, on every index up to and including `size`. */
    method Set(index: nat, value: bool) returns (r: Result<nat, BitSetError>)
      requires Valid()
      modifies this
      ensures Valid() && size == old(size)
      ensures index > size ==> r == Failure(InvalidIndex)
      ensures index == size && size % 128 == 0 ==> r == Failure(Panicked)
      ensures index < size || (index == size && size % 128 != 0) ==> r == Success(index)
      ensures Members(inner) == if r.Failure? then old(Members(inner))
                                else if value then old(Members(inner)) + {index}
                                else old(Members(inner)) - {index}
    {
      if index > size {
        return Failure(InvalidIndex);
      }
      var v, n := index / 128, index % 128;
      if v >= |inner| {
        return Failure(Panicked);
      }
      if value {
        WithBitSpec(inner[v], n, 0);
        inner := Updated(inner, index, WithBit(inner[v], n));
        AddMember(old(inner), index);
      } else {
        WithoutBitSpec(inner[v], n, 0);
        inner := Updated(inner, index, WithoutBit(inner[v], n));
        RemoveMember(old(inner), index);
      }
      r := Success(index);
    }

    method SetTrue(index: nat) returns (r: Result<nat, BitSetError>)
      requires Valid()
      modifies this
      ensures Valid() && size == old(size)
      ensures index < size || (index == size && size % 128 != 0) ==>
                if index in old(Members(inner)) then r == Failure(AlreadySet) && Members(inner) == old(Members(inner))
                else r == Success(index) && Members(inner) == old(Members(inner)) + {index}
      ensures index > size ==> r == Failure(InvalidIndex) && Members(inner) == old(Members(inner))
      ensures index == size && size % 128 == 0 ==> r == Failure(Panicked) && Members(inner) == old(Members(inner))
    {
      var already :- IsSet(index);
      if already {
        return Failure(AlreadySet);
      }
      r := Set(index, true);
    }

    /** `get_min_unset_index`: the words in turn, each shifted right until a zero bit appears. */
    method GetMinUnsetIndex() returns (r: Result<nat, BitSetError>)
      requires Valid()
      ensures r.Success? ==> r.value < size && r.value !in Members(inner) && forall j: nat :: j < r.value ==> j in Members(inner)
      ensures r.Failure? ==> r.error == Full && forall j: nat :: j < size ==> j in Members(inner)
    {
      var maxWord, maxIndex := size / 128, size % 128;
      for n := 0 to |inner|
        invariant forall j: nat :: j < 128 * n && j < size ==> j in Members(inner)
      {
        var b: nat := inner[n];
        var limit := if maxWord == n then maxIndex else 128;
        for i := 0 to limit
          invariant b == Shr(inner[n], i)
          invariant forall j: nat :: j < 128 * n + i ==> j in Members(inner)
        {
          assert (128 * n + i) / 128 == n && (128 * n + i) % 128 == i;
          if b % 2 == 0 {
            return Success(n * 128 + i);
          }
          b := b / 2;
        }
      }
      r := Failure(Full);
    }

    method SetNext() returns (r: Result<nat, BitSetError>)
      requires Valid()
      modifies this
      ensures Valid() && size == old(size)
      ensures r.Success? ==>
                && r.value < size && r.value !in old(Members(inner)) && (forall j: nat :: j < r.value ==> j in old(Members(inner)))
                && Members(inner) == old(Members(inner)) + {r.value}
      ensures r.Failure? ==>
                && r.error == Full && (forall j: nat :: j < size ==> j in old(Members(inner)))
                && Members(inner) == old(Members(inner))
    {
      var index :- GetMinUnsetIndex();
      r := Set(index, true);
    }

    method IsFull() returns (full: bool)
      requires Valid()
      ensures full <==> forall j: nat :: j < size ==> j in Members(inner)
    {
      var r := GetMinUnsetIndex();
      full := r.Failure?;
    }

    method ClearAll()
      requires Valid()
      modifies this
      ensures Valid() && size == old(size) && Members(inner) == {}
    {
      inner := seq(|inner|, _ => 0);
      forall i: nat | i < 128 * |inner|
        ensures !Bit(inner[i / 128], i % 128)
      {
        ZeroBit(i % 128);
      }
    }

    /** `is_empty` adds the words up in a word, which wraps. */
    method IsEmpty() returns (empty: bool)
      ensures empty <==> WrappedSum(inner) == 0
    {
      hide Pow2;
      var total: u128 := 0;
      for i := 0 to |inner|
        invariant total == WrappedSum(inner[..i])
      {
        assert inner[..i + 1][..i] == inner[..i];
        total := WrappingAdd(total, inner[i]);
      }
      assert inner[..|inner|] == inner;
      empty := total == 0;
    }
  }

  function Updated(words: seq<u128>, index: nat, w: u128): (r: seq<u128>)
    requires index / 128 < |words|
    ensures |r| == |words|
  {
    words[index / 128 := w]
  }

  lemma AddMember(words: seq<u128>, index: nat)
    requires index / 128 < |words|
    requires WithBit(words[index / 128], index % 128) < Pow2(128)
    ensures Members(Updated(words, index, WithBit(words[index / 128], index % 128))) == Members(words) + {index}
  {
    hide Bit, WithBit, Pow2;
    var v, n := index / 128, index % 128;
    var after := Updated(words, index, WithBit(words[v], n));
    forall i: nat | i < 128 * |words|
      ensures Bit(after[i / 128], i % 128) <==> i == index || Bit(words[i / 128], i % 128)
    {
      WithBitSpec(words[v], n, i % 128);
    }
  }

  lemma RemoveMember(words: seq<u128>, index: nat)
    requires index / 128 < |words|
    requires 0 <= WithoutBit(words[index / 128], index % 128) < Pow2(128)
    ensures Members(Updated(words, index, WithoutBit(words[index / 128], index % 128))) == Members(words) - {index}
  {
    hide Bit, WithoutBit, Pow2;
    var v, n := index / 128, index % 128;
    var after := Updated(words, index, WithoutBit(words[v], n));
    forall i: nat | i < 128 * |words|
      ensures Bit(after[i / 128], i % 128) <==> i != index && Bit(words[i / 128], i % 128)
    {
      WithoutBitSpec(words[v], n, i % 128);
    }
  }

  // ---------------------------------------------------------------- emptiness

  lemma {:induction false} SumZero(words: seq<u128>)
    ensures Sum(words) == 0 <==> forall k :: 0 <= k < |words| ==> words[k] == 0
  {
    if words != [] {
      var last := |words| - 1;
      SumZero(words[..last]);
      assert forall k :: 0 <= k < last ==> words[..last][k] == words[k];
    }
  }

  /** The set is empty exactly when the words add up to zero without wrapping. */
  lemma EmptyIffZero(words: seq<u128>)
    ensures Members(words) == {} <==> Sum(words) == 0
  {
    hide Bit, Pow2;
    SumZero(words);
    if Members(words) == {} {
      forall k | 0 <= k < |words|
        ensures words[k] == 0
      {
        forall i | 0 <= i < 128
          ensures !Bit(words[k], i)
        {
          var j: nat := 128 * k + i;
          assert j / 128 == k && j % 128 == i && j !in Members(words);
        }
        NoBits(words[k], 128);
      }
    }
    if Sum(words) == 0 {
      forall i: nat | i < 128 * |words|
        ensures !Bit(words[i / 128], i % 128)
      {
        ZeroBit(i % 128);
      }
    }
  }

  /** `c` times 2^128. */
  function Multiple(c: nat): (r: nat)
    ensures c > 0 ==> r >= Pow2(128)
    ensures c == 0 ==> r == 0
  {
    if c == 0 then 0 else Multiple(c - 1) + Pow2(128)
  }

  lemma {:induction false} SumSplit(words: seq<u128>)
    ensures Sum(words) == WrappedSum(words) + Multiple(Carries(words))
  {
    hide Pow2;
    if words != [] {
      SumSplit(words[..|words| - 1]);
    }
  }

  lemma {:induction false} Apart(p: nat, q: nat, q': nat)
    requires q < q'
    ensures p * q + p <= p * q'
    decreases q'
  {
    if q + 1 < q' {
      Apart(p, q, q' - 1);
      assert p * q' == p * (q' - 1) + p;
    } else {
      assert p * (q + 1) == p * q + p;
    }
  }

  lemma SameRemainder(p: nat, q: nat, r: nat, q': nat, r': nat)
    requires r < p && r' < p && p * q + r == p * q' + r'
    ensures r == r'
  {
    if q < q' {
      Apart(p, q, q');
      assert false;
    } else if q' < q {
      Apart(p, q', q);
      assert false;
    }
  }

  lemma ModStep(x: nat, p: nat)
    requires p > 0
    ensures (x + p) % p == x % p
  {
    SameRemainder(p, (x + p) / p, (x + p) % p, x / p + 1, x % p);
  }

  lemma {:induction false} ModMultiple(w: nat, c: nat)
    requires w < Pow2(128)
    ensures (w + Multiple(c)) % Pow2(128) == w
  {
    hide Pow2;
    if c > 0 {
      ModMultiple(w, c - 1);
      ModStep(w + Multiple(c - 1), Pow2(128));
    }
  }

  /** `is_empty` is right about a set if and only if the sum of its words is not a positive multiple of 2^128. */
  lemma IsEmptyIff(words: seq<u128>)
    ensures (WrappedSum(words) == 0 <==> Members(words) == {}) <==> !(Sum(words) > 0 && Sum(words) % Pow2(128) == 0)
  {
    hide Members, Pow2, WrappedSum, Sum;
    EmptyIffZero(words);
    SumSplit(words);
    ModMultiple(WrappedSum(words), Carries(words));
  }

  /** Bits 127 and 255 together are taken for an empty set. */
  lemma WrappedSumLooksEmpty()
    ensures Pow2(127) < Pow2(128)
    ensures var words: seq<u128> := [Pow2(127), Pow2(127)];
            WrappedSum(words) == 0 && Members(words) != {}
  {
    var half := Pow2(127);
    assert Pow2(128) == 2 * half;
    var words: seq<u128> := [half, half];
    assert words[..1] == [half] && [half][..0] == [];
    assert WrappedSum([half]) == half && Sum([half]) == half;
    EmptyIffZero(words);
  }
}
