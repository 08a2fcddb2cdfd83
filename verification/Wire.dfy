/**
 Big-endian reads and writes on a byte buffer (the `bytes` crate calls of the codec).
 Every read is given twice: as a function from the bytes to a value and the bytes left over, and
 as a method that consumes from a `BytesMut`.  A read past the end of the buffer and an array index
 out of range panic in the daemon; here they are the error `Panicked`.  Integer arithmetic wraps,
 as it does in the release build that the Dockerfile makes.
 */
module Wire {
  import opened Base

  datatype Error =
    | Panicked
    | BadMessageLength(length: nat)
    | BadMessageType(val: u8)
    | UnsupportedVersionNumber
    | BadPeerAS
    | UnsupportedOptionalParameter
    | Unspecific
    | MalformedAttributeList
    | MissingWellKnownAttribute(code: u8)
    | AttributeFlagsError(attr: u8, attrLength: nat, flags: u8)
    | UnrecognizedWellknownAttribute(unknown: u8)
    | InvalidOriginAttribute(origin: u8)
    | OptionalAttributeError
    | InvalidNetworkField
    | UnrecognizedNotificationCode
    | UnrecognizedNotificationSubCode
    | RouteRefreshMessageError

  /** The outcome of reading from the front of a buffer: a value and what is left, or an error. */
  datatype Parse<+T> = Ok(value: T, rest: Bytes) | Bad(error: Error) {
    predicate IsFailure() { Bad? }

    function PropagateFailure<U>(): Parse<U>
      requires Bad?
    {
      Bad(error)
    }

    function Extract(): (T, Bytes)
      requires Ok?
    {
      (value, rest)
    }
  }

  function Join16(a: u8, b: u8): u16 { a * 0x100 + b }

  function Join32(a: u8, b: u8, c: u8, d: u8): u32 { a * 0x100_0000 + b * 0x1_0000 + c * 0x100 + d }

  function Join64(hi: u32, lo: u32): u64 { hi * 0x1_0000_0000 + lo }

  /** `usize` subtraction. */
  function Sub(a: nat, b: nat): nat { (a - b) % 0x1_0000_0000_0000_0000 }

  function Take(s: Bytes, n: nat): Parse<Bytes> {
    if n <= |s| then Ok(s[..n], s[n..]) else Bad(Panicked)
  }

  function U8(s: Bytes): Parse<u8> {
    if |s| >= 1 then Ok(s[0], s[1..]) else Bad(Panicked)
  }

  function U16(s: Bytes): Parse<u16> {
    if |s| >= 2 then Ok(Join16(s[0], s[1]), s[2..]) else Bad(Panicked)
  }

  function U32(s: Bytes): Parse<u32> {
    if |s| >= 4 then Ok(Join32(s[0], s[1], s[2], s[3]), s[4..]) else Bad(Panicked)
  }

  function U64(s: Bytes): Parse<u64> {
    var (hi, s1) :- U32(s);
    var (lo, s2) :- U32(s1);
    Ok(Join64(hi, lo), s2)
  }

  function Put16(n: u16): Bytes {
    [n / 0x100, n % 0x100]
  }

  function Put32(n: u32): Bytes {
    [n / 0x100_0000, n / 0x1_0000 % 0x100, n / 0x100 % 0x100, n % 0x100]
  }

  function Put64(n: u64): Bytes {
    Put32(n / 0x1_0000_0000) + Put32(n % 0x1_0000_0000)
  }

  /** Elements already read, followed by what a further read gives. */
  function Prepend<T>(ps: seq<T>, p: Parse<seq<T>>): Parse<seq<T>> {
    match p
    case Ok(more, rest) => Ok(ps + more, rest)
    case Bad(e) => Bad(e)
  }

  lemma PrependNone<T>(p: Parse<seq<T>>)
    ensures Prepend([], p) == p
  {
    if p.Ok? {
      assert [] + p.value == p.value;
    }
  }

  lemma PrependOne<T>(ps: seq<T>, x: T, p: Parse<seq<T>>)
    ensures Prepend(ps, Prepend([x], p)) == Prepend(ps + [x], p)
  {
    if p.Ok? {
      assert ps + ([x] + p.value) == ps + [x] + p.value;
    }
  }

  /** The method result `r`, with `rest` left in the buffer, is what the function reads. */
  ghost predicate Agrees<T>(r: Result<T, Error>, rest: Bytes, p: Parse<T>) {
    match p
    case Ok(v, rest') => r == Success(v) && rest == rest'
    case Bad(e) => r == Failure(e)
  }

  class BytesMut {
    var data: Bytes

    constructor (bytes: Bytes)
      ensures data == bytes
    {
      data := bytes;
    }

    /** `copy_to_bytes`, `get_u128` as sixteen octets, `get_u32` as four. */
    method GetSlice(n: nat) returns (r: Result<Bytes, Error>)
      modifies this
      ensures Agrees(r, data, Take(old(data), n))
    {
      if |data| < n {
        return Failure(Panicked);
      }
      r := Success(data[..n]);
      data := data[n..];
    }

    /** A read that the caller has made sure will not run off the end. */
    method Advance(n: nat) returns (bytes: Bytes)
      requires n <= |data|
      modifies this
      ensures bytes == old(data)[..n] && data == old(data)[n..]
    {
      bytes := data[..n];
      data := data[n..];
    }

    method GetU8() returns (r: Result<u8, Error>)
      modifies this
      ensures Agrees(r, data, U8(old(data)))
    {
      if |data| < 1 {
        return Failure(Panicked);
      }
      r := Success(data[0]);
      data := data[1..];
    }

    method GetU16() returns (r: Result<u16, Error>)
      modifies this
      ensures Agrees(r, data, U16(old(data)))
    {
      if |data| < 2 {
        return Failure(Panicked);
      }
      r := Success(Join16(data[0], data[1]));
      data := data[2..];
    }

    method GetU32() returns (r: Result<u32, Error>)
      modifies this
      ensures Agrees(r, data, U32(old(data)))
    {
      if |data| < 4 {
        return Failure(Panicked);
      }
      r := Success(Join32(data[0], data[1], data[2], data[3]));
      data := data[4..];
    }

    method GetU64() returns (r: Result<u64, Error>)
      modifies this
      ensures Agrees(r, data, U64(old(data)))
    {
      var hi :- GetU32();
      var lo :- GetU32();
      r := Success(Join64(hi, lo));
    }

    method Put(bytes: Bytes)
      modifies this
      ensures data == old(data) + bytes
    {
      data := data + bytes;
    }

    method PutU8(b: u8)
      modifies this
      ensures data == old(data) + [b]
    {
      data := data + [b];
    }

    /** `write_u16::<NetworkEndian>` at an offset, over bytes already in the buffer. */
    method Patch16(at: nat, n: u16)
      requires at + 2 <= |data|
      modifies this
      ensures data == old(data)[..at] + Put16(n) + old(data)[at + 2..]
    {
      data := data[at := n / 0x100][at + 1 := n % 0x100];
    }
  }

  lemma TakeInverts(a: Bytes, rest: Bytes)
    ensures Take(a + rest, |a|) == Ok(a, rest)
  {
    assert (a + rest)[..|a|] == a && (a + rest)[|a|..] == rest;
  }

  lemma U8Inverts(b: u8, rest: Bytes)
    ensures U8([b] + rest) == Ok(b, rest)
  {
    assert ([b] + rest)[1..] == rest;
  }

  lemma U16Inverts(n: u16, rest: Bytes)
    ensures U16(Put16(n) + rest) == Ok(n, rest)
  {
    assert (Put16(n) + rest)[2..] == rest;
  }

  lemma U32Inverts(n: u32, rest: Bytes)
    ensures U32(Put32(n) + rest) == Ok(n, rest)
  {
    assert (Put32(n) + rest)[4..] == rest;
    Base256(n);
  }

  lemma Base256(n: u32)
    ensures n == n / 0x100_0000 * 0x100_0000 + n / 0x1_0000 % 0x100 * 0x1_0000 + n / 0x100 % 0x100 * 0x100 + n % 0x100
  {
    assert n / 0x1_0000 == n / 0x100 / 0x100;
    assert n / 0x100_0000 == n / 0x1_0000 / 0x100;
  }

  lemma U64Inverts(n: u64, rest: Bytes)
    ensures U64(Put64(n) + rest) == Ok(n, rest)
  {
    var hi, lo := n / 0x1_0000_0000, n % 0x1_0000_0000;
    assert Put64(n) + rest == Put32(hi) + (Put32(lo) + rest);
    U32Inverts(hi, Put32(lo) + rest);
    U32Inverts(lo, rest);
  }
}
