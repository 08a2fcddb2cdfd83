/** NLRI prefixes (`sartd/src/bgp/src/packet/prefix.rs`). */
module Prefixes {
  import opened Base
  import opened Net
  import opened Family
  import opened Wire

  datatype Prefix = Prefix(inner: IpNet, pathId: Option<u32>)

  /** The octets needed for `n` bits. */
  function BytesLen(n: u8): (r: nat)
    ensures 8 * r - 8 < n <= 8 * r
  {
    if n % 8 == 0 then n / 8 else n / 8 + 1
  }

  function AfiOfNet(net: IpNet): Afi {
    if net.Net4? then IPv4 else IPv6
  }

  function AddrSize(afi: Afi): nat {
    match afi
    case IPv4 => 4
    case IPv6 => 16
  }

  function Zeros(n: nat): (z: Bytes)
    ensures |z| == n && forall i :: 0 <= i < n ==> z[i] == 0
  {
    seq(n, _ => 0)
  }

  function Encode(p: Prefix): Bytes {
    (if p.pathId.Some? then Put32(p.pathId.value) else [])
    + [p.inner.PrefixLen()]
    + p.inner.Addr()[..BytesLen(p.inner.PrefixLen())]
  }

  function Len(p: Prefix): nat {
    (if p.pathId.Some? then 5 else 1) + BytesLen(p.inner.PrefixLen())
  }

  /** `Ipv4Net::new` / `Ipv6Net::new` refuse a prefix length longer than the address. */
  function MakeNet(afi: Afi, octets: Bytes, length: u8): (r: Result<IpNet, Error>)
    requires |octets| == AddrSize(afi)
    ensures r.Success? ==> r.value.Addr() == octets && r.value.PrefixLen() == length && AfiOfNet(r.value) == afi
    ensures r.Success? <==> length <= 8 * AddrSize(afi)
    ensures r.Failure? ==> r.error == InvalidNetworkField
  {
    match afi
    case IPv4 => if length <= 32 then Success(Net4(octets, length)) else Failure(InvalidNetworkField)
    case IPv6 => if length <= 128 then Success(Net6(octets, length)) else Failure(InvalidNetworkField)
  }

  function PathId(addPath: bool, s: Bytes): Parse<Option<u32>> {
    if addPath then
      var (id, rest) :- U32(s);
      Ok(Some(id), rest)
    else Ok(None, s)
  }

  function Parse1(afi: Afi, addPath: bool, s: Bytes): Parse<Prefix> {
    var (id, s0) :- PathId(addPath, s);
    var (length, s1) :- U8(s0);
    var n, size := BytesLen(length), AddrSize(afi);
    if n > size then Bad(Panicked)
    else
      var (octets, s2) :- Take(s1, n);
      match MakeNet(afi, octets + Zeros(size - n), length)
      case Failure(e) => Bad(e)
      case Success(net) => Ok(Prefix(net, id), s2)
  }

  /** Prefixes up to the point where at most `tail` bytes remain. */
  function ParseMany(afi: Afi, s: Bytes, tail: nat): (p: Parse<seq<Prefix>>)
    ensures p.Ok? ==> |p.rest| <= |s|
    decreases |s|
  {
    if |s| <= tail then Ok([], s)
    else
      var (p, s1) :- Parse1(afi, false, s);
      Prepend([p], ParseMany(afi, s1, tail))
  }

  function EncodeMany(ps: seq<Prefix>): Bytes {
    if ps == [] then [] else Encode(ps[0]) + EncodeMany(ps[1..])
  }

  function LenMany(ps: seq<Prefix>): nat {
    if ps == [] then 0 else Len(ps[0]) + LenMany(ps[1..])
  }

  // ---------------------------------------------------------------- the decoder in place

  /** The loop that fills the address array `b`, one octet at a time. */
  method Fill(src: BytesMut, b: array<u8>, n: nat) returns (r: Result<(), Error>)
    requires b[..] == Zeros(b.Length)
    modifies src, b
    ensures n > b.Length || n > |old(src.data)| ==> r == Failure(Panicked)
    ensures n <= b.Length && n <= |old(src.data)| ==>
              r == Success(()) && src.data == old(src.data)[n..]
              && b[..] == old(src.data)[..n] + Zeros(b.Length - n)
  {
    ghost var start := src.data;
    var i := 0;
    while i < n
      invariant 0 <= i <= n && i <= b.Length
      invariant i <= |start| && src.data == start[i..]
      invariant forall k :: 0 <= k < i ==> b[k] == start[k]
      invariant forall k :: i <= k < b.Length ==> b[k] == 0
    {
      if i >= b.Length {
        return Failure(Panicked);
      }
      var octet :- src.GetU8();
      b[i] := octet;
      i := i + 1;
    }
    r := Success(());
  }

  method Decode(src: BytesMut, afi: Afi, addPath: bool) returns (r: Result<Prefix, Error>)
    modifies src
    ensures Agrees(r, src.data, Parse1(afi, addPath, old(src.data)))
  {
    var pathId := None;
    if addPath {
      var id :- src.GetU32();
      pathId := Some(id);
    }
    var length :- src.GetU8();
    var b := new u8[AddrSize(afi)](_ => 0);
    var n := BytesLen(length);
    var _ :- Fill(src, b, n);
    match MakeNet(afi, b[..], length)
    case Failure(e) => r := Failure(e);
    case Success(net) => r := Success(Prefix(net, pathId));
  }

  /** The loop that reads prefixes until `tail` bytes are left. */
  method DecodeUntil(src: BytesMut, afi: Afi, tail: nat) returns (r: Result<seq<Prefix>, Error>)
    modifies src
    ensures Agrees(r, src.data, ParseMany(afi, old(src.data), tail))
  {
    var ps := [];
    ghost var start := ParseMany(afi, src.data, tail);
    PrependNone(start);
    while |src.data| > tail
      invariant start == Prepend(ps, ParseMany(afi, src.data, tail))
      decreases |src.data|
    {
      var p :- Decode(src, afi, false);
      PrependOne(ps, p, ParseMany(afi, src.data, tail));
      ps := ps + [p];
    }
    assert ps + [] == ps;
    r := Success(ps);
  }

  lemma {:induction false} EncodeSnoc(ps: seq<Prefix>, p: Prefix)
    ensures EncodeMany(ps + [p]) == EncodeMany(ps) + Encode(p)
  {
    if ps != [] {
      EncodeSnoc(ps[1..], p);
      assert (ps + [p])[1..] == ps[1..] + [p];
    }
  }

  /** The loops that append each prefix of a list to the buffer. */
  method Write(ps: seq<Prefix>, dst: BytesMut)
    modifies dst
    ensures dst.data == old(dst.data) + EncodeMany(ps)
  {
    hide Encode;
    for i := 0 to |ps|
      invariant dst.data == old(dst.data) + EncodeMany(ps[..i])
    {
      EncodeSnoc(ps[..i], ps[i]);
      assert ps[..i + 1] == ps[..i] + [ps[i]];
      dst.Put(Encode(ps[i]));
    }
    assert ps[..|ps|] == ps;
  }

  // ---------------------------------------------------------------- laws

  /** The octets after the ones that hold prefix bits are zero. */
  predicate Padded(net: IpNet) {
    forall i :: BytesLen(net.PrefixLen()) <= i < |net.Addr()| ==> net.Addr()[i] == 0
  }

  lemma LenAgrees(p: Prefix)
    ensures |Encode(p)| == Len(p)
  {
  }

  /** A prefix survives the wire exactly when its address has no octet set past the prefix bytes. */
  lemma RoundTripIff(p: Prefix, rest: Bytes)
    ensures Parse1(AfiOfNet(p.inner), p.pathId.Some?, Encode(p) + rest) == Ok(p, rest) <==> Padded(p.inner)
  {
    hide U32, Put32;
    var n, a := BytesLen(p.inner.PrefixLen()), p.inner.Addr();
    var body := [p.inner.PrefixLen()] + (a[..n] + rest);
    if p.pathId.Some? {
      assert Encode(p) + rest == Put32(p.pathId.value) + body;
      U32Inverts(p.pathId.value, body);
    } else {
      assert Encode(p) + rest == body;
    }
    U8Inverts(p.inner.PrefixLen(), a[..n] + rest);
    TakeInverts(a[..n], rest);
    assert a == a[..n] + Zeros(|a| - n) <==> Padded(p.inner);
  }

  /** The prefix length check of `Ipv4Net::new` is never the one that fails: the octet array overflows first. */
  lemma NeverInvalidNetwork(afi: Afi, addPath: bool, s: Bytes)
    ensures Parse1(afi, addPath, s) != Bad(InvalidNetworkField)
  {
  }

  predicate WellFormed(ps: seq<Prefix>, afi: Afi) {
    forall p <- ps :: AfiOfNet(p.inner) == afi && Padded(p.inner) && p.pathId.None?
  }

  lemma {:induction false} ManyRoundTrip(ps: seq<Prefix>, afi: Afi, rest: Bytes)
    requires WellFormed(ps, afi)
    ensures ParseMany(afi, EncodeMany(ps) + rest, |rest|) == Ok(ps, rest)
  {
    if ps != [] {
      var more := EncodeMany(ps[1..]) + rest;
      assert EncodeMany(ps) + rest == Encode(ps[0]) + more;
      RoundTripIff(ps[0], more);
      ManyRoundTrip(ps[1..], afi, rest);
      assert [ps[0]] + ps[1..] == ps;
    } else {
      assert EncodeMany(ps) + rest == rest;
    }
  }

  lemma {:induction false} ManyLenAgrees(ps: seq<Prefix>)
    ensures |EncodeMany(ps)| == LenMany(ps)
  {
    if ps != [] {
      LenAgrees(ps[0]);
      ManyLenAgrees(ps[1..]);
    }
  }
}
