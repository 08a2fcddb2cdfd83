/** A path as the tables hold it (`sartd/src/bgp/src/path.rs`). */
module Paths {
  import opened Base
  import opened Net
  import opened Family
  import Attributes

  datatype Reason =
    | OnlyPath
    | Weight
    | LocalPref
    | LocalOriginated
    | ASPath
    | Origin
    | MultiExitDisc
    | External
    | IGPMetric
    | OlderRoute
    | RouterId
    | PeerAddr
    | EqualCostMultiPath
    | NotBest

  datatype PathKind = Local | Internal | Ebgp

  /** What is known about a path from its announcement. */
  datatype Announcement = Announcement(
    localId: Octets4,
    localAsn: u32,
    peerId: Octets4,
    peerAddr: IpAddr,
    peerAsn: u32,
    family: AddressFamily,
    origin: u8,
    localPref: u32,
    med: u32,
    asSequence: seq<u32>,
    asSet: seq<u32>,
    nextHops: seq<IpAddr>,
    propagate: seq<Attributes.Attribute>,
    prefix: IpNet)
  {
    predicate IsLocal() { localId == peerId }

    predicate IsIbgp() { localAsn == peerAsn }

    /** `is_equal_cost`: local origination does not enter. */
    predicate EqualCost(other: Announcement) {
      && localPref == other.localPref
      && |asSequence| == |other.asSequence|
      && origin == other.origin
      && med == other.med
      && IsIbgp() == other.IsIbgp()
    }

    /** The fields that `PartialEq for Path` looks at. */
    predicate SharesField(other: Announcement) {
      || localId == other.localId
      || localAsn == other.localAsn
      || peerId == other.peerId
      || peerAddr == other.peerAddr
      || peerAsn == other.peerAsn
      || family == other.family
      || origin == other.origin
      || localPref == other.localPref
      || med == other.med
      || asSequence == other.asSequence
      || asSet == other.asSet
      || nextHops == other.nextHops
      || propagate == other.propagate
      || prefix == other.prefix
    }
  }

  /** A stored path: its identifier, its announcement, and what the table notes about it. */
  datatype Path = Path(id: u64, best: bool, reason: Reason, timestamp: nat, what: Announcement) {

    function Prefix(): IpNet { what.prefix }

    /** `PartialEq for Path`: a disjunction, so one shared field is enough. */
    predicate SameAs(other: Path) { what.SharesField(other.what) }

    predicate IsLocal() { what.IsLocal() }

    predicate IsIbgp() { what.IsIbgp() }

    predicate IsExternal() { !IsLocal() && !IsIbgp() }

    function Kind(): PathKind {
      if IsLocal() then Local else if IsIbgp() then Internal else Ebgp
    }

    predicate EqualCost(other: Path) { what.EqualCost(other.what) }
  }
}
