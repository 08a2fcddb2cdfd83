# Sart: what its routing core keeps

Sart is a BGP daemon with a forwarding-table daemon and an IP address manager for Kubernetes load balancers.  This
project models its routing core in Dafny and proves what that core promises.

| component | source | modules |
|---|---|---|
| BGP wire format | `sartd/src/bgp/src/packet/` | `Wire`, `Prefixes`, `Capabilities`, `Attributes`, `AttributeLaws`, `Messages`, `Codec`, `CodecLaws`, `WireFormat` |
| AS paths on the wire | `sartd/src/bgp/src/path.rs` | `Paths`, `PathBuilding`, `PathLaws`, `PathFields` |
| best path selection and the Loc-RIB | `sartd/src/bgp/src/rib.rs` | `Decision`, `DecisionFields`, `LocRibs`, `LocRibLists`, `MarkLaws`, `LocRibOrder`, `LocRibRuns`, `LocRibReplay`, `LocRibCounts`, `RibManagers`, `RibManagerLaws`, `TellLaws`, `BatchLaws`, `DeleteLaws`, `Witnesses` |
| session state machine | `sartd/src/bgp/src/peer/fsm.rs` | `Fsm` |
| address and block allocation | `sartd/src/ipam/src/` | `Bits`, `BitSets`, `Addresses`, `Allocators`, `Pools` |
| forwarding table | `sartd/src/fib/src/` | `FibRib` |

`Base`, `Net` and `Family` hold integers, addresses and address families.  `dafny verify dfyconfig.toml` checks the project.

Code that updates things in place is a class or a loop here too (`BytesMut`, `PathBuilder`, `LocRib`, `RibManager`,
`BitSet`, `BitAllocator`, `Pool`, `Rib`, `FiniteStateMachine`).  Each of its methods is proved equal to a function, or
an instance of a relation, on values; the laws are about those, over all inputs and all runs.  What the functions compute
is stated once more without them: bytes by number in `WireFormat`, paths by field in `PathFields` and `DecisionFields`,
lists, reports and FIB requests by the old list in `MarkLaws` and `TellLaws`, states by the events in `Fsm.StateIff`.  Arithmetic wraps at the
source's widths, as in the release build that the Dockerfile makes; an overrun of a buffer, array or vector is the error
value `Panicked` (`IndexOutOfRange` when a path is built).

## What does not hold

Each of these is stated as an if-and-only-if, with an input for the failing side.

- An OPEN is refused, though well-formed, when enough bytes follow it in the buffer: the remaining byte count is cast
  to one byte (`sartd/src/bgp/src/packet/codec.rs:121`).  `CodecLaws.StreamRoundTripIff`, `CodecLaws.LongTailRefused`.
- The mask of extended communities keeps one bit of every four (`sartd/src/bgp/src/packet/attribute.rs:316`).
  `AttributeLaws.ExtendedRoundTripIff`, `AttributeLaws.ExtendedBitsAreLost`.
- A large AS number in an AS set, or AS_TRANS itself in a path, does not survive a session.
  `PathLaws.TwoOctetRoundTripIff`, `PathLaws.FourOctetRoundTripIff`, `PathLaws.LargeSetMemberIsLost`,
  `PathLaws.TransCannotBeBuilt`.
- A new path overtakes a stored one as soon as any criterion prefers it, even if an earlier criterion speaks against it.
  `LocRibOrder.SortedInsertIff`, `LocRibRuns.RunSortedIff`, `Witnesses.ShorterPathBeatsPreference`.
- The comment that a displacing path is placed at index 0 (`sartd/src/bgp/src/rib.rs:317`) is right only when paths of
  equal cost are all local or all not.  `LocRibLists.MultiInsertIff`, `Witnesses.DisagreementBreaksPrefix`.
- After the only best path has gone several paths can become best, and one is reported.  `LocRibReplay.RunExactIff`,
  `Witnesses.SecondBestGoesUnreported`.
- A batch of withdrawals can fail after its withdrawals have gone out, when it removes a path that it has just made
  best: `delete_path` makes such batches.  `RibManagerLaws.DropBatch`, `DeleteLaws.DeleteBatchIff`,
  `Witnesses.DroppedBestCannotBeTold`.
- `install_paths` sends nothing but heads only if no announcement of the batch is overtaken within it.  The batches of
  its two callers meet this, in multi-path mode as long as paths of equal cost agree on local origination.
  `RibManagerLaws.InstallBatch`, `RibManagerLaws.BuiltBatch`,
  `Witnesses.RepeatedPrefixAdvertisesOldBest`.
- `is_empty` wraps around.  `BitSets.IsEmptyIff`, `BitSets.WrappedSumLooksEmpty`.
- A block name that is used twice, or a release of a free index while the empty name is in use, loses a block.
  `Pools.RunConsistentIff`, `Pools.ReusedNameLeaksBlock`, `Pools.EmptyNameLosesBlock`.
- The FIB does not report every change of a published route.  `FibRib.RunMirrorsIff`, `FibRib.ReplacementGoesUnreported`.

Two branches of the decoder are never taken, on any input: the invalid-network error of a prefix
(`Prefixes.NeverInvalidNetwork`), and the case for an attribute with an unknown code (`AttributeLaws.NeverUnsupported`).

## Model

| member | source | states |
|---|---|---|
| `Prefixes.Fill` | sartd/src/bgp/src/packet/prefix.rs:34-45 | the octet loop fills the address array with the next bytes and leaves zeros behind them; it panics when the array or the buffer is too short |
| `Prefixes.Decode` | sartd/src/bgp/src/packet/prefix.rs:24-63 | the decoder reads a prefix, and advances the buffer, exactly as the parser `Parse1` on the buffer's contents says, errors and panics included |
| `Prefixes.DecodeUntil` | sartd/src/bgp/src/packet/codec.rs:156-164 | the loop over a section reads the prefixes that `ParseMany` reads, down to the given number of bytes |
| `Prefixes.Write` | sartd/src/bgp/src/packet/codec.rs:273-297 | the writing loop appends the encodings of all prefixes, in order, to what the buffer held |
| `Prefixes.RoundTripIff` | sartd/src/bgp/src/packet/prefix.rs:24-87 | for every prefix, path identifier and following bytes: decoding the encoding gives the prefix back and consumes exactly its bytes, if and only if no address octet past the prefix bytes is set |
| `Prefixes.NeverInvalidNetwork` | sartd/src/bgp/src/packet/prefix.rs:46-60 | on no input is the invalid-network error reported: an over-long prefix length overruns the octet array first |
| `Prefixes.ManyRoundTrip` | sartd/src/bgp/src/packet/prefix.rs:24-87 | a whole section of prefixes is read back, whatever follows it |
| `Prefixes.LenAgrees` | sartd/src/bgp/src/packet/prefix.rs:65-103 | `len` is the number of bytes `encode` writes |
| `Prefixes.ManyLenAgrees` | sartd/src/bgp/src/packet/prefix.rs:65-103 | the lengths of a section add up to the bytes written for it |
| `Capabilities.Decode` | sartd/src/bgp/src/packet/capability.rs:34-83 | the decoder reads a capability as the parser `Parse1` does, with its wrapping arithmetic on the remaining length |
| `Capabilities.LenAgrees` | sartd/src/bgp/src/packet/capability.rs:85-164 | `encode` writes two bytes and then `len` bytes, for every capability |
| `Capabilities.BodyRoundTrip` | sartd/src/bgp/src/packet/capability.rs:34-164 | a capability whose fields fit their widths is read back from its value bytes, and no byte more is consumed |
| `Attributes.Decode` | sartd/src/bgp/src/packet/attribute.rs:230-398 | the attribute decoder reads and advances exactly as `Parse1` does, for all attribute codes, flag errors, length errors and panics |
| `Attributes.Write` | sartd/src/bgp/src/packet/attribute.rs:400-539 | `encode` appends the attribute's encoding to the buffer, in both AS number widths |
| `AttributeLaws.LenAgrees` | sartd/src/bgp/src/packet/attribute.rs:400-594 | for every attribute in both AS number widths, `encode` writes the header (three bytes, four when extended) and exactly `len` bytes |
| `AttributeLaws.ManyLenAgrees` | sartd/src/bgp/src/packet/codec.rs:281-288 | the attribute section's announced length is the number of bytes written |
| `AttributeLaws.RoundTrip` | sartd/src/bgp/src/packet/attribute.rs:230-594 | a well-formed attribute is read back from the front of any buffer, and exactly its bytes are consumed |
| `AttributeLaws.SegmentTruncated` | sartd/src/bgp/src/packet/attribute.rs:265-288 | for an AS segment of any length: reading it back gives its first numbers, as many as the count modulo 256, and leaves the bytes of the others in front of what follows |
| `AttributeLaws.SegmentRoundTripIff` | sartd/src/bgp/src/packet/attribute.rs:265-288 | an AS segment is read back if and only if it has fewer than 256 numbers |
| `AttributeLaws.ExtendedRoundTripIff` | sartd/src/bgp/src/packet/attribute.rs:313-318 | an extended community is read back if and only if the mask 0x1111_1111_1111 leaves its value alone |
| `AttributeLaws.MaskBits` | sartd/src/bgp/src/packet/attribute.rs:313-318 | the mask bit by bit: of the first 48 bits every fourth stays and all others go |
| `AttributeLaws.ExtendedBitsAreLost` | sartd/src/bgp/src/packet/attribute.rs:313-318 | an input: the extended community value 2 does not survive |
| `AttributeLaws.NeverUnsupported` | sartd/src/bgp/src/packet/attribute.rs:244-398 | on no input does the decoder produce an unsupported attribute: the flag check refuses every unknown code first |
| `Messages.SubCodeRoundTripIff` | sartd/src/bgp/src/packet/message.rs:240-298 | a notification subcode is read back exactly when it belongs to the code it is sent under, or when there is none and the code has none to demand |
| `Codec.DecodeMsg` | sartd/src/bgp/src/packet/codec.rs:78-234 | one message is decoded as `ParseMsg` says, with the header checks, the OPEN length cast, the duplicate and mandatory attribute checks and all error values |
| `Codec.Decode` | sartd/src/bgp/src/packet/codec.rs:53-75 | the stream decoder returns every message of the buffer, in order, or the first error |
| `Codec.Encode` | sartd/src/bgp/src/packet/codec.rs:236-323 | `encode` appends a message with a placeholder length and patches the length in afterwards: the result is the old buffer followed by `EncodeMsg` |
| `CodecLaws.SectionLengths` | sartd/src/bgp/src/packet/codec.rs:273-291 | the two section lengths written into an UPDATE are the lengths of the sections |
| `CodecLaws.MsgLength` | sartd/src/bgp/src/packet/codec.rs:318-322 | the back-patched header length is the number of bytes written, whenever that fits sixteen bits |
| `CodecLaws.MsgInverts` | sartd/src/bgp/src/packet/codec.rs:78-323 | a well-formed message at the front of any buffer is read back with exactly its bytes consumed, or refused, according to whether the cast of the bytes behind an OPEN lets it through |
| `CodecLaws.StreamRoundTripIff` | sartd/src/bgp/src/packet/codec.rs:53-323 | decoding the concatenated encodings of any list of well-formed messages gives exactly that list and consumes every byte, if and only if each OPEN's option length plus the number of bytes behind it modulo 256 stays below 256; otherwise an error is reported |
| `CodecLaws.LongTailRefused` | sartd/src/bgp/src/packet/codec.rs:119-125 | an input: a well-formed OPEN with 16 option bytes, followed by a 240-byte NOTIFICATION, is refused |
| `WireFormat.RefusedFlags` | sartd/src/bgp/src/packet/attribute.rs:792-815 | by number, for every flag byte, code and value: an attribute is refused for its flags if and only if it is 1, 2 or 3 and optional, 4 and not optional or transitive, 7, 8 or 14 to 18 and not optional, or of a code not in 1 to 8 and 14 to 18; never for 5 and 6 |
| `WireFormat.OriginBytes` | sartd/src/bgp/src/packet/attribute.rs:256-264 | the bytes of attribute 1 are an ORIGIN of 0, 1 or 2; any other value is refused |
| `WireFormat.NextHopBytes` | sartd/src/bgp/src/packet/attribute.rs:291 | the bytes of attribute 3 are a NEXT_HOP of four octets |
| `WireFormat.NumberBytes` | sartd/src/bgp/src/packet/attribute.rs:292-312 | for all octets and following bytes: attribute 4 is a MULTI_EXIT_DISC, 5 a LOCAL_PREF and 8 a COMMUNITIES of the number written in the four octets, high octet first |
| `WireFormat.AsPathBytes` | sartd/src/bgp/src/packet/attribute.rs:265-370 | attribute 2 is an AS_PATH with numbers of two or four octets as the session has it, 17 an AS4_PATH with four always; a segment is a type, a count and the numbers |
| `WireFormat.AggregatorBytes` | sartd/src/bgp/src/packet/attribute.rs:295-311 | attribute 7 is an AGGREGATOR: a number in the width of the session and an address of 4 or 16 octets; any other length is refused |
| `WireFormat.As4AggregatorBytes` | sartd/src/bgp/src/packet/attribute.rs:371-385 | attribute 18 is an AS4_AGGREGATOR with an IPv4 address, an AGGREGATOR that keeps code 18 with an IPv6 address, and refused at any other length |
| `WireFormat.ExtendedBytes` | sartd/src/bgp/src/packet/attribute.rs:313-318 | attribute 16 is an extended community with its type in the two high octets |
| `WireFormat.ReachBytes` | sartd/src/bgp/src/packet/attribute.rs:319-344 | attribute 14 is an MP_REACH_NLRI: AFI 1 or 2, SAFI 1 or 2, a next hop of 4 or 16 octets, a reserved byte, and prefixes of that family |
| `WireFormat.UnreachBytes` | sartd/src/bgp/src/packet/attribute.rs:345-354 | attribute 15 is an MP_UNREACH_NLRI: AFI, SAFI and prefixes |
| `WireFormat.PrefixBytes` | sartd/src/bgp/src/packet/prefix.rs:24-63 | an IPv4 prefix is its length and the octets that its bits reach into; the remaining octets are zero |
| `WireFormat.PrefixBytes6` | sartd/src/bgp/src/packet/prefix.rs:24-63 | the same for IPv6 |
| `WireFormat.CapabilityBytes` | sartd/src/bgp/src/packet/capability.rs:34-83 | capability 1 is a family, 65 a four-octet AS number, 69 a family and a mode, by their bytes |
| `WireFormat.EmptyCapabilities` | sartd/src/bgp/src/packet/capability.rs:34-83 | capabilities 2, 6 and 70 by number, without a value |
| `WireFormat.HopCapability` | sartd/src/bgp/src/packet/capability.rs:34-83 | capability 5 is a family and the AFI of its next hops |
| `WireFormat.RestartCapability` | sartd/src/bgp/src/packet/capability.rs:34-83 | capability 64 is four bits of flags, twelve of time, and a family with its flags |
| `WireFormat.OtherCapability` | sartd/src/bgp/src/packet/capability.rs:34-83 | a capability of any other code is kept as it came |
| `WireFormat.ShortCapability` | sartd/src/bgp/src/packet/capability.rs:34-40 | a capability longer than what is left is refused |
| `WireFormat.UnknownFamilies` | sartd/src/bgp/src/family.rs:10-140 | no other AFI and SAFI numbers name a family: the multiprotocol attributes, capabilities 1 and 69 and ROUTE-REFRESH each refuse them with their own error |
| `WireFormat.RefusedHeaders` | sartd/src/bgp/src/packet/codec.rs:78-103 | fewer than 19 bytes, a marker byte that is not 0xFF or a length below 19 is refused, with the length as the error says |
| `WireFormat.KeepaliveBytes` | sartd/src/bgp/src/packet/message.rs:163-175 | type 4 is a KEEPALIVE of the header alone; type 0 and every type above 5 is refused |
| `WireFormat.OpenBytes` | sartd/src/bgp/src/packet/codec.rs:105-155 | type 1 is an OPEN: refused unless the version is 4, the AS number is not zero and the cast of the remaining bytes lets the options through; otherwise with the numbers of its octets and its capabilities |
| `WireFormat.OptionBytes` | sartd/src/bgp/src/packet/codec.rs:119-149 | an optional parameter of type 2 holds a capability; any other type is refused |
| `WireFormat.UpdateBytes` | sartd/src/bgp/src/packet/codec.rs:156-206 | an UPDATE is read section by section by its two length fields; with attributes, one without attribute 1, 2, or 3 and 14 is refused and the error names the first that is missing |
| `WireFormat.UpdateFramed` | sartd/src/bgp/src/packet/codec.rs:78-206 | type 2 is an UPDATE |
| `WireFormat.AcceptedDistinct` | sartd/src/bgp/src/packet/codec.rs:166-180 | attributes that are accepted have pairwise different codes |
| `WireFormat.RepeatedAttribute` | sartd/src/bgp/src/packet/codec.rs:166-180 | two attributes with one code are refused |
| `WireFormat.NotificationBytes` | sartd/src/bgp/src/packet/message.rs:211-298 | type 3 is a NOTIFICATION, for all pairs of bytes: the six codes and eighteen subcodes by number, no subcode from code 4 on, and an error for every other pair; the data go to the end of the message |
| `WireFormat.RouteRefreshBytes` | sartd/src/bgp/src/family.rs:32-39 | type 5 is a ROUTE-REFRESH of the family with AFI 1 or 2 and SAFI 1 or 2 |
| `PathBuilding.PathBuilder.AsSegments` | sartd/src/bgp/src/path.rs:364-383 | the builder collects each segment into the sequence or set of its own width, in order |
| `PathBuilding.PathBuilder.Attr` | sartd/src/bgp/src/path.rs:423-451 | one attribute changes the builder as `WithAttr` says; `PathFields.Collected` says what that amounts to |
| `PathFields.Collected` | sartd/src/bgp/src/path.rs:423-456 | for every attribute list: the last ORIGIN, LOCAL_PREF, MULTI_EXIT_DISC and family decide; next hops, prefixes and the numbers of type 2 and of other segments, in both widths, are those of the list in order; and what is passed on are the optional transitive attributes, and unsupported ones with the partial bit added |
| `PathFields.SentAttributes` | sartd/src/bgp/src/path.rs:145-230 | the attributes of a path by flags, code, order and content, and its two refusals |
| `PathFields.TwoOctetLists` | sartd/src/bgp/src/path.rs:155-206 | what a two-octet session makes of any list: 23456 for each number above 65535 in a sequence; in a set the small numbers in order and one 23456 for all the large ones; the large numbers in order |
| `PathFields.Receive` | sartd/src/bgp/src/peer/peer.rs:1655-1670 | the receiving side of an UPDATE: one path per prefix of MP_REACH_NLRI and of the message, with the fields that the attribute list gives |
| `PathFields.Deliver` | sartd/src/bgp/src/peer/peer.rs:1655-1670 | from the sender's path through attributes, bytes and a builder to the receiver's paths: origin, preference, discriminator and next hop always arrive unchanged, with the receiver's own view of the session, and the AS sequence and set arrive if and only if no number is 23456 and, on a two-octet session, no set member is above 65535 |
| `PathBuilding.PathBuilder.Rebuild` | sartd/src/bgp/src/path.rs:459-486 | the merging loop replaces each AS_TRANS by the next collected four-octet number, and panics when there is none |
| `PathBuilding.PathBuilder.Build` | sartd/src/bgp/src/path.rs:458-512 | one path per collected prefix; field by field, each has the identifiers, addresses and AS numbers of the session, the collected family, origin, preference, discriminator, next hops and attributes to pass on, the merged AS path, its own prefix and its own reading of the clock; all are unmarked, with one identifier |
| `PathLaws.RelayDelivers` | sartd/src/bgp/src/path.rs:145-230 | every path with at most 255 numbers per segment arrives: encoding its attributes, decoding them and feeding them to a builder yields its origin, preference, discriminator, next hop and both AS paths in the form the session allows |
| `PathLaws.RestoreTranslated` | sartd/src/bgp/src/path.rs:459-486 | merging undoes the translation to two octets for every list of numbers without AS_TRANS, wherever the pool of large numbers starts |
| `PathLaws.TwoOctetRoundTripIff` | sartd/src/bgp/src/path.rs:145-489 | over a session without four-octet numbers the AS path comes back unchanged, if and only if AS_TRANS is not one of its numbers and no set member needs four octets |
| `PathLaws.FourOctetRoundTripIff` | sartd/src/bgp/src/path.rs:145-489 | over a session with four-octet numbers the AS path comes back unchanged if and only if it does not hold AS_TRANS; if it does, building panics |
| `PathLaws.LongPathOverruns` | sartd/src/bgp/src/packet/attribute.rs:265-288 | a sequence or set of more than 255 numbers: a reader that collects all of it has read past the end of the attribute, and so it never comes back when nothing follows |
| `PathLaws.LargeSetMemberIsLost` | sartd/src/bgp/src/path.rs:145-489 | an input: the AS set {70000} does not survive a two-octet session |
| `PathLaws.TransCannotBeBuilt` | sartd/src/bgp/src/path.rs:145-486 | an input: a path through AS 23456 does not survive a session of either kind |
| `Decision.CompareIsKeys` | sartd/src/bgp/src/rib.rs:1041-1110 | between paths of the same age each of the ten comparisons is the comparison of one numeric key; age then never decides |
| `Decision.LexTransitive` | sartd/src/bgp/src/rib.rs:1018-1110 | comparing by the first criterion that differs is transitive, also strictly |
| `Decision.BetterIsFirst` | sartd/src/bgp/src/rib.rs:1018-1110 | a path that is better on some criterion comes first in the decision order, when no two criteria contradict each other about the pair |
| `Decision.EqualCostIsTie` | sartd/src/bgp/src/path.rs:98-115 | equal cost together with the same local origination is exactly a tie on every multi-path criterion |
| `DecisionFields.AdvantageIs` | sartd/src/bgp/src/rib.rs:1018-1110 | the first criterion that prefers a new path of the same age, written out on the fields of the two announcements without naming the list of criteria: preference, own origin, AS path length, origin, discriminator, external, and in single-path mode router identifier and peer address |
| `DecisionFields.OrderIs` | sartd/src/bgp/src/rib.rs:1018-1110 | the decision order written out on the fields: the first field that differs decides, in that order |
| `DecisionFields.BeatsIff` | sartd/src/bgp/src/rib.rs:297-313 | a new path beats a stored one if and only if one of those fields speaks for it |
| `LocRibs.LocRib.constructor` | sartd/src/bgp/src/rib.rs:176-188 | an empty table for each of the given families, both counters zero |
| `LocRibs.LocRib.FindPlace` | sartd/src/bgp/src/rib.rs:297-313 | the nested scan stops at the first stored path that some criterion prefers the new path to |
| `LocRibs.LocRib.InsertPath` | sartd/src/bgp/src/rib.rs:269-371 | insertion changes the whole table, the counters and the path, and reports, as `InsertStep` says, error cases included |
| `LocRibs.LocRib.Store` | sartd/src/bgp/src/rib.rs:314-370 | the four ways a path is stored, with all marks, reasons and reports |
| `LocRibs.LocRib.DropPath` | sartd/src/bgp/src/rib.rs:374-466 | removal changes the whole table and the counters, and reports, as `DropStep` says |
| `LocRibs.LocRib.Recompute` | sartd/src/bgp/src/rib.rs:420-441 | after the only best path has gone: the head is made best, and neighbours of equal cost are marked with it |
| `LocRibs.LocRib.GetById` | sartd/src/bgp/src/rib.rs:220-225 | the first path of the list with the identifier |
| `LocRibs.LocRib.GetAllBest` | sartd/src/bgp/src/rib.rs:232-251 | the head of every non-empty list, each prefix once; nothing exactly when all lists are empty |
| `LocRibLists.PlaceSpec` | sartd/src/bgp/src/rib.rs:297-313 | the place is the first stored path that the new one beats on some criterion, and the end of the list if there is none |
| `LocRibLists.InsertShape` | sartd/src/bgp/src/rib.rs:269-371 | whatever is reported, the new list is the old one with the new path put in at its place and the same announcements around it |
| `LocRibLists.MultiInsertIff` | sartd/src/bgp/src/rib.rs:314-346 | multi-path: the best paths stay a prefix of equal cost after an insertion, if and only if the scan does not stop strictly inside the run of best paths |
| `LocRibLists.AgreementPlacesFirst` | sartd/src/bgp/src/rib.rs:314-330 | if paths of equal cost agree on local origination, a new path that displaces the best paths is placed at index 0, as the code assumes |
| `LocRibLists.MultiDrop` | sartd/src/bgp/src/rib.rs:374-466 | multi-path: a removal keeps the best paths a prefix of equal cost |
| `LocRibLists.DropShape` | sartd/src/bgp/src/rib.rs:374-466 | in either mode and whatever the marks, a removal keeps the other announcements, their order and their times |
| `MarkLaws.InsertWhole` | sartd/src/bgp/src/rib.rs:269-371 | the whole list after an insertion, read off the old announcements in either mode: the new path goes to the first one it has an advantage over, and takes the best place with that advantage for a reason, shares it behind paths of its cost, or waits; which marks, reasons and times all other paths then have; and the report |
| `MarkLaws.DropWhole` | sartd/src/bgp/src/rib.rs:374-466 | the whole list after a removal: the others stay as they are, except that a sole survivor is best as the only path, and that a head that was not best becomes so, for its advantage over the next path, or with the whole run of its cost when it has none |
| `MarkLaws.InsertTable` | sartd/src/bgp/src/rib.rs:269-294 | nothing but the list of the path's own prefix and the counter of arrivals changes; each refusal and what it leaves |
| `MarkLaws.DropTable` | sartd/src/bgp/src/rib.rs:374-391 | the same for a removal: one that finds no list is not counted, one that finds no path is |
| `LocRibOrder.SortedInsertIff` | sartd/src/bgp/src/rib.rs:296-313 | an insertion into a list in decision order keeps it so, if and only if the path at which the scan stops does not come before the new one |
| `LocRibOrder.SettledInsert` | sartd/src/bgp/src/rib.rs:269-371 | multi-path: an insertion keeps exactly the paths of the head's cost marked best |
| `LocRibOrder.SettledDrop` | sartd/src/bgp/src/rib.rs:374-466 | multi-path: a removal keeps exactly the paths of the head's cost marked best |
| `LocRibOrder.RecomputedExact` | sartd/src/bgp/src/rib.rs:420-441 | the recomputation marks exactly the paths of the new head's cost |
| `LocRibRuns.RunInv` | sartd/src/bgp/src/rib.rs:269-466 | every run keeps, in every list, paths of its own prefix and of one age with the best paths where the mode wants them |
| `LocRibRuns.BestPathsComeFirst` | sartd/src/bgp/src/rib.rs:269-371 | over every run: exactly one best path, at the head (single-path), or a non-empty prefix of pairwise equal cost (multi-path); an insertion never fails to find a best path; one that displaces the best paths goes to index 0 |
| `LocRibRuns.SinglePathMirror` | sartd/src/bgp/src/rib.rs:232-466 | over every single-path run, replaying the reports gives exactly the heads that `get_all_best` returns, all of them best |
| `LocRibRuns.RunSortedIff` | sartd/src/bgp/src/rib.rs:269-466 | for every run in either mode, whatever the marks of the arriving paths: every list is in decision order after every step, if and only if no scan of the run stops at a path that comes before the new one |
| `LocRibRuns.HeadIsWinner` | sartd/src/bgp/src/rib.rs:269-466 | for every run in either mode in which no two criteria contradict each other about a new path and a stored one, every list is in decision order and its head beats or ties every other path; the head is best if callers keep to the rules of the mode |
| `LocRibRuns.BestAreEqualCost` | sartd/src/bgp/src/rib.rs:269-466 | over every such multi-path run, a path is marked best if and only if it costs the same as the head |
| `LocRibReplay.ReplayInsert` | sartd/src/bgp/src/rib.rs:269-371 | multi-path: the report of an insertion keeps a listener's set of best paths sound, always, and exact if it was and the path keeps to the rules of the mode |
| `LocRibReplay.ReplayDropIff` | sartd/src/bgp/src/rib.rs:374-466 | multi-path: with distinct identifiers the report of a removal keeps the set sound, always, and exact if and only if the removal does not leave two new best paths of equal cost |
| `LocRibReplay.MultiPathReplaySound` | sartd/src/bgp/src/rib.rs:269-466 | over every multi-path run with distinct identifiers, whatever else arrives, a path that the replayed reports call best is best |
| `LocRibReplay.RunExactIff` | sartd/src/bgp/src/rib.rs:269-466 | the replayed set is exactly the best paths after every step of a run, if and only if no removal of the run is underreported |
| `LocRibCounts.Conservation` | sartd/src/bgp/src/rib.rs:269-466 | over every run, whatever arrives and in either mode: stored and removed identifiers together are the accepted ones, as multisets; `received` is their number plus the insertions that found no best path; no more removals succeed than `dropped` counts |
| `LocRibCounts.NothingLost` | sartd/src/bgp/src/rib.rs:269-371 | if callers pass unmarked paths that agree on origination, no insertion is lost |
| `RibManagers.RibManager.InstallPaths` | sartd/src/bgp/src/rib.rs:680-821 | a batch of announcements, with a FIB that may refuse any request and peers that may not listen: the table, the accepted FIB requests, the error that ended it, and the messages sent, as functions of the state before |
| `RibManagers.RibManager.DropPaths` | sartd/src/bgp/src/rib.rs:824-987 | a batch of withdrawals under the same failures: the table, the accepted FIB requests, the error, and the withdrawals and advertisements sent; a failed withdrawal keeps the advertisements back |
| `RibManagers.RibManager.Advertise` | sartd/src/bgp/src/rib.rs:788-820 | what was sent to a peer is what it may know; without an error every peer was told, with one some peer had a failed lookup or a closed channel and something to be told |
| `RibManagers.RibManager.Withdraw` | sartd/src/bgp/src/rib.rs:929-954 | the same for withdrawn prefixes |
| `RibManagers.RibManager.DeletePath` | sartd/src/bgp/src/rib.rs:652-677 | all local paths of each prefix, in the order of its list, are dropped as one batch |
| `RibManagerLaws.AdvertsIff` | sartd/src/bgp/src/rib.rs:788-820 | the peers can be told if and only if every changed identifier is still stored |
| `RibManagerLaws.Screened` | sartd/src/bgp/src/rib.rs:797-811 | split horizon: nothing learnt over iBGP is sent to a peer of the local AS, and on installation nothing is sent back to its eBGP source |
| `RibManagerLaws.AdvertsAreHeads` | sartd/src/bgp/src/rib.rs:788-820 | when every change names a head, a peer is sent exactly the heads it may know, in the order of the changes |
| `TellLaws.SentIff` | sartd/src/bgp/src/rib.rs:788-820 | both directions of split horizon, on kinds and peers alone: when every change names a head, the head is sent to a peer if and only if it was not learnt over iBGP for a peer of the local AS, nor over eBGP from that very peer |
| `TellLaws.WithdrawnIff` | sartd/src/bgp/src/rib.rs:929-954 | the same for withdrawn prefixes, by the kind of the path that is gone |
| `TellLaws.InsertAsks` | sartd/src/bgp/src/rib.rs:680-787 | what the FIB is asked for a new path, read off the old list: nothing, a route, or a further route, with the path's prefix, first next hop, distance 20 or 200 and iBGP mark |
| `TellLaws.DropAsks` | sartd/src/bgp/src/rib.rs:824-927 | what the FIB is asked for a removal, read off the old list: a route over the new best path, the removal of one gateway, or of the route |
| `TellLaws.DropReports` | sartd/src/bgp/src/rib.rs:374-466 | the status of a removal, read off the old list: the kind of the path that is gone, the new best path, or the first next hop of the removed path |
| `RibManagerLaws.ReportedIff` | sartd/src/bgp/src/rib.rs:269-371 | a new path takes the head of its list and is reported, if and only if the list is empty or some criterion prefers the path to the head there; otherwise the head stays |
| `RibManagerLaws.ChangesAreTakers` | sartd/src/bgp/src/rib.rs:680-787 | what a batch reports for a prefix, in order, are the announcements that each beat the head they meet, read off the old head and the batch alone |
| `RibManagerLaws.InstallBatch` | sartd/src/bgp/src/rib.rs:680-821 | for every batch: no lookup fails; split horizon; the last change of each prefix names its head; and every change names a head, so that exactly heads are sent, all best, if and only if no announcement that takes the head of its prefix is overtaken by a later one with another identifier; always so when each prefix is announced once |
| `RibManagerLaws.BuiltBatch` | sartd/src/bgp/src/path.rs:486-511 | for every batch that a builder makes, as both callers pass it, repeated prefixes included: every change names a head, and a peer is sent exactly the heads it may know, all best |
| `RibManagerLaws.DropBatch` | sartd/src/bgp/src/rib.rs:824-987 | for every batch that is carried out: the peers can be told if and only if no path that one removal makes best is removed by a later one, and always when each prefix is named once; then exactly heads are sent, all best, under split horizon |
| `RibManagerLaws.DropErrors` | sartd/src/bgp/src/rib.rs:824-987 | a batch of distinct stored paths is stopped by nothing but a new best path without a next hop or a refused FIB request |
| `RibManagerLaws.PromotesIff` | sartd/src/bgp/src/rib.rs:392-462 | a removal reports a new best path if and only if it takes a best path, others are left, and - in multi-path mode with two or more left - it took the head while the next was not best; it names the first path left |
| `BatchLaws.InstallIsRun` | sartd/src/bgp/src/rib.rs:680-787 | a batch of announcements is a run of insertions, of all of them or up to the one that stopped it, so every law about runs holds for it; the FIB has accepted no more requests than it can, all it can if one was refused, and none when it is not to be told |
| `BatchLaws.DropIsRun` | sartd/src/bgp/src/rib.rs:824-927 | the same for a batch of withdrawals |
| `BatchLaws.WithdrawnIffEmptied` | sartd/src/bgp/src/rib.rs:824-927 | a batch that is carried out withdraws a prefix if and only if it has emptied its list |
| `DeleteLaws.LocalsSurviveIff` | sartd/src/bgp/src/rib.rs:652-677 | in either mode: removing all local paths of a list in order never removes a path that became best on the way, if and only if the head is not local, or it is the only path, or the first path behind the best ones is not local |
| `DeleteLaws.DeleteBatchIff` | sartd/src/bgp/src/rib.rs:652-677 | `delete_path` on any distinct prefixes drops exactly their local paths without an error, and can tell the peers if and only if every one of the lists meets that condition |
| `Witnesses.ShorterPathBeatsPreference` | sartd/src/bgp/src/rib.rs:296-313 | an input: a stored path with the higher preference loses its place to a new one with the shorter AS path, though the decision order prefers it |
| `Witnesses.DisagreementBreaksPrefix` | sartd/src/bgp/src/rib.rs:314-330 | an input: a local path that costs the same as a best local path and a best iBGP path lands between them and leaves the head unmarked |
| `Witnesses.SecondBestGoesUnreported` | sartd/src/bgp/src/rib.rs:420-441 | an input: a removal makes two paths best and names one |
| `Witnesses.RepeatedPrefixAdvertisesOldBest` | sartd/src/bgp/src/rib.rs:680-821 | why the condition on batches is needed: two different announcements of one prefix, which no builder makes, advertise a path that is no longer the head |
| `Witnesses.DroppedBestCannotBeTold` | sartd/src/bgp/src/rib.rs:652-677 | an input: deleting a prefix that was announced locally twice withdraws it and then fails with a path that is not found |
| `Fsm.FiniteStateMachine.Mv` | sartd/src/bgp/src/peer/fsm.rs:18-75 | after every call the state is the one that all events so far lead to, it is the state that `In` reads off those events, and it is Established if and only if they contain an unbroken handshake |
| `Fsm.StateIff` | sartd/src/bgp/src/peer/fsm.rs:18-75 | over event sequences of any length and for every one of the six states: the run ends there, if and only if the events contain one that enters it, by number, from a state the events before it lead to, and since then only events that are sat out there |
| `Fsm.OpensActively` | sartd/src/bgp/src/peer/fsm.rs:18-75 | an active opening gets established, by number: a start (1 or 3), a connection (12, 16 or 17), an OPEN (19) and a KEEPALIVE (26), with any events that are sat out at each stage between and after them |
| `Fsm.EstablishedIff` | sartd/src/bgp/src/peer/fsm.rs:18-75 | over event sequences of any length from Idle: the session is established if and only if the sequence splits around an OPEN taken in Active or OpenSent and a later KEEPALIVE, with only events that are sat out between and after them |
| `Fsm.NothingBrokeIt` | sartd/src/bgp/src/peer/fsm.rs:18-75 | in an established session no stop, hold timer expiry, connection failure, notification or second OPEN has come since the OPEN |
| `BitSets.BitSet.constructor` | sartd/src/ipam/src/bitset.rs:10-16 | an empty set with one word for every 128 indices begun |
| `BitSets.BitSet.IsSet` | sartd/src/ipam/src/bitset.rs:27-35 | membership, for every index below the size; out of range is not a member; at the size it may panic |
| `BitSets.BitSet.Set` | sartd/src/ipam/src/bitset.rs:37-48 | adding or removing one index of the finite set, others untouched; the size itself is let through |
| `BitSets.BitSet.SetTrue` | sartd/src/ipam/src/bitset.rs:50-55 | adds an index that is not a member and refuses one that is |
| `BitSets.BitSet.GetMinUnsetIndex` | sartd/src/ipam/src/bitset.rs:62-79 | the least index below the size that is not a member, and full exactly when there is none |
| `BitSets.BitSet.SetNext` | sartd/src/ipam/src/bitset.rs:57-60 | adds the least index that is not a member |
| `BitSets.BitSet.IsFull` | sartd/src/ipam/src/bitset.rs:91-93 | full if and only if every index below the size is a member |
| `BitSets.BitSet.ClearAll` | sartd/src/ipam/src/bitset.rs:81-84 | leaves the empty set |
| `BitSets.BitSet.IsEmpty` | sartd/src/ipam/src/bitset.rs:86-89 | true if and only if the words add up to zero in wrapping arithmetic |
| `BitSets.EmptyIffZero` | sartd/src/ipam/src/bitset.rs:86-89 | the set is empty if and only if the words add up to zero as numbers |
| `BitSets.IsEmptyIff` | sartd/src/ipam/src/bitset.rs:86-89 | `is_empty` is right if and only if the sum of the words is not a positive multiple of 2^128 |
| `BitSets.WrappedSumLooksEmpty` | sartd/src/ipam/src/bitset.rs:86-89 | an input: bits 127 and 255 together are taken for an empty set |
| `Addresses.Sum4` | sartd/src/ipam/src/allocator.rs:167-171 | the shifted octet sum is the value of the address |
| `Addresses.Sum16` | sartd/src/ipam/src/allocator.rs:196-201 | the accumulator loop computes the value of sixteen octets |
| `Addresses.AddrToIndex` | sartd/src/ipam/src/allocator.rs:162-207 | the offset of an address in its block, and the two errors |
| `Addresses.IndexToAddr` | sartd/src/ipam/src/allocator.rs:209-230 | the address at an offset, with the cast of the index to the width of the family |
| `Addresses.Block` | sartd/src/ipam/src/allocator.rs:162-230 | the block of a CIDR lies within the address space and holds the CIDR's own address, so no sum overflows |
| `Addresses.IndexRoundTrip` | sartd/src/ipam/src/allocator.rs:162-230 | from index to address and back, for every index of every IPv4 or IPv6 block; the address lies in the CIDR |
| `Addresses.AddrRoundTrip` | sartd/src/ipam/src/allocator.rs:162-230 | from address to index and back, for every address of the CIDR |
| `Addresses.IndexOrder` | sartd/src/ipam/src/allocator.rs:209-230 | addresses are ordered, and distinct, as their indices are |
| `Addresses.ContainsIff` | sartd/src/ipam/src/allocator.rs:162-207 | an address is in the CIDR if and only if it is of its family and has its leading bits |
| `Allocators.BitAllocator.AllocateAddr` | sartd/src/ipam/src/allocator.rs:110-119 | allocation of a given address, forced or not, changes the set and the count as `Step` says |
| `Allocators.BitAllocator.Next` | sartd/src/ipam/src/allocator.rs:121-129 | allocation of the next address as `Step` says |
| `Allocators.BitAllocator.ReleaseAddr` | sartd/src/ipam/src/allocator.rs:148-159 | release as `Step` says |
| `Allocators.NewAllocator` | sartd/src/ipam/src/allocator.rs:22-31 | IPv6 blocks of more than 2^32 addresses are refused; all others start empty |
| `Allocators.HandedOutIsFresh` | sartd/src/ipam/src/allocator.rs:110-129 | after any run: an address handed out lies in the CIDR, and unless it was forced it was not outstanding |
| `Allocators.AllocationAnswers` | sartd/src/ipam/src/allocator.rs:110-119 | after any run: an allocation is refused for the wrong protocol, outside the CIDR and, unless forced, for an outstanding address, each with its error, and succeeds otherwise |
| `Allocators.ReleaseAnswers` | sartd/src/ipam/src/allocator.rs:148-159 | after any run: a release is refused when outstanding and doubled addresses are used up by careless releases, for the wrong protocol and outside the CIDR, and succeeds otherwise |
| `Allocators.NextIsLowest` | sartd/src/ipam/src/allocator.rs:121-129 | after any run: every lower address of the CIDR is outstanding |
| `Allocators.FullIffAllOutstanding` | sartd/src/ipam/src/allocator.rs:121-129 | after any run: full is reported if and only if every address of the CIDR is outstanding |
| `Allocators.AllocationCount` | sartd/src/ipam/src/allocator.rs:110-159 | over any run the count is the number of outstanding addresses, plus forced allocations of outstanding ones, minus releases of others; without such releases every outstanding address can be released |
| `Pools.Pool.constructor` | sartd/src/ipam/src/manager.rs:211-222 | a pool of 2^(block size - prefix length) blocks, none held; the difference wraps in 32 bits and the power in 128, so that a block size below the prefix length makes an empty pool |
| `Pools.Pool.AllocateBlock` | sartd/src/ipam/src/manager.rs:224-230 | one step of the relation `Next`: the least free block gets the name |
| `Pools.Pool.Recover` | sartd/src/ipam/src/manager.rs:232-236 | one step of `Next`: a given block gets the name |
| `Pools.Pool.ReleaseBlock` | sartd/src/ipam/src/manager.rs:238-248 | one step of `Next`: the bit is cleared, and the first name in order that holds the block, or the empty name, is removed |
| `Pools.StepKeepsIff` | sartd/src/ipam/src/manager.rs:224-248 | an operation keeps names and held blocks in one-to-one correspondence, if and only if it is careful: a fresh name for a new block; a free index and a fresh name, or the pair already there, for a recovered one; for a release a held index, or no block with the empty name |
| `Pools.RunConsistentIff` | sartd/src/ipam/src/manager.rs:224-248 | over any run the correspondence holds after every step, if and only if every call was careful |
| `Pools.AllocationNames` | sartd/src/ipam/src/manager.rs:224-230 | in a consistent pool an allocation gives the name the lowest block that no name holds, and fails only when every block is held; other names keep theirs |
| `Pools.ReleaseNames` | sartd/src/ipam/src/manager.rs:238-248 | in a consistent pool no name holds a released block, and every other block is held as before |
| `Pools.CounterCounts` | sartd/src/ipam/src/manager.rs:224-248 | over any run the counter is the number of allocations that succeeded, modulo 2^32; recoveries and releases leave it |
| `Pools.BlocksTileIff` | sartd/src/ipam/src/manager.rs:211-222 | the blocks of a pool make up the CIDR, if and only if there are fewer than 2^128 |
| `Pools.ReusedNameLeaksBlock` | sartd/src/ipam/src/manager.rs:224-230 | an input: a second block under a name in use leaves the first held by nobody |
| `Pools.EmptyNameLosesBlock` | sartd/src/ipam/src/manager.rs:238-248 | an input: releasing a free index while a block has the empty name leaves that block held by nobody |
| `FibRib.SortOk` | sartd/src/fib/src/rib.rs:58-65 | the sort is sorted by distance, loses and invents nothing, and keeps the order within each distance |
| `FibRib.Rib.Insert` | sartd/src/fib/src/rib.rs:48-77 | insertion changes the table and reports as `Step` says |
| `FibRib.Rib.Remove` | sartd/src/fib/src/rib.rs:102-139 | removal changes the table and reports, or panics, as `Step` says |
| `FibRib.Rib.GetPublished` | sartd/src/fib/src/rib.rs:94-100 | the head of the destination's list |
| `FibRib.RunOrdered` | sartd/src/fib/src/rib.rs:48-139 | every run keeps every list ordered by distance with at most one route for each protocol |
| `FibRib.PublishedIsLeast` | sartd/src/fib/src/rib.rs:48-139 | after any run the published route has the least distance, and each protocol has one route at most |
| `FibRib.PanicIff` | sartd/src/fib/src/rib.rs:102-139 | `remove` panics if and only if it is given no next hops and meets a stored route without any |
| `FibRib.DemotesIff` | sartd/src/fib/src/rib.rs:48-77 | the published distance grows on an insert exactly when the published route gives way to one of its own protocol that is further away, and no other is as near |
| `FibRib.StepMirrorsIff` | sartd/src/fib/src/rib.rs:48-139 | a listener that replays the reports is right after a step, if and only if the step is not such a replacement |
| `FibRib.RunMirrorsIff` | sartd/src/fib/src/rib.rs:48-139 | over any run the replayed reports are the published routes after every step, if and only if no insert is such a replacement |
| `FibRib.ReplacementGoesUnreported` | sartd/src/fib/src/rib.rs:58-69 | an input: an eBGP route replaced by an iBGP route changes what is published and is not reported |
| `FibRib.PopUndoesMergeIff` | sartd/src/fib/src/route.rs:25-70 | popping what was merged gives the route back, if and only if the two had no gateway in common |
| `FibRib.MultipathHops` | sartd/src/fib/src/route.rs:25-70 | which hops a merged route has: those of the first, in front, and those of the second with a gateway the first does not have; which a popped one: those without a gateway of the second; only routes that agree but for hops, source and priority are merged, and nothing else changes |
| `FibRib.InsertContents` | sartd/src/fib/src/rib.rs:48-77 | after an insert the list holds the new route and those of the other protocols, and the head is reported unless every distance has grown |
| `FibRib.RemoveContents` | sartd/src/fib/src/rib.rs:102-139 | a removal takes the first route with as many hops and the same gateways but the last, and reports only when the head went |

## Left out

- The daemons around the core: gRPC and command line interfaces, Kubernetes controllers, tracing, configuration, sockets, timers, and the kernel's routing table (`sartd/src/fib/src/kernel.rs`).  They perform input and output.
- Identifiers of paths (hashes) and times are inputs of the model; nothing is assumed of them beyond what a lemma requires.
- CodecLaws.StreamRoundTripIff: well-formed messages have IPv4 prefixes without path identifiers and no unsupported attribute, since the decoder reads neither, and streams are shorter than 2^64 bytes.
- AttributeLaws.RoundTrip: an AS4_AGGREGATOR with an IPv6 address is not in the well-formed set, since the decoder turns it into an AGGREGATOR; nor is a non-empty list of empty AS segments, since `encode` writes no segment for it.
- PathLaws.RelayDelivers: AS sequences and sets of more than 255 numbers are left out; `AttributeLaws.SegmentTruncated` says what the count byte makes of their segment, and `PathLaws.LongPathOverruns` that no reader gets them back from the attribute's own bytes. Bytes of the next attributes read as numbers are not followed further.
- PathFields.Deliver: sequences and sets of at most 255 numbers, as above.
- WireFormat.ReachBytes: one next hop, one length byte and at most 199 bytes of prefixes; the general round trip is `AttributeLaws.RoundTrip`.
- PathLaws.TwoOctetRoundTripIff: sequences and sets of at most 255 numbers, as above.
- PathLaws.FourOctetRoundTripIff: sequences and sets of at most 255 numbers, as above.
- Codec.Decode: a frame that has only partly arrived is handled as the code does, as an error or a panic; waiting for more bytes is not part of the code.
- DeleteLaws.DeleteBatchIff: a list that repeats a prefix is left out, where the batch names the local paths of that prefix twice.
- RibManagerLaws.DropBatch: a batch that stops early is covered by `RibManagerLaws.DropErrors` only.
- LocRibRuns.BestPathsComeFirst: the mode is fixed over a run; switching `multi_path` between operations is not modelled.
- LocRibCounts.Conservation: `dropped` also counts removals that name a path that is not in a non-empty list, so it bounds the removals and does not equal them.
- Pools.Pool.constructor: pools of 2^64 blocks and more are left out, as for `BitSets.BitSet.constructor`.
- Pools.RunConsistentIff: pools of at most 2^32 blocks, since a block index is cast to 32 bits when it is stored.
- BitSets.BitSet.constructor: sizes of 2^64 and more are left out: from there on the casts of index and size to `usize` lose bits, and no vector can be that long.
- `RibManager::init`, `flush`, `add_path` and the queries; `AdjRib` and `Table`: thin wrappers around map operations.
- `AllocatorSet`, `Block`, `AllocationInfo`, `BlockAllocator` and `get_blocks_from_addrs`: bookkeeping in hash maps around the allocators.
- `MessageBuilder`, `validate` and the conversions to and from protobuf: field-by-field copies.
- The order in which a hash map is traversed is arbitrary in the model: lists that depend on it are stated up to that order.
