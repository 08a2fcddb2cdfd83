/**
 When `delete_path` (`sartd/src/bgp/src/rib.rs`) can tell the peers: it drops all local paths of each prefix, in the order
 of the list, and a path that becomes best on the way may be one of them.
 */
module DeleteLaws {
  import opened Base
  import opened Net
  import opened Family
  import opened Paths
  import opened LocRibs
  import opened LocRibLists
  import opened LocRibRuns
  import opened LocRibReplay
  import opened LocRibCounts
  import opened RibManagers
  import opened RibManagerLaws

  // ---------------------------------------------------------------- one list

  /** The head is not local, or it is the only path, or the first path behind the best ones is not local. */
  predicate Tellable(paths: seq<Path>) {
    || paths == []
    || !paths[0].IsLocal()
    || |paths| == 1
    || (LastBest(paths).Some? && LastBest(paths).value + 1 < |paths| && !paths[LastBest(paths).value + 1].IsLocal())
  }

  function OwnIds(paths: seq<Path>): seq<u64> {
    if paths == [] then [] else (if paths[0].IsLocal() then [paths[0].id] else []) + OwnIds(paths[1..])
  }

  /** No path that becomes best while these are removed from the list is one of those still to go. */
  predicate ListSurvives(multi: bool, d: IpNet, paths: seq<Path>, ids: seq<u64>)
    decreases |ids|
  {
    ids == [] ||
    match PositionOf(paths, ids[0])
    case None => true
    case Some(k) =>
      && (Promotes(multi, paths, k) ==> Promoted(paths, k) !in ids[1..])
      && ListSurvives(multi, d, ListDrop(multi, d, paths, ids[0]).value.0, ids[1..])
  }

  lemma {:induction false} OwnIdsMembers(paths: seq<Path>, id: u64)
    ensures id in OwnIds(paths) <==> exists i :: 0 <= i < |paths| && paths[i].IsLocal() && paths[i].id == id
  {
    if paths != [] {
      OwnIdsMembers(paths[1..], id);
      if i :| 0 <= i < |paths| && paths[i].IsLocal() && paths[i].id == id {
        assert i > 0 ==> paths[1..][i - 1] == paths[i];
      }
    }
  }

  lemma {:induction false} OwnIdsSame(a: seq<Path>, b: seq<Path>)
    requires |a| == |b| && forall i :: 0 <= i < |a| ==> Same(a[i], b[i])
    ensures OwnIds(a) == OwnIds(b)
  {
    if a != [] {
      assert Same(a[0], b[0]);
      OwnIdsSame(a[1..], b[1..]);
    }
  }

  /** The first local path gives the first identifier, and the rest of the list the others. */
  lemma {:induction false} OwnIdsFirst(paths: seq<Path>, k: nat)
    requires k < |paths| && paths[k].IsLocal() && forall i :: 0 <= i < k ==> !paths[i].IsLocal()
    ensures OwnIds(paths) == [paths[k].id] + OwnIds(RemoveAt(paths, k))
    decreases k
  {
    if k == 0 {
      assert RemoveAt(paths, 0) == paths[1..];
    } else {
      OwnIdsFirst(paths[1..], k - 1);
      assert RemoveAt(paths, k)[1..] == RemoveAt(paths[1..], k - 1);
    }
  }

  lemma {:induction false} FirstLocal(paths: seq<Path>) returns (k: nat)
    requires OwnIds(paths) != []
    ensures k < |paths| && paths[k].IsLocal() && forall i :: 0 <= i < k ==> !paths[i].IsLocal()
  {
    if paths[0].IsLocal() {
      k := 0;
    } else {
      k := FirstLocal(paths[1..]);
      k := k + 1;
    }
  }

  lemma PositionIs(paths: seq<Path>, k: nat)
    requires k < |paths| && DistinctIds(paths)
    ensures PositionOf(paths, paths[k].id) == Some(k)
  {
  }

  /** What is left after the path at `k` has gone, as far as local paths are concerned. */
  lemma AfterDrop(multi: bool, d: IpNet, paths: seq<Path>, k: nat)
    requires ListOk(multi, d, paths) && DistinctIds(paths) && k < |paths|
    ensures PositionOf(paths, paths[k].id) == Some(k) && ListDrop(multi, d, paths, paths[k].id).Success?
    ensures var after := ListDrop(multi, d, paths, paths[k].id).value.0;
            && |after| == |paths| - 1 && ListOk(multi, d, after) && DistinctIds(after)
            && OwnIds(after) == OwnIds(RemoveAt(paths, k))
            && (after != [] ==> Same(after[0], RemoveAt(paths, k)[0]))
            && (!paths[k].best ==> after == RemoveAt(paths, k))
  {
    hide ListOk, OwnIds, FirstHop;
    PositionIs(paths, k);
    var id := paths[k].id;
    DropSucceeds(multi, d, paths, id);
    hide ListDrop, PositionOf;
    DropOk(multi, d, paths, id);
    DropShape(multi, d, paths, id);
    LeftDistinct(paths, k);
    var after, left := ListDrop(multi, d, paths, id).value.0, RemoveAt(paths, k);
    assert forall i :: 0 <= i < |after| ==> Same(after[i], left[i]);
    OwnIdsSame(after, left);
    if !paths[k].best {
      NotBestStays(multi, d, paths, k);
    }
  }

  lemma NotBestStays(multi: bool, d: IpNet, paths: seq<Path>, k: nat)
    requires k < |paths| && PositionOf(paths, paths[k].id) == Some(k) && !paths[k].best
    ensures ListDrop(multi, d, paths, paths[k].id) == Success((RemoveAt(paths, k), NotChanged))
  {
  }

  /** A best path is local if and only if the head is. */
  lemma ForeignBest(multi: bool, d: IpNet, paths: seq<Path>, k: nat)
    requires ListOk(multi, d, paths) && k < |paths|
    ensures paths[k].best ==> paths[k].IsLocal() == paths[0].IsLocal()
  {
    if multi && paths[k].best && k > 0 {
      assert paths[0].EqualCost(paths[k]);
    }
  }

  lemma {:induction false} ForeignHead(multi: bool, d: IpNet, paths: seq<Path>)
    requires ListOk(multi, d, paths) && DistinctIds(paths) && paths != [] && !paths[0].IsLocal()
    ensures ListSurvives(multi, d, paths, OwnIds(paths))
    decreases |paths|
  {
    hide ListOk, ListDrop, PositionOf, OwnIds, DistinctIds;
    if OwnIds(paths) != [] {
      var k := FirstLocal(paths);
      OwnIdsFirst(paths, k);
      AfterDrop(multi, d, paths, k);
      ForeignBest(multi, d, paths, k);
      var after := ListDrop(multi, d, paths, paths[k].id).value.0;
      ForeignHead(multi, d, after);
      assert OwnIds(paths)[1..] == OwnIds(after);
    }
  }

  lemma HeadIsBest(multi: bool, d: IpNet, paths: seq<Path>)
    requires ListOk(multi, d, paths) && paths != []
    ensures paths[0].best && LastBest(paths).Some?
    ensures |paths| >= 2 && !paths[1].best ==> LastBest(paths).value == 0
    ensures |paths| >= 2 && paths[1].best ==> multi && LastBest(paths).value >= 1 && paths[1].IsLocal() == paths[0].IsLocal()
  {
    assert paths[0].best;
    if |paths| >= 2 && paths[1].best {
      assert paths[0].EqualCost(paths[1]);
    }
  }

  /** Removing all local paths of a list in order leaves every path that becomes best alone, if and only if the list is tellable. */
  lemma {:induction false} LocalsSurviveIff(multi: bool, d: IpNet, paths: seq<Path>)
    requires ListOk(multi, d, paths) && DistinctIds(paths)
    ensures ListSurvives(multi, d, paths, OwnIds(paths)) <==> Tellable(paths)
    decreases |paths|
  {
    hide ListOk, ListDrop, PositionOf, OwnIds, DistinctIds, LastBest;
    if paths == [] {
      NoneOwn();
    } else if !paths[0].IsLocal() {
      ForeignHead(multi, d, paths);
    } else {
      OwnIdsFirst(paths, 0);
      AfterDrop(multi, d, paths, 0);
      HeadIsBest(multi, d, paths);
      var after := ListDrop(multi, d, paths, paths[0].id).value.0;
      assert OwnIds(paths)[1..] == OwnIds(after);
      if |paths| == 1 {
        NoneOwn();
      } else {
        assert Same(after[0], paths[1]);
        OwnIdsMembers(after, paths[1].id);
        if Promotes(multi, paths, 0) {
          NextInLine(multi, d, paths, after);
        } else {
          Withdrawing(multi, d, paths, after);
          LocalsSurviveIff(multi, d, after);
        }
      }
    }
  }

  lemma NoneOwn()
    ensures OwnIds([]) == []
  {
  }

  /** The head gone, the next path is reported as best: it must not be local, and then the others do not matter. */
  lemma NextInLine(multi: bool, d: IpNet, paths: seq<Path>, after: seq<Path>)
    requires ListOk(multi, d, paths) && |paths| >= 2 && paths[0].IsLocal() && Promotes(multi, paths, 0)
    requires |after| == |paths| - 1 && ListOk(multi, d, after) && DistinctIds(after) && Same(after[0], paths[1])
    ensures paths[1].id in OwnIds(after) <==> paths[1].IsLocal()
    ensures !paths[1].IsLocal() ==> ListSurvives(multi, d, after, OwnIds(after))
    ensures Tellable(paths) <==> !paths[1].IsLocal()
  {
    hide ListOk, ListSurvives, LastBest, OwnIds;
    HeadIsBest(multi, d, paths);
    OwnIdsMembers(after, paths[1].id);
    if paths[1].IsLocal() {
      assert after[0].IsLocal() && after[0].id == paths[1].id;
    } else {
      ForeignHead(multi, d, after);
    }
    LastOfTwo(multi, d, paths);
    if paths[1].id in OwnIds(after) {
      var i :| 0 <= i < |after| && after[i].IsLocal() && after[i].id == paths[1].id;
      assert i == 0;
    }
  }

  lemma LastOfTwo(multi: bool, d: IpNet, paths: seq<Path>)
    requires ListOk(multi, d, paths) && |paths| >= 2 && Promotes(multi, paths, 0)
    ensures LastBest(paths).Some?
    ensures LastBest(paths).value == 0 || (|paths| == 2 && LastBest(paths).value == 1 && paths[1].IsLocal() == paths[0].IsLocal())
  {
    HeadIsBest(multi, d, paths);
  }

  /** The head gone while the next path is best as well: nothing is reported, and the run of best paths is one shorter. */
  lemma Withdrawing(multi: bool, d: IpNet, paths: seq<Path>, after: seq<Path>)
    requires ListOk(multi, d, paths) && |paths| >= 2 && paths[0].IsLocal() && !Promotes(multi, paths, 0) && paths[0].best
    requires PositionOf(paths, paths[0].id) == Some(0) && after == ListDrop(multi, d, paths, paths[0].id).value.0
    ensures Tellable(after) <==> Tellable(paths)
  {
    hide ListOk, LastBest, ListDrop;
    HeadIsBest(multi, d, paths);
    OneShorter(d, paths);
    LastMovesUp(d, paths, after);
  }

  lemma OneShorter(d: IpNet, paths: seq<Path>)
    requires |paths| >= 3 && paths[0].best && paths[1].best && PositionOf(paths, paths[0].id) == Some(0)
    ensures ListDrop(true, d, paths, paths[0].id).Success? && ListDrop(true, d, paths, paths[0].id).value.0 == paths[1..]
  {
    hide Recomputed, Crowned;
    assert RemoveAt(paths, 0) == paths[1..];
  }

  lemma LastMovesUp(d: IpNet, paths: seq<Path>, after: seq<Path>)
    requires ListOk(true, d, paths) && |paths| >= 3 && paths[0].best && paths[1].best && after == paths[1..]
    ensures LastBest(paths).Some? && LastBest(paths).value >= 1 && LastBest(after) == Some(LastBest(paths).value - 1)
    ensures after[0].IsLocal() == paths[0].IsLocal()
  {
    hide LastBest, Keyed, SameTime;
    LastBestIsPrefix(paths);
    assert paths[1].best && paths[0].EqualCost(paths[1]);
    assert forall i :: 0 <= i < |after| ==> after[i] == paths[i + 1];
    assert BestPrefix(after);
    LastBestIsPrefix(after);
    SameLast(paths, after);
  }

  lemma SameLast(paths: seq<Path>, after: seq<Path>)
    requires |paths| >= 2 && after == paths[1..] && LastBest(paths).Some? && LastBest(after).Some? && LastBest(paths).value >= 1
    requires forall i :: 0 <= i < |paths| ==> (paths[i].best <==> i <= LastBest(paths).value)
    requires forall i :: 0 <= i < |after| ==> (after[i].best <==> i <= LastBest(after).value)
    ensures LastBest(after).value == LastBest(paths).value - 1
  {
    var last, l := LastBest(paths).value, LastBest(after).value;
    assert after[last - 1] == paths[last];
    if l + 1 < |paths| {
      assert after[l] == paths[l + 1];
    }
  }

  // ---------------------------------------------------------------- the table

  function Pairs(d: IpNet, ids: seq<u64>): (cs: seq<Change>)
    ensures |cs| == |ids| && forall i :: 0 <= i < |ids| ==> cs[i] == (d, ids[i])
  {
    seq(|ids|, i requires 0 <= i < |ids| => (d, ids[i]))
  }

  lemma {:induction false} LocalsArePairs(d: IpNet, paths: seq<Path>)
    requires Keyed(d, paths)
    ensures Locals(paths) == Pairs(d, OwnIds(paths))
  {
    if paths != [] {
      LocalsArePairs(d, paths[1..]);
    }
  }

  /** The condition looks at the lists of the prefixes of the batch only. */
  lemma {:induction false} SurvivesFramed(s: State, t: State, afi: Afi, ids: seq<Change>)
    requires s.multi == t.multi && afi in s.table && afi in t.table && forall c <- ids :: At(s, afi, c.0) == At(t, afi, c.0)
    ensures NewBestSurvives(s, afi, ids) <==> NewBestSurvives(t, afi, ids)
    decreases |ids|
  {
    hide ListDrop, PositionOf, Promotes;
    if ids != [] {
      var (d, id) := ids[0];
      assert ids[0] in ids && forall c <- ids[1..] :: c in ids;
      var s', t' := DropStep(s, afi, d, id).0, DropStep(t, afi, d, id).0;
      forall c | c in ids[1..]
        ensures At(s', afi, c.0) == At(t', afi, c.0)
      {
        assert At(s, afi, c.0) == At(t, afi, c.0);
      }
      SurvivesFramed(s', t', afi, ids[1..]);
    }
  }

  /** The part of a batch that is about one prefix, in front of the rest. */
  lemma {:induction false} BlockSurvives(s: State, afi: Afi, d: IpNet, ids: seq<u64>, rest: seq<Change>)
    requires afi in s.table && DistinctIds(At(s, afi, d)) && forall c <- rest :: c.0 != d
    requires (forall id <- ids :: PositionOf(At(s, afi, d), id).Some?) && forall i, j :: 0 <= i < j < |ids| ==> ids[i] != ids[j]
    ensures NewBestSurvives(s, afi, Pairs(d, ids) + rest)
            <==> ListSurvives(s.multi, d, At(s, afi, d), ids) && NewBestSurvives(s, afi, rest)
    decreases |ids|
  {
    hide ListDrop, PositionOf, Promotes, DistinctIds, DropStep;
    var cs := Pairs(d, ids) + rest;
    if ids == [] {
      assert cs == rest;
    } else {
      assert ids[0] in ids && cs[0] == (d, ids[0]) && cs[1..] == Pairs(d, ids[1..]) + rest;
      var paths, s' := At(s, afi, d), DropStep(s, afi, d, ids[0]).0;
      DropOne(s, afi, d, ids);
      BlockSurvives(s', afi, d, ids[1..], rest);
      forall c | c in rest
        ensures At(s', afi, c.0) == At(s, afi, c.0)
      {
        DropStepFrame(s, afi, d, ids[0], c.0);
      }
      SurvivesFramed(s', s, afi, rest);
      forall id
        ensures (d, id) in cs[1..] <==> id in ids[1..]
      {
        InPairs(d, ids[1..], id);
      }
    }
  }

  lemma InPairs(d: IpNet, ids: seq<u64>, id: u64)
    ensures (d, id) in Pairs(d, ids) <==> id in ids
  {
    if id in ids {
      var i :| 0 <= i < |ids| && ids[i] == id;
      assert Pairs(d, ids)[i] == (d, id);
    }
  }

  lemma DropOne(s: State, afi: Afi, d: IpNet, ids: seq<u64>)
    requires afi in s.table && DistinctIds(At(s, afi, d)) && ids != []
    requires (forall id <- ids :: PositionOf(At(s, afi, d), id).Some?) && forall i, j :: 0 <= i < j < |ids| ==> ids[i] != ids[j]
    ensures var s' := DropStep(s, afi, d, ids[0]).0;
            && s'.multi == s.multi && afi in s'.table && DistinctIds(At(s', afi, d))
            && ListDrop(s.multi, d, At(s, afi, d), ids[0]).Success?
            && At(s', afi, d) == ListDrop(s.multi, d, At(s, afi, d), ids[0]).value.0
            && forall id <- ids[1..] :: PositionOf(At(s', afi, d), id).Some?
  {
    hide ListDrop, PositionOf, DistinctIds, Bag;
    var paths := At(s, afi, d);
    assert ids[0] in ids;
    DropSucceeds(s.multi, d, paths, ids[0]);
    DropDistinctIds(s.multi, d, paths, ids[0]);
    DropBag(s.multi, d, paths, ids[0]);
    var after := ListDrop(s.multi, d, paths, ids[0]).value.0;
    assert At(DropStep(s, afi, d, ids[0]).0, afi, d) == after;
    forall id | id in ids[1..]
      ensures PositionOf(after, id).Some?
    {
      assert id in ids && id != ids[0];
      PositionInBag(paths, id);
      PositionInBag(after, id);
      assert (Bag(after) + multiset{ids[0]})[id] == Bag(paths)[id];
    }
  }

  lemma DropDistinctIds(multi: bool, d: IpNet, paths: seq<Path>, id: u64)
    requires DistinctIds(paths) && ListDrop(multi, d, paths, id).Success?
    ensures DistinctIds(ListDrop(multi, d, paths, id).value.0)
  {
    hide ListDrop, PositionOf;
    DropShape(multi, d, paths, id);
    var k := PositionOf(paths, id).value;
    LeftDistinct(paths, k);
    var left, after := RemoveAt(paths, k), ListDrop(multi, d, paths, id).value.0;
    assert forall i :: 0 <= i < |after| ==> after[i].id == left[i].id;
  }

  lemma PositionInBag(paths: seq<Path>, id: u64)
    ensures PositionOf(paths, id).Some? <==> id in Bag(paths)
  {
    if PositionOf(paths, id).Some? {
      assert IdsOf(paths)[PositionOf(paths, id).value] == id;
    }
  }

  lemma UniqueDistinct(s: State, afi: Afi, d: IpNet)
    requires Unique(s, afi)
    ensures DistinctIds(At(s, afi, d))
  {
    var paths := At(s, afi, d);
    var ids := IdsOf(paths);
    forall i, j | 0 <= i < j < |paths|
      ensures paths[i].id != paths[j].id
    {
      assert ids == ids[..j] + ids[j..] && ids[..j][i] == ids[i] && ids[j..][0] == ids[j];
      assert multiset(ids) == multiset(ids[..j]) + multiset(ids[j..]);
      assert Bag(paths)[ids[i]] <= 1 && ids[i] in multiset(ids[..j]) && ids[j] in multiset(ids[j..]);
    }
  }

  /** Distinct paths have distinct identifiers, in order. */
  lemma {:induction false} OwnIdsDistinct(paths: seq<Path>)
    requires DistinctIds(paths)
    ensures forall i, j :: 0 <= i < j < |OwnIds(paths)| ==> OwnIds(paths)[i] != OwnIds(paths)[j]
  {
    if paths != [] {
      OwnIdsDistinct(paths[1..]);
      OwnIdsMembers(paths[1..], paths[0].id);
    }
  }

  lemma OwnIdsStored(paths: seq<Path>)
    ensures forall id <- OwnIds(paths) :: PositionOf(paths, id).Some?
  {
    forall id | id in OwnIds(paths)
      ensures PositionOf(paths, id).Some?
    {
      OwnIdsMembers(paths, id);
    }
  }

  predicate Distinct(network: seq<IpNet>) {
    forall i, j :: 0 <= i < j < |network| ==> network[i] != network[j]
  }

  lemma {:induction false} LocalIdsOf(s: State, afi: Afi, network: seq<IpNet>)
    requires Inv(s)
    ensures forall c <- LocalIds(s, afi, network) :: c.0 in network && Listed(s, afi, c)
    decreases |network|
  {
    hide Inv, Bag, ListOk, Keyed;
    if network != [] {
      var d := network[0];
      var paths := At(s, afi, d);
      LocalIdsOf(s, afi, network[1..]);
      InvAt(s, afi, d);
      ListOkKeyed(s.multi, d, paths);
      LocalsArePairs(d, paths);
      OwnIdsStored(paths);
      forall c | c in Locals(paths)
        ensures c.0 == d && Listed(s, afi, c)
      {
        var i :| 0 <= i < |Locals(paths)| && Locals(paths)[i] == c;
        assert c.1 == OwnIds(paths)[i] && c.1 in OwnIds(paths);
        PositionInBag(paths, c.1);
      }
    }
  }

  lemma ListOkKeyed(multi: bool, d: IpNet, paths: seq<Path>)
    requires ListOk(multi, d, paths)
    ensures Keyed(d, paths)
  {
  }

  lemma {:induction false} DeleteSurvivesIff(s: State, afi: Afi, network: seq<IpNet>)
    requires Inv(s) && Unique(s, afi) && afi in s.table && Distinct(network)
    ensures NewBestSurvives(s, afi, LocalIds(s, afi, network)) <==> forall d <- network :: Tellable(At(s, afi, d))
    decreases |network|
  {
    hide Inv, Unique, ListOk, Keyed, DistinctIds, NewBestSurvives, ListSurvives, Tellable, PositionOf, Listed, At;
    if network == [] {
      assert NewBestSurvives(s, afi, []) by { NothingToSurvive(s, afi); }
    } else {
      var d := network[0];
      var paths, rest := At(s, afi, d), LocalIds(s, afi, network[1..]);
      DeleteSurvivesIff(s, afi, network[1..]);
      InvAt(s, afi, d);
      ListOkKeyed(s.multi, d, paths);
      LocalsArePairs(d, paths);
      UniqueDistinct(s, afi, d);
      OwnIdsDistinct(paths);
      OwnIdsStored(paths);
      LocalIdsOf(s, afi, network[1..]);
      assert forall c <- rest :: c.0 != d;
      BlockSurvives(s, afi, d, OwnIds(paths), rest);
      LocalsSurviveIff(s.multi, d, paths);
      assert forall e :: e in network <==> e == d || e in network[1..];
    }
  }

  lemma NothingToSurvive(s: State, afi: Afi)
    ensures NewBestSurvives(s, afi, [])
  {
  }

  lemma {:induction false} LocalIdsDistinct(s: State, afi: Afi, network: seq<IpNet>)
    requires Inv(s) && Unique(s, afi) && Distinct(network)
    ensures NoRepeats(LocalIds(s, afi, network))
    decreases |network|
  {
    hide Inv, Unique, ListOk, Keyed, DistinctIds, Listed, At;
    if network != [] {
      var d := network[0];
      var paths, rest := At(s, afi, d), LocalIds(s, afi, network[1..]);
      LocalIdsDistinct(s, afi, network[1..]);
      InvAt(s, afi, d);
      ListOkKeyed(s.multi, d, paths);
      LocalsArePairs(d, paths);
      UniqueDistinct(s, afi, d);
      OwnIdsDistinct(paths);
      LocalIdsOf(s, afi, network[1..]);
      Disjoint(Pairs(d, OwnIds(paths)), rest, d);
    }
  }

  lemma Disjoint(xs: seq<Change>, ys: seq<Change>, d: IpNet)
    requires NoRepeats(xs) && NoRepeats(ys)
    requires (forall i :: 0 <= i < |xs| ==> xs[i].0 == d) && forall y <- ys :: y.0 != d
    ensures NoRepeats(xs + ys)
  {
    var all := xs + ys;
    forall i, j | 0 <= i < j < |all|
      ensures all[i] != all[j]
    {
      if i < |xs| <= j {
        assert all[j] == ys[j - |xs|] && ys[j - |xs|] in ys;
      } else if |xs| <= i {
        assert all[i] == ys[i - |xs|] && all[j] == ys[j - |xs|];
      }
    }
  }

  /**
   `delete_path` on any list of distinct prefixes: exactly their local paths are dropped, without an error; and the peers
   can be told of the new best paths, if and only if every prefix has a head that is not local, or a single path, or a
   path that is not local right behind its best ones.
   */
  lemma DeleteBatchIff(s: State, afi: Afi, network: seq<IpNet>, asn: u32, peer: NeighborPair)
    requires Inv(s) && Unique(s, afi) && afi in s.table && Distinct(network)
    ensures var b := DropAll(s, afi, LocalIds(s, afi, network), false, 0);
            && b.error == None
            && (Adverts(b.state, afi, b.changed, asn, peer, None).Success? <==> forall d <- network :: Tellable(At(s, afi, d)))
            && forall c :: Listed(b.state, afi, c) <==> Listed(s, afi, c) && c !in LocalIds(s, afi, network)
  {
    hide Inv, Unique, DropAll, Adverts, NewBestSurvives, Tellable, At, Listed, SentAsHead;
    var ids := LocalIds(s, afi, network);
    LocalIdsOf(s, afi, network);
    LocalIdsDistinct(s, afi, network);
    DropErrors(s, afi, ids, false, 0);
    DeleteSurvivesIff(s, afi, network);
    DropBatch(s, afi, ids, false, 0, asn, peer);
    var b := DropAll(s, afi, ids, false, 0);
    forall c
      ensures Listed(b.state, afi, c) <==> Listed(s, afi, c) && c !in ids
    {
      Survives(s, afi, ids, false, 0, c);
    }
  }
}
