/**
 The decision process in terms of the announcements alone: section 9.1.2.2 of RFC 4271 as
 `sartd/src/bgp/src/rib.rs` orders it.
 */
module DecisionFields {
  import opened Base
  import opened Net
  import opened Paths
  import opened Decision
  import opened RibManagerLaws

  /** IPv4 addresses come before IPv6 addresses, and numbers decide within a family. */
  predicate LowerAddr(a: IpAddr, b: IpAddr) {
    match (a, b)
    case (V4(x), V4(y)) => Value(x) < Value(y)
    case (V6(x), V6(y)) => Value(x) < Value(y)
    case (V4(_), V6(_)) => true
    case (V6(_), V4(_)) => false
  }

  predicate Own(a: Announcement) { a.localId == a.peerId }

  predicate SameAs(a: Announcement) { a.localAsn == a.peerAsn }

  /** What a new path can be better by, the first that applies. */
  function Advantage(multi: bool, a: Announcement, b: Announcement): Option<Reason> {
    if a.localPref > b.localPref then Some(LocalPref)
    else if Own(a) && !Own(b) then Some(LocalOriginated)
    else if |a.asSequence| < |b.asSequence| then Some(ASPath)
    else if a.origin < b.origin then Some(Origin)
    else if a.med < b.med then Some(MultiExitDisc)
    else if !SameAs(a) && SameAs(b) then Some(External)
    else if multi then None
    else if Value(a.peerId) < Value(b.peerId) then Some(RouterId)
    else if LowerAddr(a.peerAddr, b.peerAddr) then Some(PeerAddr)
    else None
  }

  /** Field after field, the first difference decides. */
  function Order(multi: bool, a: Announcement, b: Announcement): Ordering {
    if a.localPref != b.localPref then if a.localPref > b.localPref then Less else Greater
    else if Own(a) != Own(b) then if Own(a) then Less else Greater
    else if |a.asSequence| != |b.asSequence| then if |a.asSequence| < |b.asSequence| then Less else Greater
    else if a.origin != b.origin then if a.origin < b.origin then Less else Greater
    else if a.med != b.med then if a.med < b.med then Less else Greater
    else if SameAs(a) != SameAs(b) then if SameAs(b) then Less else Greater
    else if multi then Equal
    else if Value(a.peerId) != Value(b.peerId) then if Value(a.peerId) < Value(b.peerId) then Less else Greater
    else if LowerAddr(a.peerAddr, b.peerAddr) then Less
    else if LowerAddr(b.peerAddr, a.peerAddr) then Greater
    else Equal
  }

  lemma FourOctets(o: Bytes)
    requires |o| <= 4
    ensures Value(o) < 0x1_0000_0000
  {
    if |o| > 0 {
      var o1 := o[..|o| - 1];
      if |o1| > 0 {
        var o2 := o1[..|o1| - 1];
        if |o2| > 0 {
          var o3 := o2[..|o2| - 1];
          assert |o3| > 0 ==> o3[..|o3| - 1] == [];
          assert Value(o3) < 0x100;
        }
        assert Value(o2) < 0x1_0000;
      }
      assert Value(o1) < 0x100_0000;
    }
  }

  lemma AddrOrder(a: IpAddr, b: IpAddr)
    ensures AddrKey(a) < AddrKey(b) <==> LowerAddr(a, b)
  {
    match (a, b)
    case (V4(x), V6(y)) => FourOctets(x);
    case (V6(x), V4(y)) => FourOctets(y);
    case _ =>
  }

  /** The criterion by which a new path of the same age is better, found by the scan, is the first advantage in this order. */
  lemma AdvantageIs(multi: bool, a: Path, b: Path)
    requires a.timestamp == b.timestamp
    ensures FirstBetter(Criteria(multi), a, b) == Advantage(multi, a.what, b.what)
  {
    hide FirstBetter, Compare, Criteria, Value, LowerAddr, Own, SameAs;
    var c := Criteria(multi);
    CriteriaAre(multi);
    FieldByField(a, b);
    TieBreaks(multi, a, b);
    FirstFrom(c, 6, a, b);
    FirstFrom(c, 5, a, b);
    FirstFrom(c, 4, a, b);
    FirstFrom(c, 3, a, b);
    FirstFrom(c, 2, a, b);
    FirstFrom(c, 1, a, b);
    FirstFrom(c, 0, a, b);
    assert c[0..] == c;
  }

  lemma CriteriaAre(multi: bool)
    ensures var c := Criteria(multi);
            && |c| >= 7 && c[0] == Weight && c[1] == LocalPref && c[2] == LocalOriginated && c[3] == ASPath && c[4] == Origin
            && c[5] == MultiExitDisc && c[6] == External
  {
  }

  lemma FieldByField(a: Path, b: Path)
    ensures Compare(Weight, a, b) != Less
    ensures Compare(LocalPref, a, b) == Less <==> a.what.localPref > b.what.localPref
    ensures Compare(LocalOriginated, a, b) == Less <==> Own(a.what) && !Own(b.what)
    ensures Compare(ASPath, a, b) == Less <==> |a.what.asSequence| < |b.what.asSequence|
    ensures Compare(Origin, a, b) == Less <==> a.what.origin < b.what.origin
    ensures Compare(MultiExitDisc, a, b) == Less <==> a.what.med < b.what.med
    ensures Compare(External, a, b) == Less <==> !SameAs(a.what) && SameAs(b.what)
  {
  }

  lemma TieBreaks(multi: bool, a: Path, b: Path)
    requires a.timestamp == b.timestamp
    ensures |Criteria(multi)| >= 7
    ensures FirstBetter(Criteria(multi)[7..], a, b)
            == if multi then None
               else if Value(a.what.peerId) < Value(b.what.peerId) then Some(RouterId)
               else if LowerAddr(a.what.peerAddr, b.what.peerAddr) then Some(PeerAddr)
               else None
  {
    hide FirstBetter, Value, AddrKey, LowerAddr;
    AddrOrder(a.what.peerAddr, b.what.peerAddr);
    var c := Criteria(multi);
    NothingBetter(a, b);
    if multi {
      assert c[7..] == [];
    } else {
      FirstFrom(c, 9, a, b);
      FirstFrom(c, 8, a, b);
      FirstFrom(c, 7, a, b);
      assert c[10..] == [];
    }
  }

  lemma NothingBetter(a: Path, b: Path)
    ensures FirstBetter([], a, b) == None && Lex([], a.what, b.what) == Equal
  {
  }

  lemma FirstFrom(c: seq<Reason>, i: nat, a: Path, b: Path)
    requires i < |c|
    ensures FirstBetter(c[i..], a, b) == if Compare(c[i], a, b) == Less then Some(c[i]) else FirstBetter(c[i + 1..], a, b)
  {
    hide Compare;
    assert c[i..][0] == c[i] && c[i..][1..] == c[i + 1..];
  }

  lemma LexFrom(c: seq<Reason>, i: nat, a: Announcement, b: Announcement)
    requires i < |c|
    ensures Lex(c[i..], a, b) == match Cmp(Key(c[i], a), Key(c[i], b))
                                 case Equal => Lex(c[i + 1..], a, b)
                                 case o => o
  {
    hide Key;
    assert c[i..][0] == c[i] && c[i..][1..] == c[i + 1..];
  }

  /** The order of the criteria is the order of the fields. */
  lemma OrderIs(multi: bool, a: Announcement, b: Announcement)
    ensures Lex(Criteria(multi), a, b) == Order(multi, a, b)
  {
    hide Lex, Criteria, Value, AddrKey, LowerAddr;
    var c := Criteria(multi);
    CriteriaAre(multi);
    LastOrder(multi, a, b);
    LexFrom(c, 6, a, b);
    LexFrom(c, 5, a, b);
    LexFrom(c, 4, a, b);
    LexFrom(c, 3, a, b);
    LexFrom(c, 2, a, b);
    LexFrom(c, 1, a, b);
    LexFrom(c, 0, a, b);
    assert c[0..] == c;
  }

  lemma LastOrder(multi: bool, a: Announcement, b: Announcement)
    ensures |Criteria(multi)| >= 7
    ensures Lex(Criteria(multi)[7..], a, b)
            == if multi then Equal
               else if Value(a.peerId) != Value(b.peerId) then if Value(a.peerId) < Value(b.peerId) then Less else Greater
               else if LowerAddr(a.peerAddr, b.peerAddr) then Less
               else if LowerAddr(b.peerAddr, a.peerAddr) then Greater
               else Equal
  {
    hide Lex, Value, AddrKey, LowerAddr;
    AddrOrder(a.peerAddr, b.peerAddr);
    AddrOrder(b.peerAddr, a.peerAddr);
    var c := Criteria(multi);
    NothingBetter(Path(0, false, NotBest, 0, a), Path(1, false, NotBest, 0, b));
    if multi {
      assert c[7..] == [];
    } else {
      LexFrom(c, 9, a, b);
      LexFrom(c, 8, a, b);
      LexFrom(c, 7, a, b);
      assert c[10..] == [];
    }
  }

  /** A new path takes the head from another if and only if it has some advantage over it. */
  lemma BeatsIff(multi: bool, a: Announcement, b: Announcement)
    ensures Beats(multi, a, b) <==> Advantage(multi, a, b).Some?
  {
    hide Criteria, Key, FirstBetter, Advantage;
    var p, q := Path(0, false, NotBest, 0, a), Path(1, false, NotBest, 0, b);
    AdvantageIs(multi, p, q);
    BetterIffKey(Criteria(multi), p, q);
  }
}
