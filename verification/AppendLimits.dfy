/** Append histories that show where the builder's verdict and the content of the lists part. */
module AppendLimits {
  import opened Digraph
  import opened Events
  import opened Solver
  import opened Transactions
  import opened Histories
  import opened Indexes
  import opened Chains
  import opened ChainSchedules
  import opened ChainEncodings
  import opened AppendHistories
  import opened AppendEncodings
  import opened AppendConstruction

  // ----- an order that the lists show but nobody read in between

  /** T3 reads what T1 and T2 appended to key 0, in this order; but T1 read T2's element of key 1. */
  ghost function UnreadOrder(): AppendHistory {
    AppendHistory(
      [map[], map[1 := Elems([Num(5)])], map[], map[0 := Elems([Num(1), Num(2)])]],
      [[], [(0, Num(1))], [(0, Num(2)), (1, Num(5))], []], [], false)
  }

  ghost predicate IsUnreadOrder(h: AppendHistory) {
    && |h.observed| == |h.appended| == 4 && h.sessions == [] && !h.strong
    && (forall i: nat, k, e :: Appends(h, i, k, e) <==> (i == 1 && k == 0 && e == Num(1)) || (i == 2 && k == 0 && e == Num(2)) || (i == 2 && k == 1 && e == Num(5)))
    && (forall j: nat, k, l :: Observes(h, j, k, l) <==> (j == 1 && k == 1 && l == [Num(5)]) || (j == 3 && k == 0 && l == [Num(1), Num(2)]))
    && (forall j: nat, k :: !ReadsMissing(h, j, k))
    && Part(h, 1, 0) == [Num(1)] && Part(h, 2, 0) == [Num(2)] && Part(h, 2, 1) == [Num(5)]
  }

  lemma UnreadOrderFacts()
    ensures IsUnreadOrder(UnreadOrder())
  {
    var h := UnreadOrder();
    AppendedToOne(0, Num(1), 0);
    AppendedToTwo(0, Num(2), 1, Num(5));
  }

  lemma AppendedToOne(k: Key, e: Elem, l: Key)
    ensures AppendedTo([(k, e)], l) == if k == l then [e] else []
  {
    assert [(k, e)][1..] == [];
  }

  lemma AppendedToTwo(k: Key, e: Elem, l: Key, f: Elem)
    ensures AppendedTo([(k, e), (l, f)], k) == [e] + if k == l then [f] else []
    ensures k != l ==> AppendedTo([(k, e), (l, f)], l) == [f]
  {
    assert [(k, e), (l, f)][1..] == [(l, f)];
    AppendedToOne(l, f, k);
    AppendedToOne(l, f, l);
  }

  lemma UnreadOrderDemands(h: AppendHistory)
    requires IsUnreadOrder(h)
    ensures forall k, a: nat, b: nat :: Demands(h, k, a, b) <==> k == 0 && a == 1 && b == 2
    ensures forall j: nat, a: nat, k :: ReadsTailOf(h, j, a, k) <==> a == 2 && ((j == 1 && k == 1) || (j == 3 && k == 0))
  {
    var list := [Num(1), Num(2)];
    assert Observes(h, 3, 0, list) && ShowsNext(h, 0, list, 0, 1, 2);
    assert ListDemands(h, 0, list, 1, 2);
    assert Observes(h, 1, 1, [Num(5)]) && EndsWith(h, 1, [Num(5)], 2) && EndsWith(h, 0, list, 2);
  }

  lemma UnreadOrderIsTaken(h: AppendHistory)
    requires IsUnreadOrder(h)
    ensures ProperAppends(h) && !Refused(h) && WholeLists(h) && !SuccessionsWereRead(h)
  {
    UnreadOrderDemands(h);
    assert KnownElem(h, 0, Num(1)) && KnownElem(h, 0, Num(2)) && KnownElem(h, 1, Num(5)) by {
      assert Appends(h, 1, 0, Num(1)) && Appends(h, 2, 0, Num(2)) && Appends(h, 2, 1, Num(5));
    }
    forall k, p ensures !DemandCircle(h, k, p) {
      if |p| >= 2 && DemandPath(h, k, p) {
        UnreadOrderPath(h, k, p);
      }
    }
    UnreadOrderIsWhole(h);
    assert Demands(h, 0, 1, 2) && !ReadsTailOf(h, 2, 1, 0);
  }

  lemma UnreadOrderPath(h: AppendHistory, k: Key, p: seq<nat>)
    requires IsUnreadOrder(h) && |p| >= 2 && DemandPath(h, k, p)
    ensures p[0] == 1 && p[|p| - 1] == 2
  {
    UnreadOrderDemands(h);
    assert DemandedAt(h, k, p, 0) && DemandedAt(h, k, p, |p| - 2);
  }

  lemma ListOfOne(h: AppendHistory, k: Key, w: nat)
    ensures AppendedBy(h, k, [w]) == Part(h, w, k)
  {
    assert [w][..0] == [];
  }

  lemma UnreadOrderIsWhole(h: AppendHistory)
    requires IsUnreadOrder(h)
    ensures WholeLists(h)
  {
    ListOfOne(h, 0, 1);
    ListOfOne(h, 1, 2);
    assert [1, 2][..1] == [1];
    assert AppendedBy(h, 0, [1, 2]) == [Num(1), Num(2)];
    assert Appends(h, 1, 0, Num(1)) && Appends(h, 2, 0, Num(2)) && Appends(h, 2, 1, Num(5));
    assert AllAppend(h, 0, [1, 2]) && AllAppend(h, 1, [2]);
    assert IsWhole(h, 0, [Num(1), Num(2)]);
    assert IsWhole(h, 1, [Num(5)]);
  }

  /** T2, then T1, then T3 obeys the polygraph. */
  lemma UnreadOrderFits(h: AppendHistory, s: Schedule, chains: map<Key, set<Chain>>)
    requires IsUnreadOrder(h) && ProperAppends(h) && !HasUnknownTail(h) && AppendChainsOf(h, chains)
    requires s == Schedule([0, 4, 2, 6], [1, 5, 3, 7])
    ensures AppendOrders(h, s, chains)
  {
    var v := Versions(h);
    UnreadOrderDemands(h);
    UnreadOrderReads(h, s);
    forall k | k in chains ensures ChainsApart(v, s, k, chains[k]) {
      UnreadOrderHasOneChain(h, chains, k);
    }
  }

  lemma UnreadOrderReads(h: AppendHistory, s: Schedule)
    requires IsUnreadOrder(h) && ProperAppends(h) && !HasUnknownTail(h) && s == Schedule([0, 4, 2, 6], [1, 5, 3, 7])
    ensures WellTimed(4, s) && StartsInOrder(Versions(h), s) && ReadOrders(Versions(h), s) && MissedOrders(h, s) && NextVersionOrders(h, s)
  {
    var v := Versions(h);
    UnreadOrderDemands(h);
    forall j: nat, i: nat, k ensures ReadsFrom(v, j, i, k) <==> ReadsTailOf(h, j, i, k) {
      VersionsRead(h, j, i, k);
    }
    forall j: nat, k ensures !ReadsInitial(v, j, k) {
      VersionsRead(h, j, 0, k);
    }
    forall e ensures !IsMissed(h, e) {
      forall k, list | Observes(h, e.src, k, list) && AppendsMore(h, e.dst, k, list) ensures false {
      }
    }
  }

  lemma UnreadOrderHasOneChain(h: AppendHistory, chains: map<Key, set<Chain>>, k: Key)
    requires IsUnreadOrder(h) && ProperAppends(h) && AppendChainsOf(h, chains) && k in chains
    ensures forall c, d :: c in chains[k] && d in chains[k] ==> c == d
  {
    var v, cs := Versions(h), chains[k];
    UnreadOrderDemands(h);
    forall c, d | c in cs && d in cs ensures c == d {
      ChainMembersWrite(v, k, cs, c);
      ChainMembersWrite(v, k, cs, d);
      VersionsWrite(h, c[0], k);
      VersionsWrite(h, d[0], k);
      assert c[0] in c && d[0] in d;
      if c[0] != d[0] {
        assert k == 0;
        assert AdjacentInSome(cs, 1, 2);
        var e, p: nat :| e in cs && Adjacent(e, p, 1, 2);
        assert e[p] in e && e[p + 1] in e;
      }
    }
  }

  lemma UnreadOrderIsNotListSI(h: AppendHistory)
    requires IsUnreadOrder(h) && ProperAppends(h)
    ensures !IsListSI(h)
  {
    UnreadOrderDemands(h);
    forall s ensures !ListsIsolated(h, s) {
      if ListsIsolated(h, s) {
        DemandsAreConsecutive(h, s, 0, 1, 2);
        LastIsLatest(h, s, 1, 1, [Num(5)], 2);
      }
    }
  }

  /** Lists that show two transactions in the opposite order to that in which one read the other are accepted: no edge
      of the polygraph says that neighbours in a chain commit in its order. */
  lemma UnreadOrderIsAccepted(h: AppendHistory, chains: map<Key, set<Chain>>, known: set<Edge>, conn: set<Constraint>)
    requires IsUnreadOrder(h) && AppendEncodingOf(h, chains, known, conn)
    ensures ProperAppends(h) && !Refused(h) && WholeLists(h) && !SuccessionsWereRead(h)
    ensures Satisfiable(4, known, conn) && !IsListSI(h)
  {
    UnreadOrderIsTaken(h);
    VersionsAreProper(h);
    AppendEncodingIsProper(h, chains, known, conn);
    SatisfiableIffSchedulable(4, known, conn);
    var s := Schedule([0, 4, 2, 6], [1, 5, 3, 7]);
    UnreadOrderFits(h, s, chains);
    AppendFitsMeansOrders(h, s, chains, known, conn);
    UnreadOrderIsNotListSI(h);
  }

  // ----- a list that shows a part of what a transaction appends

  ghost function PartialRead(): AppendHistory {
    AppendHistory([map[], map[], map[0 := Elems([Num(1)])]], [[], [(0, Num(1)), (0, Num(2))], []], [], false)
  }

  ghost predicate IsPartialRead(h: AppendHistory) {
    && |h.observed| == |h.appended| == 3 && h.sessions == [] && !h.strong
    && (forall i: nat, k, e :: Appends(h, i, k, e) <==> i == 1 && k == 0 && (e == Num(1) || e == Num(2)))
    && (forall j: nat, k, l :: Observes(h, j, k, l) <==> j == 2 && k == 0 && l == [Num(1)])
    && (forall j: nat, k :: !ReadsMissing(h, j, k))
    && Part(h, 1, 0) == [Num(1), Num(2)]
  }

  lemma PartialReadFacts()
    ensures IsPartialRead(PartialRead())
  {
    AppendedToTwo(0, Num(1), 0, Num(2));
  }

  lemma PartialReadDemands(h: AppendHistory)
    requires IsPartialRead(h)
    ensures forall k, a: nat, b: nat :: !Demands(h, k, a, b)
    ensures forall j: nat, a: nat, k :: ReadsTailOf(h, j, a, k) <==> a == 1 && j == 2 && k == 0
  {
    assert Observes(h, 2, 0, [Num(1)]) && EndsWith(h, 0, [Num(1)], 1);
  }

  lemma PartialReadIsTaken(h: AppendHistory)
    requires IsPartialRead(h)
    ensures ProperAppends(h) && !Refused(h) && SuccessionsWereRead(h)
  {
    PartialReadDemands(h);
    assert Appends(h, 1, 0, Num(1));
    forall k, p ensures !DemandCircle(h, k, p) {
      assert |p| >= 2 ==> !DemandedAt(h, k, p, 0);
    }
  }

  lemma PartialReadIsNotWhole(h: AppendHistory)
    requires IsPartialRead(h)
    ensures !WholeLists(h)
  {
    assert Observes(h, 2, 0, [Num(1)]);
    forall ws: seq<nat> | Distinct(ws) && AllAppend(h, 0, ws) ensures AppendedBy(h, 0, ws) != [Num(1)] {
      PartsAreLong(h, ws);
    }
  }

  lemma PartsAreLong(h: AppendHistory, ws: seq<nat>)
    requires IsPartialRead(h) && AllAppend(h, 0, ws)
    ensures |AppendedBy(h, 0, ws)| != 1
  {
    if ws != [] {
      var w := ws[|ws| - 1];
      assert w in ws;
      assert |AppendedBy(h, 0, ws)| == |AppendedBy(h, 0, ws[..|ws| - 1])| + |Part(h, w, 0)|;
    }
  }

  lemma PartialReadOrders(h: AppendHistory, s: Schedule, chains: map<Key, set<Chain>>)
    requires IsPartialRead(h) && ProperAppends(h) && !HasUnknownTail(h) && AppendChainsOf(h, chains)
    requires s == Schedule([0, 2, 4], [1, 3, 5])
    ensures AppendOrders(h, s, chains)
  {
    var v := Versions(h);
    PartialReadDemands(h);
    forall j: nat, i: nat, k ensures ReadsFrom(v, j, i, k) <==> ReadsTailOf(h, j, i, k) {
      VersionsRead(h, j, i, k);
    }
    forall j: nat, k ensures !ReadsInitial(v, j, k) {
      VersionsRead(h, j, 0, k);
    }
    forall k, c, d | k in chains && c in chains[k] && d in chains[k] ensures c == d {
      ChainMembersWrite(v, k, chains[k], c);
      ChainMembersWrite(v, k, chains[k], d);
      VersionsWrite(h, c[0], k);
      VersionsWrite(h, d[0], k);
      assert c[0] in c && d[0] in d;
    }
  }

  /** A list that shows only the first of two elements one transaction appends is accepted. */
  lemma PartialReadIsAccepted(h: AppendHistory, chains: map<Key, set<Chain>>, known: set<Edge>, conn: set<Constraint>)
    requires IsPartialRead(h) && AppendEncodingOf(h, chains, known, conn)
    ensures ProperAppends(h) && !Refused(h) && SuccessionsWereRead(h) && !WholeLists(h)
    ensures Satisfiable(3, known, conn) && !IsListSI(h)
  {
    PartialReadIsTaken(h);
    PartialReadIsNotWhole(h);
    VersionsAreProper(h);
    AppendEncodingIsProper(h, chains, known, conn);
    SatisfiableIffSchedulable(3, known, conn);
    var s := Schedule([0, 2, 4], [1, 3, 5]);
    PartialReadOrders(h, s, chains);
    AppendFitsMeansOrders(h, s, chains, known, conn);
    AppendEncodesLists(h, chains, known, conn);
  }

  // ----- a circle that is only noticed by a failing removal

  /** Two transactions each read the list that ends with the other's element. */
  ghost function MutualAppends(): AppendHistory {
    AppendHistory(
      [map[], map[0 := Elems([Num(2)])], map[0 := Elems([Num(1)])]],
      [[], [(0, Num(1))], [(0, Num(2))]], [], false)
  }

  ghost predicate IsMutual(h: AppendHistory) {
    && |h.observed| == |h.appended| == 3 && h.sessions == [] && !h.strong
    && (forall i: nat, k, e :: Appends(h, i, k, e) <==> k == 0 && ((i == 1 && e == Num(1)) || (i == 2 && e == Num(2))))
    && (forall j: nat, k, l :: Observes(h, j, k, l) <==> k == 0 && ((j == 1 && l == [Num(2)]) || (j == 2 && l == [Num(1)])))
  }

  lemma MutualFacts()
    ensures IsMutual(MutualAppends())
  {
  }

  lemma MutualDemands(h: AppendHistory)
    requires IsMutual(h)
    ensures forall k, a: nat, b: nat :: Demands(h, k, a, b) <==> k == 0 && ((a == 1 && b == 2) || (a == 2 && b == 1))
  {
    assert Appends(h, 1, 0, Num(1)) && Appends(h, 2, 0, Num(2));
    assert Observes(h, 1, 0, [Num(2)]) && Extends(h, 0, [Num(2)], 2, 1);
    assert Observes(h, 2, 0, [Num(1)]) && Extends(h, 0, [Num(1)], 1, 2);
    assert ListDemands(h, 0, [Num(2)], 2, 1) && ListDemands(h, 0, [Num(1)], 1, 2);
  }

  /** Nothing conflicts when the successions of these lists are inferred, but they form a circle, at which combining
      them fails by removing one chain twice and not by a rejection. */
  lemma MutualAppendsCloseACircle(h: AppendHistory, ww: Successions)
    requires IsMutual(h) && SuccessionsAreDemands(h, ww)
    ensures ProperAppends(h) && !HasConflict(h) && !HasUnknownTail(h) && !ReadsOwnTail(h)
    ensures HasDemandCircle(h) && !HasCommonSuccessor(h) && SuccessionCycle(ww, 0, [1, 2, 1])
  {
    MutualDemands(h);
    assert Appends(h, 1, 0, Num(1)) && Appends(h, 2, 0, Num(2));
    assert DemandedAt(h, 0, [1, 2, 1], 0) && DemandedAt(h, 0, [1, 2, 1], 1);
    assert DemandCircle(h, 0, [1, 2, 1]);
    CircleOfDemands(h, ww, 0, [1, 2, 1]);
  }
}
