/** The append polygraph: what it demands of a schedule, and how that relates to schedules under which
    every list read is the committed list at its reader's begin. */
module AppendEncodings {
  import opened Digraph
  import opened Events
  import opened Solver
  import opened Transactions
  import opened Histories
  import opened Indexes
  import opened Encodings
  import opened Chains
  import opened ChainSchedules
  import opened ChainEncodings
  import opened AppendHistories

  // ----- lists and the transactions they are made of

  lemma {:induction false} ElementsOfParts(h: AppendHistory, k: Key, ws: seq<nat>, e: Elem)
    ensures e in AppendedBy(h, k, ws) <==> exists w :: w in ws && Appends(h, w, k, e)
  {
    if ws != [] {
      var init, last := ws[..|ws| - 1], ws[|ws| - 1];
      ElementsOfParts(h, k, init, e);
      assert ws == init + [last];
      assert e in AppendedBy(h, k, ws) <==> e in AppendedBy(h, k, init) || e in Part(h, last, k);
      if w :| w in ws && Appends(h, w, k, e) {
        assert w in init || w == last;
      }
    }
  }

  ghost predicate AllAppend(h: AppendHistory, k: Key, ws: seq<nat>) {
    forall w :: w in ws ==> AppendsTo(h, w, k)
  }

  lemma PartIsNotEmpty(h: AppendHistory, w: nat, k: Key)
    requires AppendsTo(h, w, k)
    ensures Part(h, w, k) != []
  {
    var e :| Appends(h, w, k, e);
    assert e in Part(h, w, k);
  }

  lemma EndsWithLast(h: AppendHistory, k: Key, ws: seq<nat>)
    requires AllAppend(h, k, ws) && ws != []
    ensures EndsWith(h, k, AppendedBy(h, k, ws), ws[|ws| - 1])
  {
    var w := ws[|ws| - 1];
    PartIsNotEmpty(h, w, k);
    var part := Part(h, w, k);
    assert part[|part| - 1] in part;
    assert AppendedBy(h, k, ws)[|AppendedBy(h, k, ws)| - 1] == part[|part| - 1];
  }

  /** Where an element of one transaction is followed by one of another, the two come one after the other. */
  lemma {:induction false} NeighboursInParts(h: AppendHistory, k: Key, ws: seq<nat>, p: nat, a: nat, b: nat) returns (q: nat)
    requires ProperAppends(h) && AllAppend(h, k, ws) && ShowsNext(h, k, AppendedBy(h, k, ws), p, a, b)
    ensures q + 1 < |ws| && ws[q] == a && ws[q + 1] == b
  {
    var init, w := ws[..|ws| - 1], ws[|ws| - 1];
    var list, before, part := AppendedBy(h, k, ws), AppendedBy(h, k, init), Part(h, w, k);
    assert list == before + part;
    forall x | |before| <= x < |list| ensures Appends(h, w, k, list[x]) {
      assert list[x] in part;
    }
    if p + 1 < |before| {
      q := NeighboursInParts(h, k, init, p, a, b);
    } else {
      assert init != [];
      EndsWithLast(h, k, init);
      q := |ws| - 2;
    }
  }

  /** And wherever two transactions come one after the other, the list shows them next to each other. */
  lemma {:induction false} PartsShowNext(h: AppendHistory, k: Key, ws: seq<nat>, q: nat) returns (p: nat)
    requires ProperAppends(h) && AllAppend(h, k, ws) && Distinct(ws) && q + 1 < |ws|
    ensures ShowsNext(h, k, AppendedBy(h, k, ws), p, ws[q], ws[q + 1])
  {
    var init, w := ws[..|ws| - 1], ws[|ws| - 1];
    var list, before, part := AppendedBy(h, k, ws), AppendedBy(h, k, init), Part(h, w, k);
    assert list == before + part;
    if q + 1 < |ws| - 1 {
      p := PartsShowNext(h, k, init, q);
    } else {
      EndsWithLast(h, k, init);
      PartIsNotEmpty(h, w, k);
      assert part[0] in part;
      p := |before| - 1;
    }
  }

  // ----- what isolation by content gives

  lemma ReaderSeesLast(h: AppendHistory, s: Schedule, j: nat, k: Key, list: seq<Elem>) returns (ws: seq<nat>)
    requires ProperAppends(h) && ListsIsolated(h, s) && Observes(h, j, k, list)
    ensures CommittedInOrder(h, s, j, k, ws) && list == AppendedBy(h, k, ws) && AllAppend(h, k, ws)
    ensures ws != [] && EndsWith(h, k, list, ws[|ws| - 1])
    ensures forall w: nat :: EndsWith(h, k, list, w) ==> w == ws[|ws| - 1]
  {
    assert ShowsCommitted(h, s, j, k, Elems(list));
    ws :| CommittedInOrder(h, s, j, k, ws) && list == AppendedBy(h, k, ws);
    EndsWithLast(h, k, ws);
  }

  lemma IsolatedListsHaveKnownTails(h: AppendHistory, s: Schedule)
    requires ProperAppends(h) && ListsIsolated(h, s)
    ensures !HasUnknownTail(h) && !ReadsOwnTail(h)
  {
    forall j: nat, k, list | Observes(h, j, k, list) ensures KnownTail(h, k, list) && !EndsWith(h, k, list, j) {
      var ws := ReaderSeesLast(h, s, j, k, list);
      assert Appends(h, ws[|ws| - 1], k, list[|list| - 1]);
      assert ws[|ws| - 1] in ws;
    }
  }

  lemma IsolatedListsAreSI(h: AppendHistory, s: Schedule)
    requires ProperAppends(h) && ListsIsolated(h, s) && ProperSessions(|h.appended|, h.sessions)
    ensures !HasUnknownTail(h) && !ReadsOwnTail(h) && Proper(Versions(h)) && SnapshotIsolated(Versions(h), s)
  {
    var v := Versions(h);
    IsolatedListsHaveKnownTails(h, s);
    VersionsAreProper(h);
    forall j: nat, k | Reads(v, j, k) ensures ReadSeesLatest(v, s, j, k) {
      forall i: nat | ReadsFrom(v, j, i, k) ensures IsLatest(v, s, i, j, k) {
        VersionsRead(h, j, i, k);
        var list :| Observes(h, j, k, list) && EndsWith(h, k, list, i);
        LastIsLatest(h, s, j, k, list, i);
      }
      if ReadsInitial(v, j, k) {
        VersionsRead(h, j, 0, k);
        assert ShowsCommitted(h, s, j, k, Missing);
        forall w: nat | Writes(v, w, k) ensures !CommittedBefore(s, w, j) {
          VersionsWrite(h, w, k);
        }
      }
    }
  }

  lemma LastIsLatest(h: AppendHistory, s: Schedule, j: nat, k: Key, list: seq<Elem>, i: nat)
    requires ProperAppends(h) && ListsIsolated(h, s) && Observes(h, j, k, list) && EndsWith(h, k, list, i)
    ensures IsLatest(Versions(h), s, i, j, k)
  {
    var v := Versions(h);
    var ws := ReaderSeesLast(h, s, j, k, list);
    assert ws[|ws| - 1] in ws;
    VersionsWrite(h, i, k);
    forall w: nat | Writes(v, w, k) && CommittedBefore(s, w, j) ensures s.commit[w] <= s.commit[i] {
      VersionsWrite(h, w, k);
      var p :| 0 <= p < |ws| && ws[p] == w;
      assert p < |ws| - 1 ==> CommitsEarlier(s, ws[p], ws[|ws| - 1]);
    }
  }

  /** Whatever the lists demand, the one transaction is the next to append to the key after the other. */
  lemma DemandsAreConsecutive(h: AppendHistory, s: Schedule, k: Key, a: nat, b: nat)
    requires ProperAppends(h) && ListsIsolated(h, s) && Demands(h, k, a, b)
    ensures Consecutive(Versions(h), s, k, a, b)
  {
    var j: nat, list :| Observes(h, j, k, list) && ListDemands(h, k, list, a, b);
    var ws := ReaderSeesLast(h, s, j, k, list);
    VersionsWrite(h, a, k);
    VersionsWrite(h, b, k);
    if p: nat :| ShowsNext(h, k, list, p, a, b) {
      var q := NeighboursInParts(h, k, ws, p, a, b);
      ShownNextIsConsecutive(h, s, j, k, ws, q);
    } else {
      var vs := ReaderSeesLast(h, s, b, k, list);
      ExtendedIsConsecutive(h, s, b, k, vs);
    }
  }

  lemma ShownNextIsConsecutive(h: AppendHistory, s: Schedule, j: nat, k: Key, ws: seq<nat>, q: nat)
    requires ProperAppends(h) && ListsIsolated(h, s) && j < |h.appended|
    requires CommittedInOrder(h, s, j, k, ws) && q + 1 < |ws|
    ensures Consecutive(Versions(h), s, k, ws[q], ws[q + 1])
  {
    var v, a, b := Versions(h), ws[q], ws[q + 1];
    assert a in ws && b in ws;
    VersionsWrite(h, a, k);
    VersionsWrite(h, b, k);
    assert CommitsEarlier(s, a, b);
    assert CommittedBefore(s, a, b) || CommittedBefore(s, b, a);
    forall w: nat | Writes(v, w, k) && w != a && w != b ensures CommittedBefore(s, w, a) || CommittedBefore(s, b, w) {
      VersionsWrite(h, w, k);
      assert CommittedBefore(s, w, a) || CommittedBefore(s, a, w);
      assert CommittedBefore(s, w, b) || CommittedBefore(s, b, w);
      if w in ws {
        var p :| 0 <= p < |ws| && ws[p] == w;
        assert p < q ==> CommitsEarlier(s, w, a);
        assert q + 1 < p ==> CommitsEarlier(s, b, w);
      }
    }
  }

  lemma ExtendedIsConsecutive(h: AppendHistory, s: Schedule, b: nat, k: Key, ws: seq<nat>)
    requires ProperAppends(h) && ListsIsolated(h, s) && AppendsTo(h, b, k) && b < |h.appended|
    requires CommittedInOrder(h, s, b, k, ws) && ws != []
    ensures Consecutive(Versions(h), s, k, ws[|ws| - 1], b)
  {
    var v, a := Versions(h), ws[|ws| - 1];
    assert a in ws;
    VersionsWrite(h, a, k);
    VersionsWrite(h, b, k);
    forall w: nat | Writes(v, w, k) && w != a && w != b ensures CommittedBefore(s, w, a) || CommittedBefore(s, b, w) {
      VersionsWrite(h, w, k);
      assert CommittedBefore(s, w, a) || CommittedBefore(s, a, w);
      assert CommittedBefore(s, w, b) || CommittedBefore(s, b, w);
      if w in ws {
        var p :| 0 <= p < |ws| && ws[p] == w;
        assert p < |ws| - 1 ==> CommitsEarlier(s, w, a);
      }
    }
  }

  // ----- what the builder refuses

  /** Versions that are demanded to follow each other in a circle. */
  ghost predicate DemandCircle(h: AppendHistory, k: Key, p: seq<nat>) {
    |p| >= 2 && p[0] == p[|p| - 1] && DemandPath(h, k, p)
  }

  ghost predicate DemandPath(h: AppendHistory, k: Key, p: seq<nat>) {
    forall t: nat :: t + 1 < |p| ==> DemandedAt(h, k, p, t)
  }

  ghost predicate DemandedAt(h: AppendHistory, k: Key, p: seq<nat>, t: nat) {
    t + 1 < |p| && Demands(h, k, p[t], p[t + 1])
  }

  ghost predicate HasDemandCircle(h: AppendHistory) {
    exists k, p :: DemandCircle(h, k, p)
  }

  /** Two transactions are both demanded to come right before a third. */
  ghost predicate HasCommonSuccessor(h: AppendHistory) {
    exists k, a: nat, b: nat, c: nat :: Demands(h, k, a, c) && Demands(h, k, b, c) && a != b
  }

  /** What makes the construction stop, by a rejection or by a failing assertion. */
  ghost predicate Refused(h: AppendHistory) {
    HasUnknownTail(h) || ReadsOwnTail(h) || HasConflict(h) || HasDemandCircle(h) || HasCommonSuccessor(h)
  }

  lemma DemandCommitsEarlier(h: AppendHistory, s: Schedule, k: Key, a: nat, b: nat)
    requires ProperAppends(h) && ListsIsolated(h, s) && Demands(h, k, a, b)
    ensures CommitsEarlier(s, a, b)
  {
    DemandsAreConsecutive(h, s, k, a, b);
  }

  lemma {:induction false} DemandsCommitInOrder(h: AppendHistory, s: Schedule, k: Key, p: seq<nat>, m: nat)
    requires ProperAppends(h) && ListsIsolated(h, s) && 1 <= m < |p| && DemandPath(h, k, p)
    ensures CommitsEarlier(s, p[0], p[m])
  {
    assert DemandedAt(h, k, p, m - 1);
    DemandCommitsEarlier(h, s, k, p[m - 1], p[m]);
    if m > 1 {
      DemandsCommitInOrder(h, s, k, p, m - 1);
    }
  }

  lemma ConsecutiveIsUnique(h: History, s: Schedule, k: Key, a: nat, b: nat, c: nat)
    requires WellTimed(|h.extWrites|, s)
    ensures Consecutive(h, s, k, a, b) && Consecutive(h, s, k, a, c) ==> b == c
    ensures Consecutive(h, s, k, a, c) && Consecutive(h, s, k, b, c) ==> a == b
  {
  }

  lemma IsolatedListsDoNotConflict(h: AppendHistory, s: Schedule)
    requires ProperAppends(h) && ListsIsolated(h, s)
    ensures !HasConflict(h) && !HasCommonSuccessor(h)
  {
    forall k, a: nat, b: nat, c: nat | Demands(h, k, a, b) && Demands(h, k, a, c) ensures b == c {
      DemandsAreConsecutive(h, s, k, a, b);
      DemandsAreConsecutive(h, s, k, a, c);
      ConsecutiveIsUnique(Versions(h), s, k, a, b, c);
    }
    forall k, a: nat, b: nat, c: nat | Demands(h, k, a, c) && Demands(h, k, b, c) ensures a == b {
      DemandsAreConsecutive(h, s, k, a, c);
      DemandsAreConsecutive(h, s, k, b, c);
      ConsecutiveIsUnique(Versions(h), s, k, a, b, c);
    }
  }

  lemma IsolatedListsHaveNoCircle(h: AppendHistory, s: Schedule)
    requires ProperAppends(h) && ListsIsolated(h, s)
    ensures !HasDemandCircle(h)
  {
    forall k, p ensures !DemandCircle(h, k, p) {
      if |p| >= 2 && DemandPath(h, k, p) {
        DemandsCommitInOrder(h, s, k, p, |p| - 1);
      }
    }
  }

  /** Nothing is refused that can be explained. */
  lemma IsolatedListsAreNotRefused(h: AppendHistory, s: Schedule)
    requires ProperAppends(h) && ListsIsolated(h, s)
    ensures !Refused(h)
  {
    IsolatedListsHaveKnownTails(h, s);
    IsolatedListsDoNotConflict(h, s);
    IsolatedListsHaveNoCircle(h, s);
  }

  // ----- the edges and constraints of the append polygraph

  /** w appends something to k that the list does not show. */
  ghost predicate AppendsMore(h: AppendHistory, w: nat, k: Key, list: seq<Elem>) {
    exists e :: Appends(h, w, k, e) && e !in list
  }

  /** The reader of a list begins before the transactions commit that append what the list does not show. */
  ghost predicate IsMissed(h: AppendHistory, e: Edge) {
    && e.kind.RW? && e.src != e.dst
    && exists k, list :: Observes(h, e.src, k, list) && AppendsMore(h, e.dst, k, list) && !EndsWith(h, k, list, e.dst)
  }

  /** The reader of a version begins before the next one commits. */
  ghost predicate IsNextVersion(h: AppendHistory, e: Edge) {
    e.kind.RW? && e.src != e.dst && exists a: nat, k :: Demands(h, k, a, e.dst) && ReadsTailOf(h, e.src, a, k)
  }

  ghost predicate AppendKnownOf(h: AppendHistory, known: set<Edge>) {
    forall e :: e in known <==> IsKnown(Versions(h), e) || IsMissed(h, e) || IsNextVersion(h, e)
  }

  /** The chains of all keys, neighbours exactly where the lists demand it. */
  ghost predicate AppendChainsOf(h: AppendHistory, chains: map<Key, set<Chain>>) {
    && AllKeyChains(Versions(h), chains)
    && (forall k, a: nat, b: nat :: k in chains ==> (AdjacentInSome(chains[k], a, b) <==> Demands(h, k, a, b)))
  }

  ghost predicate AppendEncodingOf(h: AppendHistory, chains: map<Key, set<Chain>>, known: set<Edge>, conn: set<Constraint>) {
    && AppendChainsOf(h, chains) && AppendKnownOf(h, known) && ChainConstraintsOf(Versions(h), chains, conn)
  }

  lemma AppendEncodingIsProper(h: AppendHistory, chains: map<Key, set<Chain>>, known: set<Edge>, conn: set<Constraint>)
    requires ProperAppends(h) && Proper(Versions(h)) && AppendEncodingOf(h, chains, known, conn)
    ensures ProperEdges(|h.appended|, known) && ProperConstraints(|h.appended|, conn)
  {
    var v := Versions(h);
    var plain := set e | e in known && IsKnown(v, e);
    forall e | IsKnown(v, e) ensures e in plain {
    }
    KnownIsProper(v, plain);
    ChainConstraintsAreProper(v, chains, conn);
    forall e | e in known && IsNextVersion(h, e) ensures ProperEdge(|h.appended|, e) {
      var a: nat, k :| Demands(h, k, a, e.dst) && ReadsTailOf(h, e.src, a, k);
      DemandsJoinWriters(h, k, a, e.dst);
    }
  }

  lemma DemandsJoinWriters(h: AppendHistory, k: Key, a: nat, b: nat)
    requires Demands(h, k, a, b)
    ensures AppendsTo(h, a, k) && AppendsTo(h, b, k)
  {
    var j: nat, list :| Observes(h, j, k, list) && ListDemands(h, k, list, a, b);
  }

  // ----- what they demand of a schedule

  ghost predicate MissedOrders(h: AppendHistory, s: Schedule) {
    forall e :: IsMissed(h, e) ==> Holds(s, e)
  }

  ghost predicate NextVersionOrders(h: AppendHistory, s: Schedule) {
    forall e :: IsNextVersion(h, e) ==> Holds(s, e)
  }

  /** The order of the versions themselves, which no edge of the polygraph demands. */
  ghost predicate SuccessionOrders(h: AppendHistory, s: Schedule) {
    forall e :: IsSuccessionEdge(h, e) ==> Holds(s, e)
  }

  ghost predicate IsSuccessionEdge(h: AppendHistory, e: Edge) {
    e.kind.WW? && exists k :: Demands(h, k, e.src, e.dst)
  }

  ghost function SuccessionEdges(h: AppendHistory): (es: set<Edge>)
    ensures forall e :: e in es <==> IsSuccessionEdge(h, e)
  {
    var es := set a, b | 0 <= a < |h.appended| && 0 <= b < |h.appended| && IsSuccessionEdge(h, Edge(a, b, WW)) :: Edge(a, b, WW);
    assert forall e :: IsSuccessionEdge(h, e) ==> e in es by {
      forall e | IsSuccessionEdge(h, e) ensures e in es {
        var k :| Demands(h, k, e.src, e.dst);
        DemandsJoinWriters(h, k, e.src, e.dst);
        assert e == Edge(e.src, e.dst, WW);
      }
    }
    es
  }

  ghost predicate AppendOrders(h: AppendHistory, s: Schedule, chains: map<Key, set<Chain>>)
    requires ProperAppends(h) && AppendChainsOf(h, chains)
  {
    && WellTimed(|h.appended|, s) && StartsInOrder(Versions(h), s) && ReadOrders(Versions(h), s)
    && MissedOrders(h, s) && NextVersionOrders(h, s)
    && forall k :: k in chains ==> ChainsApart(Versions(h), s, k, chains[k])
  }

  lemma AppendFitsMeansOrders(h: AppendHistory, s: Schedule, chains: map<Key, set<Chain>>, known: set<Edge>, conn: set<Constraint>)
    requires ProperAppends(h) && Proper(Versions(h)) && AppendEncodingOf(h, chains, known, conn)
    ensures Fits(|h.appended|, s, known, conn) <==> AppendOrders(h, s, chains)
  {
    var v := Versions(h);
    if WellTimed(|h.appended|, s) {
      var plain := set e | e in known && IsKnown(v, e);
      forall e | IsKnown(v, e) ensures e in plain {
      }
      KnownMeansOrders(v, s, plain);
      ConstraintsMeanApart(v, s, chains, conn);
      assert HoldAll(s, known) <==> HoldAll(s, plain) && MissedOrders(h, s) && NextVersionOrders(h, s);
    }
  }

  // ----- from lists to orders

  lemma ListsGiveMissed(h: AppendHistory, s: Schedule, e: Edge)
    requires ProperAppends(h) && ListsIsolated(h, s) && IsMissed(h, e)
    ensures Holds(s, e)
  {
    var k, list :| Observes(h, e.src, k, list) && AppendsMore(h, e.dst, k, list) && !EndsWith(h, k, list, e.dst);
    var ws := ReaderSeesLast(h, s, e.src, k, list);
    var el :| Appends(h, e.dst, k, el) && el !in list;
    ElementsOfParts(h, k, ws, el);
    assert e.dst !in ws;
    assert AppendsTo(h, e.dst, k);
  }

  lemma ListsGiveNextVersion(h: AppendHistory, s: Schedule, e: Edge)
    requires ProperAppends(h) && ListsIsolated(h, s) && IsNextVersion(h, e)
    ensures Holds(s, e)
  {
    var a: nat, k :| Demands(h, k, a, e.dst) && ReadsTailOf(h, e.src, a, k);
    var list :| Observes(h, e.src, k, list) && EndsWith(h, k, list, a);
    DemandsAreConsecutive(h, s, k, a, e.dst);
    LastIsLatest(h, s, e.src, k, list, a);
  }

  lemma ListsGiveOrders(h: AppendHistory, s: Schedule, chains: map<Key, set<Chain>>)
    requires ProperAppends(h) && ListsIsolated(h, s) && ProperSessions(|h.appended|, h.sessions) && AppendChainsOf(h, chains)
    ensures AppendOrders(h, s, chains) && SuccessionOrders(h, s)
  {
    var v := Versions(h);
    IsolatedListsAreSI(h, s);
    OrdersMeanSnapshotReads(v, s);
    forall e | IsMissed(h, e) ensures Holds(s, e) { ListsGiveMissed(h, s, e); }
    forall e | IsNextVersion(h, e) ensures Holds(s, e) { ListsGiveNextVersion(h, s, e); }
    forall e | IsSuccessionEdge(h, e) ensures Holds(s, e) {
      var k :| Demands(h, k, e.src, e.dst);
      DemandsAreConsecutive(h, s, k, e.src, e.dst);
    }
    forall k | k in chains ensures ChainsApart(v, s, k, chains[k]) {
      forall c | c in chains[k] ensures ConsecutiveAlong(v, s, k, c) {
        forall p: nat | p + 1 < |c| ensures Consecutive(v, s, k, c[p], c[p + 1]) {
          assert Adjacent(c, p, c[p], c[p + 1]);
          DemandsAreConsecutive(h, s, k, c[p], c[p + 1]);
        }
      }
      ConsecutiveChains(v, s, k, chains[k]);
    }
  }

  // ----- from orders to lists

  /** Every list consists of all that some transactions append to the key, each of them once. */
  ghost predicate WholeLists(h: AppendHistory) {
    forall j: nat, k, list :: Observes(h, j, k, list) ==> IsWhole(h, k, list)
  }

  ghost predicate IsWhole(h: AppendHistory, k: Key, list: seq<Elem>) {
    exists ws: seq<nat> :: Distinct(ws) && AllAppend(h, k, ws) && list == AppendedBy(h, k, ws)
  }

  lemma IsolatedListsAreWhole(h: AppendHistory, s: Schedule)
    requires ProperAppends(h) && ListsIsolated(h, s)
    ensures WholeLists(h)
  {
    forall j: nat, k, list | Observes(h, j, k, list) ensures IsWhole(h, k, list) {
      var ws := ReaderSeesLast(h, s, j, k, list);
      forall p, q | 0 <= p < q < |ws| ensures ws[p] != ws[q] {
        assert CommitsEarlier(s, ws[p], ws[q]);
      }
    }
  }

  /** In the orders of the polygraph and of the versions, chains are in commit order. */
  lemma OrdersKeepChains(h: AppendHistory, s: Schedule, chains: map<Key, set<Chain>>, k: Key)
    requires ProperAppends(h) && !HasUnknownTail(h) && AppendChainsOf(h, chains)
    requires AppendOrders(h, s, chains) && SuccessionOrders(h, s) && k in chains
    ensures ChainsInOrder(Versions(h), s, k, chains[k])
  {
    var v := Versions(h);
    forall c | c in chains[k] ensures ChainInOrder(v, s, k, c) {
      ChainMembersWrite(v, k, chains[k], c);
      forall p: nat | p + 1 < |c| ensures NextInOrder(v, s, k, c, p) {
        assert Adjacent(c, p, c[p], c[p + 1]);
        assert Demands(h, k, c[p], c[p + 1]);
        assert IsSuccessionEdge(h, Edge(c[p], c[p + 1], WW));
        assert Holds(s, Edge(c[p], c[p + 1], WW));
        forall j: nat | ReadsFrom(v, j, c[p], k) ensures s.begin[j] < s.commit[c[p + 1]] {
          VersionsRead(h, j, c[p], k);
          if j != c[p + 1] {
            assert IsNextVersion(h, Edge(j, c[p + 1], RW));
            assert Holds(s, Edge(j, c[p + 1], RW));
          }
        }
      }
    }
  }

  lemma OrdersGiveSI(h: AppendHistory, s: Schedule, chains: map<Key, set<Chain>>)
    requires ProperAppends(h) && !HasUnknownTail(h) && !ReadsOwnTail(h) && Proper(Versions(h)) && AppendChainsOf(h, chains)
    requires AppendOrders(h, s, chains) && SuccessionOrders(h, s) && DistinctTimes(|h.appended|, s)
    ensures SnapshotIsolated(Versions(h), s)
  {
    var v := Versions(h);
    VersionsAreProper(h);
    forall k | k in chains ensures ChainsInOrder(v, s, k, chains[k]) {
      OrdersKeepChains(h, s, chains, k);
    }
    ChainsGiveOrders(v, s, chains);
    OrdersMeanSnapshotReads(v, s);
  }

  lemma NextPartCommitsLater(h: AppendHistory, s: Schedule, j: nat, k: Key, ws: seq<nat>, q: nat)
    requires ProperAppends(h) && SuccessionOrders(h, s) && WellTimed(|h.appended|, s)
    requires Observes(h, j, k, AppendedBy(h, k, ws)) && Distinct(ws) && AllAppend(h, k, ws) && q + 1 < |ws|
    ensures CommitsEarlier(s, ws[q], ws[q + 1])
  {
    var t := PartsShowNext(h, k, ws, q);
    assert ListDemands(h, k, AppendedBy(h, k, ws), ws[q], ws[q + 1]);
    assert Demands(h, k, ws[q], ws[q + 1]);
    assert IsSuccessionEdge(h, Edge(ws[q], ws[q + 1], WW));
    assert Holds(s, Edge(ws[q], ws[q + 1], WW));
  }

  /** The parts of a whole list are in commit order. */
  lemma {:induction false} PartsInOrder(h: AppendHistory, s: Schedule, j: nat, k: Key, ws: seq<nat>, p: nat, q: nat)
    requires ProperAppends(h) && SuccessionOrders(h, s) && WellTimed(|h.appended|, s)
    requires Observes(h, j, k, AppendedBy(h, k, ws)) && Distinct(ws) && AllAppend(h, k, ws) && p < q < |ws|
    ensures CommitsEarlier(s, ws[p], ws[q])
  {
    NextPartCommitsLater(h, s, j, k, ws, q - 1);
    if p < q - 1 {
      PartsInOrder(h, s, j, k, ws, p, q - 1);
    }
  }

  lemma WholeListIsCommitted(h: AppendHistory, s: Schedule, j: nat, k: Key, ws: seq<nat>)
    requires ProperAppends(h) && !HasUnknownTail(h) && WellTimed(|h.appended|, s) && DistinctTimes(|h.appended|, s)
    requires SuccessionOrders(h, s) && MissedOrders(h, s) && ReadOrders(Versions(h), s)
    requires Observes(h, j, k, AppendedBy(h, k, ws)) && Distinct(ws) && AllAppend(h, k, ws)
    ensures CommittedInOrder(h, s, j, k, ws)
  {
    var list := AppendedBy(h, k, ws);
    assert list != [];
    var last := ws[|ws| - 1];
    EndsWithLast(h, k, ws);
    VersionsRead(h, j, last, k);
    assert CommittedBefore(s, last, j);
    forall p, q | 0 <= p < q < |ws| ensures CommitsEarlier(s, ws[p], ws[q]) {
      PartsInOrder(h, s, j, k, ws, p, q);
    }
    forall w: nat ensures w in ws <==> AppendsTo(h, w, k) && CommittedBefore(s, w, j) {
      if w in ws {
        var p :| 0 <= p < |ws| && ws[p] == w;
        assert p < |ws| - 1 ==> CommitsEarlier(s, ws[p], last);
      } else if AppendsTo(h, w, k) {
        OthersCommitLater(h, s, j, k, ws, w);
      }
    }
  }

  lemma OthersCommitLater(h: AppendHistory, s: Schedule, j: nat, k: Key, ws: seq<nat>, w: nat)
    requires ProperAppends(h) && WellTimed(|h.appended|, s) && MissedOrders(h, s)
    requires Observes(h, j, k, AppendedBy(h, k, ws)) && AllAppend(h, k, ws) && ws != [] && w !in ws && AppendsTo(h, w, k)
    ensures !CommittedBefore(s, w, j)
  {
    var list := AppendedBy(h, k, ws);
    var e :| Appends(h, w, k, e);
    ElementsOfParts(h, k, ws, e);
    EndsWithLast(h, k, ws);
    assert ws[|ws| - 1] in ws;
    if w != j {
      assert IsMissed(h, Edge(j, w, RW));
      assert Holds(s, Edge(j, w, RW));
    }
  }

  lemma OrdersGiveLists(h: AppendHistory, s: Schedule, chains: map<Key, set<Chain>>)
    requires ProperAppends(h) && !HasUnknownTail(h) && !ReadsOwnTail(h) && Proper(Versions(h)) && AppendChainsOf(h, chains)
    requires AppendOrders(h, s, chains) && SuccessionOrders(h, s) && DistinctTimes(|h.appended|, s) && WholeLists(h)
    ensures ListsIsolated(h, s)
  {
    var v := Versions(h);
    OrdersGiveSI(h, s, chains);
    forall j: nat, k, o | Maps(h.observed, k, o, j) ensures ShowsCommitted(h, s, j, k, o) {
      match o
      case Missing =>
        VersionsRead(h, j, 0, k);
        assert ReadSeesLatest(v, s, j, k);
        forall w: nat | AppendsTo(h, w, k) ensures !CommittedBefore(s, w, j) {
          VersionsWrite(h, w, k);
        }
      case Elems(list) =>
        assert Observes(h, j, k, list);
        var ws: seq<nat> :| Distinct(ws) && AllAppend(h, k, ws) && list == AppendedBy(h, k, ws);
        WholeListIsCommitted(h, s, j, k, ws);
    }
  }

  // ----- the verdict

  lemma SuccessionEdgesAreProper(h: AppendHistory)
    requires !HasDemandCircle(h)
    ensures ProperEdges(|h.appended|, SuccessionEdges(h))
  {
    forall e | e in SuccessionEdges(h) ensures ProperEdge(|h.appended|, e) {
      var k :| Demands(h, k, e.src, e.dst);
      DemandsJoinWriters(h, k, e.src, e.dst);
      if e.src == e.dst {
        assert DemandedAt(h, k, [e.src, e.src], 0);
        assert DemandCircle(h, k, [e.src, e.src]);
      }
    }
  }

  /** With the order of the versions added, the append polygraph has an acyclic choice, and all lists are whole,
      exactly when begin and commit times exist under which every list read is the committed one. */
  lemma AppendEncodesLists(h: AppendHistory, chains: map<Key, set<Chain>>, known: set<Edge>, conn: set<Constraint>)
    requires ProperAppends(h) && ProperSessions(|h.appended|, h.sessions) && !Refused(h) && AppendEncodingOf(h, chains, known, conn)
    ensures WholeLists(h) && Satisfiable(|h.appended|, known + SuccessionEdges(h), conn) <==> IsListSI(h)
  {
    var n := |h.appended|;
    var all := known + SuccessionEdges(h);
    VersionsAreProper(h);
    AppendEncodingIsProper(h, chains, known, conn);
    SuccessionEdgesAreProper(h);
    SatisfiableIffSchedulable(n, all, conn);
    forall s ensures Fits(n, s, all, conn) <==> AppendOrders(h, s, chains) && SuccessionOrders(h, s) {
      AppendFitsMeansOrders(h, s, chains, known, conn);
    }
    if WholeLists(h) && Schedulable(n, all, conn) {
      var s :| Fits(n, s, all, conn);
      var t := FitsAtDistinctTimes(n, s, all, conn);
      OrdersGiveLists(h, t, chains);
    }
    if s :| ListsIsolated(h, s) {
      IsolatedListsAreWhole(h, s);
      ListsGiveOrders(h, s, chains);
      assert Fits(n, s, all, conn);
    }
  }

  /** So the append checker never rejects what can be explained. */
  lemma ExplainedAppendsAreAccepted(h: AppendHistory, chains: map<Key, set<Chain>>, known: set<Edge>, conn: set<Constraint>)
    requires ProperAppends(h) && ProperSessions(|h.appended|, h.sessions) && IsListSI(h) && AppendEncodingOf(h, chains, known, conn)
    ensures !Refused(h) && WholeLists(h) && Satisfiable(|h.appended|, known, conn)
  {
    var s :| ListsIsolated(h, s);
    IsolatedListsAreNotRefused(h, s);
    IsolatedListsAreWhole(h, s);
    ListsGiveOrders(h, s, chains);
    VersionsAreProper(h);
    AppendEncodingIsProper(h, chains, known, conn);
    AppendFitsMeansOrders(h, s, chains, known, conn);
    SatisfiableIffSchedulable(|h.appended|, known, conn);
  }

  /** Every demanded succession was read: the later transaction read the list that the earlier one left. */
  ghost predicate SuccessionsWereRead(h: AppendHistory) {
    forall k, a: nat, b: nat :: Demands(h, k, a, b) ==> ReadsTailOf(h, b, a, k)
  }

  /** Where every succession was read, the verdict of the polygraph, with the lists whole, is exact. */
  lemma ReadSuccessionsAreDecided(h: AppendHistory, chains: map<Key, set<Chain>>, known: set<Edge>, conn: set<Constraint>)
    requires ProperAppends(h) && ProperSessions(|h.appended|, h.sessions) && !Refused(h) && AppendEncodingOf(h, chains, known, conn)
    requires SuccessionsWereRead(h)
    ensures WholeLists(h) && Satisfiable(|h.appended|, known, conn) <==> IsListSI(h)
  {
    var n := |h.appended|;
    var all := known + SuccessionEdges(h);
    VersionsAreProper(h);
    AppendEncodingIsProper(h, chains, known, conn);
    SuccessionEdgesAreProper(h);
    AppendEncodesLists(h, chains, known, conn);
    SatisfiableIffSchedulable(n, all, conn);
    SatisfiableIffSchedulable(n, known, conn);
    if s :| Fits(n, s, known, conn) {
      AppendFitsMeansOrders(h, s, chains, known, conn);
      ReadSuccessionsHold(h, s);
      assert Fits(n, s, all, conn);
    }
    if s :| Fits(n, s, all, conn) {
      assert Fits(n, s, known, conn);
    }
  }

  lemma ReadSuccessionsHold(h: AppendHistory, s: Schedule)
    requires ProperAppends(h) && !HasUnknownTail(h) && SuccessionsWereRead(h)
    requires WellTimed(|h.appended|, s) && ReadOrders(Versions(h), s)
    ensures SuccessionOrders(h, s)
  {
    forall e | IsSuccessionEdge(h, e) ensures Holds(s, e) {
      var k :| Demands(h, k, e.src, e.dst);
      VersionsRead(h, e.dst, e.src, k);
      assert CommittedBefore(s, e.src, e.dst);
    }
  }
}
