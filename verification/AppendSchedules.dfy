/** What an accepted append history satisfies, said of the recorded lists and a schedule alone. */
module AppendSchedules {
  import opened Digraph
  import opened Events
  import opened Solver
  import opened Transactions
  import opened Histories
  import opened Chains
  import opened ChainSchedules
  import opened ChainEncodings
  import opened AppendHistories
  import opened AppendEncodings

  /** i begins before j commits. */
  ghost predicate BeginsFirst(s: Schedule, i: nat, j: nat) {
    i < |s.begin| && j < |s.commit| && s.begin[i] < s.commit[j]
  }

  ghost predicate HasNext(h: AppendHistory, k: Key, a: nat) {
    exists b: nat :: Demands(h, k, a, b)
  }

  ghost predicate HasPrevious(h: AppendHistory, k: Key, b: nat) {
    exists a: nat :: Demands(h, k, a, b)
  }

  /** Transactions that append to k, each demanded to come right after the one before, and as many of them as there are:
      nobody is demanded to come right before the first or right after the last. */
  ghost predicate IsRun(h: AppendHistory, k: Key, p: seq<nat>) {
    && p != [] && (forall t :: 0 <= t < |p| ==> AppendsTo(h, p[t], k)) && DemandPath(h, k, p)
    && !HasPrevious(h, k, p[0]) && !HasNext(h, k, p[|p| - 1])
  }

  /** The last of the one run commits, and the readers of its list begin, before the first of the other does. */
  ghost predicate RunBefore(h: AppendHistory, s: Schedule, k: Key, p: seq<nat>, q: seq<nat>)
    requires p != [] && q != []
  {
    && CommitsFirst(s, p[|p| - 1], q[0])
    && forall r: nat :: ReadsTailOf(h, r, p[|p| - 1], k) ==> BeginsFirst(s, r, q[0])
  }

  ghost predicate RunsApart(h: AppendHistory, s: Schedule) {
    forall k, p, q :: IsRun(h, k, p) && IsRun(h, k, q) && p != q ==> RunBefore(h, s, k, p, q) || RunBefore(h, s, k, q, p)
  }

  /** T0 comes first, and sessions are in order if they have to be. */
  ghost predicate AppendsStartInOrder(h: AppendHistory, s: Schedule) {
    (forall i: nat :: 1 <= i < |h.appended| ==> CommitsFirst(s, 0, i)) && (h.strong ==> InSessionOrder(s, h.sessions))
  }

  /** A list is read after the transaction of its last element committed, and no list before anybody who appends to it commits. */
  ghost predicate ListReadOrders(h: AppendHistory, s: Schedule) {
    && (forall j: nat, i: nat, k :: ReadsTailOf(h, j, i, k) ==> CommitsFirst(s, i, j))
    && (forall j: nat, w: nat, k :: ReadsMissing(h, j, k) && AppendsTo(h, w, k) && w != j ==> BeginsFirst(s, j, w))
  }

  /** All that acceptance means for the times of the transactions. */
  ghost predicate AppendSchedule(h: AppendHistory, s: Schedule) {
    && WellTimed(|h.appended|, s)
    && AppendsStartInOrder(h, s) && ListReadOrders(h, s)
    && MissedOrders(h, s) && NextVersionOrders(h, s)
    && RunsApart(h, s)
  }

  // ----- runs are the chains

  lemma NeighbourInChain(h: AppendHistory, chains: map<Key, set<Chain>>, k: Key, c: Chain, i: nat, a: nat, b: nat)
    requires AppendChainsOf(h, chains) && k in chains && c in chains[k] && i < |c| && Demands(h, k, a, b)
    ensures c[i] == a ==> i + 1 < |c| && c[i + 1] == b
    ensures c[i] == b ==> 0 < i && c[i - 1] == a
  {
    assert AdjacentInSome(chains[k], a, b);
    var e, t: nat :| e in chains[k] && Adjacent(e, t, a, b);
    assert KeyChains(Versions(h), k, chains[k]);
    assert e[t] in e && e[t + 1] in e && c[i] in c;
  }

  lemma NeighboursAreDemanded(h: AppendHistory, chains: map<Key, set<Chain>>, k: Key, c: Chain, t: nat)
    requires AppendChainsOf(h, chains) && k in chains && c in chains[k]
    ensures t + 1 < |c| ==> Demands(h, k, c[t], c[t + 1]) && HasNext(h, k, c[t]) && HasPrevious(h, k, c[t + 1])
  {
    if t + 1 < |c| {
      assert Adjacent(c, t, c[t], c[t + 1]);
      assert AdjacentInSome(chains[k], c[t], c[t + 1]);
    }
  }

  lemma ChainIsRun(h: AppendHistory, chains: map<Key, set<Chain>>, k: Key, c: Chain)
    requires AppendChainsOf(h, chains) && k in chains && c in chains[k]
    ensures IsRun(h, k, c)
  {
    var v := Versions(h);
    ChainMembersWrite(v, k, chains[k], c);
    forall t | 0 <= t < |c| ensures AppendsTo(h, c[t], k) {
      VersionsWrite(h, c[t], k);
    }
    forall t: nat | t + 1 < |c| ensures DemandedAt(h, k, c, t) {
      NeighboursAreDemanded(h, chains, k, c, t);
    }
    if a: nat :| Demands(h, k, a, c[0]) {
      NeighbourInChain(h, chains, k, c, 0, a, c[0]);
    }
    var last := c[|c| - 1];
    if b: nat :| Demands(h, k, last, b) {
      NeighbourInChain(h, chains, k, c, |c| - 1, last, b);
    }
  }

  lemma {:induction false} RunFollowsChain(h: AppendHistory, chains: map<Key, set<Chain>>, k: Key, p: seq<nat>, c: Chain, m: nat)
    requires AppendChainsOf(h, chains) && k in chains && c in chains[k] && IsRun(h, k, p) && c[0] == p[0] && m < |p|
    ensures m < |c| && c[m] == p[m]
  {
    if m > 0 {
      RunFollowsChain(h, chains, k, p, c, m - 1);
      assert DemandedAt(h, k, p, m - 1);
      NeighbourInChain(h, chains, k, c, m - 1, p[m - 1], p[m]);
    }
  }

  lemma ChainOfRun(h: AppendHistory, chains: map<Key, set<Chain>>, k: Key, p: seq<nat>) returns (c: Chain)
    requires AppendChainsOf(h, chains) && IsRun(h, k, p)
    ensures k in chains && c in chains[k] && c[0] == p[0]
  {
    var v := Versions(h);
    VersionsWrite(h, p[0], k);
    assert Writes(v, p[0], k);
    assert k in chains && KeyChains(v, k, chains[k]);
    assert InSomeChain(chains[k], p[0]);
    c :| c in chains[k] && p[0] in c;
    var i :| 0 <= i < |c| && c[i] == p[0];
    if i > 0 {
      NeighboursAreDemanded(h, chains, k, c, i - 1);
    }
  }

  /** The chains that the construction makes are exactly the runs. */
  lemma RunsAreChains(h: AppendHistory, chains: map<Key, set<Chain>>, k: Key, p: seq<nat>)
    requires AppendChainsOf(h, chains)
    ensures IsRun(h, k, p) <==> k in chains && p in chains[k]
  {
    if k in chains && p in chains[k] {
      ChainIsRun(h, chains, k, p);
    }
    if IsRun(h, k, p) {
      var c := ChainOfRun(h, chains, k, p);
      forall m | 0 <= m < |p| ensures m < |c| && c[m] == p[m] {
        RunFollowsChain(h, chains, k, p, c, m);
      }
      RunFollowsChain(h, chains, k, p, c, |p| - 1);
      NeighboursAreDemanded(h, chains, k, c, |p| - 1);
      assert c == p;
    }
  }

  // ----- the orders of the polygraph say the same

  lemma RunBeforeMeansPrecedes(h: AppendHistory, s: Schedule, k: Key, p: seq<nat>, q: seq<nat>)
    requires ProperAppends(h) && !HasUnknownTail(h) && WellTimed(|h.appended|, s) && IsRun(h, k, p) && IsRun(h, k, q)
    ensures Last(p) < |h.appended| && q[0] < |h.appended|
    ensures RunBefore(h, s, k, p, q) <==> Precedes(Versions(h), s, k, p, q)
  {
    assert AppendsTo(h, Last(p), k) && AppendsTo(h, q[0], k);
    forall r: nat ensures ReadsFrom(Versions(h), r, Last(p), k) <==> ReadsTailOf(h, r, Last(p), k)
      ensures ReadsTailOf(h, r, Last(p), k) ==> (BeginsFirst(s, r, q[0]) <==> s.begin[r] < s.commit[q[0]])
    {
      VersionsRead(h, r, Last(p), k);
    }
  }

  lemma RunsApartMeansChainsApart(h: AppendHistory, s: Schedule, chains: map<Key, set<Chain>>)
    requires ProperAppends(h) && !HasUnknownTail(h) && WellTimed(|h.appended|, s) && AppendChainsOf(h, chains)
    ensures RunsApart(h, s) <==> forall k :: k in chains ==> ChainsApart(Versions(h), s, k, chains[k])
  {
    var v := Versions(h);
    forall k, p, q | IsRun(h, k, p) && IsRun(h, k, q) && p != q
      ensures k in chains && p in chains[k] && q in chains[k] && IsWriterChain(v, k, p) && IsWriterChain(v, k, q)
      ensures RunBefore(h, s, k, p, q) <==> Precedes(v, s, k, p, q)
      ensures RunBefore(h, s, k, q, p) <==> Precedes(v, s, k, q, p)
    {
      RunsAreChains(h, chains, k, p);
      RunsAreChains(h, chains, k, q);
      ChainMembersWrite(v, k, chains[k], p);
      ChainMembersWrite(v, k, chains[k], q);
      RunBeforeMeansPrecedes(h, s, k, p, q);
      RunBeforeMeansPrecedes(h, s, k, q, p);
    }
    forall k, c | k in chains && c in chains[k] ensures IsRun(h, k, c) {
      ChainIsRun(h, chains, k, c);
    }
  }

  lemma ListReadsMeanReads(h: AppendHistory, s: Schedule)
    requires ProperAppends(h) && !HasUnknownTail(h) && WellTimed(|h.appended|, s)
    ensures AppendsStartInOrder(h, s) <==> StartsInOrder(Versions(h), s)
    ensures ListReadOrders(h, s) <==> ReadOrders(Versions(h), s)
  {
    var v := Versions(h);
    assert forall i: nat :: 1 <= i < |h.appended| ==> (CommitsFirst(s, 0, i) <==> CommittedBefore(s, 0, i));
    if ReadOrders(v, s) {
      ListReadsOrdered(h, s);
    }
    if ListReadOrders(h, s) {
      forall j: nat, i: nat, k | ReadsFrom(v, j, i, k) ensures CommittedBefore(s, i, j) {
        VersionsRead(h, j, i, k);
        assert CommitsFirst(s, i, j);
      }
      forall j: nat, w: nat, k | ReadsInitial(v, j, k) && Writes(v, w, k) && w != j ensures s.begin[j] < s.commit[w] {
        VersionsRead(h, j, w, k);
        VersionsWrite(h, w, k);
        assert BeginsFirst(s, j, w);
      }
    }
  }

  lemma ListReadsOrdered(h: AppendHistory, s: Schedule)
    requires ProperAppends(h) && !HasUnknownTail(h) && WellTimed(|h.appended|, s) && ReadOrders(Versions(h), s)
    ensures ListReadOrders(h, s)
  {
    var v := Versions(h);
    forall j: nat, i: nat, k | ReadsTailOf(h, j, i, k) ensures CommitsFirst(s, i, j) {
      VersionsRead(h, j, i, k);
      assert CommittedBefore(s, i, j);
    }
    forall j: nat, w: nat, k | ReadsMissing(h, j, k) && AppendsTo(h, w, k) && w != j ensures BeginsFirst(s, j, w) {
      VersionsRead(h, j, w, k);
      VersionsWrite(h, w, k);
      assert ReadsInitial(v, j, k) && Writes(v, w, k);
    }
  }

  /** The orders that the polygraph encodes, whatever way its chains were made. */
  lemma AppendOrdersMeanSchedule(h: AppendHistory, s: Schedule, chains: map<Key, set<Chain>>)
    requires ProperAppends(h) && !HasUnknownTail(h) && AppendChainsOf(h, chains)
    ensures AppendOrders(h, s, chains) <==> AppendSchedule(h, s)
  {
    if WellTimed(|h.appended|, s) {
      ListReadsMeanReads(h, s);
      RunsApartMeansChainsApart(h, s, chains);
    }
  }

  /** The append polygraph has an acyclic choice exactly when such times exist. */
  lemma AppendPolygraphMeansSchedule(h: AppendHistory, chains: map<Key, set<Chain>>, known: set<Edge>, conn: set<Constraint>)
    requires ProperAppends(h) && ProperSessions(|h.appended|, h.sessions) && !Refused(h) && AppendEncodingOf(h, chains, known, conn)
    ensures Satisfiable(|h.appended|, known, conn) <==> exists s :: AppendSchedule(h, s)
  {
    VersionsAreProper(h);
    AppendEncodingIsProper(h, chains, known, conn);
    SatisfiableIffSchedulable(|h.appended|, known, conn);
    forall s ensures Fits(|h.appended|, s, known, conn) <==> AppendSchedule(h, s) {
      AppendFitsMeansOrders(h, s, chains, known, conn);
      AppendOrdersMeanSchedule(h, s, chains);
    }
  }
}
