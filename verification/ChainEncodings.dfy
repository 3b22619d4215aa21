/** The chain polygraph of a history: inferred anti-dependencies and constraints between whole
    chains, and that it demands the same of a schedule as the pairwise polygraph. */
module ChainEncodings {
  import opened Digraph
  import opened Events
  import opened Solver
  import opened Transactions
  import opened Histories
  import opened Encodings
  import opened Chains
  import opened ChainSchedules

  /** The chains of a key, with neighbours only where one overwrites what it read from the other. */
  ghost predicate KeyChainsOf(h: History, k: Key, cs: set<Chain>) {
    && KeyChains(h, k, cs)
    && (forall a: nat, b: nat :: AdjacentInSome(cs, a, b) ==> Overwrites(h, b, a, k))
  }

  ghost predicate ChainsOf(h: History, chains: map<Key, set<Chain>>) {
    && AllKeyChains(h, chains)
    && (forall k :: k in chains ==> KeyChainsOf(h, k, chains[k]))
  }

  /** Two transactions overwrite the same version. */
  ghost predicate Diverge(h: History, k: Key, i: nat, j1: nat, j2: nat) {
    Overwrites(h, j1, i, k) && Overwrites(h, j2, i, k) && j1 != j2
  }

  // ----- what the chain encoding demands of a schedule

  /** Readers of a version begin before the transaction that overwrites it commits. */
  ghost predicate InferredOrders(h: History, s: Schedule)
    requires WellTimed(|h.extWrites|, s) && |h.extReads| == |h.extWrites|
  {
    forall a: nat, b: nat, j: nat, k :: Overwrites(h, b, a, k) && ReadsFrom(h, j, a, k) && j != b ==> s.begin[j] < s.commit[b]
  }

  lemma NeighboursOverwrite(h: History, k: Key, cs: set<Chain>, c: Chain, p: nat)
    requires KeyChainsOf(h, k, cs) && c in cs && p + 1 < |c|
    ensures Overwrites(h, c[p + 1], c[p], k)
  {
    assert Adjacent(c, p, c[p], c[p + 1]);
    assert AdjacentInSome(cs, c[p], c[p + 1]);
  }

  ghost predicate ChainOrders(h: History, s: Schedule, chains: map<Key, set<Chain>>)
    requires Shaped(h) && AllKeyChains(h, chains)
  {
    && WellTimed(h.N(), s) && StartsInOrder(h, s) && ReadOrders(h, s) && InferredOrders(h, s)
    && forall k :: k in chains ==> ChainsApart(h, s, k, chains[k])
  }

  /** No other writer of the key gets between a version and the transaction that overwrites it. */
  lemma NothingBetween(h: History, s: Schedule, k: Key, a: nat, b: nat)
    requires Proper(h) && PairwiseOrders(h, s) && Overwrites(h, b, a, k)
    ensures Consecutive(h, s, k, a, b)
  {
    assert CommittedBefore(s, a, b);
    forall w: nat | Writes(h, w, k) && w != a && w != b ensures CommittedBefore(s, w, a) || CommittedBefore(s, b, w) {
      assert CommittedBefore(s, w, a) || s.begin[b] < s.commit[w];
      assert CommittedBefore(s, w, b) || CommittedBefore(s, b, w);
    }
  }

  lemma PairwiseGivesInferred(h: History, s: Schedule)
    requires Proper(h) && PairwiseOrders(h, s)
    ensures InferredOrders(h, s)
  {
    forall a: nat, b: nat, j: nat, k | Overwrites(h, b, a, k) && ReadsFrom(h, j, a, k) && j != b ensures s.begin[j] < s.commit[b] {
      assert !ReadsFrom(h, a, a, k);
      NothingBetween(h, s, k, a, b);
      ReaderBeforeLater(h, s, k, j, a, b);
    }
  }

  lemma OverwritesKeepOrder(h: History, s: Schedule, k: Key, cs: set<Chain>)
    requires Proper(h) && WellTimed(h.N(), s) && ReadOrders(h, s) && InferredOrders(h, s) && KeyChainsOf(h, k, cs)
    ensures ChainsInOrder(h, s, k, cs)
  {
    forall c | c in cs ensures ChainInOrder(h, s, k, c) {
      ChainMembersWrite(h, k, cs, c);
      forall p: nat | p + 1 < |c| ensures NextInOrder(h, s, k, c, p) {
        NeighboursOverwrite(h, k, cs, c, p);
        assert CommittedBefore(s, c[p], c[p + 1]);
      }
    }
  }

  /** Chains demand exactly the same of a schedule as the pairwise alternatives. */
  lemma ChainsMeanPairwise(h: History, s: Schedule, chains: map<Key, set<Chain>>)
    requires Proper(h) && ChainsOf(h, chains)
    ensures ChainOrders(h, s, chains) <==> PairwiseOrders(h, s)
  {
    if PairwiseOrders(h, s) {
      PairwiseGivesInferred(h, s);
      forall k | k in chains ensures ChainsApart(h, s, k, chains[k]) {
        forall c | c in chains[k] ensures ConsecutiveAlong(h, s, k, c) {
          forall p: nat | p + 1 < |c| ensures Consecutive(h, s, k, c[p], c[p + 1]) {
            NeighboursOverwrite(h, k, chains[k], c, p);
            NothingBetween(h, s, k, c[p], c[p + 1]);
          }
        }
        ConsecutiveChains(h, s, k, chains[k]);
      }
    }
    if ChainOrders(h, s, chains) {
      forall k | k in chains ensures ChainsInOrder(h, s, k, chains[k]) {
        OverwritesKeepOrder(h, s, k, chains[k]);
      }
      ChainsGiveOrders(h, s, chains);
    }
  }

  // ----- early rejections

  /** If two transactions overwrite the same version, no schedule obeys the pairwise encoding. */
  lemma DivergenceIsUnschedulable(h: History, s: Schedule, k: Key, i: nat, j1: nat, j2: nat)
    requires Proper(h) && Diverge(h, k, i, j1, j2)
    ensures !PairwiseOrders(h, s)
  {
    if PairwiseOrders(h, s) {
      assert !ReadsFrom(h, i, i, k);
      NothingBetween(h, s, k, i, j1);
      NothingBetween(h, s, k, i, j2);
    }
  }

  lemma {:induction false} SuccessionsCommitInOrder(h: History, s: Schedule, k: Key, p: seq<nat>, m: nat)
    requires Proper(h) && PairwiseOrders(h, s) && 1 <= m < |p|
    requires forall t :: 0 <= t < |p| - 1 ==> Overwrites(h, p[t + 1], p[t], k)
    ensures p[0] < h.N() && p[m] < h.N() && s.commit[p[0]] < s.commit[p[m]]
  {
    assert Overwrites(h, p[m], p[m - 1], k);
    assert CommittedBefore(s, p[m - 1], p[m]);
    if m > 1 {
      SuccessionsCommitInOrder(h, s, k, p, m - 1);
    }
  }

  /** If transactions overwrite each other's versions in a circle, no schedule obeys the pairwise encoding. */
  lemma CycleIsUnschedulable(h: History, s: Schedule, k: Key, p: seq<nat>)
    requires Proper(h) && |p| >= 2 && p[0] == p[|p| - 1]
    requires forall t :: 0 <= t < |p| - 1 ==> Overwrites(h, p[t + 1], p[t], k)
    ensures !PairwiseOrders(h, s)
  {
    if PairwiseOrders(h, s) {
      SuccessionsCommitInOrder(h, s, k, p, |p| - 1);
    }
  }

  // ----- the edges and constraints of the chain polygraph

  ghost predicate IsInferred(h: History, e: Edge) {
    e.kind.RW? && e.src != e.dst && exists a: nat, k :: Overwrites(h, e.dst, a, k) && ReadsFrom(h, e.src, a, k)
  }

  ghost predicate ChainKnownOf(h: History, known: set<Edge>) {
    forall e :: e in known <==> IsKnown(h, e) || IsInferred(h, e)
  }

  ghost function ReadersOf(h: History, k: Key, i: nat): set<nat> {
    set j | 0 <= j < |h.extReads| && ReadsFrom(h, j, i, k)
  }

  /** One chain before another: its last writer commits, and the readers of its last version
      begin, before the other's first writer does. */
  ghost function ChainSide(readers: set<nat>, c: Chain, d: Chain): set<Edge>
    requires c != [] && d != []
  {
    {Edge(Last(c), d[0], WW)} + (set r | r in readers :: Edge(r, d[0], RW))
  }

  ghost function ChainConstraint(h: History, k: Key, c: Chain, d: Chain): Constraint
    requires c != [] && d != []
  {
    Constraint(ChainSide(ReadersOf(h, k, Last(c)), c, d), ChainSide(ReadersOf(h, k, Last(d)), d, c))
  }

  ghost predicate IsChainConstraint(h: History, k: Key, cs: set<Chain>, x: Constraint) {
    exists c, d :: c in cs && d in cs && c != d && c != [] && d != [] && x == ChainConstraint(h, k, c, d)
  }

  /** One constraint for every two chains of a key, in either orientation. */
  ghost predicate ChainConstraintsOf(h: History, chains: map<Key, set<Chain>>, conn: set<Constraint>) {
    && (forall x :: x in conn ==> exists k :: k in chains && IsChainConstraint(h, k, chains[k], x))
    && (forall k, c, d :: k in chains && c in chains[k] && d in chains[k] && c != d ==> Covers(h, k, c, d, conn))
  }

  ghost predicate Covers(h: History, k: Key, c: Chain, d: Chain, conn: set<Constraint>) {
    c != [] && d != [] && (ChainConstraint(h, k, c, d) in conn || ChainConstraint(h, k, d, c) in conn)
  }

  lemma ChainSideIsProper(h: History, k: Key, cs: set<Chain>, c: Chain, d: Chain)
    requires Proper(h) && KeyChains(h, k, cs) && c in cs && d in cs && c != d
    ensures ProperEdges(h.N(), ChainSide(ReadersOf(h, k, Last(c)), c, d))
  {
    ChainMembersWrite(h, k, cs, c);
    ChainMembersWrite(h, k, cs, d);
    assert Last(c) in c && d[0] in d;
    forall r | r in ReadersOf(h, k, Last(c)) ensures r != d[0] {
      TailReaderIsNoHead(h, k, cs, c, d, r);
    }
  }

  lemma ChainConstraintsAreProper(h: History, chains: map<Key, set<Chain>>, conn: set<Constraint>)
    requires Proper(h) && AllKeyChains(h, chains) && ChainConstraintsOf(h, chains, conn)
    ensures ProperConstraints(h.N(), conn)
  {
    forall x | x in conn ensures ProperConstraint(h.N(), x) {
      var k :| k in chains && IsChainConstraint(h, k, chains[k], x);
      var c, d :| c in chains[k] && d in chains[k] && c != d && c != [] && d != [] && x == ChainConstraint(h, k, c, d);
      ChainSideIsProper(h, k, chains[k], c, d);
      ChainSideIsProper(h, k, chains[k], d, c);
      assert Edge(Last(c), d[0], WW) in x.left && Edge(Last(d), c[0], WW) in x.right;
    }
  }

  /** No self-loop and nothing into T0 is ever built, and no side of a constraint is empty. */
  lemma ChainEncodingIsProper(h: History, chains: map<Key, set<Chain>>, known: set<Edge>, conn: set<Constraint>)
    requires Proper(h) && ChainsOf(h, chains) && ChainKnownOf(h, known) && ChainConstraintsOf(h, chains, conn)
    ensures ProperEdges(h.N(), known) && ProperConstraints(h.N(), conn)
  {
    var plain := set e | e in known && IsKnown(h, e);
    forall e | IsKnown(h, e) ensures e in plain {
    }
    KnownIsProper(h, plain);
    ChainConstraintsAreProper(h, chains, conn);
  }

  lemma SideMeansPrecedes(h: History, s: Schedule, k: Key, c: Chain, d: Chain)
    requires Proper(h) && WellTimed(h.N(), s) && IsWriterChain(h, k, c) && IsWriterChain(h, k, d)
    ensures HoldAll(s, ChainSide(ReadersOf(h, k, Last(c)), c, d)) <==> Precedes(h, s, k, c, d)
  {
    var side := ChainSide(ReadersOf(h, k, Last(c)), c, d);
    if HoldAll(s, side) {
      assert Edge(Last(c), d[0], WW) in side;
      assert Holds(s, Edge(Last(c), d[0], WW));
      forall r: nat | ReadsFrom(h, r, Last(c), k) ensures s.begin[r] < s.commit[d[0]] {
        assert r in ReadersOf(h, k, Last(c));
        assert Edge(r, d[0], RW) in side;
        assert Holds(s, Edge(r, d[0], RW));
      }
    }
  }

  lemma ConstraintsMeanApart(h: History, s: Schedule, chains: map<Key, set<Chain>>, conn: set<Constraint>)
    requires Proper(h) && WellTimed(h.N(), s) && AllKeyChains(h, chains) && ChainConstraintsOf(h, chains, conn)
    ensures (forall x :: x in conn ==> HoldsOneSide(s, x)) <==> forall k :: k in chains ==> ChainsApart(h, s, k, chains[k])
  {
    if forall x :: x in conn ==> HoldsOneSide(s, x) {
      forall k | k in chains ensures ChainsApart(h, s, k, chains[k]) {
        ConstraintsGiveApart(h, s, k, chains, conn);
      }
    }
    if forall k :: k in chains ==> ChainsApart(h, s, k, chains[k]) {
      forall x | x in conn ensures HoldsOneSide(s, x) {
        var k :| k in chains && IsChainConstraint(h, k, chains[k], x);
        var c, d :| c in chains[k] && d in chains[k] && c != d && c != [] && d != [] && x == ChainConstraint(h, k, c, d);
        assert ChainsApart(h, s, k, chains[k]);
        ConstraintMeansPrecedes(h, s, k, chains[k], c, d);
      }
    }
  }

  lemma ConstraintMeansPrecedes(h: History, s: Schedule, k: Key, cs: set<Chain>, c: Chain, d: Chain)
    requires Proper(h) && WellTimed(h.N(), s) && KeyChains(h, k, cs) && c in cs && d in cs
    ensures IsWriterChain(h, k, c) && IsWriterChain(h, k, d)
    ensures HoldsOneSide(s, ChainConstraint(h, k, c, d)) <==> Precedes(h, s, k, c, d) || Precedes(h, s, k, d, c)
  {
    ChainMembersWrite(h, k, cs, c);
    ChainMembersWrite(h, k, cs, d);
    SideMeansPrecedes(h, s, k, c, d);
    SideMeansPrecedes(h, s, k, d, c);
  }

  lemma ConstraintsGiveApart(h: History, s: Schedule, k: Key, chains: map<Key, set<Chain>>, conn: set<Constraint>)
    requires Proper(h) && WellTimed(h.N(), s) && AllKeyChains(h, chains) && ChainConstraintsOf(h, chains, conn) && k in chains
    requires forall x :: x in conn ==> HoldsOneSide(s, x)
    ensures ChainsApart(h, s, k, chains[k])
  {
    forall c, d | c in chains[k] && d in chains[k] && c != d
      ensures IsWriterChain(h, k, c) && IsWriterChain(h, k, d) && (Precedes(h, s, k, c, d) || Precedes(h, s, k, d, c))
    {
      assert Covers(h, k, c, d, conn);
      ConstraintMeansPrecedes(h, s, k, chains[k], c, d);
      ConstraintMeansPrecedes(h, s, k, chains[k], d, c);
    }
  }

  lemma ChainKnownMeansOrders(h: History, s: Schedule, known: set<Edge>)
    requires Proper(h) && WellTimed(h.N(), s) && ChainKnownOf(h, known)
    ensures HoldAll(s, known) <==> StartsInOrder(h, s) && ReadOrders(h, s) && InferredOrders(h, s)
  {
    var plain := set e | e in known && IsKnown(h, e);
    forall e | IsKnown(h, e) ensures e in plain {
    }
    KnownMeansOrders(h, s, plain);
    if HoldAll(s, known) {
      forall a: nat, b: nat, j: nat, k | Overwrites(h, b, a, k) && ReadsFrom(h, j, a, k) && j != b ensures s.begin[j] < s.commit[b] {
        assert IsInferred(h, Edge(j, b, RW));
        assert Holds(s, Edge(j, b, RW));
      }
    }
    if StartsInOrder(h, s) && ReadOrders(h, s) && InferredOrders(h, s) {
      forall e | e in known ensures Holds(s, e) {
        if IsKnown(h, e) {
          assert e in plain;
        } else {
          var a: nat, k :| Overwrites(h, e.dst, a, k) && ReadsFrom(h, e.src, a, k);
        }
      }
    }
  }

  /** The chain polygraph and the pairwise polygraph of a history have the same verdict. */
  lemma ChainsKeepVerdict(h: History, chains: map<Key, set<Chain>>, known: set<Edge>, conn: set<Constraint>,
                          plainKnown: set<Edge>, plainConn: set<Constraint>)
    requires Proper(h) && ChainsOf(h, chains) && ChainKnownOf(h, known) && ChainConstraintsOf(h, chains, conn)
    requires KnownOf(h, plainKnown) && AlternativesOf(h, plainConn)
    ensures Satisfiable(h.N(), known, conn) <==> Satisfiable(h.N(), plainKnown, plainConn)
  {
    ChainEncodingIsProper(h, chains, known, conn);
    KnownIsProper(h, plainKnown);
    AlternativesAreProper(h, plainConn);
    SatisfiableIffSchedulable(h.N(), known, conn);
    SatisfiableIffSchedulable(h.N(), plainKnown, plainConn);
    forall s ensures Fits(h.N(), s, known, conn) <==> Fits(h.N(), s, plainKnown, plainConn) {
      ChainFitsMeansOrders(h, s, chains, known, conn);
      PairwiseFitsMeansOrders(h, s, plainKnown, plainConn);
    }
  }

  lemma ChainFitsMeansOrders(h: History, s: Schedule, chains: map<Key, set<Chain>>, known: set<Edge>, conn: set<Constraint>)
    requires Proper(h) && ChainsOf(h, chains) && ChainKnownOf(h, known) && ChainConstraintsOf(h, chains, conn)
    ensures Fits(h.N(), s, known, conn) <==> PairwiseOrders(h, s)
  {
    if WellTimed(h.N(), s) {
      ChainKnownMeansOrders(h, s, known);
      ConstraintsMeanApart(h, s, chains, conn);
      ChainsMeanPairwise(h, s, chains);
    }
  }

  /** The chain polygraph has an acyclic one-side-each choice exactly when the history is snapshot isolated. */
  lemma ChainsEncodeSI(h: History, chains: map<Key, set<Chain>>, known: set<Edge>, conn: set<Constraint>)
    requires Proper(h) && ChainsOf(h, chains) && ChainKnownOf(h, known) && ChainConstraintsOf(h, chains, conn)
    ensures Satisfiable(h.N(), known, conn) && !HasDirtyRead(h) <==> IsSI(h)
  {
    ChainEncodingIsProper(h, chains, known, conn);
    SatisfiableIffSchedulable(h.N(), known, conn);
    forall s ensures Fits(h.N(), s, known, conn) <==> PairwiseOrders(h, s) {
      ChainFitsMeansOrders(h, s, chains, known, conn);
    }
    if Schedulable(h.N(), known, conn) && !HasDirtyRead(h) {
      var s :| Fits(h.N(), s, known, conn);
      var t := FitsAtDistinctTimes(h.N(), s, known, conn);
      OrdersMeanSnapshotReads(h, t);
    }
    if s :| SnapshotIsolated(h, s) {
      OrdersMeanSnapshotReads(h, s);
    }
  }
}
