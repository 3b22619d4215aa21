/** The polygraph of a history: known edges and pairwise alternatives, and that it encodes snapshot isolation. */
module Encodings {
  import opened Events
  import opened Solver
  import opened Transactions
  import opened Histories

  ghost predicate IsBaseEdge(h: History, e: Edge) {
    || (e.kind.CB? && e.src == 0 && 1 <= e.dst < h.N())
    || (h.strong && e in SessionEdges(h.sessions))
  }

  /** Edges known because value v of key k was read: from its writer, or from T0 and then
      before every other writer of the key. */
  ghost predicate IsReadEdge(h: History, k: Key, v: Value, e: Edge) {
    || (e.kind.WR? && ReadsValue(h, e.dst, k, v) && WritesValue(h, e.src, k, v))
    || (e.kind.WR? && e.src == 0 && ReadsValue(h, e.dst, k, v) && ReadsInitial(h, e.dst, k))
    || (e.kind.RW? && ReadsValue(h, e.src, k, v) && ReadsInitial(h, e.src, k) && Writes(h, e.dst, k) && e.dst != e.src)
  }

  ghost predicate IsKnown(h: History, e: Edge) {
    IsBaseEdge(h, e) || exists k, v :: IsReadEdge(h, k, v, e)
  }

  ghost predicate KnownOf(h: History, known: set<Edge>) {
    forall e :: e in known <==> IsKnown(h, e)
  }

  ghost function ReadAlternative(i: nat, j: nat, w: nat): Constraint {
    Constraint({Edge(w, i, WW)}, {Edge(j, w, RW)})
  }

  /** Another writer of the key commits before the read version, or after the reader begins. */
  ghost predicate IsReadAlternative(h: History, k: Key, i: nat, j: nat, w: nat) {
    ReadsFrom(h, j, i, k) && Writes(h, w, k) && w != i && w != j
  }

  function WriteAlternative(i: nat, j: nat): Constraint {
    Constraint({Edge(i, j, WW)}, {Edge(j, i, WW)})
  }

  ghost predicate IsWriteAlternative(h: History, k: Key, i: nat, j: nat) {
    Writes(h, i, k) && Writes(h, j, k) && i != j
  }

  ghost predicate IsAlternative(h: History, c: Constraint) {
    || (exists k, i: nat, j: nat, w: nat :: IsReadAlternative(h, k, i, j, w) && c == ReadAlternative(i, j, w))
    || (exists k, i: nat, j: nat :: IsWriteAlternative(h, k, i, j) && c == WriteAlternative(i, j))
  }

  ghost function Swap(c: Constraint): Constraint {
    Constraint(c.right, c.left)
  }

  /** All alternatives of the history, each in one orientation at least. */
  ghost predicate AlternativesOf(h: History, conn: set<Constraint>) {
    && (forall c :: c in conn ==> IsAlternative(h, c) || IsAlternative(h, Swap(c)))
    && (forall k, i: nat, j: nat, w: nat :: IsReadAlternative(h, k, i, j, w) ==> ReadAlternative(i, j, w) in conn || Swap(ReadAlternative(i, j, w)) in conn)
    && (forall k, i: nat, j: nat :: IsWriteAlternative(h, k, i, j) ==> WriteAlternative(i, j) in conn || WriteAlternative(j, i) in conn)
  }

  lemma KnownIsProper(h: History, known: set<Edge>)
    requires Proper(h) && KnownOf(h, known)
    ensures ProperEdges(h.N(), known)
  {
    forall e | e in known ensures ProperEdge(h.N(), e) {
      if k, v :| IsReadEdge(h, k, v, e) {
        assert !ReadsFrom(h, e.dst, e.dst, k);
      } else {
        assert IsBaseEdge(h, e);
      }
    }
  }

  lemma AlternativesAreProper(h: History, conn: set<Constraint>)
    requires Proper(h) && AlternativesOf(h, conn)
    ensures ProperConstraints(h.N(), conn)
  {
  }

  /** A schedule obeys the known edges exactly when it starts in order and orders reads after what they read. */
  lemma KnownMeansOrders(h: History, s: Schedule, known: set<Edge>)
    requires Proper(h) && WellTimed(h.N(), s) && KnownOf(h, known)
    ensures HoldAll(s, known) <==> StartsInOrder(h, s) && ReadOrders(h, s)
  {
    SessionEdgesMeanOrder(h.N(), s, h.sessions);
    if HoldAll(s, known) {
      KnownGivesOrders(h, s, known);
    }
    if StartsInOrder(h, s) && ReadOrders(h, s) {
      forall e | e in known ensures Holds(s, e) {
        if k, v :| IsReadEdge(h, k, v, e) {
          if WritesValue(h, e.src, k, v) && e.kind.WR? {
            assert ReadsFrom(h, e.dst, e.src, k);
            assert CommittedBefore(s, e.src, e.dst);
          } else if e.kind.WR? {
            assert CommittedBefore(s, 0, e.dst);
          }
        } else {
          assert IsBaseEdge(h, e);
          if e.src == 0 && e.kind.CB? && 1 <= e.dst < h.N() {
            assert CommittedBefore(s, 0, e.dst);
          }
        }
      }
    }
  }

  lemma KnownGivesOrders(h: History, s: Schedule, known: set<Edge>)
    requires Proper(h) && WellTimed(h.N(), s) && KnownOf(h, known) && HoldAll(s, known)
    ensures StartsInOrder(h, s) && ReadOrders(h, s)
  {
    forall i: nat | 1 <= i < h.N() ensures CommittedBefore(s, 0, i) {
      assert IsKnown(h, Edge(0, i, CB));
      assert Holds(s, Edge(0, i, CB));
    }
    forall e | h.strong && e in SessionEdges(h.sessions) ensures Holds(s, e) {
      assert IsKnown(h, e);
    }
    SessionEdgesMeanOrder(h.N(), s, h.sessions);
    forall j: nat, i: nat, k | ReadsFrom(h, j, i, k) ensures CommittedBefore(s, i, j) {
      assert IsReadEdge(h, k, h.extReads[j][k], Edge(i, j, WR));
      assert IsKnown(h, Edge(i, j, WR));
      assert Holds(s, Edge(i, j, WR));
    }
    forall j: nat, w: nat, k | ReadsInitial(h, j, k) && Writes(h, w, k) && w != j ensures s.begin[j] < s.commit[w] {
      assert IsReadEdge(h, k, h.extReads[j][k], Edge(j, w, RW));
      assert IsKnown(h, Edge(j, w, RW));
      assert Holds(s, Edge(j, w, RW));
    }
  }

  lemma AlternativesMeanOrders(h: History, s: Schedule, conn: set<Constraint>)
    requires Proper(h) && WellTimed(h.N(), s) && AlternativesOf(h, conn)
    ensures (forall c :: c in conn ==> HoldsOneSide(s, c)) <==> WritersApart(h, s) && Alternatives(h, s)
  {
    if forall c :: c in conn ==> HoldsOneSide(s, c) {
      forall i: nat, j: nat, k | Writes(h, i, k) && Writes(h, j, k) && i != j ensures CommittedBefore(s, i, j) || CommittedBefore(s, j, i) {
        assert IsWriteAlternative(h, k, i, j);
        var c := if WriteAlternative(i, j) in conn then WriteAlternative(i, j) else WriteAlternative(j, i);
        assert HoldsOneSide(s, c);
        assert Edge(i, j, WW) in c.left + c.right && Edge(j, i, WW) in c.left + c.right;
      }
      forall j: nat, i: nat, w: nat, k | ReadsFrom(h, j, i, k) && Writes(h, w, k) && w != i && w != j
        ensures CommittedBefore(s, w, i) || s.begin[j] < s.commit[w]
      {
        assert IsReadAlternative(h, k, i, j, w);
        var c := if ReadAlternative(i, j, w) in conn then ReadAlternative(i, j, w) else Swap(ReadAlternative(i, j, w));
        assert HoldsOneSide(s, c);
        assert Edge(w, i, WW) in c.left + c.right && Edge(j, w, RW) in c.left + c.right;
      }
    }
    if WritersApart(h, s) && Alternatives(h, s) {
      forall c | c in conn ensures HoldsOneSide(s, c) {
        if IsAlternative(h, c) {
          AlternativeHolds(h, s, c);
        } else {
          AlternativeHolds(h, s, Swap(c));
        }
      }
    }
  }

  lemma AlternativeHolds(h: History, s: Schedule, c: Constraint)
    requires Proper(h) && WellTimed(h.N(), s) && IsAlternative(h, c) && WritersApart(h, s) && Alternatives(h, s)
    ensures HoldsOneSide(s, c)
  {
    if k, i: nat, j: nat, w: nat :| IsReadAlternative(h, k, i, j, w) && c == ReadAlternative(i, j, w) {
      assert CommittedBefore(s, w, i) || s.begin[j] < s.commit[w];
      assert Holds(s, Edge(w, i, WW)) || Holds(s, Edge(j, w, RW));
    } else {
      var k, i: nat, j: nat :| IsWriteAlternative(h, k, i, j) && c == WriteAlternative(i, j);
      assert Holds(s, Edge(i, j, WW)) || Holds(s, Edge(j, i, WW));
    }
  }

  lemma PairwiseFitsMeansOrders(h: History, s: Schedule, known: set<Edge>, conn: set<Constraint>)
    requires Proper(h) && KnownOf(h, known) && AlternativesOf(h, conn)
    ensures Fits(h.N(), s, known, conn) <==> PairwiseOrders(h, s)
  {
    if WellTimed(h.N(), s) {
      KnownMeansOrders(h, s, known);
      AlternativesMeanOrders(h, s, conn);
    }
  }

  /** The pairwise polygraph has an acyclic one-from-each-pair choice exactly when the history is snapshot isolated. */
  lemma PairwiseEncodesSI(h: History, known: set<Edge>, conn: set<Constraint>)
    requires Proper(h) && KnownOf(h, known) && AlternativesOf(h, conn)
    ensures Satisfiable(h.N(), known, conn) && !HasDirtyRead(h) <==> IsSI(h)
  {
    KnownIsProper(h, known);
    AlternativesAreProper(h, conn);
    SatisfiableIffSchedulable(h.N(), known, conn);
    forall s ensures Fits(h.N(), s, known, conn) <==> PairwiseOrders(h, s) {
      PairwiseFitsMeansOrders(h, s, known, conn);
    }
    if Schedulable(h.N(), known, conn) && !HasDirtyRead(h) {
      var s :| Fits(h.N(), s, known, conn);
      var t := FitsAtDistinctTimes(h.N(), s, known, conn);
      OrdersMeanSnapshotReads(h, t);
    }
    if s :| SnapshotIsolated(h, s) {
      OrdersMeanSnapshotReads(h, s);
      assert Fits(h.N(), s, known, conn);
    }
  }
}
