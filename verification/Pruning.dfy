/** Committing constraints by topological distance, and the loop that retries with growing distance. */
module Pruning {
  import opened Digraph
  import opened Events
  import opened Solver
  import opened PolyGraphs
  import opened Checkers
  import opened Wrappers

  /** The edge spans more than k/10 positions of the sorted known graph. */
  predicate PickEdge(e: Edge, k: int, rank: map<nat, nat>)
    requires BcArc(e).0 in rank && BcArc(e).1 in rank
  {
    if e.kind.RW? then 10 * rank[Si(e.src)] + k < 10 * rank[Ci(e.dst)]
    else 10 * rank[Ci(e.src)] + k < 10 * rank[Si(e.dst)]
  }

  /** The events that the edge orders lie more than k/10 positions apart in the ranking. */
  ghost predicate Spans(e: Edge, k: int, rank: map<nat, nat>) {
    BcArc(e).0 in rank && BcArc(e).1 in rank && 10 * rank[BcArc(e).1] > 10 * rank[BcArc(e).0] + k
  }

  ghost predicate SomeSpans(es: set<Edge>, k: int, rank: map<nat, nat>) {
    exists e :: e in es && Spans(e, k, rank)
  }

  /** e belongs to a side with an edge that spans more. */
  ghost predicate IsFar(c: Constraint, k: int, rank: map<nat, nat>, e: Edge) {
    (e in c.left && SomeSpans(c.left, k, rank)) || (e in c.right && SomeSpans(c.right, k, rank))
  }

  ghost predicate IsFarOf(p: (Edge, Edge), k: int, rank: map<nat, nat>, e: Edge) {
    (e == p.0 || e == p.1) && Spans(e, k, rank)
  }

  ghost predicate RankedEdges(es: set<Edge>, rank: map<nat, nat>) {
    forall e :: e in es ==> BcArc(e).0 in rank && BcArc(e).1 in rank
  }

  ghost predicate RankedConstraint(c: Constraint, rank: map<nat, nat>) {
    RankedEdges(c.left, rank) && RankedEdges(c.right, rank)
  }

  ghost predicate RankedConstraints(conn: set<Constraint>, rank: map<nat, nat>) {
    forall c :: c in conn ==> RankedConstraint(c, rank)
  }

  predicate PickSide(es: set<Edge>, k: int, rank: map<nat, nat>)
    requires RankedEdges(es, rank)
  {
    exists e :: e in es && PickEdge(e, k, rank)
  }

  /** One side reaches far enough to be committed. */
  predicate Decided(c: Constraint, k: int, rank: map<nat, nat>)
    requires RankedConstraint(c, rank)
  {
    PickSide(c.left, k, rank) || PickSide(c.right, k, rank)
  }

  ghost predicate Contradictory(c: Constraint, k: int, rank: map<nat, nat>)
    requires RankedConstraint(c, rank)
  {
    PickSide(c.left, k, rank) && PickSide(c.right, k, rank)
  }

  ghost function CommittedSide(c: Constraint, k: int, rank: map<nat, nat>): set<Edge>
    requires RankedConstraint(c, rank)
  {
    if PickSide(c.left, k, rank) then c.left else c.right
  }

  ghost function Committed(conn: set<Constraint>, k: int, rank: map<nat, nat>): set<Constraint>
    requires RankedConstraints(conn, rank)
  {
    set c | c in conn && Decided(c, k, rank)
  }

  ghost function CommittedEdges(conn: set<Constraint>, k: int, rank: map<nat, nat>): set<Edge>
    requires RankedConstraints(conn, rank)
  {
    set c, e | c in conn && Decided(c, k, rank) && e in CommittedSide(c, k, rank) :: e
  }

  ghost predicate Consistent(conn: set<Constraint>, k: int, rank: map<nat, nat>)
    requires RankedConstraints(conn, rank)
  {
    forall c :: c in conn ==> !Contradictory(c, k, rank)
  }

  lemma PickingMeansSpanning(es: set<Edge>, k: int, rank: map<nat, nat>)
    requires RankedEdges(es, rank)
    ensures PickSide(es, k, rank) <==> SomeSpans(es, k, rank)
  {
    if e :| e in es && PickEdge(e, k, rank) {
      assert Spans(e, k, rank);
    }
    if e :| e in es && Spans(e, k, rank) {
      assert PickEdge(e, k, rank);
    }
  }

  /** What is committed and what contradicts itself, by the ranks of the events. */
  lemma CommittingMeansSpanning(conn: set<Constraint>, k: int, rank: map<nat, nat>)
    requires RankedConstraints(conn, rank)
    ensures Consistent(conn, k, rank) <==> forall c :: c in conn ==> !(SomeSpans(c.left, k, rank) && SomeSpans(c.right, k, rank))
    ensures forall c :: c in conn - Committed(conn, k, rank) <==> c in conn && !SomeSpans(c.left, k, rank) && !SomeSpans(c.right, k, rank)
    ensures Consistent(conn, k, rank) ==>
              forall e :: e in CommittedEdges(conn, k, rank) <==> exists c :: c in conn && IsFar(c, k, rank, e)
  {
    forall c | c in conn
      ensures PickSide(c.left, k, rank) <==> SomeSpans(c.left, k, rank)
      ensures PickSide(c.right, k, rank) <==> SomeSpans(c.right, k, rank)
    {
      assert RankedConstraint(c, rank);
      PickingMeansSpanning(c.left, k, rank);
      PickingMeansSpanning(c.right, k, rank);
    }
    if Consistent(conn, k, rank) {
      forall e ensures e in CommittedEdges(conn, k, rank) <==> exists c :: c in conn && IsFar(c, k, rank, e) {
        if c :| c in conn && Decided(c, k, rank) && e in CommittedSide(c, k, rank) {
          assert IsFar(c, k, rank, e);
        }
        if c :| c in conn && IsFar(c, k, rank, e) {
          assert Decided(c, k, rank) && !Contradictory(c, k, rank);
        }
      }
    }
  }

  lemma ProperIsRanked(n: nat, conn: set<Constraint>, rank: map<nat, nat>)
    requires ProperConstraints(n, conn) && Ranks(n, rank)
    ensures RankedConstraints(conn, rank)
  {
    forall c | c in conn ensures RankedConstraint(c, rank) {
      assert ProperConstraint(n, c);
    }
  }

  // ----- what committing does to the verdict

  /** A schedule of the pruned instance is one of the original: each committed constraint has a whole side among the known edges. */
  lemma PrunedFitsOriginal(n: nat, s: Schedule, known: set<Edge>, conn: set<Constraint>, k: int, rank: map<nat, nat>)
    requires RankedConstraints(conn, rank)
    requires Fits(n, s, known + CommittedEdges(conn, k, rank), conn - Committed(conn, k, rank))
    ensures Fits(n, s, known, conn)
  {
    forall c | c in conn ensures HoldsOneSide(s, c) {
      if Decided(c, k, rank) {
        assert forall e :: e in CommittedSide(c, k, rank) ==> e in CommittedEdges(conn, k, rank);
        assert HoldAll(s, CommittedSide(c, k, rank));
      } else {
        assert c in conn - Committed(conn, k, rank);
      }
    }
  }

  /** Accepting a pruned instance is sound. */
  lemma PruningIsSound(n: nat, known: set<Edge>, conn: set<Constraint>, k: int, rank: map<nat, nat>)
    requires n >= 1 && ProperEdges(n, known) && ProperConstraints(n, conn) && Ranks(n, rank) && RankedConstraints(conn, rank)
    requires Satisfiable(n, known + CommittedEdges(conn, k, rank), conn - Committed(conn, k, rank))
    ensures Satisfiable(n, known, conn)
  {
    CommittedIsProper(n, conn, k, rank);
    SatisfiableIffSchedulable(n, known + CommittedEdges(conn, k, rank), conn - Committed(conn, k, rank));
    SatisfiableIffSchedulable(n, known, conn);
    var s :| Fits(n, s, known + CommittedEdges(conn, k, rank), conn - Committed(conn, k, rank));
    PrunedFitsOriginal(n, s, known, conn, k, rank);
  }

  lemma CommittedIsProper(n: nat, conn: set<Constraint>, k: int, rank: map<nat, nat>)
    requires ProperConstraints(n, conn) && RankedConstraints(conn, rank)
    ensures ProperEdges(n, CommittedEdges(conn, k, rank))
  {
    forall e | e in CommittedEdges(conn, k, rank) ensures ProperEdge(n, e) {
      var c :| c in conn && Decided(c, k, rank) && e in CommittedSide(c, k, rank);
      assert ProperConstraint(n, c);
    }
  }

  /** At the largest distance, one less than the number of events, nothing is committed. */
  lemma LargestDistancePrunesNothing(n: nat, conn: set<Constraint>, rank: map<nat, nat>)
    requires Ranks(n, rank) && RankedConstraints(conn, rank)
    ensures Consistent(conn, 10 * (2 * n - 1), rank)
    ensures Committed(conn, 10 * (2 * n - 1), rank) == {} && CommittedEdges(conn, 10 * (2 * n - 1), rank) == {}
  {
    var k := 10 * (2 * n - 1);
    forall c | c in conn ensures !PickSide(c.left, k, rank) && !PickSide(c.right, k, rank) {
      assert RankedConstraint(c, rank);
    }
  }

  /** A greater distance commits fewer constraints, to the same sides, and contradicts itself less often. */
  lemma PruningIsMonotone(n: nat, known: set<Edge>, conn: set<Constraint>, k: int, m: int, rank: map<nat, nat>)
    requires n >= 1 && ProperEdges(n, known) && ProperConstraints(n, conn) && Ranks(n, rank) && RankedConstraints(conn, rank) && k <= m
    ensures !Consistent(conn, m, rank) ==> !Consistent(conn, k, rank)
    ensures Committed(conn, m, rank) <= Committed(conn, k, rank)
    ensures Consistent(conn, k, rank) ==> forall c :: c in Committed(conn, m, rank) ==> CommittedSide(c, m, rank) == CommittedSide(c, k, rank)
    ensures Consistent(conn, k, rank) && Satisfiable(n, known + CommittedEdges(conn, k, rank), conn - Committed(conn, k, rank)) ==>
              Satisfiable(n, known + CommittedEdges(conn, m, rank), conn - Committed(conn, m, rank))
  {
    forall c | c in conn
      ensures PickSide(c.left, m, rank) ==> PickSide(c.left, k, rank)
      ensures PickSide(c.right, m, rank) ==> PickSide(c.right, k, rank)
    {
      assert RankedConstraint(c, rank);
      FartherIsFewer(c.left, k, m, rank);
      FartherIsFewer(c.right, k, m, rank);
    }
    if Consistent(conn, k, rank) && Satisfiable(n, known + CommittedEdges(conn, k, rank), conn - Committed(conn, k, rank)) {
      CommittedIsProper(n, conn, k, rank);
      CommittedIsProper(n, conn, m, rank);
      SatisfiableIffSchedulable(n, known + CommittedEdges(conn, k, rank), conn - Committed(conn, k, rank));
      SatisfiableIffSchedulable(n, known + CommittedEdges(conn, m, rank), conn - Committed(conn, m, rank));
      var s :| Fits(n, s, known + CommittedEdges(conn, k, rank), conn - Committed(conn, k, rank));
      PrunedFitsOriginal(n, s, known, conn, k, rank);
      assert forall c :: c in conn && Decided(c, m, rank) ==> Decided(c, k, rank) && CommittedSide(c, m, rank) == CommittedSide(c, k, rank);
      assert CommittedEdges(conn, m, rank) <= CommittedEdges(conn, k, rank);
      assert Fits(n, s, known + CommittedEdges(conn, m, rank), conn - Committed(conn, m, rank));
    }
  }

  lemma FartherIsFewer(es: set<Edge>, k: int, m: int, rank: map<nat, nat>)
    requires RankedEdges(es, rank) && k <= m
    ensures PickSide(es, m, rank) ==> PickSide(es, k, rank)
  {
    if e :| e in es && PickEdge(e, m, rank) {
      assert PickEdge(e, k, rank);
    }
  }

  // ----- the chain heuristic

  method AddFromEdgeList(g: PolyGraph, es: set<Edge>)
    requires g.Valid() && ProperEdges(g.n, es)
    modifies g
    ensures g.Valid() && g.inserted == old(g.inserted) + es
  {
    var todo := es;
    while todo != {}
      invariant todo <= es && g.Valid() && g.inserted == old(g.inserted) + (es - todo)
    {
      var e :| e in todo;
      assert ProperEdge(g.n, e);
      g.AddEdge(e.src, e.dst, e.kind);
      todo := todo - {e};
    }
  }

  /** Commits every constraint of which one side reaches far enough, and gives up when both sides of one do. */
  method KBoundedConstraints(k: int, conn: set<Constraint>, iterG: PolyGraph, iterConn: set<Constraint>, rank: map<nat, nat>)
      returns (ok: bool, left: set<Constraint>)
    requires iterG.Valid() && ProperConstraints(iterG.n, conn) && iterConn == conn && RankedConstraints(conn, rank)
    modifies iterG
    ensures iterG.Valid()
    ensures ok <==> Consistent(conn, k, rank)
    ensures ok ==> left == conn - Committed(conn, k, rank)
    ensures ok ==> iterG.inserted == old(iterG.inserted) + CommittedEdges(conn, k, rank)
    ensures ok <==> forall c :: c in conn ==> !(SomeSpans(c.left, k, rank) && SomeSpans(c.right, k, rank))
    ensures ok ==> forall c :: c in left <==> c in conn && !SomeSpans(c.left, k, rank) && !SomeSpans(c.right, k, rank)
    ensures ok ==> forall e :: e in iterG.inserted <==> e in old(iterG.inserted) || exists c :: c in conn && IsFar(c, k, rank, e)
  {
    CommittingMeansSpanning(conn, k, rank);
    left := iterConn;
    var todo := conn;
    assert CommittedEdges(conn - todo, k, rank) == {};
    while todo != {}
      invariant todo <= conn && iterG.Valid()
      invariant CommittedSoFar(conn, conn - todo, k, rank, left, old(iterG.inserted), iterG.inserted)
    {
      var c :| c in todo;
      assert RankedConstraint(c, rank) && ProperConstraint(iterG.n, c);
      ghost var grown := iterG.inserted;
      ok := CommitConstraint(k, iterG, c, rank);
      if !ok {
        return;
      }
      CommittedGrows(conn, todo, c, k, rank, left, old(iterG.inserted), grown);
      if Decided(c, k, rank) {
        left := left - {c};
      }
      todo := todo - {c};
    }
    assert conn - todo == conn;
    ok := true;
  }

  /** Where the heuristic stands after the constraints in `done`. */
  ghost predicate CommittedSoFar(conn: set<Constraint>, done: set<Constraint>, k: int, rank: map<nat, nat>,
                                 left: set<Constraint>, start: set<Edge>, grown: set<Edge>) {
    && RankedConstraints(done, rank) && Consistent(done, k, rank)
    && left == conn - Committed(done, k, rank)
    && grown == start + CommittedEdges(done, k, rank)
  }

  lemma CommittedGrows(conn: set<Constraint>, todo: set<Constraint>, c: Constraint, k: int, rank: map<nat, nat>,
                       left: set<Constraint>, start: set<Edge>, grown: set<Edge>)
    requires todo <= conn && c in todo && RankedConstraint(c, rank) && !Contradictory(c, k, rank)
    requires CommittedSoFar(conn, conn - todo, k, rank, left, start, grown)
    ensures CommittedSoFar(conn, conn - (todo - {c}), k, rank, if Decided(c, k, rank) then left - {c} else left, start,
                           grown + if Decided(c, k, rank) then CommittedSide(c, k, rank) else {})
  {
    CommitOneMore(conn - todo, c, k, rank);
    assert conn - (todo - {c}) == conn - todo + {c};
  }

  /** Commits one side of a constraint if exactly one reaches far enough; reports whether not both do. */
  method CommitConstraint(k: int, iterG: PolyGraph, c: Constraint, rank: map<nat, nat>) returns (ok: bool)
    requires iterG.Valid() && ProperConstraint(iterG.n, c) && RankedConstraint(c, rank)
    modifies iterG
    ensures iterG.Valid()
    ensures ok <==> !Contradictory(c, k, rank)
    ensures ok ==> iterG.inserted == old(iterG.inserted) + if Decided(c, k, rank) then CommittedSide(c, k, rank) else {}
  {
    var ret1 := PickSide(c.left, k, rank);
    var ret2 := PickSide(c.right, k, rank);
    if ret1 && ret2 {
      return false;
    } else if ret1 && !ret2 {
      AddFromEdgeList(iterG, c.left);
    } else if ret2 && !ret1 {
      AddFromEdgeList(iterG, c.right);
    }
    return true;
  }

  lemma CommitOneMore(done: set<Constraint>, c: Constraint, k: int, rank: map<nat, nat>)
    requires RankedConstraints(done, rank) && RankedConstraint(c, rank)
    ensures RankedConstraints(done + {c}, rank)
    ensures Committed(done + {c}, k, rank) == Committed(done, k, rank) + if Decided(c, k, rank) then {c} else {}
    ensures CommittedEdges(done + {c}, k, rank) == CommittedEdges(done, k, rank) + if Decided(c, k, rank) then CommittedSide(c, k, rank) else {}
  {
  }

  // ----- the pair heuristic

  /** Commits single edges; the graph keeps its recorded pairs, only the working list gets shorter. */
  method KBoundedPairs(k: int, g: PolyGraph, iterG: PolyGraph, rank: map<nat, nat>) returns (ok: bool, left: set<(Edge, Edge)>)
    requires iterG.Valid() && ProperConstraints(iterG.n, PairConstraints(g.pairs)) && iterG.pairs == g.pairs && iterG != g
    requires RankedConstraints(PairConstraints(g.pairs), rank)
    modifies iterG
    ensures iterG.Valid() && iterG.pairs == old(iterG.pairs)
    ensures ok <==> Consistent(PairConstraints(g.pairs), k, rank)
    ensures ok ==> forall p :: p in left <==> p in g.pairs && !PairDecided(p, k, rank)
    ensures ok ==> iterG.inserted == old(iterG.inserted) + CommittedEdges(PairConstraints(g.pairs), k, rank)
    ensures ok <==> forall p :: p in g.pairs ==> !(Spans(p.0, k, rank) && Spans(p.1, k, rank))
    ensures ok ==> forall p :: p in left <==> p in g.pairs && !Spans(p.0, k, rank) && !Spans(p.1, k, rank)
    ensures ok ==> forall e :: e in iterG.inserted <==> e in old(iterG.inserted) || exists p :: p in g.pairs && IsFarOf(p, k, rank, e)
  {
    PairsSpanning(iterG.n, g.pairs, k, rank);
    ok, left := CommitPairs(k, g.pairs, iterG, rank);
  }

  method CommitPairs(k: int, pairs: set<(Edge, Edge)>, iterG: PolyGraph, rank: map<nat, nat>) returns (ok: bool, left: set<(Edge, Edge)>)
    requires iterG.Valid() && ProperConstraints(iterG.n, PairConstraints(pairs)) && RankedConstraints(PairConstraints(pairs), rank)
    modifies iterG
    ensures iterG.Valid() && iterG.pairs == old(iterG.pairs)
    ensures ok <==> Consistent(PairConstraints(pairs), k, rank)
    ensures ok ==> forall p :: p in left <==> p in pairs && !PairDecided(p, k, rank)
    ensures ok ==> iterG.inserted == old(iterG.inserted) + CommittedEdges(PairConstraints(pairs), k, rank)
  {
    left := pairs;
    var todo := pairs;
    ghost var done: set<Constraint> := {};
    while todo != {}
      invariant todo <= pairs && iterG.Valid() && iterG.pairs == old(iterG.pairs)
      invariant done == PairConstraints(pairs - todo) && RankedConstraints(done, rank)
      invariant Consistent(done, k, rank)
      invariant forall p :: p in left <==> p in pairs && (p in todo || !PairDecided(p, k, rank))
      invariant iterG.inserted == old(iterG.inserted) + CommittedEdges(done, k, rank)
    {
      var p :| p in todo;
      PairIsRanked(iterG.n, pairs, p, k, rank);
      ok := CommitPair(k, iterG, p, rank);
      if !ok {
        return;
      }
      if PairDecided(p, k, rank) {
        left := left - {p};
      }
      CommitOneMore(done, AsConstraint(p), k, rank);
      done := done + {AsConstraint(p)};
      OneMorePair(pairs, todo, p);
      todo := todo - {p};
    }
    assert pairs - todo == pairs;
    ok := true;
  }

  lemma OneMorePair(pairs: set<(Edge, Edge)>, todo: set<(Edge, Edge)>, p: (Edge, Edge))
    requires todo <= pairs && p in todo
    ensures PairConstraints(pairs - (todo - {p})) == PairConstraints(pairs - todo) + {AsConstraint(p)}
  {
    assert pairs - (todo - {p}) == pairs - todo + {p};
  }

  /** Commits one edge of a pair if exactly one reaches far enough; reports whether not both do. */
  method CommitPair(k: int, iterG: PolyGraph, p: (Edge, Edge), rank: map<nat, nat>) returns (ok: bool)
    requires iterG.Valid() && ProperEdge(iterG.n, p.0) && ProperEdge(iterG.n, p.1) && RankedConstraint(AsConstraint(p), rank)
    requires BcArc(p.0).0 in rank && BcArc(p.0).1 in rank && BcArc(p.1).0 in rank && BcArc(p.1).1 in rank
    requires PickSide(AsConstraint(p).left, k, rank) == PickEdge(p.0, k, rank)
    requires PickSide(AsConstraint(p).right, k, rank) == PickEdge(p.1, k, rank)
    modifies iterG
    ensures iterG.Valid() && iterG.pairs == old(iterG.pairs)
    ensures ok <==> !Contradictory(AsConstraint(p), k, rank)
    ensures ok ==> iterG.inserted == old(iterG.inserted) +
                     if Decided(AsConstraint(p), k, rank) then CommittedSide(AsConstraint(p), k, rank) else {}
  {
    var ret1 := PickEdge(p.0, k, rank);
    var ret2 := PickEdge(p.1, k, rank);
    if ret1 && ret2 {
      return false;
    } else if ret1 && !ret2 {
      iterG.AddEdge(p.0.src, p.0.dst, p.0.kind);
    } else if ret2 && !ret1 {
      iterG.AddEdge(p.1.src, p.1.dst, p.1.kind);
    }
    return true;
  }

  lemma PairIsRanked(n: nat, pairs: set<(Edge, Edge)>, p: (Edge, Edge), k: int, rank: map<nat, nat>)
    requires ProperConstraints(n, PairConstraints(pairs)) && RankedConstraints(PairConstraints(pairs), rank) && p in pairs
    ensures AsConstraint(p) in PairConstraints(pairs)
    ensures RankedConstraint(AsConstraint(p), rank) && ProperEdge(n, p.0) && ProperEdge(n, p.1)
    ensures BcArc(p.0).0 in rank && BcArc(p.0).1 in rank && BcArc(p.1).0 in rank && BcArc(p.1).1 in rank
    ensures PickSide(AsConstraint(p).left, k, rank) == PickEdge(p.0, k, rank)
    ensures PickSide(AsConstraint(p).right, k, rank) == PickEdge(p.1, k, rank)
  {
    var c := AsConstraint(p);
    assert c in PairConstraints(pairs);
    assert RankedConstraint(c, rank) && ProperConstraint(n, c);
    assert p.0 in c.left && p.1 in c.right;
  }

  lemma PairsSpanning(n: nat, pairs: set<(Edge, Edge)>, k: int, rank: map<nat, nat>)
    requires ProperConstraints(n, PairConstraints(pairs)) && RankedConstraints(PairConstraints(pairs), rank)
    ensures Consistent(PairConstraints(pairs), k, rank) <==> forall p :: p in pairs ==> !(Spans(p.0, k, rank) && Spans(p.1, k, rank))
    ensures forall p :: p in pairs ==> (PairDecided(p, k, rank) <==> Spans(p.0, k, rank) || Spans(p.1, k, rank))
    ensures Consistent(PairConstraints(pairs), k, rank) ==>
              forall e :: e in CommittedEdges(PairConstraints(pairs), k, rank) <==> exists p :: p in pairs && IsFarOf(p, k, rank, e)
  {
    var conn := PairConstraints(pairs);
    forall p | p in pairs ensures AsConstraint(p) in conn && (PairDecided(p, k, rank) <==> Spans(p.0, k, rank) || Spans(p.1, k, rank))
      ensures SomeSpans(AsConstraint(p).left, k, rank) <==> Spans(p.0, k, rank)
      ensures SomeSpans(AsConstraint(p).right, k, rank) <==> Spans(p.1, k, rank)
    {
      PairIsRanked(n, pairs, p, k, rank);
      assert p.0 in AsConstraint(p).left && p.1 in AsConstraint(p).right;
    }
    CommittingMeansSpanning(conn, k, rank);
    if Consistent(conn, k, rank) {
      forall e ensures e in CommittedEdges(conn, k, rank) <==> exists p :: p in pairs && IsFarOf(p, k, rank, e) {
        if c :| c in conn && IsFar(c, k, rank, e) {
          var p :| p in pairs && c == AsConstraint(p);
          assert IsFarOf(p, k, rank, e);
        }
        if p :| p in pairs && IsFarOf(p, k, rank, e) {
          assert IsFar(AsConstraint(p), k, rank, e);
        }
      }
    }
  }

  predicate PairDecided(p: (Edge, Edge), k: int, rank: map<nat, nat>) {
    && BcArc(p.0).0 in rank && BcArc(p.0).1 in rank && BcArc(p.1).0 in rank && BcArc(p.1).1 in rank
    && (PickEdge(p.0, k, rank) || PickEdge(p.1, k, rank))
  }

  /** Single edges committed at a non-negative distance go up in the ranking, so it still sorts the grown graph. */
  lemma CommittedPairsKeepRanking(n: nat, known: set<Edge>, pairs: set<(Edge, Edge)>, k: int, rank: map<nat, nat>)
    requires k >= 0 && ProperConstraints(n, PairConstraints(pairs)) && Ranks(n, rank) && GoUp(BcArcs(n, known), rank)
    requires RankedConstraints(PairConstraints(pairs), rank)
    ensures GoUp(BcArcs(n, known + CommittedEdges(PairConstraints(pairs), k, rank)), rank)
  {
    var more := CommittedEdges(PairConstraints(pairs), k, rank);
    forall e | e in more ensures BcArc(e).0 in rank && BcArc(e).1 in rank && rank[BcArc(e).0] < rank[BcArc(e).1] {
      CommittedPairGoesUp(n, pairs, k, rank, e);
    }
  }

  lemma CommittedPairGoesUp(n: nat, pairs: set<(Edge, Edge)>, k: int, rank: map<nat, nat>, e: Edge)
    requires k >= 0 && ProperConstraints(n, PairConstraints(pairs)) && RankedConstraints(PairConstraints(pairs), rank)
    requires e in CommittedEdges(PairConstraints(pairs), k, rank)
    ensures BcArc(e).0 in rank && BcArc(e).1 in rank && rank[BcArc(e).0] < rank[BcArc(e).1]
  {
    var c :| c in PairConstraints(pairs) && Decided(c, k, rank) && e in CommittedSide(c, k, rank);
    var p :| p in pairs && c == AsConstraint(p);
    PairIsRanked(n, pairs, p, k, rank);
  }

  /** A ranking that sorts the known graph shows it has no cycle. */
  lemma RankedGraphIsAcyclic(n: nat, known: set<Edge>, rank: map<nat, nat>)
    requires Ranks(n, rank) && GoUp(BcArcs(n, known), rank)
    ensures Acyclic(BcArcs(n, known))
  {
    var ranks := seq(2 * n + 1, v requires 0 <= v < 2 * n + 1 => if v == 0 then 0 else rank[v]);
    RankedIsAcyclic(BcArcs(n, known), ranks);
  }

  /** Leaving committed constraints among the open ones changes no verdict. */
  lemma KeepingCommittedIsHarmless(n: nat, known: set<Edge>, conn: set<Constraint>, k: int, rank: map<nat, nat>)
    requires n >= 1 && ProperEdges(n, known) && ProperConstraints(n, conn) && RankedConstraints(conn, rank)
    ensures Satisfiable(n, known + CommittedEdges(conn, k, rank), conn) <==>
              Satisfiable(n, known + CommittedEdges(conn, k, rank), conn - Committed(conn, k, rank))
  {
    var grown := known + CommittedEdges(conn, k, rank);
    var open := conn - Committed(conn, k, rank);
    CommittedIsProper(n, conn, k, rank);
    SatisfiableIffSchedulable(n, grown, conn);
    SatisfiableIffSchedulable(n, grown, open);
    if s :| Fits(n, s, grown, conn) {
      assert Fits(n, s, grown, open);
    }
    if s :| Fits(n, s, grown, open) {
      PrunedFitsOriginal(n, s, known, conn, k, rank);
      assert Fits(n, s, grown, conn);
    }
  }

  // ----- the loop over growing distances

  lemma CyclicKnownGraphIsUnsatisfiable(n: nat, known: set<Edge>, conn: set<Constraint>)
    requires n >= 1 && ProperEdges(n, known) && ProperConstraints(n, conn) && !Acyclic(BcArcs(n, known))
    ensures !Satisfiable(n, known, conn)
  {
    SatisfiableIffSchedulable(n, known, conn);
    BcAcyclicIffSchedulable(n, known);
  }

  /** What one try finds: the committed sides do not contradict each other and the pruned instance is satisfiable. */
  ghost predicate Accepts(n: nat, known: set<Edge>, conn: set<Constraint>, k: int, rank: map<nat, nat>)
    requires n >= 1 && RankedConstraints(conn, rank)
  {
    Consistent(conn, k, rank) && Satisfiable(n, known + CommittedEdges(conn, k, rank), conn - Committed(conn, k, rank))
  }

  /** One round: commit at this distance, then ask the solver about what is left. */
  method Attempt(g: PolyGraph, conn: set<Constraint>, k: int, rank: map<nat, nat>, solve: Formula -> bool) returns (result: bool)
    requires g.Valid() && g.n >= 1 && ProperConstraints(g.n, conn) && Exact(solve)
    requires Ranks(g.n, rank) && RankedConstraints(conn, rank)
    ensures result <==> Accepts(g.n, g.inserted, conn, k, rank)
  {
    var iterG := new PolyGraph.Copy(g);
    var ok, left := KBoundedConstraints(k, conn, iterG, conn, rank);
    if !ok {
      return false;
    }
    result := CheckSides(iterG, left, solve);
  }

  ghost predicate Sorts(n: nat, known: set<Edge>, rank: map<nat, nat>) {
    Ranks(n, rank) && GoUp(BcArcs(n, known), rank)
  }

  /** The tries made: all but the last failed, the last gave the answer, and no was only said at the largest distance. */
  ghost predicate Tried(n: nat, known: set<Edge>, conn: set<Constraint>, rank: map<nat, nat>, tries: nat, result: bool)
    requires n >= 1 && RankedConstraints(conn, rank)
  {
    && 1 <= tries <= 10
    && (forall t: nat :: t < tries - 1 ==> !Accepts(n, known, conn, Distance(t, 2 * n), rank))
    && (result <==> Accepts(n, known, conn, Distance(tries - 1, 2 * n), rank))
    && (!result ==> Distance(tries - 1, 2 * n) == 10 * (2 * n - 1))
  }

  /** Sorts the known graph, then tries distances of 10%, 20%, ... of the number of events and
      at last one less than that number (distances are scaled by 10). The answer is that of the
      unpruned instance, after at most ten tries. */
  method Decide(g: PolyGraph, conn: set<Constraint>, solve: Formula -> bool) returns (result: bool, tries: nat)
    requires g.Valid() && g.n >= 1 && ProperSessions(g.n, g.sessions) && ProperConstraints(g.n, conn) && Exact(solve)
    ensures result <==> Satisfiable(g.n, g.inserted, conn)
    ensures tries <= 10 && (tries == 0 <==> !Acyclic(BcArcs(g.n, g.inserted)))
    ensures tries > 0 ==> exists rank :: Sorts(g.n, g.inserted, rank) && RankedConstraints(conn, rank) && Tried(g.n, g.inserted, conn, rank, tries, result)
  {
    tries := 0;
    var sorted := g.TopoSort();
    if sorted.None? {
      CyclicKnownGraphIsUnsatisfiable(g.n, g.inserted, conn);
      return false, tries;
    }
    ProperIsRanked(g.n, conn, sorted.value);
    result, tries := TryDistances(g, conn, sorted.value, solve);
    assert Sorts(g.n, g.inserted, sorted.value);
  }

  method TryDistances(g: PolyGraph, conn: set<Constraint>, rank: map<nat, nat>, solve: Formula -> bool) returns (result: bool, tries: nat)
    requires g.Valid() && g.n >= 1 && ProperConstraints(g.n, conn) && Exact(solve)
    requires Ranks(g.n, rank) && RankedConstraints(conn, rank)
    ensures result <==> Satisfiable(g.n, g.inserted, conn)
    ensures Tried(g.n, g.inserted, conn, rank, tries, result)
  {
    ghost var sat := Satisfiable(g.n, g.inserted, conn);
    var nodes := 2 * g.n;
    var k := nodes;
    result, tries := false, 0;
    while !result && k < 10 * nodes
      invariant result || IsDistance(tries, nodes, k)
      invariant result ==> sat && Tried(g.n, g.inserted, conn, rank, tries, result)
      invariant !result ==> forall t: nat :: t < tries ==> !Accepts(g.n, g.inserted, conn, Distance(t, nodes), rank)
      decreases 10 - tries
    {
      result := TryOne(g, conn, k, rank, solve, sat);
      tries := tries + 1;
      if k == 10 * (nodes - 1) {
        break;
      }
      NextIsDistance(tries - 1, nodes, k);
      k := NextDistance(k, nodes);
    }
  }

  /** An attempt that accepts is right; at the largest distance one that does not accept is right too. */
  method TryOne(g: PolyGraph, conn: set<Constraint>, k: int, rank: map<nat, nat>, solve: Formula -> bool, ghost sat: bool) returns (result: bool)
    requires g.Valid() && g.n >= 1 && ProperConstraints(g.n, conn) && Exact(solve)
    requires Ranks(g.n, rank) && RankedConstraints(conn, rank)
    requires sat <==> Satisfiable(g.n, g.inserted, conn)
    ensures result <==> Accepts(g.n, g.inserted, conn, k, rank)
    ensures result ==> sat
    ensures k == 10 * (2 * g.n - 1) ==> (result <==> sat)
  {
    result := Attempt(g, conn, k, rank, solve);
    AttemptIsSound(g.n, g.inserted, conn, k, rank);
    if k == 10 * (2 * g.n - 1) {
      LargestDistancePrunesNothing(g.n, conn, rank);
      assert g.inserted + {} == g.inserted && conn - {} == conn;
    }
  }

  lemma AttemptIsSound(n: nat, known: set<Edge>, conn: set<Constraint>, k: int, rank: map<nat, nat>)
    requires n >= 1 && ProperEdges(n, known) && ProperConstraints(n, conn) && Ranks(n, rank) && RankedConstraints(conn, rank)
    ensures Satisfiable(n, known + CommittedEdges(conn, k, rank), conn - Committed(conn, k, rank)) ==> Satisfiable(n, known, conn)
  {
    if Satisfiable(n, known + CommittedEdges(conn, k, rank), conn - Committed(conn, k, rank)) {
      PruningIsSound(n, known, conn, k, rank);
    }
  }

  function NextDistance(k: int, nodes: int): int {
    if k + nodes < 10 * nodes then k + nodes else 10 * (nodes - 1)
  }

  /** The distance of each try: 10%, 20%, ..., 90% of the number of events, and then one less than that number. */
  ghost function Distance(t: nat, nodes: int): int {
    if t < 9 then (t + 1) * nodes else 10 * (nodes - 1)
  }

  /** k is the distance after t tries; the tenth try is at the largest. */
  ghost predicate IsDistance(t: nat, nodes: int, k: int) {
    t <= 9 && k == Distance(t, nodes) && 0 < k < 10 * nodes
  }

  lemma NextIsDistance(t: nat, nodes: int, k: int)
    requires nodes >= 2 && IsDistance(t, nodes, k) && k != 10 * (nodes - 1)
    ensures IsDistance(t + 1, nodes, NextDistance(k, nodes))
  {
    assert k + nodes == (t + 2) * nodes;
    if t < 8 {
      assert (t + 2) * nodes <= 9 * nodes;
    }
  }
}
