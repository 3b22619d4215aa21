/** The polygraph of a history: typed edges between transactions, stored without
    redundant types, and undirected pairs of alternatives. */
module PolyGraphs {
  import opened Digraph
  import opened Events
  import opened BcGraphs
  import opened Wrappers

  type Target = (nat, EdgeType)

  /** The event orders an edge set demands; wr, ww and cb edges demand the same order. */
  ghost predicate SameOrders(es: set<Edge>, fs: set<Edge>) {
    && (forall e {:trigger Covered(fs, e)} :: e in es ==> Covered(fs, e))
    && (forall e {:trigger Covered(es, e)} :: e in fs ==> Covered(es, e))
  }

  ghost predicate Covered(es: set<Edge>, e: Edge) {
    if e.kind.RW? then e in es
    else Edge(e.src, e.dst, WR) in es || Edge(e.src, e.dst, WW) in es || Edge(e.src, e.dst, CB) in es
  }

  lemma SameOrdersSameArcs(n: nat, es: set<Edge>, fs: set<Edge>)
    requires SameOrders(es, fs)
    ensures BcArcs(n, es) == BcArcs(n, fs) && SolverArcs(n, es) == SolverArcs(n, fs)
  {
    ArcsIncluded(n, es, fs);
    ArcsIncluded(n, fs, es);
  }

  lemma ArcsIncluded(n: nat, es: set<Edge>, fs: set<Edge>)
    requires forall e :: e in es ==> Covered(fs, e)
    ensures BcArcs(n, es) <= BcArcs(n, fs) && SolverArcs(n, es) <= SolverArcs(n, fs)
  {
    forall e | e in es ensures BcArc(e) in BcArcs(n, fs) && SolverArc(e) in SolverArcs(n, fs) {
      assert Covered(fs, e);
      var f :| f in fs && f.src == e.src && f.dst == e.dst && f.kind.RW? == e.kind.RW?;
      assert BcArc(f) == BcArc(e) && SolverArc(f) == SolverArc(e);
    }
  }

  function StoredIn(edges: map<nat, set<Target>>): (es: set<Edge>)
    ensures forall e {:trigger e in es} :: e in es <==> e.src in edges && (e.dst, e.kind) in edges[e.src]
  {
    var es := set s, d | s in edges && d in edges[s] :: Edge(s, d.0, d.1);
    assert forall e: Edge :: e.src in edges && (e.dst, e.kind) in edges[e.src] ==> Edge(e.src, (e.dst, e.kind).0, (e.dst, e.kind).1) in es;
    es
  }

  /** At most one of wr, ww and cb is stored for an ordered pair of transactions. */
  ghost predicate OneOrderType(edges: map<nat, set<Target>>) {
    forall s, d :: OneTypeAt(StoredIn(edges), s, d)
  }

  ghost predicate OneTypeAt(es: set<Edge>, s: nat, d: nat) {
    && !(Edge(s, d, WR) in es && Edge(s, d, WW) in es)
    && !(Edge(s, d, WR) in es && Edge(s, d, CB) in es)
    && !(Edge(s, d, WW) in es && Edge(s, d, CB) in es)
  }

  /** The type table lists exactly the types of the stored edges, and no pair without one. */
  ghost predicate Mirrors(lookup: map<(nat, nat), set<EdgeType>>, edges: map<nat, set<Target>>) {
    && (forall e :: MirrorsAt(lookup, StoredIn(edges), e))
    && (forall p :: p in lookup ==> lookup[p] != {})
  }

  ghost predicate MirrorsAt(lookup: map<(nat, nat), set<EdgeType>>, es: set<Edge>, e: Edge) {
    e in es <==> (e.src, e.dst) in lookup && e.kind in lookup[(e.src, e.dst)]
  }

  function WithType(lookup: map<(nat, nat), set<EdgeType>>, e: Edge): map<(nat, nat), set<EdgeType>> {
    lookup[(e.src, e.dst) := (if (e.src, e.dst) in lookup then lookup[(e.src, e.dst)] else {}) + {e.kind}]
  }

  /** A different one of wr, ww, cb is already stored between the two transactions. */
  ghost predicate Subsumed(edges: map<nat, set<Target>>, src: nat, dst: nat, kind: EdgeType) {
    !kind.RW? && exists k :: k in {WR, CB, WW} - {kind} && Edge(src, dst, k) in StoredIn(edges)
  }

  lemma SubsumedInsertion(edges: map<nat, set<Target>>, inserted: set<Edge>, e: Edge)
    requires SameOrders(StoredIn(edges), inserted) && Subsumed(edges, e.src, e.dst, e.kind)
    ensures SameOrders(StoredIn(edges), inserted + {e})
  {
    assert Covered(StoredIn(edges), e);
    forall f | f in StoredIn(edges) ensures Covered(inserted + {e}, f) {
      assert Covered(inserted, f);
    }
  }

  function Storing(edges: map<nat, set<Target>>, e: Edge): map<nat, set<Target>>
    requires e.src in edges
  {
    edges[e.src := edges[e.src] + {(e.dst, e.kind)}]
  }

  lemma StoringAdds(edges: map<nat, set<Target>>, e: Edge)
    requires e.src in edges
    ensures StoredIn(Storing(edges, e)) == StoredIn(edges) + {e}
  {
  }

  lemma StoringKeepsOneType(edges: map<nat, set<Target>>, e: Edge)
    requires e.src in edges && OneOrderType(edges) && !Subsumed(edges, e.src, e.dst, e.kind)
    ensures OneOrderType(Storing(edges, e))
  {
    StoringAdds(edges, e);
    forall s, d ensures OneTypeAt(StoredIn(Storing(edges, e)), s, d) {
      assert OneTypeAt(StoredIn(edges), s, d);
    }
  }

  lemma BothInserted(stored: set<Edge>, inserted: set<Edge>, e: Edge)
    requires SameOrders(stored, inserted)
    ensures SameOrders(stored + {e}, inserted + {e})
  {
    forall f | f in inserted ensures Covered(stored + {e}, f) {
      assert Covered(stored, f);
    }
    forall f | f in stored ensures Covered(inserted + {e}, f) {
      assert Covered(inserted, f);
    }
  }

  lemma StoringMirrors(edges: map<nat, set<Target>>, lookup: map<(nat, nat), set<EdgeType>>, e: Edge)
    requires e.src in edges && Mirrors(lookup, edges)
    ensures Mirrors(WithType(lookup, e), Storing(edges, e))
  {
    StoringAdds(edges, e);
    forall f ensures MirrorsAt(WithType(lookup, e), StoredIn(Storing(edges, e)), f) {
      assert MirrorsAt(lookup, StoredIn(edges), f);
      assert MirrorsAt(lookup, StoredIn(edges), e);
    }
  }

  /** The stored edges demand the same orders as all inserted ones, with no redundant
      types, and the type table mirrors them. */
  ghost predicate Consistent(n: nat, edges: map<nat, set<Target>>, lookup: map<(nat, nat), set<EdgeType>>,
                             inserted: set<Edge>) {
    && (forall i: nat :: i in edges <==> i < n)
    && ProperEdges(n, inserted)
    && StoredIn(edges) <= inserted && SameOrders(StoredIn(edges), inserted)
    && OneOrderType(edges)
    && Mirrors(lookup, edges)
  }

  lemma StoringConsistent(n: nat, edges: map<nat, set<Target>>, lookup: map<(nat, nat), set<EdgeType>>,
                          inserted: set<Edge>, e: Edge)
    requires Consistent(n, edges, lookup, inserted) && ProperEdge(n, e)
    requires !Subsumed(edges, e.src, e.dst, e.kind)
    ensures Consistent(n, Storing(edges, e), WithType(lookup, e), inserted + {e})
  {
    StoringAdds(edges, e);
    StoringKeepsOneType(edges, e);
    BothInserted(StoredIn(edges), inserted, e);
    StoringMirrors(edges, lookup, e);
  }

  /** No pair is recorded in both orders. */
  ghost predicate Unmirrored(pairs: set<(Edge, Edge)>) {
    forall p :: p in pairs && (p.1, p.0) in pairs ==> p.0 == p.1
  }

  class PolyGraph {
    const n: nat
    var edges: map<nat, set<Target>>
    var lookup: map<(nat, nat), set<EdgeType>>
    var pairs: set<(Edge, Edge)>
    var sessions: seq<seq<nat>>
    ghost var inserted: set<Edge>  // every edge ever passed to AddEdge

    constructor (n: nat, sessions: seq<seq<nat>>)
      ensures Valid() && this.n == n && this.sessions == sessions
      ensures inserted == {} && pairs == {}
    {
      this.n := n;
      edges := map i | i in Below(n) :: {};
      lookup := map[];
      pairs := {};
      this.sessions := sessions;
      inserted := {};
    }

    /** A copy that can be changed without changing the original. */
    constructor Copy(g: PolyGraph)
      requires g.Valid()
      ensures Valid() && n == g.n && sessions == g.sessions && inserted == g.inserted && pairs == g.pairs
    {
      n := g.n;
      edges := g.edges;
      lookup := g.lookup;
      pairs := g.pairs;
      sessions := g.sessions;
      inserted := g.inserted;
    }

    function Stored(): set<Edge>
      reads this
    {
      StoredIn(edges)
    }

    ghost predicate Valid()
      reads this
    {
      Consistent(n, edges, lookup, inserted)
    }

    /** Whether the pair already has a different one of the three types that mean commits-before. */
    method HasOtherType(src: nat, dst: nat, kind: EdgeType) returns (found: bool)
      requires src in edges && !kind.RW?
      ensures found == Subsumed(edges, src, dst, kind)
    {
      var others := {WR, CB, WW} - {kind};
      while others != {}
        invariant others <= {WR, CB, WW} - {kind}
        invariant forall t :: t in {WR, CB, WW} - {kind} && Edge(src, dst, t) in StoredIn(edges) ==> t in others
      {
        var t :| t in others;
        if (dst, t) in edges[src] {
          assert Edge(src, dst, t) in StoredIn(edges);
          return true;
        }
        assert Edge(src, dst, t) !in StoredIn(edges);
        others := others - {t};
      }
      return false;
    }

    method AddEdge(src: nat, dst: nat, kind: EdgeType)
      requires Valid() && ProperEdge(n, Edge(src, dst, kind))
      modifies this
      ensures Valid() && inserted == old(inserted) + {Edge(src, dst, kind)}
      ensures pairs == old(pairs) && sessions == old(sessions)
      ensures Stored() == old(Stored()) + if Subsumed(old(edges), src, dst, kind) then {} else {Edge(src, dst, kind)}
    {
      ghost var e := Edge(src, dst, kind);
      if !kind.RW? {
        var found := HasOtherType(src, dst, kind);
        if found {
          SubsumedInsertion(edges, inserted, e);
          inserted := inserted + {e};
          return;
        }
      }
      StoringConsistent(n, edges, lookup, inserted, e);
      StoringAdds(edges, e);
      edges := Storing(edges, Edge(src, dst, kind));
      lookup := WithType(lookup, Edge(src, dst, kind));
      inserted := inserted + {e};
    }

    method AddEdgesFrom(src: nat, dsts: set<nat>, kind: EdgeType)
      requires Valid() && ProperEdges(n, Fan(src, dsts, kind))
      modifies this
      ensures Valid() && inserted == old(inserted) + Fan(src, dsts, kind)
      ensures pairs == old(pairs) && sessions == old(sessions)
    {
      var tos := dsts;
      while tos != {}
        invariant tos <= dsts && Valid() && pairs == old(pairs) && sessions == old(sessions)
        invariant inserted == old(inserted) + Fan(src, dsts - tos, kind)
      {
        var dst :| dst in tos;
        assert Edge(src, dst, kind) in Fan(src, dsts, kind);
        FanGrows(src, dsts, tos, dst, kind, old(inserted));
        AddEdge(src, dst, kind);
        tos := tos - {dst};
      }
      assert dsts - tos == dsts;
    }

    method AddEdges(srcs: set<nat>, dsts: set<nat>, kind: EdgeType)
      requires Valid() && ProperEdges(n, Product(srcs, dsts, kind))
      modifies this
      ensures Valid() && inserted == old(inserted) + Product(srcs, dsts, kind)
      ensures forall e :: e in inserted <==> e in old(inserted) || (e.src in srcs && e.dst in dsts && e.kind == kind)
      ensures pairs == old(pairs) && sessions == old(sessions)
    {
      var froms := srcs;
      while froms != {}
        invariant froms <= srcs && Valid() && pairs == old(pairs) && sessions == old(sessions)
        invariant inserted == old(inserted) + Product(srcs - froms, dsts, kind)
      {
        var src :| src in froms;
        assert Fan(src, dsts, kind) <= Product(srcs, dsts, kind);
        AddEdgesFrom(src, dsts, kind);
        assert Product(srcs - froms, dsts, kind) + Fan(src, dsts, kind) == Product(srcs - (froms - {src}), dsts, kind);
        froms := froms - {src};
      }
      assert srcs - froms == srcs;
      assert forall e: Edge :: e.src in srcs && e.dst in dsts && e.kind == kind ==> Edge(e.src, e.dst, kind) in Product(srcs, dsts, kind);
    }

    /** Records two alternatives, unless the same two are already recorded in either order. */
    method AddEdgePair(e1: Edge, e2: Edge)
      requires Valid() && e1.src != e1.dst && e2.src != e2.dst
      modifies this`pairs
      ensures Valid()
      ensures pairs == old(pairs) + if (e2, e1) in old(pairs) then {} else {(e1, e2)}
      ensures Unmirrored(old(pairs)) ==> Unmirrored(pairs)
    {
      if !((e1, e2) in pairs || (e2, e1) in pairs) {
        pairs := pairs + {(e1, e2)};
      }
    }

    method AddArc(src: nat, dst: nat, kind: EdgeType, bc: BcGraph, ghost seen: set<Edge>)
      requires ProperEdge(n, Edge(src, dst, kind))
      requires bc.Valid() && bc.n == 2 * n && bc.Arcs() == BcArcs(n, seen)
      modifies bc
      ensures bc.Valid() && bc.Arcs() == BcArcs(n, seen + {Edge(src, dst, kind)})
    {
      BcArcsGrow(n, seen, Edge(src, dst, kind));
      if kind.RW? {
        bc.AddEdge(Si(src), Ci(dst));
      } else {
        bc.AddEdge(Ci(src), Si(dst));
      }
    }

    method AddArcsFrom(src: nat, bc: BcGraph, ghost seen: set<Edge>)
      requires Valid() && src in edges
      requires bc.Valid() && bc.n == 2 * n && bc.Arcs() == BcArcs(n, seen)
      modifies bc
      ensures bc.Valid() && bc.Arcs() == BcArcs(n, seen + EdgesFrom(Stored(), {src}))
    {
      ghost var row := RowEdges(src, edges[src]);
      assert row == EdgesFrom(Stored(), {src}) && ProperEdges(n, row);
      var targets := edges[src];
      while targets != {}
        invariant targets <= edges[src]
        invariant bc.Valid() && bc.Arcs() == BcArcs(n, seen + RowEdges(src, edges[src] - targets))
      {
        var t :| t in targets;
        assert Edge(src, t.0, t.1) in row;
        RowGrows(src, edges[src], targets, t, seen);
        AddArc(src, t.0, t.1, bc, seen + RowEdges(src, edges[src] - targets));
        targets := targets - {t};
      }
      assert edges[src] - targets == edges[src];
    }

    /** The begin/commit graph of the stored edges; it is that of all inserted edges. */
    method ToBcGraph() returns (bc: BcGraph)
      requires Valid()
      ensures fresh(bc) && bc.Valid() && bc.n == 2 * n && bc.Arcs() == BcArcs(n, inserted)
    {
      bc := new BcGraph(2 * n);
      for i := 0 to n
        invariant fresh(bc) && bc.Valid() && bc.n == 2 * n && bc.Arcs() == BcArcs(i, {})
      {
        bc.AddEdge(Si(i), Ci(i));
      }
      var srcs := edges.Keys;
      while srcs != {}
        invariant srcs <= edges.Keys
        invariant fresh(bc) && bc.Valid() && bc.n == 2 * n
        invariant bc.Arcs() == BcArcs(n, EdgesFrom(Stored(), edges.Keys - srcs))
      {
        var src :| src in srcs;
        AddArcsFrom(src, bc, EdgesFrom(Stored(), edges.Keys - srcs));
        assert EdgesFrom(Stored(), edges.Keys - srcs) + EdgesFrom(Stored(), {src}) == EdgesFrom(Stored(), edges.Keys - (srcs - {src}));
        srcs := srcs - {src};
      }
      assert EdgesFrom(Stored(), edges.Keys - srcs) == Stored();
      SameOrdersSameArcs(n, Stored(), inserted);
    }

    method AddSession(session: seq<nat>, bc: BcGraph, ghost seen: set<Edge>)
      requires ProperSession(n, session)
      requires bc.Valid() && bc.n == 2 * n && bc.Arcs() == BcArcs(n, seen)
      modifies bc
      ensures bc.Valid() && bc.Arcs() == BcArcs(n, seen + SessionOrder(session))
    {
      assert seen + FirstOf(session, 0) == seen;
      if |session| > 1 {
        for i := 0 to |session| - 1
          invariant bc.Valid() && bc.Arcs() == BcArcs(n, seen + FirstOf(session, i))
        {
          assert ProperEdge(n, Next(session, i));
          FirstOfGrows(session, i, seen);
          AddArc(session[i], session[i + 1], CB, bc, seen + FirstOf(session, i));
        }
        assert FirstOf(session, |session| - 1) == SessionOrder(session);
      } else {
        assert FirstOf(session, 0) == SessionOrder(session);
      }
    }

    /** The begin/commit graph with, in addition, every transaction before its successor in the session. */
    method ToBcGraphWithSessions() returns (bc: BcGraph)
      requires Valid() && ProperSessions(n, sessions)
      ensures fresh(bc) && bc.Valid() && bc.n == 2 * n
      ensures bc.Arcs() == BcArcs(n, inserted + SessionEdges(sessions))
      ensures forall a :: a in bc.Arcs() <==> a in BcArcs(n, inserted) || IsSessionArc(sessions, a)
    {
      bc := ToBcGraph();
      ghost var now := inserted;
      for t := 0 to |sessions|
        invariant fresh(bc) && bc.Valid() && bc.n == 2 * n && bc.Arcs() == BcArcs(n, now)
        invariant now == inserted + SessionEdges(sessions[..t])
      {
        AddSession(sessions[t], bc, now);
        SessionsGrow(sessions, t);
        now := now + SessionOrder(sessions[t]);
      }
      assert sessions[..|sessions|] == sessions;
      AllSessionArcs(n, inserted, sessions);
    }

    /** Ranks the events by a topological sort of the known graph, with session order if that is
        consistent with it; rejects exactly when the known graph alone has a cycle. */
    method TopoSort() returns (rank: Option<map<nat, nat>>)
      requires Valid() && ProperSessions(n, sessions)
      ensures rank.None? <==> !Acyclic(BcArcs(n, inserted))
      ensures rank.Some? ==> Ranks(n, rank.value) && GoUp(BcArcs(n, inserted), rank.value)
      ensures rank.Some? && Acyclic(BcArcs(n, inserted + SessionEdges(sessions))) ==>
                GoUp(BcArcs(n, inserted + SessionEdges(sessions)), rank.value)
      ensures (exists s :: WellTimed(n, s) && HoldAll(s, inserted) && InSessionOrder(s, sessions)) ==>
                rank.Some? && RankedInSessionOrder(sessions, rank.value)
    {
      SessionOrderIsRanked(n, inserted, sessions);
      var bc := ToBcGraphWithSessions();
      BcArcsInclude(n, inserted, SessionEdges(sessions));
      FewerArcsStayAcyclic(BcArcs(n, inserted), bc.Arcs());
      var order := bc.Sort();
      if |order| != bc.n {
        bc := ToBcGraph();
        order := bc.Sort();
        if |order| != bc.n {
          return None;
        }
      }
      var ranks := RankNodes(n, bc, order);
      return Some(ranks);
    }
  }

  /** From the commit of a transaction to the begin of the next one of its session. */
  ghost predicate IsSessionArc(sessions: seq<seq<nat>>, a: Arc) {
    exists t: nat, i: nat :: t < |sessions| && i + 1 < |sessions[t]| && a == (Ci(sessions[t][i]), Si(sessions[t][i + 1]))
  }

  lemma SessionArcs(n: nat, es: set<Edge>, sessions: seq<seq<nat>>, a: Arc)
    ensures a in BcArcs(n, es + SessionEdges(sessions)) <==> a in BcArcs(n, es) || IsSessionArc(sessions, a)
  {
    if e :| e in SessionEdges(sessions) && a == BcArc(e) {
      SessionEdgesAreSteps(sessions, e);
      var t: nat, i: nat :| IsSessionStep(sessions, t, i, e);
      assert a == (Ci(sessions[t][i]), Si(sessions[t][i + 1]));
    }
    if t: nat, i: nat :| t < |sessions| && i + 1 < |sessions[t]| && a == (Ci(sessions[t][i]), Si(sessions[t][i + 1])) {
      var e := Edge(sessions[t][i], sessions[t][i + 1], CB);
      assert IsSessionStep(sessions, t, i, e);
      SessionEdgesAreSteps(sessions, e);
      assert BcArc(e) == a;
    }
  }

  lemma AllSessionArcs(n: nat, es: set<Edge>, sessions: seq<seq<nat>>)
    ensures forall a :: a in BcArcs(n, es + SessionEdges(sessions)) <==> a in BcArcs(n, es) || IsSessionArc(sessions, a)
  {
    forall a ensures a in BcArcs(n, es + SessionEdges(sessions)) <==> a in BcArcs(n, es) || IsSessionArc(sessions, a) {
      SessionArcs(n, es, sessions, a);
    }
  }

  /** Commits of earlier transactions of a session come before the begins of later ones. */
  ghost predicate RankedInSessionOrder(sessions: seq<seq<nat>>, rank: map<nat, nat>) {
    forall t: nat, a: nat, b: nat :: t < |sessions| && a < b < |sessions[t]| ==> RankedFirst(rank, sessions[t][a], sessions[t][b])
  }

  ghost predicate RankedFirst(rank: map<nat, nat>, i: nat, j: nat) {
    Ci(i) in rank && Si(j) in rank && rank[Ci(i)] < rank[Si(j)]
  }

  /** If the known edges and the sessions can be obeyed together, every ranking that sorts both ranks the sessions in order. */
  lemma SessionOrderIsRanked(n: nat, known: set<Edge>, sessions: seq<seq<nat>>)
    requires ProperEdges(n, known) && ProperSessions(n, sessions)
    ensures (exists s :: WellTimed(n, s) && HoldAll(s, known) && InSessionOrder(s, sessions)) ==>
              Acyclic(BcArcs(n, known + SessionEdges(sessions)))
    ensures forall rank :: Ranks(n, rank) && GoUp(BcArcs(n, known + SessionEdges(sessions)), rank) ==> RankedInSessionOrder(sessions, rank)
  {
    var all := known + SessionEdges(sessions);
    SessionsAreProper(n, sessions);
    if s :| WellTimed(n, s) && HoldAll(s, known) && InSessionOrder(s, sessions) {
      SessionEdgesMeanOrder(n, s, sessions);
      assert WellTimed(n, s) && HoldAll(s, all);
      BcAcyclicIffSchedulable(n, all);
    }
    forall rank | Ranks(n, rank) && GoUp(BcArcs(n, all), rank) ensures RankedInSessionOrder(sessions, rank) {
      forall t: nat, a: nat, b: nat | t < |sessions| && a < b < |sessions[t]| ensures RankedFirst(rank, sessions[t][a], sessions[t][b]) {
        SessionIsRanked(n, known, sessions, rank, t, a, b);
      }
    }
  }

  lemma SessionsAreProper(n: nat, sessions: seq<seq<nat>>)
    requires ProperSessions(n, sessions)
    ensures ProperEdges(n, SessionEdges(sessions))
  {
    forall e | e in SessionEdges(sessions) ensures ProperEdge(n, e) {
      var t: nat :| t < |sessions| && e in SessionOrder(sessions[t]);
      assert ProperSession(n, sessions[t]);
    }
  }

  lemma {:induction false} SessionIsRanked(n: nat, known: set<Edge>, sessions: seq<seq<nat>>, rank: map<nat, nat>, t: nat, a: nat, b: nat)
    requires ProperSessions(n, sessions) && GoUp(BcArcs(n, known + SessionEdges(sessions)), rank) && t < |sessions| && a < b < |sessions[t]|
    ensures RankedFirst(rank, sessions[t][a], sessions[t][b])
    decreases b
  {
    var arcs, session := BcArcs(n, known + SessionEdges(sessions)), sessions[t];
    var arc := (Ci(session[b - 1]), Si(session[b]));
    assert IsSessionArc(sessions, arc);
    SessionArcs(n, known, sessions, arc);
    if a < b - 1 {
      SessionIsRanked(n, known, sessions, rank, t, a, b - 1);
      assert ProperSession(n, session) && ProperEdge(n, Next(session, b - 1));
      assert (Si(session[b - 1]), Ci(session[b - 1])) in arcs;
    }
  }

  /** The position of every node in a sorted listing. */
  method RankNodes(n: nat, bc: BcGraph, order: seq<nat>) returns (ranks: map<nat, nat>)
    requires bc.Valid() && bc.n == 2 * n && |order| == 2 * n && Distinct(order) && Forward(bc.Arcs(), order)
    requires forall v: nat :: v in order <==> 1 <= v <= 2 * n
    ensures Ranks(n, ranks) && GoUp(bc.Arcs(), ranks)
  {
    ranks := map[];
    for i := 0 to |order|
      invariant forall v :: v in ranks <==> v in order[..i]
      invariant forall j :: 0 <= j < i ==> ranks[order[j]] == j
    {
      ranks := ranks[order[i] := i];
    }
    OrderRanks(n, bc.Arcs(), order, ranks);
  }

  lemma BcArcsInclude(n: nat, es: set<Edge>, fs: set<Edge>)
    ensures BcArcs(n, es) <= BcArcs(n, es + fs)
  {
  }

  /** A bijection from the 2n events to the ranks 0..2n-1. */
  ghost predicate Ranks(n: nat, rank: map<nat, nat>) {
    && (forall v :: v in rank <==> 1 <= v <= 2 * n)
    && (forall v :: v in rank ==> rank[v] < 2 * n)
    && (forall u, v :: u in rank && v in rank && rank[u] == rank[v] ==> u == v)
  }

  ghost predicate GoUp(arcs: set<Arc>, rank: map<nat, nat>) {
    forall a :: a in arcs ==> a.0 in rank && a.1 in rank && rank[a.0] < rank[a.1]
  }

  lemma OrderRanks(n: nat, arcs: set<Arc>, order: seq<nat>, rank: map<nat, nat>)
    requires |order| == 2 * n && Distinct(order) && Forward(arcs, order)
    requires forall v: nat :: v in order <==> 1 <= v <= 2 * n
    requires forall v :: v in rank <==> v in order
    requires forall j :: 0 <= j < |order| ==> rank[order[j]] == j
    requires forall a :: a in arcs ==> 1 <= a.0 <= 2 * n && 1 <= a.1 <= 2 * n
    ensures Ranks(n, rank) && GoUp(arcs, rank)
  {
    forall v | v in rank ensures rank[v] < 2 * n && order[rank[v]] == v {
      var j :| 0 <= j < |order| && order[j] == v;
    }
  }

  ghost function Fan(src: nat, dsts: set<nat>, kind: EdgeType): set<Edge> {
    set d | d in dsts :: Edge(src, d, kind)
  }

  lemma FanGrows(src: nat, all: set<nat>, left: set<nat>, d: nat, kind: EdgeType, seen: set<Edge>)
    requires d in left && left <= all
    ensures seen + Fan(src, all - left, kind) + {Edge(src, d, kind)} == seen + Fan(src, all - (left - {d}), kind)
  {
  }

  ghost function RowEdges(src: nat, targets: set<Target>): set<Edge> {
    set t | t in targets :: Edge(src, t.0, t.1)
  }

  /** The orders of the first m + 1 transactions of a session. */
  ghost function FirstOf(session: seq<nat>, m: nat): set<Edge>
    requires m == 0 || m < |session|
  {
    set i | 0 <= i < m :: Next(session, i)
  }

  lemma FirstOfGrows(session: seq<nat>, m: nat, seen: set<Edge>)
    requires m + 1 < |session|
    ensures seen + FirstOf(session, m) + {Next(session, m)} == seen + FirstOf(session, m + 1)
  {
  }

  lemma RowGrows(src: nat, all: set<Target>, left: set<Target>, t: Target, seen: set<Edge>)
    requires t in left && left <= all
    ensures seen + RowEdges(src, all - left) + {Edge(src, t.0, t.1)} == seen + RowEdges(src, all - (left - {t}))
  {
  }

  ghost function Product(srcs: set<nat>, dsts: set<nat>, kind: EdgeType): set<Edge> {
    set s, d | s in srcs && d in dsts :: Edge(s, d, kind)
  }

  ghost function EdgesFrom(es: set<Edge>, srcs: set<nat>): set<Edge> {
    set e | e in es && e.src in srcs
  }

  lemma BcArcsGrow(n: nat, es: set<Edge>, e: Edge)
    ensures BcArcs(n, es + {e}) == BcArcs(n, es) + {BcArc(e)}
  {
  }
}
