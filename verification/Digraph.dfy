/** Finite directed graphs as sets of arcs: walks, cycles, and the equivalence
    between having no cycle and having a ranking under which every arc goes up. */
module Digraph {
  type Arc = (nat, nat)

  ghost predicate IsWalk(arcs: set<Arc>, p: seq<nat>) {
    |p| >= 1 && forall i :: 0 <= i < |p| - 1 ==> (p[i], p[i + 1]) in arcs
  }

  ghost predicate IsCycle(arcs: set<Arc>, p: seq<nat>) {
    |p| >= 2 && IsWalk(arcs, p) && p[0] == p[|p| - 1]
  }

  ghost predicate Acyclic(arcs: set<Arc>) {
    forall p :: !IsCycle(arcs, p)
  }

  ghost predicate Distinct<T>(s: seq<T>) {
    forall i, j :: 0 <= i < j < |s| ==> s[i] != s[j]
  }

  /** Every arc joins two ranked nodes and goes up. */
  ghost predicate Respects(arcs: set<Arc>, rank: seq<nat>) {
    forall a :: a in arcs ==> a.0 < |rank| && a.1 < |rank| && rank[a.0] < rank[a.1]
  }

  ghost predicate Within(arcs: set<Arc>, n: nat) {
    forall a :: a in arcs ==> a.0 < n && a.1 < n
  }

  /** A listing of nodes in which no arc points backwards or to itself. */
  ghost predicate Forward(arcs: set<Arc>, order: seq<nat>) {
    forall i, j :: 0 <= i <= j < |order| ==> (order[j], order[i]) !in arcs
  }

  ghost predicate HasPredecessor(arcs: set<Arc>, nodes: set<nat>, v: nat) {
    exists u :: u in nodes && (u, v) in arcs
  }

  function Below(n: nat): (s: set<nat>)
    ensures forall v: nat :: v in s <==> v < n
    ensures |s| == n
  {
    if n == 0 then {} else Below(n - 1) + {n - 1}
  }

  lemma {:induction false} WalkClimbs(arcs: set<Arc>, rank: seq<nat>, p: seq<nat>)
    requires Respects(arcs, rank) && IsWalk(arcs, p) && |p| >= 2
    ensures p[0] < |rank| && p[|p| - 1] < |rank| && rank[p[0]] < rank[p[|p| - 1]]
  {
    var m := |p| - 1;
    assert (p[m - 1], p[m]) in arcs;
    if |p| > 2 {
      WalkClimbs(arcs, rank, p[..m]);
    }
  }

  lemma RankedIsAcyclic(arcs: set<Arc>, rank: seq<nat>)
    requires Respects(arcs, rank)
    ensures Acyclic(arcs)
  {
    forall p | IsCycle(arcs, p) ensures false {
      WalkClimbs(arcs, rank, p);
    }
  }

  lemma FewerArcsStayAcyclic(a: set<Arc>, b: set<Arc>)
    requires a <= b
    ensures Acyclic(b) ==> Acyclic(a)
  {
    forall p: seq<nat> ensures IsCycle(a, p) ==> IsCycle(b, p) {
    }
  }

  lemma {:induction false} SizeOfDistinct<T>(s: seq<T>, t: set<T>)
    requires Distinct(s) && forall i :: 0 <= i < |s| ==> s[i] in t
    ensures |s| <= |t|
  {
    if |s| > 0 {
      SizeOfDistinct(s[1..], t - {s[0]});
    }
  }

  /** If every node of a non-empty set has a predecessor in that set, backward walks of any length exist. */
  lemma {:induction false} BackwardWalk(arcs: set<Arc>, nodes: set<nat>, len: nat) returns (p: seq<nat>)
    requires nodes != {} && len >= 1
    requires forall v :: v in nodes ==> HasPredecessor(arcs, nodes, v)
    ensures |p| == len && IsWalk(arcs, p) && forall i :: 0 <= i < |p| ==> p[i] in nodes
  {
    if len == 1 {
      var v :| v in nodes;
      p := [v];
    } else {
      var q := BackwardWalk(arcs, nodes, len - 1);
      var u :| u in nodes && (u, q[0]) in arcs;
      p := [u] + q;
    }
  }

  lemma RepeatGivesCycle(arcs: set<Arc>, p: seq<nat>, i: nat, j: nat)
    requires IsWalk(arcs, p) && i < j < |p| && p[i] == p[j]
    ensures IsCycle(arcs, p[i..j + 1])
  {
    var q := p[i..j + 1];
    forall m | 0 <= m < |q| - 1 ensures (q[m], q[m + 1]) in arcs {
      assert (p[i + m], p[i + m + 1]) in arcs;
    }
  }

  lemma SourceExists(arcs: set<Arc>, nodes: set<nat>) returns (v: nat)
    requires Acyclic(arcs) && nodes != {}
    ensures v in nodes && !HasPredecessor(arcs, nodes, v)
  {
    if forall v :: v in nodes ==> HasPredecessor(arcs, nodes, v) {
      var p := BackwardWalk(arcs, nodes, |nodes| + 1);
      if Distinct(p) {
        SizeOfDistinct(p, nodes);
      } else {
        var i, j :| 0 <= i < j < |p| && p[i] == p[j];
        RepeatGivesCycle(arcs, p, i, j);
      }
    }
    v :| v in nodes && !HasPredecessor(arcs, nodes, v);
  }

  lemma {:induction false} TopologicalOrder(arcs: set<Arc>, nodes: set<nat>) returns (order: seq<nat>)
    requires Acyclic(arcs)
    ensures Distinct(order) && Forward(arcs, order)
    ensures forall v :: v in nodes <==> v in order
    decreases |nodes|
  {
    if nodes == {} {
      order := [];
    } else {
      var v := SourceExists(arcs, nodes);
      var rest := TopologicalOrder(arcs, nodes - {v});
      order := [v] + rest;
      assert forall i :: 0 < i < |order| ==> order[i] == rest[i - 1] && order[i] in rest;
      assert forall u :: u in order <==> u == v || u in rest;
    }
  }

  ghost function IndexIn(order: seq<nat>, v: nat): (i: nat)
    requires v in order
    ensures i < |order| && order[i] == v
  {
    var i :| 0 <= i < |order| && order[i] == v;
    i
  }

  /** The positions of the nodes 0..n in a forward listing rank the graph injectively. */
  lemma RankOfOrder(arcs: set<Arc>, n: nat, order: seq<nat>) returns (rank: seq<nat>)
    requires Within(arcs, n) && Distinct(order) && Forward(arcs, order)
    requires forall v: nat :: v < n ==> v in order
    ensures |rank| == n && Respects(arcs, rank) && Distinct(rank)
  {
    rank := seq(n, v requires 0 <= v < n => IndexIn(order, v));
    forall a | a in arcs ensures rank[a.0] < rank[a.1] {
      var i, j := rank[a.0], rank[a.1];
      assert order[i] == a.0 && order[j] == a.1;
    }
    forall i, j | 0 <= i < j < n ensures rank[i] != rank[j] {
      assert order[rank[i]] == i && order[rank[j]] == j;
    }
  }

  /** A graph all of whose nodes can be listed forwards has no cycle. */
  lemma ForwardIsAcyclic(arcs: set<Arc>, order: seq<nat>)
    requires Forward(arcs, order)
    requires forall a :: a in arcs ==> a.0 in order && a.1 in order
    ensures Acyclic(arcs)
  {
    var bound := BoundOf(order);
    var rank := seq(bound, v requires 0 <= v < bound => if v in order then IndexIn(order, v) else 0);
    forall a | a in arcs ensures a.0 < bound && a.1 < bound && rank[a.0] < rank[a.1] {
      assert order[rank[a.0]] == a.0 && order[rank[a.1]] == a.1;
    }
    RankedIsAcyclic(arcs, rank);
  }

  ghost function BoundOf(order: seq<nat>): (b: nat)
    ensures forall v :: v in order ==> v < b
  {
    if order == [] then 0
    else
      var b := BoundOf(order[1..]);
      assert forall v :: v in order ==> v == order[0] || v in order[1..];
      if order[0] < b then b else order[0] + 1
  }

  /** A finite graph has no cycle exactly when some injective ranking sends every arc upwards. */
  lemma AcyclicIffRanked(arcs: set<Arc>, n: nat)
    requires Within(arcs, n)
    ensures Acyclic(arcs) <==> exists rank: seq<nat> :: |rank| == n && Respects(arcs, rank) && Distinct(rank)
  {
    if Acyclic(arcs) {
      var order := TopologicalOrder(arcs, Below(n));
      var rank := RankOfOrder(arcs, n, order);
    } else {
      forall rank: seq<nat> ensures !Respects(arcs, rank) {
        if Respects(arcs, rank) {
          RankedIsAcyclic(arcs, rank);
        }
      }
    }
  }
}
