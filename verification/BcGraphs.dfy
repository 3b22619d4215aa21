/** Begin/commit graphs on the nodes 1..n as adjacency sets: topological sorting and two cycle searches. */
module BcGraphs {
  import opened Digraph

  ghost predicate WellFormed(n: nat, edges: map<nat, set<nat>>) {
    && (forall u: nat :: u in edges <==> 1 <= u <= n)
    && (forall u, v :: u in edges && v in edges[u] ==> 1 <= v <= n)
  }

  ghost function ArcsIn(edges: map<nat, set<nat>>): (arcs: set<Arc>)
    ensures forall u: nat, v: nat {:trigger (u, v) in arcs} :: (u, v) in arcs <==> u in edges && v in edges[u]
  {
    set u, v | u in edges && v in edges[u] :: (u, v)
  }

  /** The nodes of a set that have an arc to v. */
  ghost function Preds(edges: map<nat, set<nat>>, from: set<nat>, v: nat): set<nat> {
    set u | u in from && u in edges && v in edges[u]
  }

  function Nodes(n: nat): (s: set<nat>)
    ensures forall v: nat :: v in s <==> 1 <= v <= n
    ensures |s| == n
  {
    Below(n + 1) - {0}
  }

  lemma PredsShrink(edges: map<nat, set<nat>>, from: set<nat>, u: nat, v: nat)
    requires u in from && u in edges
    ensures |Preds(edges, from - {u}, v)| == |Preds(edges, from, v)| - if v in edges[u] then 1 else 0
  {
    if v in edges[u] {
      assert Preds(edges, from - {u}, v) == Preds(edges, from, v) - {u};
      assert u in Preds(edges, from, v);
    } else {
      assert Preds(edges, from - {u}, v) == Preds(edges, from, v);
    }
  }

  lemma PredsGrow(edges: map<nat, set<nat>>, from: set<nat>, u: nat, v: nat)
    requires u !in from && u in edges
    ensures |Preds(edges, from + {u}, v)| == |Preds(edges, from, v)| + if v in edges[u] then 1 else 0
  {
    assert from + {u} - {u} == from;
    PredsShrink(edges, from + {u}, u, v);
  }

  /** Where Kahn's loop stands: `left` are the nodes not yet listed. */
  ghost predicate KahnState(n: nat, edges: map<nat, set<nat>>, left: set<nat>, queue: seq<nat>, order: seq<nat>) {
    && (forall v: nat :: 1 <= v <= n <==> v in left || v in order)
    && (forall v :: v in order ==> v !in left)
    && (forall v :: v in left ==> (v in queue <==> Preds(edges, left, v) == {}))
    && (forall v :: v in queue ==> v in left)
    && Distinct(queue) && Distinct(order) && Forward(ArcsIn(edges), order)
    && (forall u, v :: u in left && v in order ==> (u, v) !in ArcsIn(edges))
  }

  ghost predicate CountsPreds(n: nat, edges: map<nat, set<nat>>, left: set<nat>, degrees: map<nat, int>) {
    forall v: nat :: 1 <= v <= n ==> v in degrees && degrees[v] == |Preds(edges, left, v)|
  }

  /** While one listed node's successors are being visited, those still to visit count one too many. */
  ghost predicate KahnInner(n: nat, edges: map<nat, set<nat>>, left: set<nat>, todo: set<nat>, queue: seq<nat>, degrees: map<nat, int>) {
    && (forall v: nat :: 1 <= v <= n ==> v in degrees && degrees[v] == |Preds(edges, left, v)| + if v in todo then 1 else 0)
    && (forall v :: v in left ==> (v in queue <==> v !in todo && Preds(edges, left, v) == {}))
    && (forall v :: v in queue ==> v in left)
    && Distinct(queue)
  }

  lemma KahnStart(n: nat, edges: map<nat, set<nat>>, left: set<nat>, u: nat, queue: seq<nat>, order: seq<nat>, degrees: map<nat, int>)
    requires WellFormed(n, edges) && queue != [] && u == queue[0] && u in edges
    requires KahnState(n, edges, left, queue, order) && CountsPreds(n, edges, left, degrees)
    ensures edges[u] <= left - {u}
    ensures KahnInner(n, edges, left - {u}, edges[u], queue[1..], degrees)
    ensures Distinct(order + [u]) && Forward(ArcsIn(edges), order + [u])
  {
    assert Preds(edges, left, u) == {};
    forall v | v in edges[u] ensures v in left - {u} {
      assert (u, v) in ArcsIn(edges);
      assert v == u ==> u in Preds(edges, left, u);
    }
    forall v | 1 <= v <= n ensures |Preds(edges, left - {u}, v)| == |Preds(edges, left, v)| - if v in edges[u] then 1 else 0 {
      PredsShrink(edges, left, u, v);
    }
    forall v | v in left - {u} ensures v in queue[1..] <==> v !in edges[u] && Preds(edges, left - {u}, v) == {} {
      assert v in queue[1..] <==> v in queue;
      if v in edges[u] {
        assert u in Preds(edges, left, v);
      } else {
        assert Preds(edges, left - {u}, v) == Preds(edges, left, v);
      }
    }
    assert u !in edges[u];
  }

  lemma KahnNext(n: nat, edges: map<nat, set<nat>>, left: set<nat>, u: nat, queue: seq<nat>, order: seq<nat>)
    requires u in left && Distinct(order + [u]) && Forward(ArcsIn(edges), order + [u])
    requires Preds(edges, left, u) == {}
    requires forall v: nat :: 1 <= v <= n <==> v in left || v in order
    requires forall v :: v in order ==> v !in left
    requires forall w, v :: w in left && v in order ==> (w, v) !in ArcsIn(edges)
    requires forall v :: v in left - {u} ==> (v in queue <==> Preds(edges, left - {u}, v) == {})
    requires forall v :: v in queue ==> v in left - {u}
    requires Distinct(queue)
    ensures KahnState(n, edges, left - {u}, queue, order + [u])
  {
    assert forall v :: v in order + [u] <==> v in order || v == u;
    forall w | w in left ensures (w, u) !in ArcsIn(edges) {
      assert w !in Preds(edges, left, u);
    }
  }

  lemma KahnStuck(n: nat, edges: map<nat, set<nat>>, left: set<nat>, order: seq<nat>)
    requires WellFormed(n, edges) && KahnState(n, edges, left, [], order)
    ensures Acyclic(ArcsIn(edges)) <==> |order| == n
    ensures |order| == n ==> left == {}
  {
    var listed := Elements(order);
    SizeOfElements(order);
    assert listed !! left && listed + left == Nodes(n);
    assert |listed + left| == |listed| + |left|;
    assert |order| == n <==> left == {};
    if Acyclic(ArcsIn(edges)) && left != {} {
      var v := SourceExists(ArcsIn(edges), left);
      assert false;
    }
    if |order| == n {
      assert left == {};
      ForwardIsAcyclic(ArcsIn(edges), order);
    }
  }

  ghost function Elements(s: seq<nat>): set<nat> {
    set v | v in s
  }

  lemma {:induction false} SizeOfElements(s: seq<nat>)
    requires Distinct(s)
    ensures |Elements(s)| == |s|
  {
    if s != [] {
      SizeOfElements(s[1..]);
      assert s[0] !in Elements(s[1..]);
      assert Elements(s) == Elements(s[1..]) + {s[0]};
    }
  }

  class BcGraph {
    const n: nat
    var edges: map<nat, set<nat>>

    constructor (n: nat)
      ensures Valid() && this.n == n && Arcs() == {}
    {
      this.n := n;
      edges := map u | u in Nodes(n) :: {};
    }

    ghost predicate Valid()
      reads this
    {
      WellFormed(n, edges)
    }

    ghost function Arcs(): set<Arc>
      reads this
    {
      ArcsIn(edges)
    }

    method AddEdge(src: nat, dst: nat)
      requires Valid() && 1 <= src <= n && 1 <= dst <= n && src != dst
      modifies this
      ensures Valid() && Arcs() == old(Arcs()) + {(src, dst)}
    {
      edges := edges[src := edges[src] + {dst}];
      assert forall a :: a in Arcs() <==> a in old(Arcs()) || a == (src, dst);
    }

    /** Counts one more incoming arc for every successor of a node. */
    method CountArcsFrom(src: nat, ghost seen: set<nat>, before: map<nat, int>) returns (degrees: map<nat, int>)
      requires Valid() && src in edges && src !in seen
      requires CountsPreds(n, edges, seen, before)
      ensures CountsPreds(n, edges, seen + {src}, degrees)
    {
      degrees := before;
      var dsts := edges[src];
      while dsts != {}
        invariant dsts <= edges[src]
        invariant forall v: nat :: 1 <= v <= n ==> v in degrees
        invariant forall v: nat :: 1 <= v <= n ==> degrees[v] == |Preds(edges, seen, v)| + if v in edges[src] - dsts then 1 else 0
      {
        var dst :| dst in dsts;
        degrees := degrees[dst := degrees[dst] + 1];
        dsts := dsts - {dst};
      }
      forall v: nat | 1 <= v <= n ensures |Preds(edges, seen + {src}, v)| == |Preds(edges, seen, v)| + if v in edges[src] then 1 else 0 {
        PredsGrow(edges, seen, src, v);
      }
    }

    method InDegrees() returns (degrees: map<nat, int>)
      requires Valid()
      ensures CountsPreds(n, edges, Nodes(n), degrees)
    {
      degrees := map u | u in Nodes(n) :: 0;
      var srcs := Nodes(n);
      ghost var seen: set<nat> := {};
      while srcs != {}
        invariant srcs <= Nodes(n) && seen == Nodes(n) - srcs
        invariant CountsPreds(n, edges, seen, degrees)
      {
        var src :| src in srcs;
        degrees := CountArcsFrom(src, seen, degrees);
        srcs := srcs - {src};
        seen := seen + {src};
      }
      assert seen == Nodes(n);
    }

    method Sources(degrees: map<nat, int>) returns (queue: seq<nat>)
      requires Valid() && CountsPreds(n, edges, Nodes(n), degrees)
      ensures KahnState(n, edges, Nodes(n), queue, [])
    {
      queue := [];
      for u := 1 to n + 1
        invariant forall v: nat :: v in queue <==> 1 <= v < u && Preds(edges, Nodes(n), v) == {}
        invariant Distinct(queue)
      {
        if degrees[u] == 0 {
          queue := queue + [u];
        }
      }
    }

    /** Takes a listed node's outgoing arcs out of the counts; nodes left without incoming arcs join the queue. */
    method Release(u: nat, ghost left: set<nat>, waiting: seq<nat>, before: map<nat, int>)
        returns (queue: seq<nat>, degrees: map<nat, int>)
      requires Valid() && u in edges && edges[u] <= left <= Nodes(n)
      requires KahnInner(n, edges, left, edges[u], waiting, before)
      ensures KahnInner(n, edges, left, {}, queue, degrees)
    {
      queue, degrees := waiting, before;
      var todo := edges[u];
      while todo != {}
        invariant todo <= edges[u]
        invariant KahnInner(n, edges, left, todo, queue, degrees)
      {
        var v :| v in todo;
        todo := todo - {v};
        degrees := degrees[v := degrees[v] - 1];
        if degrees[v] == 0 {
          queue := queue + [v];
        }
      }
    }

    /** Kahn's sort: repeatedly lists a node without incoming arcs from unlisted nodes. It lists
        every node exactly when the graph has no cycle. */
    method Sort() returns (order: seq<nat>)
      requires Valid()
      ensures Distinct(order) && Forward(Arcs(), order)
      ensures forall v: nat :: v in order ==> 1 <= v <= n
      ensures |order| == n <==> Acyclic(Arcs())
      ensures |order| == n ==> forall v: nat :: 1 <= v <= n ==> v in order
    {
      var degrees: map<nat, int> := InDegrees();
      var queue := Sources(degrees);
      order := [];
      ghost var left := Nodes(n);
      while queue != []
        invariant KahnState(n, edges, left, queue, order)
        invariant CountsPreds(n, edges, left, degrees)
        invariant left <= Nodes(n)
        decreases |left|
      {
        var u := queue[0];
        assert u in queue;
        KahnStart(n, edges, left, u, queue, order, degrees);
        queue, degrees := Release(u, left - {u}, queue[1..], degrees);
        KahnNext(n, edges, left, u, queue, order);
        order := order + [u];
        left := left - {u};
      }
      KahnStuck(n, edges, left, order);
    }

    /** Three-colour search from every white node answers whether the graph has a cycle. */
    method DetectCycleColour() returns (cyclic: bool)
      requires Valid()
      ensures cyclic <==> !Acyclic(Arcs())
    {
      var color := new nat[n + 1](_ => 0);
      ghost var done := [];
      for u := 1 to n + 1
        invariant ColourState(n, edges, color[..], [], done)
        invariant forall v :: 1 <= v < u ==> color[v] == 2
      {
        if color[u] == 0 {
          ghost var before := color[..];
          var found;
          found, done := SearchColoured(u, color, [], done);
          if found {
            return true;
          }
          assert forall v :: 1 <= v < u ==> before[v] == 2;
        }
      }
      FinishedIsAcyclic(n, edges, color[..], done);
      return false;
    }

    // ----- path-enumerating search

    method IndexOf(path: seq<nat>, u: nat) returns (pos: nat)
      requires u in path
      ensures pos < |path| && path[pos] == u && u !in path[..pos]
    {
      pos := 0;
      while path[pos] != u
        invariant pos < |path| && u in path[pos..] && u !in path[..pos]
        decreases |path| - pos
      {
        pos := pos + 1;
      }
    }

    /** Follows every walk from u, recording a cycle whenever the walk returns to the current path. */
    method SearchPaths(u: nat, visited: array<bool>, path: seq<nat>, cycles: set<seq<nat>>) returns (found: set<seq<nat>>)
      requires Valid() && PathState(n, edges, visited[..], path, u) && AllCycles(Arcs(), cycles)
      modifies visited
      ensures visited[..] == old(visited[..])
      ensures cycles <= found && AllCycles(Arcs(), found)
      ensures found != {} ==> cycles != {} || Revisits(Arcs(), (path + [u])[0])
      ensures found == {} ==> Clean(Arcs(), path, u)
      decreases n + 1 - |path|
    {
      PathIsShort(n, edges, visited[..], path, u);
      found := cycles;
      if visited[u] {
        var pos := IndexOf(path, u);
        RepeatOnPath(Arcs(), path, u, pos);
        found := found + {path[pos..]};
        return;
      }
      ghost var before := visited[..];
      visited[u] := true;
      assert visited[..] == before[u := true];
      var todo := edges[u];
      while todo != {}
        invariant todo <= edges[u] && visited[..] == before[u := true]
        invariant cycles <= found && AllCycles(Arcs(), found)
        invariant found != {} ==> cycles != {} || Revisits(Arcs(), (path + [u])[0])
        invariant found == {} ==> forall v :: v in edges[u] - todo ==> Clean(Arcs(), path + [u], v)
      {
        var v :| v in todo;
        todo := todo - {v};
        ExtendPath(n, edges, before, path, u, v);
        assert (path + [u] + [v])[0] == (path + [u])[0];
        found := SearchPaths(v, visited, path + [u], found);
      }
      visited[u] := false;
      assert visited[..] == before;
      if found == {} {
        CleanFromSuccessors(edges, path, u);
      }
    }

    /** Path enumeration from node 1 answers whether node 1 leads to a cycle. */
    method DetectCycleByPaths() returns (cyclic: bool)
      requires Valid() && n >= 1
      ensures cyclic <==> Revisits(Arcs(), 1)
    {
      var visited := new bool[n + 1](_ => false);
      var cycles := SearchPaths(1, visited, [], {});
      assert ([] + [1])[0] == 1;
      if cycles == {} {
        forall w | IsWalk(Arcs(), w) && w[0] == 1 ensures Distinct(w) {
          assert [] + w == w;
        }
      }
      return cycles != {};
    }

    // ----- three-colour search: 0 white, 1 grey, 2 black

    /** Searches from a white node; `path` are the grey nodes in calling order, `done` the black ones in finishing order. */
    method SearchColoured(u: nat, color: array<nat>, ghost path: seq<nat>, ghost done: seq<nat>)
        returns (found: bool, ghost finished: seq<nat>)
      requires Valid() && color.Length == n + 1 && 1 <= u <= n && color[u] == 0
      requires ColourState(n, edges, color[..], path, done)
      requires path != [] ==> (path[|path| - 1], u) in Arcs()
      modifies color
      ensures found ==> !Acyclic(Arcs())
      ensures !found ==> ColourState(n, edges, color[..], path, finished)
      ensures !found ==> color[u] == 2 && StayBlack(old(color[..]), color[..]) && Whites(color[..]) <= Whites(old(color[..]))
      decreases Whites(color[..])
    {
      ghost var before := color[..];
      color[u] := 1;
      assert color[..] == before[u := 1];
      ghost var trail := path + [u];
      finished := done;
      EnterNode(n, edges, before, path, done, u);
      var todo := edges[u];
      while todo != {}
        invariant todo <= edges[u]
        invariant ColourState(n, edges, color[..], trail, finished)
        invariant StayBlack(before, color[..])
        invariant forall v :: v in edges[u] - todo ==> color[v] == 2
        invariant Whites(color[..]) < Whites(before)
      {
        var v :| v in todo;
        todo := todo - {v};
        if color[v] == 1 {
          GreyClosesCycle(n, edges, color[..], trail, finished, v);
          return true, finished;
        }
        if color[v] == 0 {
          ghost var grey := color[..];
          found, finished := SearchColoured(v, color, trail, finished);
          if found {
            return true, finished;
          }
          assert forall w :: w in edges[u] - todo && w != v ==> grey[w] == 2;
        }
      }
      ghost var grey := color[..];
      LeaveNode(n, edges, grey, path, finished, u);
      color[u] := 2;
      assert color[..] == grey[u := 2];
      finished := finished + [u];
      return false, finished;
    }
  }

  /** Some walk from u visits a node twice, that is, u leads to a cycle. */
  ghost predicate Revisits(arcs: set<Arc>, u: nat) {
    exists w: seq<nat> :: IsWalk(arcs, w) && w[0] == u && !Distinct(w)
  }

  /** No walk from u meets the path or itself. */
  ghost predicate Clean(arcs: set<Arc>, path: seq<nat>, u: nat) {
    forall w: seq<nat> :: IsWalk(arcs, w) && w[0] == u ==> Distinct(path + w)
  }

  ghost predicate AllCycles(arcs: set<Arc>, cycles: set<seq<nat>>) {
    forall c :: c in cycles ==> c != [] && IsCycle(arcs, c + [c[0]])
  }

  ghost predicate PathState(n: nat, edges: map<nat, set<nat>>, visited: seq<bool>, path: seq<nat>, u: nat) {
    && |visited| == n + 1 && 1 <= u <= n
    && (forall v :: 0 <= v <= n ==> (visited[v] <==> v in path))
    && Distinct(path) && (forall v :: v in path ==> 1 <= v <= n)
    && IsWalk(ArcsIn(edges), path + [u])
  }

  lemma PathIsShort(n: nat, edges: map<nat, set<nat>>, visited: seq<bool>, path: seq<nat>, u: nat)
    requires PathState(n, edges, visited, path, u)
    ensures |path| <= n
  {
    assert forall i :: 0 <= i < |path| ==> path[i] in path;
    SizeOfDistinct(path, Nodes(n));
  }

  lemma ExtendPath(n: nat, edges: map<nat, set<nat>>, visited: seq<bool>, path: seq<nat>, u: nat, v: nat)
    requires WellFormed(n, edges) && PathState(n, edges, visited, path, u) && !visited[u] && (u, v) in ArcsIn(edges)
    ensures PathState(n, edges, visited[u := true], path + [u], v)
  {
    var p := path + [u] + [v];
    assert forall x :: x in path + [u] <==> x in path || x == u;
    assert forall i :: 0 <= i < |path| ==> p[i] == (path + [u])[i];
    assert p[|path|] == u;
    forall i | 0 <= i < |p| - 1 ensures (p[i], p[i + 1]) in ArcsIn(edges) {
      if i < |path| {
        assert ((path + [u])[i], (path + [u])[i + 1]) in ArcsIn(edges);
      }
    }
  }

  lemma RepeatOnPath(arcs: set<Arc>, path: seq<nat>, u: nat, pos: nat)
    requires IsWalk(arcs, path + [u]) && pos < |path| && path[pos] == u
    ensures IsCycle(arcs, path[pos..] + [u]) && !Distinct(path + [u])
  {
    var p := path + [u];
    RepeatGivesCycle(arcs, p, pos, |path|);
    assert p[pos..|path| + 1] == path[pos..] + [u];
    assert p[pos] == p[|path|];
  }

  lemma CleanFromSuccessors(edges: map<nat, set<nat>>, path: seq<nat>, u: nat)
    requires u in edges && Distinct(path + [u])
    requires forall v :: v in edges[u] ==> Clean(ArcsIn(edges), path + [u], v)
    ensures Clean(ArcsIn(edges), path, u)
  {
    forall w | IsWalk(ArcsIn(edges), w) && w[0] == u ensures Distinct(path + w) {
      if |w| == 1 {
        assert w == [u];
      } else {
        var rest := w[1..];
        assert (w[0], w[1]) in ArcsIn(edges);
        forall i | 0 <= i < |rest| - 1 ensures (rest[i], rest[i + 1]) in ArcsIn(edges) {
          assert (w[i + 1], w[i + 2]) in ArcsIn(edges);
        }
        assert Distinct(path + [u] + rest);
        assert path + [u] + rest == path + w;
      }
    }
  }

  /** When node 1 reaches every node, searching from it alone finds a cycle if there is one. */
  lemma RevisitsIffCyclic(arcs: set<Arc>, u: nat)
    requires forall a :: a in arcs ==> Reaches(arcs, u, a.0)
    ensures Revisits(arcs, u) <==> !Acyclic(arcs)
  {
    if w: seq<nat> :| IsWalk(arcs, w) && w[0] == u && !Distinct(w) {
      var i, j :| 0 <= i < j < |w| && w[i] == w[j];
      RepeatGivesCycle(arcs, w, i, j);
    }
    if p: seq<nat> :| IsCycle(arcs, p) {
      assert (p[0], p[1]) in arcs;
      var q: seq<nat> :| IsWalk(arcs, q) && q[0] == u && q[|q| - 1] == p[0];
      var w := q + p[1..];
      forall i | 0 <= i < |w| - 1 ensures (w[i], w[i + 1]) in arcs {
        if i < |q| - 1 {
          assert (q[i], q[i + 1]) in arcs;
        } else {
          var m := i - (|q| - 1);
          assert w[i] == p[m] && w[i + 1] == p[m + 1];
          assert (p[m], p[m + 1]) in arcs;
        }
      }
      assert w[|q| - 1] == w[|w| - 1] == p[0];
      assert IsWalk(arcs, w) && w[0] == u && !Distinct(w);
    }
  }

  ghost predicate Reaches(arcs: set<Arc>, u: nat, v: nat) {
    exists w: seq<nat> :: IsWalk(arcs, w) && w[0] == u && w[|w| - 1] == v
  }

  ghost function Whites(color: seq<nat>): set<nat> {
    set v | 0 <= v < |color| && color[v] == 0
  }

  ghost predicate StayBlack(before: seq<nat>, after: seq<nat>) {
    |before| == |after| && forall v :: 0 <= v < |before| && before[v] == 2 ==> after[v] == 2
  }

  /** Grey nodes form the current path; black nodes are listed so that arcs lead to earlier ones only. */
  ghost predicate ColourState(n: nat, edges: map<nat, set<nat>>, color: seq<nat>, path: seq<nat>, done: seq<nat>) {
    && |color| == n + 1
    && (forall v :: 0 <= v <= n ==> color[v] <= 2)
    && (forall v :: 0 <= v <= n ==> (color[v] == 1 <==> v in path))
    && (forall v :: 0 <= v <= n ==> (color[v] == 2 <==> v in done))
    && (path != [] ==> IsWalk(ArcsIn(edges), path))
    && Distinct(path) && Distinct(done)
    && (forall v :: v in path || v in done ==> 1 <= v <= n)
    && (forall i, v :: 0 <= i < |done| && (done[i], v) in ArcsIn(edges) ==> v in done[..i])
  }

  lemma EnterNode(n: nat, edges: map<nat, set<nat>>, color: seq<nat>, path: seq<nat>, done: seq<nat>, u: nat)
    requires ColourState(n, edges, color, path, done) && 1 <= u <= n && color[u] == 0
    requires path != [] ==> (path[|path| - 1], u) in ArcsIn(edges)
    ensures ColourState(n, edges, color[u := 1], path + [u], done)
    ensures StayBlack(color, color[u := 1]) && Whites(color[u := 1]) < Whites(color)
  {
    assert u in Whites(color) && u !in Whites(color[u := 1]);
    assert forall v :: v in path + [u] <==> v in path || v == u;
  }

  lemma LeaveNode(n: nat, edges: map<nat, set<nat>>, color: seq<nat>, path: seq<nat>, done: seq<nat>, u: nat)
    requires ColourState(n, edges, color, path + [u], done) && u in edges
    requires forall v :: v in edges[u] ==> 0 <= v <= n && color[v] == 2
    ensures 1 <= u <= n && ColourState(n, edges, color[u := 2], path, done + [u])
  {
    var now := done + [u];
    assert u in path + [u] && forall v :: v in path + [u] <==> v in path || v == u;
    assert forall v :: v in now <==> v in done || v == u;
    assert (path + [u])[..|path|] == path;
    forall i, v | 0 <= i < |now| && (now[i], v) in ArcsIn(edges) ensures v in now[..i] {
      if i < |done| {
        assert now[..i] == done[..i];
      } else {
        assert now[..i] == done;
      }
    }
  }

  lemma GreyClosesCycle(n: nat, edges: map<nat, set<nat>>, color: seq<nat>, path: seq<nat>, done: seq<nat>, v: nat)
    requires ColourState(n, edges, color, path, done) && path != []
    requires v <= n && color[v] == 1 && (path[|path| - 1], v) in ArcsIn(edges)
    ensures !Acyclic(ArcsIn(edges))
  {
    var i :| 0 <= i < |path| && path[i] == v;
    var p := path[i..] + [v];
    assert IsCycle(ArcsIn(edges), p);
  }

  lemma FinishedIsAcyclic(n: nat, edges: map<nat, set<nat>>, color: seq<nat>, done: seq<nat>)
    requires WellFormed(n, edges) && ColourState(n, edges, color, [], done)
    requires forall v :: 1 <= v <= n ==> color[v] == 2
    ensures Acyclic(ArcsIn(edges))
  {
    var m := |done|;
    var order := seq(m, i requires 0 <= i < m => done[m - 1 - i]);
    forall v | v in done ensures v in order {
      var i :| 0 <= i < m && done[i] == v;
      assert order[m - 1 - i] == v;
    }
    forall i, j | 0 <= i <= j < m ensures (order[j], order[i]) !in ArcsIn(edges) {
      assert order[j] == done[m - 1 - j] && order[i] == done[m - 1 - i];
    }
    ForwardIsAcyclic(ArcsIn(edges), order);
  }
}
