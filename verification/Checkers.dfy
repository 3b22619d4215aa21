/** The two checkers over the acyclicity solver: what they hand to it, and that its
    answer is whether some one-side-each choice is acyclic. */
module Checkers {
  import opened Digraph
  import opened Events
  import opened Solver
  import opened PolyGraphs
  import opened Transactions
  import opened Sets
  import opened Encodings

  /** A formula under construction: its variables, their owners, and the constraints encoded so far. */
  ghost predicate Encoding(f: Formula, owner: seq<Owner>, known: set<Arc>, cs: seq<Constraint>) {
    Owned(f, owner) && XorsEncode(f, cs) && StandFor(f, f.units, known)
  }

  function WithArc(f: Formula, a: Arc): Formula {
    f.(arcs := f.arcs + [a])
  }

  function AssertedArc(f: Formula, a: Arc): Formula {
    WithArc(f, a).(units := f.units + {|f.arcs|})
  }

  lemma AssertArc(f: Formula, owner: seq<Owner>, known: set<Arc>, cs: seq<Constraint>, a: Arc)
    requires Encoding(f, owner, known, cs)
    ensures Encoding(AssertedArc(f, a), owner + [Unit], known + {a}, cs)
  {
    var g := AssertedArc(f, a);
    StandForOneMore(f, f.units, known, a);
    XorsKept(f, g, cs);
    forall v: nat ensures v in g.units <==> v < |owner + [Unit]| && (owner + [Unit])[v] == Unit {
    }
  }

  lemma XorsKept(f: Formula, g: Formula, cs: seq<Constraint>)
    requires XorsEncode(f, cs) && f.arcs <= g.arcs && f.xors <= g.xors
    ensures forall j :: 0 <= j < |cs| ==>
              StandFor(g, g.xors[j].0, ArcsOf(cs[j].left)) && StandFor(g, g.xors[j].1, ArcsOf(cs[j].right))
  {
    forall j | 0 <= j < |cs| ensures StandFor(g, g.xors[j].0, ArcsOf(cs[j].left)) && StandFor(g, g.xors[j].1, ArcsOf(cs[j].right)) {
      StandForLonger(f, g, f.xors[j].0, ArcsOf(cs[j].left));
      StandForLonger(f, g, f.xors[j].1, ArcsOf(cs[j].right));
    }
  }

  lemma StandForOneMore(f: Formula, vars: set<nat>, arcs: set<Arc>, a: Arc)
    requires StandFor(f, vars, arcs)
    ensures StandFor(WithArc(f, a), vars + {|f.arcs|}, arcs + {a})
  {
    var g := WithArc(f, a);
    StandForLonger(f, g, vars, arcs);
    assert g.arcs[|f.arcs|] == a && |f.arcs| in vars + {|f.arcs|};
  }

  lemma AssertXor(f: Formula, mid: Formula, g: Formula, owner: seq<Owner>, known: set<Arc>, cs: seq<Constraint>, c: Constraint,
                  left: set<nat>, right: set<nat>)
    requires Encoding(f, owner, known, cs)
    requires mid == f.(arcs := mid.arcs) && f.arcs <= mid.arcs && g == f.(arcs := g.arcs) && mid.arcs <= g.arcs
    requires forall v: nat :: v in left <==> |f.arcs| <= v < |mid.arcs|
    requires forall v: nat :: v in right <==> |mid.arcs| <= v < |g.arcs|
    requires StandFor(mid, left, ArcsOf(c.left)) && StandFor(g, right, ArcsOf(c.right))
    ensures Encoding(g.(xors := g.xors + [(left, right)]), Owners(owner, |f.xors|, |mid.arcs|, |g.arcs|), known, cs + [c])
  {
    var h := g.(xors := g.xors + [(left, right)]);
    XorsKept(f, h, cs);
    StandForLonger(mid, h, left, ArcsOf(c.left));
    StandForLonger(g, h, right, ArcsOf(c.right));
    StandForLonger(f, h, f.units, known);
    XorOwners(f, h, owner, |mid.arcs|, left, right);
  }

  ghost function Owners(owner: seq<Owner>, j: nat, mid: nat, end: nat): (r: seq<Owner>)
    requires |owner| <= mid <= end
    ensures |r| == end && owner <= r
    ensures forall v :: |owner| <= v < end ==> r[v] == Member(j, v < mid)
  {
    owner + seq(end - |owner|, i requires 0 <= i < end - |owner| => Member(j, |owner| + i < mid))
  }

  lemma XorOwners(f: Formula, h: Formula, owner: seq<Owner>, mid: nat, left: set<nat>, right: set<nat>)
    requires Owned(f, owner) && |f.arcs| <= mid <= |h.arcs|
    requires h.units == f.units && h.xors == f.xors + [(left, right)]
    requires forall v: nat :: v in left <==> |f.arcs| <= v < mid
    requires forall v: nat :: v in right <==> mid <= v < |h.arcs|
    ensures Owned(h, Owners(owner, |f.xors|, mid, |h.arcs|))
  {
  }

  lemma StandForLonger(f: Formula, g: Formula, vars: set<nat>, arcs: set<Arc>)
    requires StandFor(f, vars, arcs) && f.arcs <= g.arcs
    ensures StandFor(g, vars, arcs)
  {
    assert forall v :: v in vars ==> g.arcs[v] == f.arcs[v];
  }

  /** Adds one fresh variable per edge of a side. */
  method AddSide(f: Formula, es: set<Edge>) returns (g: Formula, vars: set<nat>)
    ensures g == f.(arcs := g.arcs) && f.arcs <= g.arcs
    ensures forall v: nat :: v in vars <==> |f.arcs| <= v < |g.arcs|
    ensures StandFor(g, vars, ArcsOf(es))
  {
    g, vars := f, {};
    var todo := es;
    while todo != {}
      invariant todo <= es
      invariant g == f.(arcs := g.arcs) && f.arcs <= g.arcs
      invariant forall v: nat :: v in vars <==> |f.arcs| <= v < |g.arcs|
      invariant StandFor(g, vars, ArcsOf(es - todo))
    {
      var e :| e in todo;
      ghost var before := g;
      ghost var was := vars;
      vars := vars + {|g.arcs|};
      g := WithArc(g, SolverArc(e));
      StandForLonger(before, g, was, ArcsOf(es - todo));
      assert ArcsOf(es - (todo - {e})) == ArcsOf(es - todo) + {SolverArc(e)};
      assert g.arcs[|before.arcs|] == SolverArc(e);
      todo := todo - {e};
    }
    assert es - todo == es;
  }

  /** Encodes events, known edges and constraints; also used as the running state of both checkers. */
  ghost predicate Encoded(f: Formula, n: nat, known: set<Edge>, conn: set<Constraint>) {
    exists owner: seq<Owner>, cs: seq<Constraint> ::
      Encoding(f, owner, SolverArcs(n, known), cs) && forall c :: c in conn <==> c in cs
  }

  /** Nodes of the solver graph are numbered as they are added: T0 has one, every other transaction two. */
  method EncodeEvents(n: nat) returns (f: Formula)
    ensures Encoded(f, n, {}, {}) && f.nodes == if n == 0 then 0 else 2 * n - 1
  {
    f := Formula(0, [], {}, []);
    ghost var owner: seq<Owner> := [];
    assert Encoding(f, owner, SolverArcs(0, {}), []);
    for i := 0 to n
      invariant f.nodes == if i == 0 then 0 else 2 * i - 1
      invariant Encoding(f, owner, SolverArcs(i, {}), [])
    {
      assert f.nodes == SolverSi(i);
      f := f.(nodes := f.nodes + 1);
      assert Encoding(f, owner, SolverArcs(i, {}), []);
      if i != 0 {
        assert f.nodes == SolverCi(i);
        f := f.(nodes := f.nodes + 1);
        assert Encoding(f, owner, SolverArcs(i, {}), []);
        AssertArc(f, owner, SolverArcs(i, {}), [], (SolverSi(i), SolverCi(i)));
        f, owner := AssertedArc(f, (SolverSi(i), SolverCi(i))), owner + [Unit];
      }
      assert SolverArcs(i + 1, {}) == SolverArcs(i, {}) + if i == 0 then {} else {(SolverSi(i), SolverCi(i))};
    }
  }

  lemma EncodedEdge(f: Formula, n: nat, known: set<Edge>, e: Edge)
    requires Encoded(f, n, known, {})
    ensures Encoded(AssertedArc(f, SolverArc(e)), n, known + {e}, {})
  {
    var owner: seq<Owner>, cs: seq<Constraint> :| Encoding(f, owner, SolverArcs(n, known), cs) && forall c :: c in {} <==> c in cs;
    AssertArc(f, owner, SolverArcs(n, known), cs, SolverArc(e));
    assert SolverArcs(n, known + {e}) == SolverArcs(n, known) + {SolverArc(e)};
  }

  lemma EncodedConstraint(f: Formula, mid: Formula, g: Formula, n: nat, known: set<Edge>, conn: set<Constraint>, c: Constraint,
                          left: set<nat>, right: set<nat>)
    requires Encoded(f, n, known, conn)
    requires mid == f.(arcs := mid.arcs) && f.arcs <= mid.arcs && g == f.(arcs := g.arcs) && mid.arcs <= g.arcs
    requires forall v: nat :: v in left <==> |f.arcs| <= v < |mid.arcs|
    requires forall v: nat :: v in right <==> |mid.arcs| <= v < |g.arcs|
    requires StandFor(mid, left, ArcsOf(c.left)) && StandFor(g, right, ArcsOf(c.right))
    ensures Encoded(g.(xors := g.xors + [(left, right)]), n, known, conn + {c})
  {
    var owner: seq<Owner>, cs: seq<Constraint> :| Encoding(f, owner, SolverArcs(n, known), cs) && forall d :: d in conn <==> d in cs;
    AssertXor(f, mid, g, owner, SolverArcs(n, known), cs, c, left, right);
    assert forall d :: d in conn + {c} <==> d in cs + [c];
  }

  method EncodeKnown(f0: Formula, n: nat, es: set<Edge>) returns (f: Formula)
    requires Encoded(f0, n, {}, {})
    ensures Encoded(f, n, es, {}) && f.nodes == f0.nodes
  {
    f := f0;
    var todo := es;
    assert es - todo == {};
    while todo != {}
      invariant todo <= es && f.nodes == f0.nodes && Encoded(f, n, es - todo, {})
    {
      var e :| e in todo;
      EncodedEdge(f, n, es - todo, e);
      assert es - todo + {e} == es - (todo - {e});
      f := AssertedArc(f, SolverArc(e));
      todo := todo - {e};
    }
    assert es - todo == es;
  }

  method EncodeConstraint(f: Formula, ghost n: nat, ghost known: set<Edge>, ghost conn: set<Constraint>, c: Constraint) returns (g: Formula)
    requires Encoded(f, n, known, conn)
    ensures Encoded(g, n, known, conn + {c}) && g.nodes == f.nodes
  {
    var mid, left := AddSide(f, c.left);
    var end, right := AddSide(mid, c.right);
    EncodedConstraint(f, mid, end, n, known, conn, c, left, right);
    g := end.(xors := end.xors + [(left, right)]);
  }

  lemma EncodedMeansSatisfiable(f: Formula, n: nat, known: set<Edge>, conn: set<Constraint>)
    requires Encoded(f, n, known, conn) && ProperConstraints(n, conn)
    ensures HasModel(f) <==> Satisfiable(n, known, conn)
  {
    var owner: seq<Owner>, cs: seq<Constraint> :| Encoding(f, owner, SolverArcs(n, known), cs) && forall c :: c in conn <==> c in cs;
    XorMeansOneSide(f, owner, n, known, cs, conn);
  }

  /** The optimised checker: known graph, and constraints between sets of edges. */
  method CheckSides(g: PolyGraph, con: set<Constraint>, solve: Formula -> bool) returns (sat: bool)
    requires g.Valid() && ProperConstraints(g.n, con) && Exact(solve)
    ensures sat <==> Satisfiable(g.n, g.inserted, con)
    ensures g.n >= 1 ==> (sat <==> exists s :: Fits(g.n, s, g.inserted, con))
  {
    if g.n >= 1 {
      SatisfiableIffSchedulable(g.n, g.inserted, con);
    }
    var f := EncodeEvents(g.n);
    f := EncodeKnown(f, g.n, g.Stored());
    var todo := con;
    assert con - todo == {};
    while todo != {}
      invariant todo <= con && Encoded(f, g.n, g.Stored(), con - todo)
    {
      var c :| c in todo;
      f := EncodeConstraint(f, g.n, g.Stored(), con - todo, c);
      assert con - todo + {c} == con - (todo - {c});
      todo := todo - {c};
    }
    assert con - todo == con;
    EncodedMeansSatisfiable(f, g.n, g.Stored(), con);
    SatisfiableBySameOrders(g.n, g.Stored(), g.inserted, con);
    return solve(f);
  }

  lemma SatisfiableBySameOrders(n: nat, es: set<Edge>, fs: set<Edge>, con: set<Constraint>)
    requires SameOrders(es, fs)
    ensures Satisfiable(n, es, con) <==> Satisfiable(n, fs, con)
  {
    forall pick: set<Constraint>
      ensures SolverArcs(n, es + Selected(con, pick)) == SolverArcs(n, fs + Selected(con, pick))
    {
      SameOrdersSameArcs(n, es, fs);
      assert SolverArcs(n, es + Selected(con, pick)) == SolverArcs(n, es) + ArcsOf(Selected(con, pick));
      assert SolverArcs(n, fs + Selected(con, pick)) == SolverArcs(n, fs) + ArcsOf(Selected(con, pick));
    }
  }

  function AsConstraint(p: (Edge, Edge)): Constraint {
    Constraint({p.0}, {p.1})
  }

  ghost function PairConstraints(pairs: set<(Edge, Edge)>): set<Constraint> {
    set p | p in pairs :: AsConstraint(p)
  }

  /** One constraint for every two positions in a list of writers of a key. */
  ghost function WriterOrder(writers: seq<nat>): set<Constraint> {
    set i, j | 0 <= i < j < |writers| :: WriteAlternative(writers[i], writers[j])
  }

  ghost function WriterOrders(lists: map<Key, seq<nat>>): set<Constraint> {
    set k, c | k in lists && c in WriterOrder(lists[k]) :: c
  }

  /** The schedule obeys the edges and one edge of every pair, and no two listed writers of a key overlap. */
  ghost predicate PairsFit(n: nat, s: Schedule, edges: set<Edge>, pairs: set<(Edge, Edge)>, lists: map<Key, seq<nat>>) {
    && WellTimed(n, s) && HoldAll(s, edges)
    && (forall p :: p in pairs ==> Holds(s, p.0) || Holds(s, p.1))
    && (forall k, i, j :: k in lists && 0 <= i < j < |lists[k]| ==> NotOverlapping(s, lists[k][i], lists[k][j]))
  }

  ghost predicate NotOverlapping(s: Schedule, i: nat, j: nat) {
    CommitsFirst(s, i, j) || CommitsFirst(s, j, i)
  }

  lemma PairsFitMeansFits(n: nat, s: Schedule, edges: set<Edge>, pairs: set<(Edge, Edge)>, lists: map<Key, seq<nat>>)
    ensures PairsFit(n, s, edges, pairs, lists) <==> Fits(n, s, edges, PairConstraints(pairs) + WriterOrders(lists))
  {
    var conn := PairConstraints(pairs) + WriterOrders(lists);
    forall p | p in pairs ensures HoldsOneSide(s, AsConstraint(p)) <==> Holds(s, p.0) || Holds(s, p.1) {
      var c := AsConstraint(p);
      assert p.0 in c.left && p.1 in c.right;
    }
    forall i, j ensures HoldsOneSide(s, WriteAlternative(i, j)) <==> NotOverlapping(s, i, j) {
      var c := WriteAlternative(i, j);
      assert Edge(i, j, WW) in c.left && Edge(j, i, WW) in c.right;
    }
    if PairsFit(n, s, edges, pairs, lists) {
      forall c | c in conn ensures HoldsOneSide(s, c) {
        if c in WriterOrders(lists) {
          var k :| k in lists && c in WriterOrder(lists[k]);
          var i, j :| 0 <= i < j < |lists[k]| && c == WriteAlternative(lists[k][i], lists[k][j]);
          assert NotOverlapping(s, lists[k][i], lists[k][j]);
        }
      }
    }
    if Fits(n, s, edges, conn) {
      forall p | p in pairs ensures Holds(s, p.0) || Holds(s, p.1) {
        assert AsConstraint(p) in conn;
      }
      forall k, i, j | k in lists && 0 <= i < j < |lists[k]| ensures NotOverlapping(s, lists[k][i], lists[k][j]) {
        assert WriteAlternative(lists[k][i], lists[k][j]) in WriterOrder(lists[k]);
        assert WriteAlternative(lists[k][i], lists[k][j]) in conn;
      }
    }
  }

  /** The plain checker: known edges, pairs of alternative edges, and for every key an order of its writers. */
  method CheckPairs(n: nat, edges: set<Edge>, pairs: set<(Edge, Edge)>, writers: map<Key, seq<nat>>, solve: Formula -> bool) returns (sat: bool)
    requires ProperConstraints(n, PairConstraints(pairs) + WriterOrders(writers)) && Exact(solve)
    ensures sat <==> Satisfiable(n, edges, PairConstraints(pairs) + WriterOrders(writers))
    ensures n >= 1 && ProperEdges(n, edges) ==> (sat <==> exists s :: PairsFit(n, s, edges, pairs, writers))
  {
    ghost var conn := PairConstraints(pairs) + WriterOrders(writers);
    if n >= 1 && ProperEdges(n, edges) {
      SatisfiableIffSchedulable(n, edges, conn);
      forall s ensures PairsFit(n, s, edges, pairs, writers) <==> Fits(n, s, edges, conn) {
        PairsFitMeansFits(n, s, edges, pairs, writers);
      }
    }
    var f := EncodeEvents(n);
    f := EncodeKnown(f, n, edges);
    f := EncodePairs(f, n, edges, pairs);
    f := EncodeWriterOrders(f, n, edges, PairConstraints(pairs), writers);
    EncodedMeansSatisfiable(f, n, edges, PairConstraints(pairs) + WriterOrders(writers));
    return solve(f);
  }

  method EncodePairs(f: Formula, ghost n: nat, ghost known: set<Edge>, pairs: set<(Edge, Edge)>) returns (g: Formula)
    requires Encoded(f, n, known, {})
    ensures Encoded(g, n, known, PairConstraints(pairs))
  {
    g := f;
    var todo := pairs;
    assert PairConstraints(pairs - todo) == {};
    while todo != {}
      invariant todo <= pairs && Encoded(g, n, known, PairConstraints(pairs - todo))
    {
      var p :| p in todo;
      g := EncodeConstraint(g, n, known, PairConstraints(pairs - todo), AsConstraint(p));
      assert PairConstraints(pairs - (todo - {p})) == PairConstraints(pairs - todo) + {AsConstraint(p)};
      todo := todo - {p};
    }
    assert pairs - todo == pairs;
  }

  method EncodeWriterOrders(f: Formula, ghost n: nat, ghost known: set<Edge>, ghost conn: set<Constraint>, writers: map<Key, seq<nat>>)
      returns (g: Formula)
    requires Encoded(f, n, known, conn)
    ensures Encoded(g, n, known, conn + WriterOrders(writers))
  {
    g := f;
    ghost var now := conn;
    var todo := writers.Keys;
    while todo != {}
      invariant todo <= writers.Keys && Encoded(g, n, known, now)
      invariant forall c :: c in now <==> c in conn || exists k :: k in writers && k !in todo && c in WriterOrder(writers[k])
    {
      var k := Pick(todo);
      todo := todo - {k};
      g := EncodeWriterOrder(g, n, known, now, writers[k]);
      now := now + WriterOrder(writers[k]);
    }
    assert now == conn + WriterOrders(writers);
  }

  /** Writer i against those after it, up to position m. */
  ghost function LaterWriters(ws: seq<nat>, i: nat, m: nat): set<Constraint>
    requires i < m <= |ws|
  {
    set b | i < b < m :: WriteAlternative(ws[i], ws[b])
  }

  lemma OneMoreLaterWriter(ws: seq<nat>, i: nat, m: nat, conn: set<Constraint>)
    requires i < m < |ws|
    ensures conn + LaterWriters(ws, i, m) + {WriteAlternative(ws[i], ws[m])} == conn + LaterWriters(ws, i, m + 1)
  {
  }

  method EncodeLaterWriters(f: Formula, ghost n: nat, ghost known: set<Edge>, ghost conn: set<Constraint>, ws: seq<nat>, i: nat) returns (g: Formula)
    requires Encoded(f, n, known, conn) && i < |ws|
    ensures Encoded(g, n, known, conn + LaterWriters(ws, i, |ws|))
  {
    g := f;
    assert conn + LaterWriters(ws, i, i + 1) == conn;
    for j := i + 1 to |ws|
      invariant Encoded(g, n, known, conn + LaterWriters(ws, i, j))
    {
      OneMoreLaterWriter(ws, i, j, conn);
      g := EncodeConstraint(g, n, known, conn + LaterWriters(ws, i, j), WriteAlternative(ws[i], ws[j]));
    }
  }

  method EncodeWriterOrder(f: Formula, ghost n: nat, ghost known: set<Edge>, ghost conn: set<Constraint>, ws: seq<nat>) returns (g: Formula)
    requires Encoded(f, n, known, conn)
    ensures Encoded(g, n, known, conn + WriterOrder(ws))
  {
    g := f;
    ghost var now := conn;
    for i := 0 to |ws|
      invariant Encoded(g, n, known, now)
      invariant forall c :: c in now <==> c in conn || exists a, b :: 0 <= a < i && a < b < |ws| && c == WriteAlternative(ws[a], ws[b])
    {
      g := EncodeLaterWriters(g, n, known, now, ws, i);
      now := now + LaterWriters(ws, i, |ws|);
    }
    assert now == conn + WriterOrder(ws);
  }
}
