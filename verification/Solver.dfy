/** The acyclicity solver seen from outside: a formula over edge variables, the
    assignments that satisfy it, and the choose-one-side problem it stands for. */
module Solver {
  import opened Digraph
  import opened Events

  // ----- choosing one side of every constraint

  ghost function Side(c: Constraint, left: bool): set<Edge> {
    if left then c.left else c.right
  }

  ghost function Selected(conn: set<Constraint>, pick: set<Constraint>): set<Edge> {
    set c, e | c in conn && e in Side(c, c in pick) :: e
  }

  /** Some way of choosing one whole side per constraint leaves the event graph without a cycle. */
  ghost predicate Satisfiable(n: nat, known: set<Edge>, conn: set<Constraint>) {
    exists pick: set<Constraint> :: Acyclic(SolverArcs(n, known + Selected(conn, pick)))
  }

  ghost predicate Schedulable(n: nat, known: set<Edge>, conn: set<Constraint>) {
    exists s :: Fits(n, s, known, conn)
  }

  ghost function TimesOfSolverRank(n: nat, rank: seq<nat>): Schedule
    requires n >= 1 && |rank| == 2 * n
  {
    Schedule(
      seq(n, i requires 0 <= i < n => if i == 0 then rank[0] else rank[SolverSi(i)] + 1),
      seq(n, i requires 0 <= i < n => rank[SolverCi(i)] + 1))
  }

  ghost function SolverRankOfTimes(n: nat, s: Schedule): seq<nat>
    requires n >= 1 && WellTimed(n, s)
  {
    seq(2 * n, v requires 0 <= v < 2 * n =>
      if v == 2 * n - 1 then 0 else if v % 2 == 1 then s.begin[(v + 1) / 2] else if v == 0 then s.begin[0] else s.commit[v / 2])
  }

  lemma SolverRankGivesTimes(n: nat, es: set<Edge>, rank: seq<nat>)
    requires n >= 1 && |rank| == 2 * n && ProperEdges(n, es)
    requires Respects(SolverArcs(n, es), rank)
    ensures WellTimed(n, TimesOfSolverRank(n, rank)) && HoldAll(TimesOfSolverRank(n, rank), es)
  {
    forall i | 1 <= i < n ensures rank[SolverSi(i)] < rank[SolverCi(i)] {
      assert (SolverSi(i), SolverCi(i)) in SolverArcs(n, es);
    }
    forall e | e in es ensures Holds(TimesOfSolverRank(n, rank), e) {
      assert SolverArc(e) in SolverArcs(n, es);
    }
  }

  lemma SolverRankAt(n: nat, s: Schedule, i: nat)
    requires n >= 1 && WellTimed(n, s) && i < n
    ensures SolverRankOfTimes(n, s)[SolverSi(i)] == s.begin[i]
    ensures SolverRankOfTimes(n, s)[SolverCi(i)] == if i == 0 then s.begin[0] else s.commit[i]
  {
    if i > 0 {
      assert (2 * i - 1) % 2 == 1 && (2 * i - 1 + 1) / 2 == i && (2 * i) % 2 == 0 && (2 * i) / 2 == i;
    }
  }

  lemma TimesGiveSolverRank(n: nat, es: set<Edge>, s: Schedule)
    requires n >= 1 && WellTimed(n, s) && HoldAll(s, es) && ProperEdges(n, es)
    ensures Respects(SolverArcs(n, es), SolverRankOfTimes(n, s))
  {
    var rank := SolverRankOfTimes(n, s);
    forall a | a in SolverArcs(n, es) ensures a.0 < |rank| && a.1 < |rank| && rank[a.0] < rank[a.1] {
      if e :| e in es && a == SolverArc(e) {
        assert Holds(s, e);
        SolverRankAt(n, s, e.src);
        SolverRankAt(n, s, e.dst);
      } else {
        var i :| 1 <= i < n && a == (SolverSi(i), SolverCi(i));
        SolverRankAt(n, s, i);
      }
    }
  }

  /** The solver graph, in which both events of T0 are one node, is acyclic exactly when the edges are schedulable. */
  lemma SolverAcyclicIffSchedulable(n: nat, es: set<Edge>)
    requires n >= 1 && ProperEdges(n, es)
    ensures Acyclic(SolverArcs(n, es)) <==> exists s :: WellTimed(n, s) && HoldAll(s, es)
  {
    assert Within(SolverArcs(n, es), 2 * n);
    AcyclicIffRanked(SolverArcs(n, es), 2 * n);
    if Acyclic(SolverArcs(n, es)) {
      var rank: seq<nat> :| |rank| == 2 * n && Respects(SolverArcs(n, es), rank);
      SolverRankGivesTimes(n, es, rank);
    }
    if s :| WellTimed(n, s) && HoldAll(s, es) {
      TimesGiveSolverRank(n, es, s);
      RankedIsAcyclic(SolverArcs(n, es), SolverRankOfTimes(n, s));
    }
  }

  /** Merging the two events of T0 changes no verdict: nothing ever points at T0. */
  lemma NumberingsAgree(n: nat, es: set<Edge>)
    requires n >= 1 && ProperEdges(n, es)
    ensures Acyclic(SolverArcs(n, es)) <==> Acyclic(BcArcs(n, es))
  {
    SolverAcyclicIffSchedulable(n, es);
    BcAcyclicIffSchedulable(n, es);
  }

  lemma SelectedIsProper(n: nat, conn: set<Constraint>, pick: set<Constraint>)
    requires ProperConstraints(n, conn)
    ensures ProperEdges(n, Selected(conn, pick))
  {
  }

  /** An acyclic one-side-each choice exists exactly when a schedule obeys the known edges and a side of each constraint. */
  lemma SatisfiableIffSchedulable(n: nat, known: set<Edge>, conn: set<Constraint>)
    requires n >= 1 && ProperEdges(n, known) && ProperConstraints(n, conn)
    ensures Satisfiable(n, known, conn) <==> Schedulable(n, known, conn)
  {
    if Satisfiable(n, known, conn) {
      var pick: set<Constraint> :| Acyclic(SolverArcs(n, known + Selected(conn, pick)));
      SelectedIsProper(n, conn, pick);
      SolverAcyclicIffSchedulable(n, known + Selected(conn, pick));
      var s :| WellTimed(n, s) && HoldAll(s, known + Selected(conn, pick));
      forall c | c in conn ensures HoldsOneSide(s, c) {
        assert forall e :: e in Side(c, c in pick) ==> e in Selected(conn, pick);
      }
      assert Fits(n, s, known, conn);
    }
    if s :| Fits(n, s, known, conn) {
      var pick := set c | c in conn && HoldAll(s, c.left);
      SelectedIsProper(n, conn, pick);
      assert HoldAll(s, known + Selected(conn, pick));
      SolverAcyclicIffSchedulable(n, known + Selected(conn, pick));
    }
  }

  // ----- the formula handed to the solver

  /** Variable v switches arc arcs[v] on; `units` are asserted variables; each xor
      asserts that exactly one of two conjunctions of variables is true. */
  datatype Formula = Formula(nodes: nat, arcs: seq<Arc>, units: set<nat>, xors: seq<(set<nat>, set<nat>)>)

  ghost predicate AllOn(vars: set<nat>, on: set<nat>) { vars <= on }

  ghost function Enabled(f: Formula, on: set<nat>): set<Arc> {
    Image(f.arcs, on)
  }

  ghost predicate Models(f: Formula, on: set<nat>) {
    && f.units <= on
    && (forall j :: 0 <= j < |f.xors| ==> AllOn(f.xors[j].0, on) != AllOn(f.xors[j].1, on))
    && Acyclic(Enabled(f, on))
  }

  ghost predicate HasModel(f: Formula) {
    exists on :: Models(f, on)
  }

  /** A solver that answers every formula correctly. */
  ghost predicate Exact(solve: Formula -> bool) {
    forall f :: solve(f) <==> HasModel(f)
  }

  /** Whose variable it is: an asserted one, or a member of one side of xor j. */
  datatype Owner = Unit | Member(j: nat, left: bool)

  ghost predicate Owned(f: Formula, owner: seq<Owner>) {
    && |owner| == |f.arcs|
    && (forall v: nat :: v in f.units <==> v < |owner| && owner[v] == Unit)
    && (forall v: nat, j :: 0 <= j < |f.xors| ==> (v in f.xors[j].0 <==> v < |owner| && owner[v] == Member(j, true)))
    && (forall v: nat, j :: 0 <= j < |f.xors| ==> (v in f.xors[j].1 <==> v < |owner| && owner[v] == Member(j, false)))
    && (forall v :: 0 <= v < |owner| && owner[v].Member? ==> owner[v].j < |f.xors|)
  }

  /** The variables stand for exactly the arcs of a set. */
  ghost predicate StandFor(f: Formula, vars: set<nat>, arcs: set<Arc>) {
    (forall v :: v in vars ==> v < |f.arcs|) && Image(f.arcs, vars) == arcs
  }

  ghost function Image(arcs: seq<Arc>, vars: set<nat>): set<Arc> {
    set v | v in vars && v < |arcs| :: arcs[v]
  }

  ghost function ArcsOf(es: set<Edge>): set<Arc> {
    set e | e in es :: SolverArc(e)
  }

  ghost predicate XorsEncode(f: Formula, cs: seq<Constraint>) {
    && |f.xors| == |cs|
    && forall j :: 0 <= j < |cs| ==>
         StandFor(f, f.xors[j].0, ArcsOf(cs[j].left)) && StandFor(f, f.xors[j].1, ArcsOf(cs[j].right))
  }

  /** Asserting known arcs, and for each constraint an exclusive-or of two conjunctions over
      fresh variables, means choosing one whole side of each. */
  lemma XorMeansOneSide(f: Formula, owner: seq<Owner>, n: nat, known: set<Edge>, cs: seq<Constraint>, conn: set<Constraint>)
    requires Owned(f, owner) && XorsEncode(f, cs) && StandFor(f, f.units, SolverArcs(n, known))
    requires forall c :: c in conn <==> c in cs
    requires ProperConstraints(n, conn)
    ensures HasModel(f) <==> Satisfiable(n, known, conn)
  {
    if on :| Models(f, on) {
      ModelGivesChoice(f, n, known, cs, conn, on);
    }
    if pick: set<Constraint> :| Acyclic(SolverArcs(n, known + Selected(conn, pick))) {
      ChoiceGivesModel(f, owner, n, known, cs, conn, pick);
    }
  }

  lemma ModelGivesChoice(f: Formula, n: nat, known: set<Edge>, cs: seq<Constraint>, conn: set<Constraint>, on: set<nat>)
    requires XorsEncode(f, cs) && StandFor(f, f.units, SolverArcs(n, known))
    requires forall c :: c in conn <==> c in cs
    requires Models(f, on)
    ensures Satisfiable(n, known, conn)
  {
    var pick := set j | 0 <= j < |cs| && AllOn(f.xors[j].0, on) :: cs[j];
    var es := known + Selected(conn, pick);
    forall a | a in SolverArcs(n, es) ensures a in Enabled(f, on) {
      if a in SolverArcs(n, known) {
        var v :| v in f.units && v < |f.arcs| && f.arcs[v] == a;
      } else {
        var e :| e in es && a == SolverArc(e) && e !in known;
        var c :| c in conn && e in Side(c, c in pick);
        var j: nat :| j < |cs| && cs[j] == c && (c in pick ==> AllOn(f.xors[j].0, on));
        var vars := if c in pick then f.xors[j].0 else f.xors[j].1;
        assert AllOn(vars, on) && a in ArcsOf(Side(c, c in pick));
        var v :| v in vars && v < |f.arcs| && f.arcs[v] == a;
      }
    }
    FewerArcsStayAcyclic(SolverArcs(n, es), Enabled(f, on));
  }

  lemma ChoiceGivesModel(f: Formula, owner: seq<Owner>, n: nat, known: set<Edge>, cs: seq<Constraint>, conn: set<Constraint>,
                         pick: set<Constraint>)
    requires Owned(f, owner) && XorsEncode(f, cs) && StandFor(f, f.units, SolverArcs(n, known))
    requires forall c :: c in conn <==> c in cs
    requires ProperConstraints(n, conn)
    requires Acyclic(SolverArcs(n, known + Selected(conn, pick)))
    ensures HasModel(f)
  {
    var on := SwitchedOn(owner, cs, pick);
    forall j | 0 <= j < |cs| ensures AllOn(f.xors[j].0, on) != AllOn(f.xors[j].1, on) {
      SideSwitched(f, owner, n, cs, pick, j);
    }
    var es := known + Selected(conn, pick);
    forall a | a in Enabled(f, on) ensures a in SolverArcs(n, es) {
      var v :| v in on && v < |f.arcs| && f.arcs[v] == a;
      if owner[v] != Unit {
        var c := cs[owner[v].j];
        assert a in ArcsOf(Side(c, c in pick));
        var e :| e in Side(c, c in pick) && SolverArc(e) == a;
        assert c in conn && e in Selected(conn, pick);
      } else {
        assert a in Image(f.arcs, f.units);
      }
    }
    FewerArcsStayAcyclic(Enabled(f, on), SolverArcs(n, es));
    assert Models(f, on);
  }

  ghost function SwitchedOn(owner: seq<Owner>, cs: seq<Constraint>, pick: set<Constraint>): set<nat>
    requires forall v :: 0 <= v < |owner| && owner[v].Member? ==> owner[v].j < |cs|
  {
    set v | 0 <= v < |owner| && (owner[v].Member? ==> (cs[owner[v].j] in pick) == owner[v].left)
  }

  /** The chosen side is switched on; the other side is not, because it is not empty. */
  lemma SideSwitched(f: Formula, owner: seq<Owner>, n: nat, cs: seq<Constraint>, pick: set<Constraint>, j: nat)
    requires Owned(f, owner) && XorsEncode(f, cs) && j < |cs| && ProperConstraint(n, cs[j])
    ensures AllOn(f.xors[j].0, SwitchedOn(owner, cs, pick)) == (cs[j] in pick)
    ensures AllOn(f.xors[j].1, SwitchedOn(owner, cs, pick)) == (cs[j] !in pick)
  {
    var c := cs[j];
    var l :| l in c.left;
    var r :| r in c.right;
    assert SolverArc(l) in Image(f.arcs, f.xors[j].0) && SolverArc(r) in Image(f.arcs, f.xors[j].1);
    var vl :| vl in f.xors[j].0;
    var vr :| vr in f.xors[j].1;
  }
}
