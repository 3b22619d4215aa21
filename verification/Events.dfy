/** Begin/commit events of transactions, typed edges, either/or constraints, and
    schedules: assignments of a begin and a commit time to every transaction. */
module Events {
  import opened Digraph

  datatype EdgeType = WR | WW | RW | CB

  datatype Edge = Edge(src: nat, dst: nat, kind: EdgeType)

  /** Exactly one side of a constraint is to be chosen as a whole. */
  datatype Constraint = Constraint(left: set<Edge>, right: set<Edge>)

  // Event numbers of the begin/commit graph: nodes 1..2n.

  function Si(i: nat): nat { 2 * i + 1 }

  function Ci(i: nat): nat { 2 * i + 2 }

  // Event numbers of the solver graph: nodes 0..2n-2, both events of T0 are node 0.

  function SolverSi(i: nat): nat { if i == 0 then 0 else 2 * i - 1 }

  function SolverCi(i: nat): nat { if i == 0 then 0 else 2 * i }

  function BcArc(e: Edge): Arc {
    if e.kind.RW? then (Si(e.src), Ci(e.dst)) else (Ci(e.src), Si(e.dst))
  }

  function SolverArc(e: Edge): Arc {
    if e.kind.RW? then (SolverSi(e.src), SolverCi(e.dst)) else (SolverCi(e.src), SolverSi(e.dst))
  }

  ghost function BcArcs(n: nat, es: set<Edge>): set<Arc> {
    (set i | 0 <= i < n :: (Si(i), Ci(i))) + (set e | e in es :: BcArc(e))
  }

  ghost function SolverArcs(n: nat, es: set<Edge>): set<Arc> {
    (set i | 1 <= i < n :: (SolverSi(i), SolverCi(i))) + (set e | e in es :: SolverArc(e))
  }

  /** What edge insertion demands: known transactions, no self-loop, nothing into T0. */
  ghost predicate ProperEdge(n: nat, e: Edge) {
    e.src < n && 0 < e.dst < n && e.src != e.dst
  }

  ghost predicate ProperEdges(n: nat, es: set<Edge>) {
    forall e :: e in es ==> ProperEdge(n, e)
  }

  /** Every generated side is non-empty; choosing the other side then really leaves this one out. */
  ghost predicate ProperConstraint(n: nat, c: Constraint) {
    c.left != {} && c.right != {} && ProperEdges(n, c.left) && ProperEdges(n, c.right)
  }

  ghost predicate ProperConstraints(n: nat, conn: set<Constraint>) {
    forall c :: c in conn ==> ProperConstraint(n, c)
  }

  // ----- session order

  ghost function Next(session: seq<nat>, i: nat): Edge
    requires i + 1 < |session|
  {
    Edge(session[i], session[i + 1], CB)
  }

  ghost predicate ProperSession(n: nat, session: seq<nat>) {
    forall i :: 0 <= i < |session| - 1 ==> ProperEdge(n, Next(session, i))
  }

  ghost predicate ProperSessions(n: nat, sessions: seq<seq<nat>>) {
    forall t :: 0 <= t < |sessions| ==> ProperSession(n, sessions[t])
  }

  ghost function SessionOrder(session: seq<nat>): set<Edge> {
    set i | 0 <= i < |session| - 1 :: Next(session, i)
  }

  ghost function SessionEdges(sessions: seq<seq<nat>>): set<Edge> {
    set t, e | 0 <= t < |sessions| && e in SessionOrder(sessions[t]) :: e
  }

  /** The session edges lead from each transaction to the next one of its session. */
  ghost predicate IsSessionStep(sessions: seq<seq<nat>>, t: nat, i: nat, e: Edge) {
    t < |sessions| && i + 1 < |sessions[t]| && e == Edge(sessions[t][i], sessions[t][i + 1], CB)
  }

  lemma SessionEdgesAreSteps(sessions: seq<seq<nat>>, e: Edge)
    ensures e in SessionEdges(sessions) <==> exists t: nat, i: nat :: IsSessionStep(sessions, t, i, e)
  {
    if e in SessionEdges(sessions) {
      var t: nat :| t < |sessions| && e in SessionOrder(sessions[t]);
      var i: nat :| i < |sessions[t]| - 1 && e == Next(sessions[t], i);
      assert IsSessionStep(sessions, t, i, e);
    }
    if t: nat, i: nat :| IsSessionStep(sessions, t, i, e) {
      assert Next(sessions[t], i) in SessionOrder(sessions[t]);
    }
  }

  lemma SessionsGrow(sessions: seq<seq<nat>>, t: nat)
    requires t < |sessions|
    ensures SessionEdges(sessions[..t + 1]) == SessionEdges(sessions[..t]) + SessionOrder(sessions[t])
  {
    var a, b := sessions[..t + 1], sessions[..t];
    assert forall u :: 0 <= u < t ==> a[u] == b[u];
    assert a[t] == sessions[t];
  }

  // ----- schedules

  datatype Schedule = Schedule(begin: seq<nat>, commit: seq<nat>)

  ghost predicate WellTimed(n: nat, s: Schedule) {
    && |s.begin| == |s.commit| == n
    && forall i :: 0 <= i < n ==> s.begin[i] < s.commit[i]
  }

  /** No two of the 2n events happen at the same time. */
  ghost predicate DistinctTimes(n: nat, s: Schedule)
    requires WellTimed(n, s)
  {
    && Distinct(s.begin) && Distinct(s.commit)
    && forall i, j :: 0 <= i < n && 0 <= j < n ==> s.begin[i] != s.commit[j]
  }

  /** The order an edge demands: an anti-dependency begins before the overwriter commits,
      every other edge commits before its target begins. */
  ghost predicate Holds(s: Schedule, e: Edge) {
    if e.kind.RW? then
      e.src < |s.begin| && e.dst < |s.commit| && s.begin[e.src] < s.commit[e.dst]
    else
      e.src < |s.commit| && e.dst < |s.begin| && s.commit[e.src] < s.begin[e.dst]
  }

  ghost predicate HoldAll(s: Schedule, es: set<Edge>) {
    forall e :: e in es ==> Holds(s, e)
  }

  ghost predicate HoldsOneSide(s: Schedule, c: Constraint) {
    HoldAll(s, c.left) || HoldAll(s, c.right)
  }

  /** The schedule obeys all known edges and one whole side of each constraint. */
  ghost predicate Fits(n: nat, s: Schedule, known: set<Edge>, conn: set<Constraint>) {
    && WellTimed(n, s) && HoldAll(s, known)
    && forall c :: c in conn ==> HoldsOneSide(s, c)
  }

  // ----- session order in time

  /** i commits before j begins. */
  ghost predicate CommitsFirst(s: Schedule, i: nat, j: nat) {
    i < |s.commit| && j < |s.begin| && s.commit[i] < s.begin[j]
  }

  /** Every transaction of a session commits before any later one of the session begins. */
  ghost predicate InSessionOrder(s: Schedule, sessions: seq<seq<nat>>) {
    forall t: nat, a: nat, b: nat :: t < |sessions| && a < b < |sessions[t]| ==> CommitsFirst(s, sessions[t][a], sessions[t][b])
  }

  lemma {:induction false} SessionEdgesOrder(n: nat, s: Schedule, sessions: seq<seq<nat>>, t: nat, a: nat, b: nat)
    requires WellTimed(n, s) && HoldAll(s, SessionEdges(sessions)) && t < |sessions| && a < b < |sessions[t]|
    ensures CommitsFirst(s, sessions[t][a], sessions[t][b])
    decreases b
  {
    var e := Edge(sessions[t][b - 1], sessions[t][b], CB);
    assert IsSessionStep(sessions, t, b - 1, e);
    SessionEdgesAreSteps(sessions, e);
    assert Holds(s, e);
    if a < b - 1 {
      SessionEdgesOrder(n, s, sessions, t, a, b - 1);
    }
  }

  /** A schedule obeys the session edges exactly when it keeps the order of every session. */
  lemma SessionEdgesMeanOrder(n: nat, s: Schedule, sessions: seq<seq<nat>>)
    requires WellTimed(n, s)
    ensures HoldAll(s, SessionEdges(sessions)) <==> InSessionOrder(s, sessions)
  {
    if HoldAll(s, SessionEdges(sessions)) {
      forall t: nat, a: nat, b: nat | t < |sessions| && a < b < |sessions[t]| ensures CommitsFirst(s, sessions[t][a], sessions[t][b]) {
        SessionEdgesOrder(n, s, sessions, t, a, b);
      }
    }
    if InSessionOrder(s, sessions) {
      forall e | e in SessionEdges(sessions) ensures Holds(s, e) {
        SessionEdgesAreSteps(sessions, e);
        var t: nat, i: nat :| IsSessionStep(sessions, t, i, e);
        assert CommitsFirst(s, sessions[t][i], sessions[t][i + 1]);
      }
    }
  }

  // ----- acyclic graphs are exactly the schedulable ones

  ghost function TimesOfRank(n: nat, rank: seq<nat>): Schedule
    requires |rank| == 2 * n + 1
  {
    Schedule(seq(n, i requires 0 <= i < n => rank[Si(i)]), seq(n, i requires 0 <= i < n => rank[Ci(i)]))
  }

  ghost function RankOfTimes(n: nat, s: Schedule): seq<nat>
    requires WellTimed(n, s)
  {
    seq(2 * n + 1, v requires 0 <= v < 2 * n + 1 =>
      if v == 0 then 0 else if v % 2 == 1 then s.begin[v / 2] else s.commit[v / 2 - 1])
  }

  lemma BcArcsWithin(n: nat, es: set<Edge>)
    requires ProperEdges(n, es)
    ensures Within(BcArcs(n, es), 2 * n + 1)
  {
  }

  lemma RankGivesTimes(n: nat, es: set<Edge>, rank: seq<nat>)
    requires |rank| == 2 * n + 1 && Respects(BcArcs(n, es), rank) && ProperEdges(n, es)
    ensures WellTimed(n, TimesOfRank(n, rank)) && HoldAll(TimesOfRank(n, rank), es)
    ensures Distinct(rank) ==> DistinctTimes(n, TimesOfRank(n, rank))
  {
    var t := TimesOfRank(n, rank);
    forall i | 0 <= i < n ensures t.begin[i] < t.commit[i] {
      assert (Si(i), Ci(i)) in BcArcs(n, es);
    }
    forall e | e in es ensures Holds(t, e) {
      EdgeOfRank(n, es, rank, e);
    }
    if Distinct(rank) {
      DistinctRankDistinctTimes(n, rank);
    }
  }

  lemma EdgeOfRank(n: nat, es: set<Edge>, rank: seq<nat>, e: Edge)
    requires |rank| == 2 * n + 1 && Respects(BcArcs(n, es), rank) && e in es && ProperEdge(n, e)
    ensures Holds(TimesOfRank(n, rank), e)
  {
    assert BcArc(e) in BcArcs(n, es);
  }

  lemma DistinctRankDistinctTimes(n: nat, rank: seq<nat>)
    requires |rank| == 2 * n + 1 && Distinct(rank) && WellTimed(n, TimesOfRank(n, rank))
    ensures DistinctTimes(n, TimesOfRank(n, rank))
  {
    var t := TimesOfRank(n, rank);
    forall i, j | 0 <= i < n && 0 <= j < n ensures t.begin[i] != t.commit[j] {
      assert Si(i) != Ci(j);
    }
  }

  lemma TimesGiveRank(n: nat, es: set<Edge>, s: Schedule)
    requires WellTimed(n, s) && HoldAll(s, es)
    ensures Respects(BcArcs(n, es), RankOfTimes(n, s))
  {
    var rank := RankOfTimes(n, s);
    forall a | a in BcArcs(n, es) ensures a.0 < |rank| && a.1 < |rank| && rank[a.0] < rank[a.1] {
      if e :| e in es && a == BcArc(e) {
        RankAt(n, s, e.src);
        RankAt(n, s, e.dst);
      } else {
        var i :| 0 <= i < n && a == (Si(i), Ci(i));
        RankAt(n, s, i);
      }
    }
  }

  lemma RankAt(n: nat, s: Schedule, i: nat)
    requires WellTimed(n, s)
    ensures i < n ==> RankOfTimes(n, s)[Si(i)] == s.begin[i] && RankOfTimes(n, s)[Ci(i)] == s.commit[i]
  {
    assert Si(i) % 2 == 1 && Si(i) / 2 == i && Ci(i) % 2 == 0 && Ci(i) / 2 - 1 == i;
  }

  /** The begin/commit graph of a set of edges has no cycle exactly when some schedule obeys all of them. */
  lemma BcAcyclicIffSchedulable(n: nat, es: set<Edge>)
    requires ProperEdges(n, es)
    ensures Acyclic(BcArcs(n, es)) <==> exists s :: WellTimed(n, s) && HoldAll(s, es)
  {
    BcArcsWithin(n, es);
    AcyclicIffRanked(BcArcs(n, es), 2 * n + 1);
    if Acyclic(BcArcs(n, es)) {
      var rank: seq<nat> :| |rank| == 2 * n + 1 && Respects(BcArcs(n, es), rank);
      RankGivesTimes(n, es, rank);
    }
    if s :| WellTimed(n, s) && HoldAll(s, es) {
      TimesGiveRank(n, es, s);
      RankedIsAcyclic(BcArcs(n, es), RankOfTimes(n, s));
    }
  }

  /** Any schedule can be spread out so that no two events coincide, keeping every order it had. */
  lemma SpreadOut(n: nat, s: Schedule) returns (t: Schedule)
    requires WellTimed(n, s)
    ensures WellTimed(n, t) && DistinctTimes(n, t)
    ensures forall e :: ProperEdge(n, e) && Holds(s, e) ==> Holds(t, e)
  {
    var es := OrdersOf(n, s);
    TimesGiveRank(n, es, s);
    RankedIsAcyclic(BcArcs(n, es), RankOfTimes(n, s));
    BcArcsWithin(n, es);
    AcyclicIffRanked(BcArcs(n, es), 2 * n + 1);
    var rank: seq<nat> :| |rank| == 2 * n + 1 && Respects(BcArcs(n, es), rank) && Distinct(rank);
    RankGivesTimes(n, es, rank);
    t := TimesOfRank(n, rank);
    forall e | ProperEdge(n, e) && Holds(s, e) ensures Holds(t, e) {
      assert Edge(e.src, e.dst, if e.kind.RW? then RW else CB) in es;
    }
  }

  ghost function OrdersOf(n: nat, s: Schedule): (es: set<Edge>)
    ensures ProperEdges(n, es) && HoldAll(s, es)
    ensures forall e :: ProperEdge(n, e) && Holds(s, e) && (e.kind.RW? || e.kind.CB?) ==> e in es
  {
    set i, j, k | 0 <= i < n && 0 <= j < n && k in {RW, CB} && ProperEdge(n, Edge(i, j, k)) && Holds(s, Edge(i, j, k)) :: Edge(i, j, k)
  }

  /** Whatever can be scheduled can be scheduled at distinct times. */
  lemma FitsAtDistinctTimes(n: nat, s: Schedule, known: set<Edge>, conn: set<Constraint>) returns (t: Schedule)
    requires Fits(n, s, known, conn) && ProperEdges(n, known) && ProperConstraints(n, conn)
    ensures Fits(n, t, known, conn) && DistinctTimes(n, t)
  {
    t := SpreadOut(n, s);
    forall c | c in conn ensures HoldsOneSide(t, c) {
      assert HoldsOneSide(s, c) && ProperConstraint(n, c);
    }
  }
}
