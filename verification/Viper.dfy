/** The whole checker: internal consistency of every transaction, summaries, the chain polygraph,
    and the solver behind the growing-distance loop. */
module Viper {
  import opened Digraph
  import opened Events
  import opened Solver
  import opened PolyGraphs
  import opened BcGraphs
  import opened Transactions
  import opened Histories
  import opened Recorded
  import opened Encodings
  import opened ChainEncodings
  import opened ChainBuilder
  import opened Pruning
  import opened AppendHistories
  import opened AppendEncodings
  import opened AppendConstruction
  import opened AppendSchedules

  /** Nothing but reads and writes of single keys. */
  ghost predicate OnlyReadsAndWrites(rec: Recording) {
    forall j, op :: 0 <= j < |rec.txns| && op in rec.txns[j] ==> op.Read? || op.Write?
  }

  ghost predicate BoundsRespected(rec: Recording) {
    forall j :: 0 <= j < |rec.txns| ==> ProperOps(rec.txns[j])
  }

  lemma ReadsAndWritesAreChecked(rec: Recording)
    requires OnlyReadsAndWrites(rec)
    ensures BoundsRespected(rec) && AllPlain(rec)
    ensures forall j :: 0 <= j < |rec.txns| ==> Checkable(rec.txns[j])
  {
    forall j | 0 <= j < |rec.txns| ensures Checkable(rec.txns[j]) && PlainOps(rec.txns[j]) {
      assert forall op :: op in rec.txns[j] ==> op.Read? || op.Write?;
    }
  }

  /** Builds the chain polygraph of a summarised history and decides it. */
  method CheckSummary(h: History, solve: Formula -> bool) returns (accepted: bool)
    requires Proper(h) && Exact(solve)
    ensures accepted <==> IsSI(h)
  {
    var encoding, chains := ConstructEncoding(h);
    if encoding.None? {
      EarlyRejectionIsNotSI(h);
      return false;
    }
    var (g, conn) := encoding.value;
    ChainEncodingIsProper(h, chains, g.inserted, conn);
    ChainsEncodeSI(h, chains, g.inserted, conn);
    var tries;
    accepted, tries := Decide(g, conn, solve);
  }

  /** The external reads and last writes of all transactions; T0 has none. */
  method Summarise(rec: Recording) returns (h: History)
    requires |rec.txns| >= 1 && BoundsRespected(rec)
    ensures Summarises(h, rec) && h == Summary(rec)
  {
    ghost var s := Summary(rec);
    var r: seq<map<Key, Value>>, w: seq<map<Key, Value>> := [map[]], [map[]];
    for j := 1 to |rec.txns|
      invariant |r| == |w| == j
      invariant forall i :: 0 <= i < j ==> r[i] == s.extReads[i] && w[i] == s.extWrites[i]
    {
      var er, ew := SummariseOne(rec, j);
      r, w := r + [er], w + [ew];
    }
    h := History(r, w, rec.init, rec.sessions, rec.strong);
    assert r == s.extReads && w == s.extWrites;
    SummaryMeans(rec);
  }

  method SummariseOne(rec: Recording, j: nat) returns (er: map<Key, Value>, ew: map<Key, Value>)
    requires 1 <= j < |rec.txns| && BoundsRespected(rec)
    ensures er == Summary(rec).extReads[j] && ew == Summary(rec).extWrites[j]
  {
    assert ProperOps(rec.txns[j]);
    er := ExtReads(rec.txns[j]);
    ew := ExtWrites(rec.txns[j]);
  }

  /** Accepts a recording exactly when every transaction is internally consistent and the summaries
      are snapshot isolated. All recordings that snapshots explain from their writers without reads ahead
      are accepted, and so are all explained ones without reads ahead if no value that was written and read can be
      initial; without silent reads, an accepted one whose reads of the initial database agree is explained. */
  method CheckRecording(rec: Recording, solve: Formula -> bool) returns (accepted: bool)
    requires ProperRecording(rec) && OnlyReadsAndWrites(rec) && Exact(solve)
    ensures accepted <==> AllPassInt(rec) && IsSI(Summary(rec))
    ensures IsExplainedFromWriters(rec) && NoFutureReads(rec) ==> accepted
    ensures IsExplained(rec) && NoFutureReads(rec) && Unambiguous(Summary(rec)) ==> accepted
    ensures NoSilentReads(Summary(rec)) && accepted && UnwrittenReadsAgree(Summary(rec)) ==> IsExplainedFromWriters(rec) && NoFutureReads(rec)
  {
    ReadsAndWritesAreChecked(rec);
    SummariesDecideValues(rec);
    if Unambiguous(Summary(rec)) {
      UnambiguousExplanations(rec);
    }
    for j := 1 to |rec.txns|
      invariant forall i :: 1 <= i < j ==> PassesInt(rec.txns[i])
    {
      var ok := CheckInt(rec.txns[j]);
      if !ok {
        return false;
      }
    }
    SummaryIsProper(rec);
    var h := Summarise(rec);
    accepted := CheckSummary(h, solve);
  }

  // ----- the append workload

  /** Accepts an append history exactly when nothing makes the construction stop and times exist that obey all that the lists
      demand. So it never rejects, nor fails on, one whose lists are the committed lists at their readers' begins;
      and where every list is whole and every succession was read, it accepts no other. */
  method CheckAppends(h: AppendHistory, solve: Formula -> bool) returns (accepted: bool)
    requires ProperAppends(h) && ProperSessions(|h.appended|, h.sessions) && Exact(solve)
    ensures accepted <==> !Refused(h) && exists s :: AppendSchedule(h, s)
    ensures IsListSI(h) ==> accepted && WholeLists(h)
    ensures accepted ==> !Refused(h)
    ensures accepted && WholeLists(h) && SuccessionsWereRead(h) ==> IsListSI(h)
  {
    var encoding, chains := ConstructAppends(h);
    if encoding.None? {
      if s :| ListsIsolated(h, s) {
        IsolatedListsAreNotRefused(h, s);
      }
      return false;
    }
    var (g, conn) := encoding.value;
    VersionsAreProper(h);
    AppendEncodingIsProper(h, chains, g.inserted, conn);
    AppendPolygraphMeansSchedule(h, chains, g.inserted, conn);
    if IsListSI(h) {
      ExplainedAppendsAreAccepted(h, chains, g.inserted, conn);
    }
    if SuccessionsWereRead(h) {
      ReadSuccessionsAreDecided(h, chains, g.inserted, conn);
    }
    var tries;
    accepted, tries := Decide(g, conn, solve);
  }

  // ----- searching a built graph from T0 alone

  lemma T0ReachesEvents(n: nat, es: set<Edge>, i: nat)
    requires i < n && (i > 0 ==> Edge(0, i, CB) in es)
    ensures Reaches(BcArcs(n, es), 1, Si(i)) && Reaches(BcArcs(n, es), 1, Ci(i))
  {
    var arcs := BcArcs(n, es);
    assert (Si(0), Ci(0)) in arcs && (Si(i), Ci(i)) in arcs;
    if i == 0 {
      assert IsWalk(arcs, [1]);
      assert [1][0] == 1 && [1][|[1]| - 1] == Si(0);
      var w := [1, Ci(0)];
      assert IsWalk(arcs, w) && w[0] == 1 && w[|w| - 1] == Ci(0);
    } else {
      assert BcArc(Edge(0, i, CB)) in arcs;
      var w := [1, Ci(0), Si(i)];
      assert IsWalk(arcs, w) && w[0] == 1 && w[|w| - 1] == Si(i);
      var v := [1, Ci(0), Si(i), Ci(i)];
      assert IsWalk(arcs, v) && v[0] == 1 && v[|v| - 1] == Ci(i);
    }
  }

  /** Both builders' known graphs have an edge from T0 to every transaction. */
  ghost predicate StartsAtT0(n: nat, es: set<Edge>) {
    forall i: nat :: 1 <= i < n ==> Edge(0, i, CB) in es
  }

  lemma BuiltGraphsStartAtT0(h: History, es: set<Edge>)
    requires Proper(h) && (KnownOf(h, es) || ChainKnownOf(h, es))
    ensures StartsAtT0(h.N(), es)
  {
    assert forall i: nat :: 1 <= i < h.N() ==> IsKnown(h, Edge(0, i, CB));
  }

  /** In such a graph the path-enumerating search from T0's begin finds a cycle exactly when there is one. */
  lemma SearchFromT0IsComplete(n: nat, es: set<Edge>)
    requires n >= 1 && ProperEdges(n, es) && StartsAtT0(n, es)
    ensures Revisits(BcArcs(n, es), 1) <==> !Acyclic(BcArcs(n, es))
  {
    var arcs := BcArcs(n, es);
    forall a | a in arcs ensures Reaches(arcs, 1, a.0) {
      var i: nat :| i < n && (a.0 == Si(i) || a.0 == Ci(i));
      T0ReachesEvents(n, es, i);
    }
    RevisitsIffCyclic(arcs, 1);
  }

  /** On the begin/commit graph of a built polygraph, both searches answer whether there is a cycle. */
  method SearchBothWays(g: PolyGraph) returns (byPaths: bool, byColour: bool)
    requires g.Valid() && g.n >= 1 && StartsAtT0(g.n, g.inserted)
    ensures byPaths == byColour && (byColour <==> !Acyclic(BcArcs(g.n, g.inserted)))
  {
    var bc := g.ToBcGraph();
    byPaths := bc.DetectCycleByPaths();
    byColour := bc.DetectCycleColour();
    SearchFromT0IsComplete(g.n, g.inserted);
  }
}
