/** The known part of a history's polygraph, which both builders make alike. */
module KnownGraphs {
  import opened Events
  import opened PolyGraphs
  import opened Transactions
  import opened Histories
  import opened Indexes
  import opened Encodings

  /** Adds the order of one session. */
  method AddOneSession(g: PolyGraph, session: seq<nat>)
    requires g.Valid() && ProperSession(g.n, session)
    modifies g
    ensures g.Valid() && g.inserted == old(g.inserted) + SessionOrder(session) && g.pairs == old(g.pairs) && g.sessions == old(g.sessions)
  {
    if |session| > 1 {
      for i := 0 to |session| - 1
        invariant g.Valid() && g.pairs == old(g.pairs) && g.sessions == old(g.sessions)
        invariant g.inserted == old(g.inserted) + FirstOf(session, i)
      {
        assert ProperEdge(g.n, Next(session, i));
        FirstOfGrows(session, i, old(g.inserted));
        g.AddEdge(session[i], session[i + 1], CB);
      }
      assert FirstOf(session, |session| - 1) == SessionOrder(session);
    }
  }

  method AddSessionEdges(g: PolyGraph, sessions: seq<seq<nat>>)
    requires g.Valid() && ProperSessions(g.n, sessions)
    modifies g
    ensures g.Valid() && g.inserted == old(g.inserted) + SessionEdges(sessions) && g.pairs == old(g.pairs) && g.sessions == old(g.sessions)
  {
    for t := 0 to |sessions|
      invariant g.Valid() && g.pairs == old(g.pairs) && g.sessions == old(g.sessions)
      invariant g.inserted == old(g.inserted) + SessionEdges(sessions[..t])
    {
      AddOneSession(g, sessions[t]);
      SessionsGrow(sessions, t);
    }
    assert sessions[..|sessions|] == sessions;
  }

  /** Session order if it is to be obeyed, and T0 before every transaction. */
  method BaseGraph(n: nat, sessions: seq<seq<nat>>, strong: bool, ghost h: History) returns (g: PolyGraph)
    requires n == h.N() >= 1 && sessions == h.sessions && strong == h.strong && ProperSessions(n, sessions)
    ensures fresh(g) && g.Valid() && g.n == n && g.sessions == sessions && g.pairs == {}
    ensures forall e :: e in g.inserted <==> IsBaseEdge(h, e)
    ensures forall e :: e in g.inserted <==>
              (exists i :: 1 <= i < n && e == Edge(0, i, CB)) || (strong && exists t: nat, i: nat :: IsSessionStep(sessions, t, i, e))
  {
    forall e ensures e in SessionEdges(sessions) <==> exists t: nat, i: nat :: IsSessionStep(sessions, t, i, e) {
      SessionEdgesAreSteps(sessions, e);
    }
    g := new PolyGraph(n, sessions);
    if strong {
      AddSessionEdges(g, sessions);
    }
    ghost var sessionEdges := g.inserted;
    for i := 1 to n
      invariant fresh(g) && g.Valid() && g.pairs == {} && g.sessions == sessions
      invariant forall e :: e in g.inserted <==> e in sessionEdges || (e.kind.CB? && e.src == 0 && 1 <= e.dst < i)
    {
      g.AddEdge(0, i, CB);
    }
  }

  /** Everything the builders know while they handle one key and value. */
  ghost predicate ReadsAt(h: History, k: Key, v: Value, readers: set<nat>, writers: set<nat>) {
    && (forall j: nat :: j in readers <==> ReadsValue(h, j, k, v))
    && (forall i: nat :: i in writers <==> WritesValue(h, i, k, v))
  }

  ghost predicate WritersAt(h: History, k: Key, writers: set<nat>) {
    forall i: nat :: i in writers <==> Writes(h, i, k)
  }

  /** From T0 to its readers, and from the readers handled so far to the other writers of the key. */
  ghost predicate IsInitialReadEdge(readers: set<nat>, handled: set<nat>, kWrites: set<nat>, e: Edge) {
    || (e.kind.WR? && e.src == 0 && e.dst in readers)
    || (e.kind.RW? && e.src in handled && e.dst in kWrites && e.dst != e.src)
  }

  method AddInitialReads(g: PolyGraph, ghost h: History, ghost k: Key, readers: set<nat>, kWrites: set<nat>)
    requires g.Valid() && Shaped(h) && g.n == h.N()
    requires (forall j: nat :: j in readers ==> ReadsInitial(h, j, k)) && WritersAt(h, k, kWrites)
    modifies g
    ensures g.Valid() && g.pairs == old(g.pairs) && g.sessions == old(g.sessions)
    ensures forall e :: e in g.inserted <==> e in old(g.inserted) || IsInitialReadEdge(readers, readers, kWrites, e)
  {
    g.AddEdges({0}, readers, WR);
    var todo := readers;
    while todo != {}
      invariant todo <= readers && g.Valid() && g.pairs == old(g.pairs) && g.sessions == old(g.sessions)
      invariant forall e :: e in g.inserted <==> e in old(g.inserted) || IsInitialReadEdge(readers, readers - todo, kWrites, e)
    {
      var j :| j in todo;
      g.AddEdges({j}, kWrites - {j}, RW);
      todo := todo - {j};
    }
  }

  lemma InitialReadEdges(h: History, k: Key, v: Value, readers: set<nat>, kWrites: set<nat>, e: Edge)
    requires Proper(h) && ReadsAt(h, k, v, readers, {}) && WritersAt(h, k, kWrites) && MayBeInitial(h, k, v)
    ensures IsReadEdge(h, k, v, e) <==> IsInitialReadEdge(readers, readers, kWrites, e)
  {
    assert Unwritten(h, k, v);
  }

  /** Adds what one read value of a key makes known; reports a dirty read. */
  method AddReads(g: PolyGraph, h: History, k: Key, v: Value, readers: set<nat>, writers: set<nat>, kWrites: set<nat>)
      returns (dirty: bool)
    requires g.Valid() && Proper(h) && g.n == h.N()
    requires ReadsAt(h, k, v, readers, writers) && WritersAt(h, k, kWrites) && readers != {}
    modifies g
    ensures g.Valid() && g.pairs == old(g.pairs) && g.sessions == old(g.sessions)
    ensures dirty <==> exists j: nat :: ReadsValue(h, j, k, v) && DirtyRead(h, j, k)
    ensures !dirty ==> forall e :: e in g.inserted <==> e in old(g.inserted) || IsReadEdge(h, k, v, e)
  {
    if writers == {} {
      assert Unwritten(h, k, v);
      ghost var j :| j in readers;
      if MayBeInitial(h, k, v) {
        AddInitialReads(g, h, k, readers, kWrites);
        forall e ensures IsReadEdge(h, k, v, e) <==> IsInitialReadEdge(readers, readers, kWrites, e) {
          InitialReadEdges(h, k, v, readers, kWrites, e);
        }
        return false;
      }
      if v != NULL_VALUE {
        assert DirtyRead(h, j, k);
        return true;
      }
      return false;
    }
    ghost var i :| i in writers;
    assert !Unwritten(h, k, v);
    forall e | e in Product(writers, readers, WR) ensures ProperEdge(g.n, e) {
      assert !ReadsFrom(h, e.src, e.src, k);
    }
    g.AddEdges(writers, readers, WR);
    return false;
  }

  // ----- loop bookkeeping shared by the builders

  /** Known edges of the values already handled. */
  ghost predicate IsHandledEdge(h: History, k: Key, todo: set<Value>, e: Edge) {
    exists v :: v !in todo && IsReadEdge(h, k, v, e)
  }

  ghost predicate IsHandledKeyEdge(h: History, todo: set<Key>, e: Edge) {
    exists k, v :: k !in todo && IsReadEdge(h, k, v, e)
  }

  lemma HandledAll(h: History, k: Key, values: map<Value, set<nat>>, extReads: Index<Value>, e: Edge)
    requires IsIndex(extReads, h.extReads) && k in extReads && values == extReads[k]
    ensures !IsHandledEdge(h, k, values.Keys, e)
  {
    forall v | v !in values ensures !IsReadEdge(h, k, v, e) {
      NoReaderNoEdge(h, k, v, extReads, e);
    }
  }

  lemma NoReaderNoEdge(h: History, k: Key, v: Value, extReads: Index<Value>, e: Edge)
    requires IsIndex(extReads, h.extReads) && !(k in extReads && v in extReads[k])
    ensures !IsReadEdge(h, k, v, e)
  {
    assert !Listed(extReads, k, v, e.dst) && !Listed(extReads, k, v, e.src);
    assert !Maps(h.extReads, k, v, e.dst) && !Maps(h.extReads, k, v, e.src);
  }

  lemma NoKeyHandled(h: History, extReads: Index<Value>, e: Edge)
    requires IsIndex(extReads, h.extReads)
    ensures !IsHandledKeyEdge(h, extReads.Keys, e)
  {
    forall k, v | k !in extReads ensures !IsReadEdge(h, k, v, e) {
      NoReaderNoEdge(h, k, v, extReads, e);
    }
  }

  lemma IndexReadsAt(h: History, extReads: Index<Value>, extWrites: Index<Value>, k: Key, v: Value)
    requires Shaped(h) && IsIndex(extReads, h.extReads) && IsIndex(extWrites, h.extWrites) && k in extReads && v in extReads[k]
    ensures ReadsAt(h, k, v, extReads[k][v], GetIn(extWrites, k, v)) && extReads[k][v] != {}
  {
    forall j: nat ensures j in extReads[k][v] <==> ReadsValue(h, j, k, v) {
      assert Listed(extReads, k, v, j) <==> Maps(h.extReads, k, v, j);
    }
    forall i: nat ensures i in GetIn(extWrites, k, v) <==> WritesValue(h, i, k, v) {
      assert Listed(extWrites, k, v, i) <==> Maps(h.extWrites, k, v, i);
    }
  }

  method WritersOfKey(h: History, extWrites: Index<Value>, k: Key) returns (ws: set<nat>)
    requires Shaped(h) && IsIndex(extWrites, h.extWrites)
    ensures WritersAt(h, k, ws)
  {
    ws := KWrites(extWrites, k);
    forall i: nat ensures i in ws <==> Writes(h, i, k) {
      if Writes(h, i, k) {
        assert Maps(h.extWrites, k, h.extWrites[i][k], i);
        assert Listed(extWrites, k, h.extWrites[i][k], i);
      } else {
        assert forall v :: !Maps(h.extWrites, k, v, i);
      }
    }
  }
}
