/** The append builder's polygraph: edges for every observed value, writers combined along the inferred
    successions, and one constraint for every two chains of a key. */
module AppendConstruction {
  import opened Digraph
  import opened Events
  import opened PolyGraphs
  import opened Transactions
  import opened Histories
  import opened Indexes
  import opened Encodings
  import opened Chains
  import opened ChainSchedules
  import opened ChainEncodings
  import opened KnownGraphs
  import opened ChainBuilder
  import opened AppendHistories
  import opened AppendBuilder
  import opened AppendEncodings
  import opened Sets
  import opened Wrappers

  // ----- edges for one observed value of a key

  ghost predicate AppendWritersAt(h: AppendHistory, k: Key, kWrites: set<nat>) {
    forall i: nat :: i in kWrites <==> AppendsTo(h, i, k)
  }

  ghost predicate ObservedAt(h: AppendHistory, k: Key, o: Observed, readers: set<nat>) {
    forall j: nat :: j in readers <==> Maps(h.observed, k, o, j)
  }

  /** The edges that observing a list demands: from the writer of its last element to the readers, and from the readers
      to the transactions that append what it does not show. */
  ghost predicate IsListEdge(h: AppendHistory, k: Key, list: seq<Elem>, e: Edge) {
    || (e.kind.WR? && Observes(h, e.dst, k, list) && EndsWith(h, k, list, e.src))
    || (e.kind.RW? && e.src != e.dst && Observes(h, e.src, k, list) && AppendsMore(h, e.dst, k, list) && !EndsWith(h, k, list, e.dst))
  }

  ghost predicate IsMissingEdge(h: AppendHistory, k: Key, e: Edge) {
    || (e.kind.WR? && e.src == 0 && ReadsMissing(h, e.dst, k))
    || (e.kind.RW? && ReadsMissing(h, e.src, k) && AppendsTo(h, e.dst, k) && e.src != e.dst)
  }

  ghost predicate IsObservedEdge(h: AppendHistory, k: Key, o: Observed, e: Edge) {
    match o
    case Missing => IsMissingEdge(h, k, e)
    case Elems(list) => IsListEdge(h, k, list, e)
  }

  /** Whether a transaction appends something that the list does not show. */
  method FindMore(h: AppendHistory, w: nat, k: Key, list: seq<Elem>) returns (more: bool)
    requires 1 <= w < |h.appended|
    ensures more <==> AppendsMore(h, w, k, list)
  {
    var ops := h.appended[w];
    for m := 0 to |ops|
      invariant forall e :: (k, e) in ops[..m] ==> e in list
    {
      if ops[m].0 == k && ops[m].1 !in list {
        assert Appends(h, w, k, ops[m].1);
        return true;
      }
      assert forall e :: (k, e) in ops[..m + 1] ==> (k, e) in ops[..m] || (k, e) == ops[m];
    }
    assert ops[..|ops|] == ops;
    return false;
  }

  /** From one reader of a list to the transactions that append what it does not show. */
  method AddMissedOf(g: PolyGraph, h: AppendHistory, k: Key, list: seq<Elem>, a: nat, j: nat, kWrites: set<nat>)
    requires g.Valid() && ProperAppends(h) && g.n == |h.appended| && Observes(h, j, k, list) && EndsWith(h, k, list, a)
    requires AppendWritersAt(h, k, kWrites)
    modifies g
    ensures g.Valid() && g.sessions == old(g.sessions)
    ensures forall e :: e in g.inserted <==> e in old(g.inserted) || (e.kind.RW? && e.src == j && IsListEdge(h, k, list, e))
  {
    var todo := kWrites - {j, a};
    assert forall e :: AppendsMore(h, e, k, list) ==> AppendsTo(h, e, k);
    while todo != {}
      invariant todo <= kWrites - {j, a} && g.Valid() && g.sessions == old(g.sessions)
      invariant forall e :: e in g.inserted <==> e in old(g.inserted) || (e.kind.RW? && e.src == j && e.dst !in todo && IsListEdge(h, k, list, e))
    {
      var w :| w in todo;
      var more := FindMore(h, w, k, list);
      if more {
        assert IsListEdge(h, k, list, Edge(j, w, RW));
        g.AddEdge(j, w, RW);
      }
      todo := todo - {w};
    }
  }

  method AddListEdges(g: PolyGraph, h: AppendHistory, k: Key, list: seq<Elem>, a: nat, readers: set<nat>, kWrites: set<nat>)
      returns (own: bool)
    requires g.Valid() && ProperAppends(h) && g.n == |h.appended| && EndsWith(h, k, list, a)
    requires ObservedAt(h, k, Elems(list), readers) && AppendWritersAt(h, k, kWrites)
    modifies g
    ensures g.Valid() && g.sessions == old(g.sessions)
    ensures own <==> a in readers
    ensures !own ==> forall e :: e in g.inserted <==> e in old(g.inserted) || IsListEdge(h, k, list, e)
  {
    if a in readers {
      return true;
    }
    g.AddEdges({a}, readers, WR);
    var todo := readers;
    while todo != {}
      invariant todo <= readers && g.Valid() && g.sessions == old(g.sessions)
      invariant forall e :: e in g.inserted <==>
                              e in old(g.inserted) || (IsListEdge(h, k, list, e) && (e.kind.WR? || e.src !in todo))
    {
      var j :| j in todo;
      assert Observes(h, j, k, list);
      AddMissedOf(g, h, k, list, a, j, kWrites);
      todo := todo - {j};
    }
    return false;
  }

  method AddObservedEdges(g: PolyGraph, h: AppendHistory, k: Key, o: Observed, readers: set<nat>, kWrites: set<nat>, idx: Index<Elem>, rf: ReadFrom)
      returns (own: bool, r: ReadFrom)
    requires g.Valid() && ProperAppends(h) && !HasUnknownTail(h) && g.n == |h.appended| && IsElemIndex(h, idx)
    requires ObservedAt(h, k, o, readers) && readers != {} && AppendWritersAt(h, k, kWrites)
    modifies g
    ensures g.Valid() && g.sessions == old(g.sessions)
    ensures own ==> ReadsOwnTail(h)
    ensures !own ==> forall j: nat :: Maps(h.observed, k, o, j) ==> !ReadsTailOf(h, j, j, k)
    ensures !own ==> forall e :: e in g.inserted <==> e in old(g.inserted) || IsObservedEdge(h, k, o, e)
    ensures !own ==> forall q, x: nat, j: nat ::
                       Recorded(r, q, x, j) <==> Recorded(rf, q, x, j) || (q == k && j in readers && IsAppendReader(h, k, x, j))
  {
    r := rf;
    ghost var some :| some in readers;
    match o {
      case Missing =>
        AddMissingEdges(g, h, k, readers, kWrites);
        r := Record(rf, k, 0, readers);
        own := false;
      case Elems(list) =>
        assert Observes(h, some, k, list) && KnownTail(h, k, list);
        var a := WriterOf(h, idx, k, list[|list| - 1]);
        own := AddListEdges(g, h, k, list, a, readers, kWrites);
        if own {
          assert Observes(h, a, k, list) && EndsWith(h, k, list, a);
          assert ReadsTailOf(h, a, a, k);
          return;
        }
        r := Record(rf, k, a, readers);
        forall x: nat, j: nat | j in readers ensures IsAppendReader(h, k, x, j) <==> x == a {
          assert Observes(h, j, k, list) && EndsWith(h, k, list, a);
        }
    }
  }

  /** j read x's version of k, the initial one if x is 0. */
  ghost predicate IsAppendReader(h: AppendHistory, k: Key, x: nat, j: nat) {
    if x == 0 then ReadsMissing(h, j, k) else ReadsTailOf(h, j, x, k)
  }

  method AddMissingEdges(g: PolyGraph, h: AppendHistory, k: Key, readers: set<nat>, kWrites: set<nat>)
    requires g.Valid() && ProperAppends(h) && !HasUnknownTail(h) && g.n == |h.appended|
    requires ObservedAt(h, k, Missing, readers) && AppendWritersAt(h, k, kWrites)
    modifies g
    ensures g.Valid() && g.sessions == old(g.sessions)
    ensures forall e :: e in g.inserted <==> e in old(g.inserted) || IsMissingEdge(h, k, e)
  {
    ghost var v := Versions(h);
    forall j: nat | j in readers ensures ReadsInitial(v, j, k) {
      VersionsRead(h, j, 0, k);
    }
    forall i: nat ensures i in kWrites <==> Writes(v, i, k) {
      VersionsWrite(h, i, k);
    }
    AddInitialReads(g, v, k, readers, kWrites);
  }

  // ----- all observed values

  method WritersOfLists(h: AppendHistory, idx: Index<Elem>, k: Key) returns (ws: set<nat>)
    requires IsElemIndex(h, idx)
    ensures AppendWritersAt(h, k, ws)
  {
    ws := KWrites(idx, k);
    forall i: nat ensures i in ws <==> AppendsTo(h, i, k) {
      if i in ws {
        var e :| Listed(idx, k, e, i);
        assert Appends(h, i, k, e);
      }
      if e :| Appends(h, i, k, e) {
        assert Listed(idx, k, e, i);
      }
    }
  }

  /** Edges of the values of one key handled so far. */
  ghost predicate IsHandledObserved(h: AppendHistory, k: Key, todo: set<Observed>, e: Edge) {
    exists o :: o !in todo && IsObservedEdge(h, k, o, e)
  }

  ghost predicate ObservationHandled(h: AppendHistory, k: Key, todo: set<Observed>, j: nat) {
    1 <= j < |h.observed| && k in h.observed[j] && h.observed[j][k] !in todo
  }

  lemma NothingHandledYet(h: AppendHistory, k: Key, values: map<Observed, set<nat>>, extReads: Index<Observed>, e: Edge)
    requires IsIndex(extReads, h.observed) && k in extReads && values == extReads[k]
    ensures !IsHandledObserved(h, k, values.Keys, e)
  {
    forall o | o !in values ensures !IsObservedEdge(h, k, o, e) {
      UnobservedHasNoEdge(h, k, o, extReads, e);
    }
  }

  lemma UnobservedHasNoEdge(h: AppendHistory, k: Key, o: Observed, extReads: Index<Observed>, e: Edge)
    requires IsIndex(extReads, h.observed) && !(k in extReads && o in extReads[k])
    ensures !IsObservedEdge(h, k, o, e)
  {
    assert !Listed(extReads, k, o, e.dst) && !Listed(extReads, k, o, e.src);
    assert !Maps(h.observed, k, o, e.dst) && !Maps(h.observed, k, o, e.src);
  }

  method AddKeyEdges(g: PolyGraph, h: AppendHistory, k: Key, extReads: Index<Observed>, idx: Index<Elem>, rf: ReadFrom)
      returns (own: bool, r: ReadFrom)
    requires g.Valid() && ProperAppends(h) && !HasUnknownTail(h) && g.n == |h.appended| && IsElemIndex(h, idx)
    requires IsIndex(extReads, h.observed) && k in extReads
    modifies g
    ensures g.Valid() && g.sessions == old(g.sessions)
    ensures own ==> ReadsOwnTail(h)
    ensures !own ==> forall j: nat :: !ReadsTailOf(h, j, j, k)
    ensures !own ==> forall e :: e in g.inserted <==> e in old(g.inserted) || exists o :: IsObservedEdge(h, k, o, e)
    ensures !own ==> forall q, x: nat, j: nat :: Recorded(r, q, x, j) <==> Recorded(rf, q, x, j) || (q == k && IsAppendReader(h, k, x, j))
  {
    r := rf;
    var kWrites := WritersOfLists(h, idx, k);
    var values := extReads[k];
    var todo := values.Keys;
    forall e ensures !IsHandledObserved(h, k, todo, e) {
      NothingHandledYet(h, k, values, extReads, e);
    }
    forall j: nat, o | Maps(h.observed, k, o, j) ensures o in values {
      assert Listed(extReads, k, o, j);
    }
    while todo != {}
      invariant todo <= values.Keys && g.Valid() && g.sessions == old(g.sessions)
      invariant forall e :: e in g.inserted <==> e in old(g.inserted) || IsHandledObserved(h, k, todo, e)
      invariant forall j: nat :: ReadsTailOf(h, j, j, k) ==> h.observed[j][k] in todo
      invariant forall q, x: nat, j: nat :: Recorded(r, q, x, j) <==> Recorded(rf, q, x, j) || (q == k && IsAppendReader(h, k, x, j) && ObservationHandled(h, k, todo, j))
    {
      var o := Pick(todo);
      assert ObservedAt(h, k, o, values[o]) by {
        assert forall j: nat :: j in values[o] <==> Listed(extReads, k, o, j);
      }
      own, r := AddObservedEdges(g, h, k, o, values[o], kWrites, idx, r);
      if own {
        return;
      }
      forall e ensures IsHandledObserved(h, k, todo - {o}, e) <==> IsHandledObserved(h, k, todo, e) || IsObservedEdge(h, k, o, e) {
      }
      todo := todo - {o};
    }
    assert forall e :: IsHandledObserved(h, k, {}, e) <==> exists o :: IsObservedEdge(h, k, o, e);
    assert forall x: nat, j: nat :: IsAppendReader(h, k, x, j) ==> ObservationHandled(h, k, {}, j);
    own := false;
  }

  ghost predicate IsHandledObservedKey(h: AppendHistory, todo: set<Key>, e: Edge) {
    exists k, o :: k !in todo && IsObservedEdge(h, k, o, e)
  }

  /** All edges that single observations demand, added to the base graph, and who read which version;
      stops at a transaction that read a list ending with an element of its own. */
  method AddAllObserved(g: PolyGraph, h: AppendHistory, extReads: Index<Observed>, idx: Index<Elem>) returns (own: bool, rf: ReadFrom)
    requires g.Valid() && ProperAppends(h) && !HasUnknownTail(h) && g.n == |h.appended| && IsElemIndex(h, idx)
    requires IsIndex(extReads, h.observed)
    modifies g
    ensures g.Valid() && g.sessions == old(g.sessions)
    ensures own <==> ReadsOwnTail(h)
    ensures !own ==> forall e :: e in g.inserted <==> e in old(g.inserted) || exists k, o :: IsObservedEdge(h, k, o, e)
    ensures !own ==> forall k, x: nat, j: nat :: Recorded(rf, k, x, j) <==> IsAppendReader(h, k, x, j)
  {
    rf := map[];
    var todo := extReads.Keys;
    forall e ensures !IsHandledObservedKey(h, todo, e) {
      forall k, o | k !in extReads ensures !IsObservedEdge(h, k, o, e) {
        UnobservedHasNoEdge(h, k, o, extReads, e);
      }
    }
    forall j: nat, k, o | Maps(h.observed, k, o, j) ensures k in extReads {
      assert Listed(extReads, k, o, j);
    }
    while todo != {}
      invariant todo <= extReads.Keys && g.Valid() && g.sessions == old(g.sessions)
      invariant forall e :: e in g.inserted <==> e in old(g.inserted) || IsHandledObservedKey(h, todo, e)
      invariant forall j: nat, k :: ReadsTailOf(h, j, j, k) ==> k in todo
      invariant forall k, x: nat, j: nat :: Recorded(rf, k, x, j) <==> IsAppendReader(h, k, x, j) && k !in todo
    {
      var k := Pick(todo);
      own, rf := AddKeyEdges(g, h, k, extReads, idx, rf);
      if own {
        return;
      }
      forall e ensures IsHandledObservedKey(h, todo - {k}, e) <==> IsHandledObservedKey(h, todo, e) || exists o :: IsObservedEdge(h, k, o, e) {
      }
      todo := todo - {k};
    }
    own := false;
  }

  lemma ObservedEdgesAreKnown(h: AppendHistory, e: Edge)
    requires ProperAppends(h) && !HasUnknownTail(h)
    ensures (exists k, o :: IsObservedEdge(h, k, o, e)) <==> (exists k, v :: IsReadEdge(Versions(h), k, v, e)) || IsMissed(h, e)
  {
    var v := Versions(h);
    if k, o :| IsObservedEdge(h, k, o, e) {
      VersionsRead(h, e.dst, e.src, k);
      VersionsRead(h, e.src, 0, k);
      VersionsWrite(h, e.dst, k);
      if e.kind.WR? {
        assert o.Elems? ==> ReadsTailOf(h, e.dst, e.src, k);
        assert IsReadEdge(v, k, v.extReads[e.dst][k], e);
      } else if o.Missing? {
        assert IsReadEdge(v, k, v.extReads[e.src][k], e);
      }
    }
    if k, x :| IsReadEdge(v, k, x, e) {
      VersionsRead(h, e.dst, e.src, k);
      VersionsRead(h, e.src, 0, k);
      VersionsWrite(h, e.dst, k);
      if e.kind.WR? && ReadsFrom(v, e.dst, e.src, k) {
        var list :| Observes(h, e.dst, k, list) && EndsWith(h, k, list, e.src);
        assert IsObservedEdge(h, k, Elems(list), e);
      } else {
        assert IsObservedEdge(h, k, Missing, e);
      }
    }
    if IsMissed(h, e) {
      var k, list :| Observes(h, e.src, k, list) && AppendsMore(h, e.dst, k, list) && !EndsWith(h, k, list, e.dst);
      assert IsObservedEdge(h, k, Elems(list), e);
    }
  }

  // ----- combining writers along inferred successions

  ghost predicate CommonSuccessor(ww: Successions, k: Key, a: nat, b: nat) {
    a != b && (k, a) in ww && (k, b) in ww && ww[(k, a)] == ww[(k, b)]
  }

  method TryFindByFirst(cs: set<Chain>, x: nat) returns (c: Option<Chain>)
    requires forall d :: d in cs ==> d != []
    ensures c.Some? ==> c.value in cs && c.value[0] == x
    ensures c.None? ==> forall d :: d in cs ==> d[0] != x
  {
    var todo := cs;
    while todo != {}
      invariant todo <= cs && forall d :: d in cs && d !in todo ==> d[0] != x
    {
      var d :| d in todo;
      if d[0] == x {
        return Some(d);
      }
      todo := todo - {d};
    }
    return None;
  }

  /** A writer that starts no chain follows another one already. */
  lemma FollowsAnother(cs: set<Chain>, writers: set<nat>, ww: Successions, todo: set<(Key, nat)>, k: Key, a: nat)
    requires KeyChained(cs, writers, ww, todo, k) && KeyJoined(writers, ww, k) && (k, a) in todo && (k, a) in ww
    requires forall d :: d in cs ==> d[0] != ww[(k, a)]
    ensures exists b :: CommonSuccessor(ww, k, a, b)
  {
    var x := ww[(k, a)];
    assert InSomeChain(cs, x);
    var c :| c in cs && x in c;
    var p :| 0 <= p < |c| && c[p] == x;
    ChainStepIsSuccession(cs, writers, ww, todo, k, c, p - 1);
    assert CommonSuccessor(ww, k, a, c[p - 1]);
  }

  /** In finished chains no writer follows two others. */
  lemma ChainedHasNoCommonSuccessor(chains: map<Key, set<Chain>>, writers: map<Key, set<nat>>, ww: Successions, k: Key, a: nat, b: nat)
    requires JoinsWriters(writers, ww) && Chained(chains, writers, ww, {})
    ensures !CommonSuccessor(ww, k, a, b)
  {
    if CommonSuccessor(ww, k, a, b) {
      assert KeyChained(chains[k], writers[k], ww, {}, k);
      PredecessorIsUnique(chains[k], writers[k], ww, k, a, b, ww[(k, a)]);
    }
  }

  lemma PredecessorIsUnique(cs: set<Chain>, writers: set<nat>, ww: Successions, k: Key, a: nat, b: nat, x: nat)
    requires KeyChained(cs, writers, ww, {}, k) && IsSuccession(ww, {}, k, a, x) && IsSuccession(ww, {}, k, b, x)
    ensures a == b
  {
    assert AdjacentInSome(cs, a, x) && AdjacentInSome(cs, b, x);
    var c, p: nat :| c in cs && Adjacent(c, p, a, x);
    var d, q: nat :| d in cs && Adjacent(d, q, b, x);
    assert c[p + 1] in c && d[q + 1] in d;
    assert c == d && Distinct(c);
    assert p == q;
  }

  /** Works off the successions in any order, without a test for a circle: where one closes, the second removal
      of the same chain fails; where two lead to one writer, no chain starts with it. */
  method CombineAppends(singles: map<Key, set<Chain>>, ghost writers: map<Key, set<nat>>, ww: Successions)
      returns (chains: Option<map<Key, set<Chain>>>)
    requires JoinsWriters(writers, ww) && Chained(singles, writers, ww, ww.Keys)
    ensures chains.Some? ==> Chained(chains.value, writers, ww, {})
    ensures chains.None? <==> (exists k, p :: SuccessionCycle(ww, k, p)) || (exists k, a: nat, b: nat :: CommonSuccessor(ww, k, a, b))
  {
    var now := singles;
    var todo := ww.Keys;
    while todo != {}
      invariant todo <= ww.Keys && Chained(now, writers, ww, todo)
    {
      var q :| q in todo;
      var (k, a) := q;
      HasChainToExtend(now, writers, ww, todo, q);
      var c := FindByLast(now[k], a);
      var d := TryFindByFirst(now[k], ww[q]);
      if d.None? {
        FollowsAnother(now[k], writers[k], ww, todo, k, a);
        return None;
      }
      var without := now[k] - {c};
      if d.value !in without {
        ClosingChainIsCycle(now[k], writers[k], ww, todo, k, c);
        return None;
      }
      CombineStep(now, writers, ww, todo, q, c, d.value);
      todo := todo - {q};
      now := now[k := without - {d.value} + {c + d.value}];
    }
    forall k, p ensures !SuccessionCycle(ww, k, p) {
      ChainedHasNoCycle(now, writers, ww, k, p);
    }
    forall k, a: nat, b: nat ensures !CommonSuccessor(ww, k, a, b) {
      ChainedHasNoCommonSuccessor(now, writers, ww, k, a, b);
    }
    return Some(now);
  }

  ghost predicate SuccessionsAreDemands(h: AppendHistory, ww: Successions) {
    forall k, a: nat, b: nat :: IsSuccession(ww, {}, k, a, b) <==> Demands(h, k, a, b)
  }

  /** Combining fails exactly when the lists demand a circle of versions or two to come right before a third. */
  lemma CombiningFailsOnDemands(h: AppendHistory, ww: Successions)
    requires SuccessionsAreDemands(h, ww)
    ensures (exists k, p :: SuccessionCycle(ww, k, p)) <==> HasDemandCircle(h)
    ensures (exists k, a: nat, b: nat :: CommonSuccessor(ww, k, a, b)) <==> HasCommonSuccessor(h)
  {
    forall k, p ensures SuccessionCycle(ww, k, p) <==> DemandCircle(h, k, p) {
      CircleOfDemands(h, ww, k, p);
    }
    if k, a: nat, b: nat :| CommonSuccessor(ww, k, a, b) {
      assert IsSuccession(ww, {}, k, a, ww[(k, a)]) && IsSuccession(ww, {}, k, b, ww[(k, a)]);
    }
    if k, a: nat, b: nat, c: nat :| Demands(h, k, a, c) && Demands(h, k, b, c) && a != b {
      assert IsSuccession(ww, {}, k, a, c) && IsSuccession(ww, {}, k, b, c);
      assert CommonSuccessor(ww, k, a, b);
    }
  }

  lemma CircleOfDemands(h: AppendHistory, ww: Successions, k: Key, p: seq<nat>)
    requires SuccessionsAreDemands(h, ww)
    ensures SuccessionCycle(ww, k, p) <==> DemandCircle(h, k, p)
  {
    if SuccessionCycle(ww, k, p) {
      forall t: nat | t + 1 < |p| ensures DemandedAt(h, k, p, t) {
        assert IsSuccession(ww, {}, k, p[t], p[t + 1]);
      }
    }
    if DemandCircle(h, k, p) {
      forall t | 0 <= t < |p| - 1 ensures (k, p[t]) in ww && ww[(k, p[t])] == p[t + 1] {
        assert DemandedAt(h, k, p, t);
        assert IsSuccession(ww, {}, k, p[t], p[t + 1]);
      }
    }
  }

  // ----- the whole construction

  ghost predicate AppendWriterSets(h: AppendHistory, writers: map<Key, set<nat>>) {
    && (forall k, i: nat :: AppendsTo(h, i, k) ==> k in writers)
    && (forall k :: k in writers ==> AppendWritersAt(h, k, writers[k]))
  }

  method SingleAppends(h: AppendHistory, idx: Index<Elem>, ghost ww: Successions)
      returns (chains: map<Key, set<Chain>>, ghost writers: map<Key, set<nat>>)
    requires IsElemIndex(h, idx)
    ensures AppendWriterSets(h, writers) && Chained(chains, writers, ww, ww.Keys)
  {
    chains, writers := map[], map[];
    var todo := idx.Keys;
    while todo != {}
      invariant todo <= idx.Keys && forall k :: k in writers <==> k in idx && k !in todo
      invariant forall k :: k in writers ==> AppendWritersAt(h, k, writers[k])
      invariant Chained(chains, writers, ww, ww.Keys)
    {
      var k := Pick(todo);
      todo := todo - {k};
      var ws := WritersOfLists(h, idx, k);
      SinglesAreChained(ws, ww, k);
      chains := chains[k := Singles(ws)];
      writers := writers[k := ws];
    }
    forall k, i: nat | AppendsTo(h, i, k) ensures k in writers {
      var e :| Appends(h, i, k, e);
      assert Listed(idx, k, e, i);
    }
  }

  lemma DemandsJoinSets(h: AppendHistory, writers: map<Key, set<nat>>, ww: Successions)
    requires AppendWriterSets(h, writers) && SuccessionsAreDemands(h, ww)
    ensures JoinsWriters(writers, ww)
  {
    forall q | q in ww ensures q.0 in writers && q.1 in writers[q.0] && ww[q] in writers[q.0] {
      assert q == (q.0, q.1);
      assert IsSuccession(ww, {}, q.0, q.1, ww[q]);
      DemandsJoinWriters(h, q.0, q.1, ww[q]);
    }
    forall k | k in writers ensures KeyJoined(writers[k], ww, k) {
      assert forall a :: (k, a) in ww ==> (k, a).1 in writers[(k, a).0] && ww[(k, a)] in writers[(k, a).0];
    }
  }

  lemma CombinedAppends(h: AppendHistory, chains: map<Key, set<Chain>>, writers: map<Key, set<nat>>, ww: Successions)
    requires ProperAppends(h) && !HasUnknownTail(h)
    requires AppendWriterSets(h, writers) && SuccessionsAreDemands(h, ww) && Chained(chains, writers, ww, {})
    ensures AppendChainsOf(h, chains)
  {
    var v := Versions(h);
    forall k, x: nat ensures Writes(v, x, k) <==> AppendsTo(h, x, k) {
      VersionsWrite(h, x, k);
    }
    forall k | k in chains
      ensures KeyChains(v, k, chains[k]) && forall a: nat, b: nat :: AdjacentInSome(chains[k], a, b) <==> Demands(h, k, a, b)
    {
      assert KeyChained(chains[k], writers[k], ww, {}, k) && AppendWritersAt(h, k, writers[k]);
      forall a: nat, b: nat ensures AdjacentInSome(chains[k], a, b) <==> Demands(h, k, a, b) {
        assert IsSuccession(ww, {}, k, a, b) <==> Demands(h, k, a, b);
      }
      forall a: nat, b: nat | Overwrites(v, b, a, k) ensures Demands(h, k, a, b) {
        OverwritesAreDemanded(h, k, a, b);
      }
    }
  }

  lemma OverwritesAreDemanded(h: AppendHistory, k: Key, a: nat, b: nat)
    requires ProperAppends(h) && !HasUnknownTail(h) && Overwrites(Versions(h), b, a, k)
    ensures Demands(h, k, a, b)
  {
    VersionsRead(h, b, a, k);
    VersionsWrite(h, b, k);
    var list :| Observes(h, b, k, list) && EndsWith(h, k, list, a);
    assert ListDemands(h, k, list, a, b);
  }

  lemma NextVersionsAreInferred(h: AppendHistory, chains: map<Key, set<Chain>>, e: Edge)
    requires ProperAppends(h) && !HasUnknownTail(h) && AppendChainsOf(h, chains)
    ensures IsNextVersion(h, e) <==> exists k :: k in chains && InferredIn(Versions(h), k, chains[k], e)
  {
    var v := Versions(h);
    if IsNextVersion(h, e) {
      var a: nat, k :| Demands(h, k, a, e.dst) && ReadsTailOf(h, e.src, a, k);
      DemandsJoinWriters(h, k, a, e.dst);
      VersionsWrite(h, a, k);
      assert AdjacentInSome(chains[k], a, e.dst);
      var c, p: nat :| c in chains[k] && Adjacent(c, p, a, e.dst);
      VersionsRead(h, e.src, a, k);
      assert InferredAt(v, k, c, p, e);
    }
    if k :| k in chains && InferredIn(v, k, chains[k], e) {
      var c, p: nat :| c in chains[k] && InferredAt(v, k, c, p, e);
      assert Adjacent(c, p, c[p], e.dst);
      assert AdjacentInSome(chains[k], c[p], e.dst);
      VersionsRead(h, e.src, c[p], k);
    }
  }

  /** Builds the append polygraph, or stops: at a rejection, or where the program fails an assertion or a removal. */
  method ConstructAppends(h: AppendHistory) returns (encoding: Option<(PolyGraph, set<Constraint>)>, ghost chains: map<Key, set<Chain>>)
    requires ProperAppends(h) && ProperSessions(|h.appended|, h.sessions)
    ensures encoding.None? <==> Refused(h)
    ensures encoding.Some? ==> encoding.value.0.Valid() && encoding.value.0.n == |h.appended| && encoding.value.0.sessions == h.sessions
    ensures encoding.Some? ==> AppendEncodingOf(h, chains, encoding.value.0.inserted, encoding.value.1)
  {
    chains := map[];
    ghost var v := Versions(h);
    var idx := IndexAppends(h);
    var extReads := ExtIndex(h.observed);
    var g := BaseGraph(|h.appended|, h.sessions, h.strong, v);
    var ww := InferVersionOrder(h, extReads, idx);
    if ww.None? {
      return None, chains;
    }
    var own, rf := AddAllObserved(g, h, extReads, idx);
    if own {
      return None, chains;
    }
    ghost var observed := g.inserted;
    var singles, writers := SingleAppends(h, idx, ww.value);
    DemandsJoinSets(h, writers, ww.value);
    var combined := CombineAppends(singles, writers, ww.value);
    CombiningFailsOnDemands(h, ww.value);
    if combined.None? {
      return None, chains;
    }
    chains := combined.value;
    CombinedAppends(h, chains, writers, ww.value);
    VersionsAreProper(h);
    ReadersAreKnown(h, rf);
    InferRwEdges(g, v, combined.value, rf);
    var conn := AllConstraints(v, combined.value, rf);
    KnownOfConstruction(h, chains, observed, g.inserted);
    ConflictFree(h, ww.value);
    return Some((g, conn)), chains;
  }

  lemma ConflictFree(h: AppendHistory, ww: Successions)
    requires SuccessionsAreDemands(h, ww)
    ensures !HasConflict(h)
  {
    forall k, a: nat, b: nat, c: nat | Demands(h, k, a, b) && Demands(h, k, a, c) ensures b == c {
      assert IsSuccession(ww, {}, k, a, b) && IsSuccession(ww, {}, k, a, c);
    }
  }

  lemma ReadersAreKnown(h: AppendHistory, rf: ReadFrom)
    requires ProperAppends(h) && !HasUnknownTail(h)
    requires forall k, x: nat, j: nat :: Recorded(rf, k, x, j) <==> IsAppendReader(h, k, x, j)
    ensures ReadersKnown(Versions(h), rf)
  {
    forall k, x: nat, j: nat ensures Recorded(rf, k, x, j) <==> IsReader(Versions(h), k, x, j) {
      VersionsRead(h, j, x, k);
    }
  }

  lemma KnownOfConstruction(h: AppendHistory, chains: map<Key, set<Chain>>, observed: set<Edge>, known: set<Edge>)
    requires ProperAppends(h) && !HasUnknownTail(h) && AppendChainsOf(h, chains)
    requires forall e :: e in observed <==> IsBaseEdge(Versions(h), e) || exists k, o :: IsObservedEdge(h, k, o, e)
    requires forall e :: e in known <==> e in observed || exists k :: k in chains && InferredIn(Versions(h), k, chains[k], e)
    ensures AppendKnownOf(h, known)
  {
    forall e ensures e in known <==> IsKnown(Versions(h), e) || IsMissed(h, e) || IsNextVersion(h, e) {
      ObservedEdgesAreKnown(h, e);
      NextVersionsAreInferred(h, chains, e);
    }
  }
}
