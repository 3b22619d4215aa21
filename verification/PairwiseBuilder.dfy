/** The plain builder: known edges, and a pair of alternative edges for every reader of a version
    with another writer of the key, and for every two writers of a key. */
module PairwiseBuilder {
  import opened Digraph
  import opened Events
  import opened Solver
  import opened PolyGraphs
  import opened Transactions
  import opened Histories
  import opened Indexes
  import opened Encodings
  import opened KnownGraphs
  import opened Checkers
  import opened Sets
  import opened Wrappers

  /** Every pair is an alternative of the history, and none is recorded in both orders. */
  ghost predicate PairsSound(h: History, pairs: set<(Edge, Edge)>) {
    Unmirrored(pairs) &&
    forall p :: p in pairs ==> IsAlternative(h, AsConstraint(p)) || IsAlternative(h, Swap(AsConstraint(p)))
  }

  ghost predicate HasReadPair(pairs: set<(Edge, Edge)>, i: nat, j: nat, w: nat) {
    (Edge(w, i, WW), Edge(j, w, RW)) in pairs || (Edge(j, w, RW), Edge(w, i, WW)) in pairs
  }

  ghost predicate HasWritePair(pairs: set<(Edge, Edge)>, i: nat, j: nat) {
    (Edge(i, j, WW), Edge(j, i, WW)) in pairs || (Edge(j, i, WW), Edge(i, j, WW)) in pairs
  }

  /** Pairs for one reader of a version: every other writer of the key is before the version or after the reader. */
  method AddReaderPairs(g: PolyGraph, h: History, k: Key, i: nat, j: nat, kWrites: set<nat>)
    requires g.Valid() && Proper(h) && PairsSound(h, g.pairs) && ReadsFrom(h, j, i, k) && WritersAt(h, k, kWrites)
    modifies g`pairs
    ensures g.Valid() && old(g.pairs) <= g.pairs && PairsSound(h, g.pairs)
    ensures forall w: nat :: IsReadAlternative(h, k, i, j, w) ==> HasReadPair(g.pairs, i, j, w)
  {
    var todo := kWrites - {i, j};
    while todo != {}
      invariant todo <= kWrites - {i, j} && g.Valid() && old(g.pairs) <= g.pairs && PairsSound(h, g.pairs)
      invariant forall w: nat :: IsReadAlternative(h, k, i, j, w) && w !in todo ==> HasReadPair(g.pairs, i, j, w)
    {
      var w :| w in todo;
      todo := todo - {w};
      ghost var before := g.pairs;
      assert IsReadAlternative(h, k, i, j, w);
      assert AsConstraint((Edge(w, i, WW), Edge(j, w, RW))) == ReadAlternative(i, j, w);
      g.AddEdgePair(Edge(w, i, WW), Edge(j, w, RW));
      assert forall x: nat :: HasReadPair(before, i, j, x) ==> HasReadPair(g.pairs, i, j, x);
    }
  }

  method AddVersionPairs(g: PolyGraph, h: History, k: Key, v: Value, readers: set<nat>, writers: set<nat>, kWrites: set<nat>)
    requires g.Valid() && Proper(h) && PairsSound(h, g.pairs) && ReadsAt(h, k, v, readers, writers) && WritersAt(h, k, kWrites)
    modifies g`pairs
    ensures g.Valid() && old(g.pairs) <= g.pairs && PairsSound(h, g.pairs)
    ensures forall i: nat, j: nat, w: nat :: IsReadAlternative(h, k, i, j, w) && h.extReads[j][k] == v ==> HasReadPair(g.pairs, i, j, w)
  {
    if writers == {} {
      assert forall m: nat, j: nat :: ReadsFrom(h, j, m, k) && h.extReads[j][k] == v ==> WritesValue(h, m, k, v);
      return;
    }
    var i :| i in writers;
    assert forall m: nat :: m in writers ==> m == i;
    var todo := readers;
    while todo != {}
      invariant todo <= readers && g.Valid() && old(g.pairs) <= g.pairs && PairsSound(h, g.pairs)
      invariant forall j: nat, w: nat :: IsReadAlternative(h, k, i, j, w) && j in readers && j !in todo ==> HasReadPair(g.pairs, i, j, w)
    {
      var j :| j in todo;
      todo := todo - {j};
      ghost var before := g.pairs;
      AddReaderPairs(g, h, k, i, j, kWrites);
      assert forall y: nat, x: nat :: HasReadPair(before, i, y, x) ==> HasReadPair(g.pairs, i, y, x);
    }
    forall m: nat, j: nat, w: nat | IsReadAlternative(h, k, m, j, w) && h.extReads[j][k] == v ensures HasReadPair(g.pairs, m, j, w) {
      assert m in writers && j in readers;
    }
  }

  /** All reads of one value of a key. */
  method AddValue(g: PolyGraph, h: History, k: Key, v: Value, readers: set<nat>, writers: set<nat>, kWrites: set<nat>) returns (dirty: bool)
    requires g.Valid() && Proper(h) && g.n == h.N() && PairsSound(h, g.pairs)
    requires ReadsAt(h, k, v, readers, writers) && WritersAt(h, k, kWrites) && readers != {}
    modifies g
    ensures g.Valid() && g.sessions == old(g.sessions) && old(g.pairs) <= g.pairs && PairsSound(h, g.pairs)
    ensures dirty <==> exists j: nat :: ReadsValue(h, j, k, v) && DirtyRead(h, j, k)
    ensures !dirty ==> forall e :: e in g.inserted <==> e in old(g.inserted) || IsReadEdge(h, k, v, e)
    ensures !dirty ==> forall i: nat, j: nat, w: nat :: IsReadAlternative(h, k, i, j, w) && h.extReads[j][k] == v ==> HasReadPair(g.pairs, i, j, w)
  {
    dirty := AddReads(g, h, k, v, readers, writers, kWrites);
    if !dirty {
      AddVersionPairs(g, h, k, v, readers, writers, kWrites);
    }
  }

  /** All reads of one key. */
  method AddKey(g: PolyGraph, h: History, k: Key, extReads: Index<Value>, extWrites: Index<Value>) returns (dirty: bool)
    requires g.Valid() && Proper(h) && g.n == h.N() && PairsSound(h, g.pairs)
    requires IsIndex(extReads, h.extReads) && IsIndex(extWrites, h.extWrites) && k in extReads
    modifies g
    ensures g.Valid() && g.sessions == old(g.sessions) && old(g.pairs) <= g.pairs && PairsSound(h, g.pairs)
    ensures dirty ==> HasDirtyRead(h)
    ensures !dirty ==> forall e :: e in g.inserted <==> e in old(g.inserted) || exists v :: IsReadEdge(h, k, v, e)
    ensures !dirty ==> forall j: nat :: !DirtyRead(h, j, k)
    ensures !dirty ==> forall i: nat, j: nat, w: nat :: IsReadAlternative(h, k, i, j, w) ==> HasReadPair(g.pairs, i, j, w)
  {
    var kWrites := WritersOfKey(h, extWrites, k);
    var values := extReads[k];
    var todo := values.Keys;
    forall e ensures !IsHandledEdge(h, k, todo, e) {
      HandledAll(h, k, values, extReads, e);
    }
    forall j: nat | Reads(h, j, k) ensures h.extReads[j][k] in values {
      assert Maps(h.extReads, k, h.extReads[j][k], j);
      assert Listed(extReads, k, h.extReads[j][k], j);
    }
    while todo != {}
      invariant todo <= values.Keys && g.Valid() && g.sessions == old(g.sessions)
      invariant old(g.pairs) <= g.pairs && PairsSound(h, g.pairs)
      invariant forall e :: e in g.inserted <==> e in old(g.inserted) || IsHandledEdge(h, k, todo, e)
      invariant forall j: nat :: DirtyRead(h, j, k) ==> h.extReads[j][k] in todo
      invariant forall i: nat, j: nat, w: nat :: IsReadAlternative(h, k, i, j, w) && h.extReads[j][k] !in todo ==> HasReadPair(g.pairs, i, j, w)
    {
      var v := Pick(todo);
      IndexReadsAt(h, extReads, extWrites, k, v);
      ghost var before := g.pairs;
      dirty := AddValue(g, h, k, v, values[v], GetIn(extWrites, k, v), kWrites);
      if dirty {
        return;
      }
      assert forall j: nat :: DirtyRead(h, j, k) ==> ReadsValue(h, j, k, h.extReads[j][k]);
      assert forall i: nat, j: nat, w: nat :: HasReadPair(before, i, j, w) ==> HasReadPair(g.pairs, i, j, w);
      forall e ensures IsHandledEdge(h, k, todo - {v}, e) <==> IsHandledEdge(h, k, todo, e) || IsReadEdge(h, k, v, e) {
      }
      todo := todo - {v};
    }
    assert forall e :: IsHandledEdge(h, k, {}, e) <==> exists v :: IsReadEdge(h, k, v, e);
    return false;
  }

  method AddAllReads(g: PolyGraph, h: History, extReads: Index<Value>, extWrites: Index<Value>) returns (dirty: bool)
    requires g.Valid() && Proper(h) && g.n == h.N() && PairsSound(h, g.pairs)
    requires IsIndex(extReads, h.extReads) && IsIndex(extWrites, h.extWrites)
    requires forall e :: e in g.inserted <==> IsBaseEdge(h, e)
    modifies g
    ensures g.Valid() && g.sessions == old(g.sessions) && PairsSound(h, g.pairs)
    ensures dirty <==> HasDirtyRead(h)
    ensures !dirty ==> KnownOf(h, g.inserted)
    ensures !dirty ==> forall k, i: nat, j: nat, w: nat :: IsReadAlternative(h, k, i, j, w) ==> HasReadPair(g.pairs, i, j, w)
  {
    var todo := extReads.Keys;
    forall e ensures !IsHandledKeyEdge(h, todo, e) {
      NoKeyHandled(h, extReads, e);
    }
    assert forall j: nat, k :: Reads(h, j, k) ==> Maps(h.extReads, k, h.extReads[j][k], j) && Listed(extReads, k, h.extReads[j][k], j);
    while todo != {}
      invariant todo <= extReads.Keys && g.Valid() && g.sessions == old(g.sessions) && PairsSound(h, g.pairs)
      invariant forall e :: e in g.inserted <==> IsBaseEdge(h, e) || IsHandledKeyEdge(h, todo, e)
      invariant forall j: nat, k :: DirtyRead(h, j, k) ==> k in todo
      invariant forall k, i: nat, j: nat, w: nat :: IsReadAlternative(h, k, i, j, w) && k !in todo ==> HasReadPair(g.pairs, i, j, w)
    {
      var k := Pick(todo);
      ghost var before := g.pairs;
      dirty := AddKey(g, h, k, extReads, extWrites);
      if dirty {
        return;
      }
      assert forall i: nat, j: nat, w: nat :: HasReadPair(before, i, j, w) ==> HasReadPair(g.pairs, i, j, w);
      forall e ensures IsHandledKeyEdge(h, todo - {k}, e) <==> IsHandledKeyEdge(h, todo, e) || exists v :: IsReadEdge(h, k, v, e) {
      }
      todo := todo - {k};
    }
    return false;
  }

  /** The writers of every key, each key's in some order. */
  method AllWriters(h: History, extWrites: Index<Value>) returns (lists: map<Key, seq<nat>>)
    requires Shaped(h) && IsIndex(extWrites, h.extWrites)
    ensures ListsWriters(h, lists)
  {
    lists := map[];
    var todo := extWrites.Keys;
    while todo != {}
      invariant todo <= extWrites.Keys && forall k :: k in lists <==> k in extWrites && k !in todo
      invariant forall k :: k in lists ==> Distinct(lists[k]) && forall i: nat :: i in lists[k] <==> Writes(h, i, k)
    {
      var k := Pick(todo);
      todo := todo - {k};
      var ws := WritersOfKey(h, extWrites, k);
      var l := Listing(ws);
      lists := lists[k := l];
    }
    forall k, i: nat | Writes(h, i, k) ensures k in lists {
      assert Maps(h.extWrites, k, h.extWrites[i][k], i);
      assert Listed(extWrites, k, h.extWrites[i][k], i);
    }
  }

  /** Pairs of one writer with each later one of the list. */
  method AddLaterWriters(g: PolyGraph, ghost h: History, ghost k: Key, ws: seq<nat>, a: nat)
    requires g.Valid() && Proper(h) && PairsSound(h, g.pairs) && a < |ws|
    requires Distinct(ws) && forall i: nat :: i in ws <==> Writes(h, i, k)
    modifies g`pairs
    ensures g.Valid() && old(g.pairs) <= g.pairs && PairsSound(h, g.pairs)
    ensures forall b :: a < b < |ws| ==> HasWritePair(g.pairs, ws[a], ws[b])
  {
    for b := a + 1 to |ws|
      invariant g.Valid() && old(g.pairs) <= g.pairs && PairsSound(h, g.pairs)
      invariant forall y: nat :: a < y < b ==> HasWritePair(g.pairs, ws[a], ws[y])
    {
      ghost var before := g.pairs;
      assert ws[a] in ws && ws[b] in ws;
      assert IsWriteAlternative(h, k, ws[a], ws[b]);
      assert AsConstraint((Edge(ws[a], ws[b], WW), Edge(ws[b], ws[a], WW))) == WriteAlternative(ws[a], ws[b]);
      g.AddEdgePair(Edge(ws[a], ws[b], WW), Edge(ws[b], ws[a], WW));
      assert forall y: nat :: HasWritePair(before, ws[a], y) ==> HasWritePair(g.pairs, ws[a], y);
    }
  }

  method AddWriterPairs(g: PolyGraph, ghost h: History, ghost k: Key, ws: seq<nat>)
    requires g.Valid() && Proper(h) && PairsSound(h, g.pairs)
    requires Distinct(ws) && forall i: nat :: i in ws <==> Writes(h, i, k)
    modifies g`pairs
    ensures g.Valid() && old(g.pairs) <= g.pairs && PairsSound(h, g.pairs)
    ensures forall i: nat, j: nat :: IsWriteAlternative(h, k, i, j) ==> HasWritePair(g.pairs, i, j)
  {
    for a := 0 to |ws|
      invariant g.Valid() && old(g.pairs) <= g.pairs && PairsSound(h, g.pairs)
      invariant forall x: nat, y: nat :: 0 <= x < a && x < y < |ws| ==> HasWritePair(g.pairs, ws[x], ws[y])
    {
      ghost var before := g.pairs;
      AddLaterWriters(g, h, k, ws, a);
      assert forall x: nat, y: nat :: HasWritePair(before, x, y) ==> HasWritePair(g.pairs, x, y);
    }
    forall i: nat, j: nat | IsWriteAlternative(h, k, i, j) ensures HasWritePair(g.pairs, i, j) {
      assert i in ws && j in ws;
      var a :| 0 <= a < |ws| && ws[a] == i;
      var b :| 0 <= b < |ws| && ws[b] == j;
      assert HasWritePair(g.pairs, ws[if a < b then a else b], ws[if a < b then b else a]);
    }
  }

  /** The recorded pairs alone are the alternatives. */
  lemma RecordedPairsAreAlternatives(h: History, pairs: set<(Edge, Edge)>)
    requires PairsSound(h, pairs)
    requires forall k, i: nat, j: nat, w: nat :: IsReadAlternative(h, k, i, j, w) ==> HasReadPair(pairs, i, j, w)
    requires forall k, i: nat, j: nat :: IsWriteAlternative(h, k, i, j) ==> HasWritePair(pairs, i, j)
    ensures AlternativesOf(h, PairConstraints(pairs))
  {
    var conn := PairConstraints(pairs);
    forall k, i: nat, j: nat, w: nat | IsReadAlternative(h, k, i, j, w) ensures ReadAlternative(i, j, w) in conn || Swap(ReadAlternative(i, j, w)) in conn {
      assert HasReadPair(pairs, i, j, w);
      assert AsConstraint((Edge(w, i, WW), Edge(j, w, RW))) == ReadAlternative(i, j, w);
      assert AsConstraint((Edge(j, w, RW), Edge(w, i, WW))) == Swap(ReadAlternative(i, j, w));
    }
    forall k, i: nat, j: nat | IsWriteAlternative(h, k, i, j) ensures WriteAlternative(i, j) in conn || WriteAlternative(j, i) in conn {
      assert HasWritePair(pairs, i, j);
      assert AsConstraint((Edge(i, j, WW), Edge(j, i, WW))) == WriteAlternative(i, j);
      assert AsConstraint((Edge(j, i, WW), Edge(i, j, WW))) == WriteAlternative(j, i);
    }
  }

  /** For every key the list of its writers, each once. */
  ghost predicate ListsWriters(h: History, lists: map<Key, seq<nat>>) {
    && (forall k, i: nat :: Writes(h, i, k) ==> k in lists)
    && (forall k :: k in lists ==> Distinct(lists[k]) && forall i: nat :: i in lists[k] <==> Writes(h, i, k))
  }

  lemma PairsAreAlternatives(h: History, pairs: set<(Edge, Edge)>, lists: map<Key, seq<nat>>)
    requires PairsSound(h, pairs)
    requires forall k, i: nat, j: nat, w: nat :: IsReadAlternative(h, k, i, j, w) ==> HasReadPair(pairs, i, j, w)
    requires ListsWriters(h, lists)
    ensures AlternativesOf(h, PairConstraints(pairs) + WriterOrders(lists))
  {
    var conn := PairConstraints(pairs) + WriterOrders(lists);
    forall c | c in WriterOrders(lists) ensures IsAlternative(h, c) {
      var k :| k in lists && c in WriterOrder(lists[k]);
      var i, j :| 0 <= i < j < |lists[k]| && c == WriteAlternative(lists[k][i], lists[k][j]);
      assert lists[k][i] in lists[k] && lists[k][j] in lists[k];
      assert IsWriteAlternative(h, k, lists[k][i], lists[k][j]);
    }
    forall k, i: nat, j: nat, w: nat | IsReadAlternative(h, k, i, j, w) ensures ReadAlternative(i, j, w) in conn || Swap(ReadAlternative(i, j, w)) in conn {
      assert HasReadPair(pairs, i, j, w);
      assert AsConstraint((Edge(w, i, WW), Edge(j, w, RW))) == ReadAlternative(i, j, w);
      assert AsConstraint((Edge(j, w, RW), Edge(w, i, WW))) == Swap(ReadAlternative(i, j, w));
    }
    forall k, i: nat, j: nat | IsWriteAlternative(h, k, i, j) ensures WriteAlternative(i, j) in conn || WriteAlternative(j, i) in conn {
      var l := lists[k];
      assert i in l && j in l;
      var a :| 0 <= a < |l| && l[a] == i;
      var b :| 0 <= b < |l| && l[b] == j;
      assert WriteAlternative(l[if a < b then a else b], l[if a < b then b else a]) in WriterOrder(l);
    }
  }

  /** Builds the pairwise polygraph, or rejects the history for a dirty read. */
  method BuildPairwise(h: History) returns (g: Option<PolyGraph>, lists: map<Key, seq<nat>>)
    requires Proper(h)
    ensures g.None? <==> HasDirtyRead(h)
    ensures g.Some? ==> g.value.Valid() && g.value.n == h.N() && g.value.sessions == h.sessions
    ensures g.Some? ==> KnownOf(h, g.value.inserted) && Unmirrored(g.value.pairs) && AlternativesOf(h, PairConstraints(g.value.pairs))
    ensures g.Some? ==> ListsWriters(h, lists) && AlternativesOf(h, PairConstraints(g.value.pairs) + WriterOrders(lists))
  {
    var p := BaseGraph(h.N(), h.sessions, h.strong, h);
    lists := map[];
    var extWrites := ExtIndex(h.extWrites);
    var extReads := ExtIndex(h.extReads);
    var dirty := AddAllReads(p, h, extReads, extWrites);
    if dirty {
      return None, lists;
    }
    lists := AllWriters(h, extWrites);
    ghost var read := p.pairs;
    var todo := lists.Keys;
    while todo != {}
      invariant todo <= lists.Keys && p.Valid() && read <= p.pairs && PairsSound(h, p.pairs)
      invariant KnownOf(h, p.inserted) && p.sessions == h.sessions
      invariant forall k, i: nat, j: nat :: IsWriteAlternative(h, k, i, j) && k !in todo ==> HasWritePair(p.pairs, i, j)
    {
      var k := Pick(todo);
      todo := todo - {k};
      ghost var before := p.pairs;
      AddWriterPairs(p, h, k, lists[k]);
      assert forall i: nat, j: nat :: HasWritePair(before, i, j) ==> HasWritePair(p.pairs, i, j);
    }
    assert forall i: nat, j: nat, w: nat :: HasReadPair(read, i, j, w) ==> HasReadPair(p.pairs, i, j, w);
    PairsAreAlternatives(h, p.pairs, lists);
    RecordedPairsAreAlternatives(h, p.pairs);
    return Some(p), lists;
  }

  /** Build, then check: accepts exactly the snapshot isolated histories. */
  method CheckHistory(h: History, solve: Formula -> bool) returns (accepted: bool)
    requires Proper(h) && Exact(solve)
    ensures accepted <==> IsSI(h)
  {
    var g, lists := BuildPairwise(h);
    if g.None? {
      DirtyReadIsNotSI(h);
      return false;
    }
    ghost var conn := PairConstraints(g.value.pairs) + WriterOrders(lists);
    AlternativesAreProper(h, conn);
    PairwiseEncodesSI(h, g.value.inserted, conn);
    SatisfiableBySameOrders(h.N(), g.value.Stored(), g.value.inserted, conn);
    accepted := CheckPairs(h.N(), g.value.Stored(), g.value.pairs, lists, solve);
  }
}
