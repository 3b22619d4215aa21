/** The optimising builder: known edges, read-modify-writes combined into chains, anti-dependencies
    inferred along them, and one constraint for every two chains of a key. */
module ChainBuilder {
  import opened Digraph
  import opened Events
  import opened Solver
  import opened PolyGraphs
  import opened Transactions
  import opened Histories
  import opened Indexes
  import opened Encodings
  import opened Chains
  import opened ChainSchedules
  import opened ChainEncodings
  import opened KnownGraphs
  import opened Sets
  import opened Wrappers

  /** (k, i) maps to the transactions that read i's version of k; (k, 0) to those that read the initial one. */
  type ReadFrom = map<(Key, nat), set<nat>>

  function At(rf: ReadFrom, k: Key, i: nat): set<nat> {
    if (k, i) in rf then rf[(k, i)] else {}
  }

  ghost predicate Recorded(rf: ReadFrom, k: Key, i: nat, j: nat) {
    j in At(rf, k, i)
  }

  ghost predicate IsReader(h: History, k: Key, i: nat, j: nat) {
    if i == 0 then ReadsInitial(h, j, k) else ReadsFrom(h, j, i, k)
  }

  ghost predicate ReadersKnown(h: History, rf: ReadFrom) {
    forall k, i: nat, j: nat :: Recorded(rf, k, i, j) <==> IsReader(h, k, i, j)
  }

  method Record(rf: ReadFrom, k: Key, i: nat, readers: set<nat>) returns (r: ReadFrom)
    ensures forall q, x: nat, j: nat :: Recorded(r, q, x, j) <==> Recorded(rf, q, x, j) || (q == k && x == i && j in readers)
  {
    r := rf[(k, i) := At(rf, k, i) + readers];
  }

  /** A reader of value v read it from its one writer, or from T0. */
  lemma SourceOfRead(h: History, k: Key, v: Value, readers: set<nat>, writers: set<nat>, x: nat, j: nat)
    requires Proper(h) && ReadsAt(h, k, v, readers, writers) && j in readers
    ensures IsReader(h, k, x, j) <==> if writers == {} then x == 0 && MayBeInitial(h, k, v) else x in writers
  {
    assert WritesValue(h, x, k, v) <==> x in writers;
    assert Unwritten(h, k, v) <==> writers == {};
  }

  /** Records the readers of one value of a key. */
  method RecordReads(h: History, rf: ReadFrom, k: Key, v: Value, readers: set<nat>, writers: set<nat>) returns (r: ReadFrom)
    requires Proper(h) && ReadsAt(h, k, v, readers, writers)
    ensures forall q, x: nat, j: nat :: Recorded(r, q, x, j) <==> Recorded(rf, q, x, j) || (q == k && IsReader(h, k, x, j) && ReadsValue(h, j, k, v))
  {
    forall x: nat, j: nat
      ensures IsReader(h, k, x, j) && ReadsValue(h, j, k, v) <==>
                j in readers && if writers == {} then x == 0 && MayBeInitial(h, k, v) else x in writers
    {
      if j in readers {
        SourceOfRead(h, k, v, readers, writers, x, j);
      }
    }
    if writers == {} {
      if MayBeInitial(h, k, v) {
        r := Record(rf, k, 0, readers);
      } else {
        r := rf;
      }
    } else {
      var i :| i in writers;
      assert forall x: nat :: x in writers ==> x == i;
      r := Record(rf, k, i, readers);
    }
  }

  ghost predicate ReadHandled(h: History, k: Key, todo: set<Value>, j: nat) {
    Reads(h, j, k) && h.extReads[j][k] !in todo
  }

  /** All reads of one key. */
  method AddKey(g: PolyGraph, h: History, k: Key, extReads: Index<Value>, extWrites: Index<Value>, rf: ReadFrom) returns (dirty: bool, r: ReadFrom)
    requires g.Valid() && Proper(h) && g.n == h.N()
    requires IsIndex(extReads, h.extReads) && IsIndex(extWrites, h.extWrites) && k in extReads
    modifies g
    ensures g.Valid() && g.sessions == old(g.sessions) && g.pairs == old(g.pairs)
    ensures dirty ==> HasDirtyRead(h)
    ensures !dirty ==> forall e :: e in g.inserted <==> e in old(g.inserted) || exists v :: IsReadEdge(h, k, v, e)
    ensures !dirty ==> forall j: nat :: !DirtyRead(h, j, k)
    ensures !dirty ==> forall q, i: nat, j: nat :: Recorded(r, q, i, j) <==> Recorded(rf, q, i, j) || (q == k && IsReader(h, k, i, j))
  {
    r := rf;
    var kWrites := WritersOfKey(h, extWrites, k);
    var values := extReads[k];
    var todo := values.Keys;
    forall e ensures !IsHandledEdge(h, k, todo, e) {
      HandledAll(h, k, values, extReads, e);
    }
    forall j: nat | Reads(h, j, k) ensures h.extReads[j][k] in values {
      assert Maps(h.extReads, k, h.extReads[j][k], j);
      assert Listed(extReads, k, h.extReads[j][k], j);
    }
    while todo != {}
      invariant todo <= values.Keys && g.Valid() && g.sessions == old(g.sessions) && g.pairs == old(g.pairs)
      invariant forall e :: e in g.inserted <==> e in old(g.inserted) || IsHandledEdge(h, k, todo, e)
      invariant forall j: nat :: DirtyRead(h, j, k) ==> h.extReads[j][k] in todo
      invariant forall q, i: nat, j: nat :: Recorded(r, q, i, j) <==> Recorded(rf, q, i, j) || (q == k && IsReader(h, k, i, j) && ReadHandled(h, k, todo, j))
    {
      var v := Pick(todo);
      IndexReadsAt(h, extReads, extWrites, k, v);
      dirty := AddReads(g, h, k, v, values[v], GetIn(extWrites, k, v), kWrites);
      if dirty {
        return;
      }
      assert forall j: nat :: DirtyRead(h, j, k) ==> ReadsValue(h, j, k, h.extReads[j][k]);
      r := RecordReads(h, r, k, v, values[v], GetIn(extWrites, k, v));
      forall e ensures IsHandledEdge(h, k, todo - {v}, e) <==> IsHandledEdge(h, k, todo, e) || IsReadEdge(h, k, v, e) {
      }
      todo := todo - {v};
    }
    assert forall e :: IsHandledEdge(h, k, {}, e) <==> exists v :: IsReadEdge(h, k, v, e);
    assert forall i: nat, j: nat :: IsReader(h, k, i, j) ==> ReadHandled(h, k, {}, j);
    dirty := false;
  }

  method AddAllReads(g: PolyGraph, h: History, extReads: Index<Value>, extWrites: Index<Value>) returns (dirty: bool, rf: ReadFrom)
    requires g.Valid() && Proper(h) && g.n == h.N()
    requires IsIndex(extReads, h.extReads) && IsIndex(extWrites, h.extWrites)
    requires forall e :: e in g.inserted <==> IsBaseEdge(h, e)
    modifies g
    ensures g.Valid() && g.sessions == old(g.sessions)
    ensures dirty <==> HasDirtyRead(h)
    ensures !dirty ==> KnownOf(h, g.inserted) && ReadersKnown(h, rf)
  {
    rf := map[];
    var todo := extReads.Keys;
    forall e ensures !IsHandledKeyEdge(h, todo, e) {
      NoKeyHandled(h, extReads, e);
    }
    assert forall j: nat, k :: Reads(h, j, k) ==> Maps(h.extReads, k, h.extReads[j][k], j) && Listed(extReads, k, h.extReads[j][k], j);
    while todo != {}
      invariant todo <= extReads.Keys && g.Valid() && g.sessions == old(g.sessions)
      invariant forall e :: e in g.inserted <==> IsBaseEdge(h, e) || IsHandledKeyEdge(h, todo, e)
      invariant forall j: nat, k :: DirtyRead(h, j, k) ==> k in todo
      invariant forall k, i: nat, j: nat :: Recorded(rf, k, i, j) <==> IsReader(h, k, i, j) && k !in todo
    {
      var k := Pick(todo);
      dirty, rf := AddKey(g, h, k, extReads, extWrites, rf);
      if dirty {
        return;
      }
      forall e ensures IsHandledKeyEdge(h, todo - {k}, e) <==> IsHandledKeyEdge(h, todo, e) || exists v :: IsReadEdge(h, k, v, e) {
      }
      todo := todo - {k};
    }
    dirty := false;
  }

  // ----- successions of versions

  ghost predicate HasDivergence(h: History) {
    exists k, i: nat, j1: nat, j2: nat :: Diverge(h, k, i, j1, j2)
  }

  /** Adds the transaction that overwrites the version it read, for one value of a key. */
  method AddSuccessions(h: History, k: Key, v: Value, readers: set<nat>, writers: set<nat>, kWrites: set<nat>, before: Successions)
      returns (ww: Option<Successions>)
    requires Proper(h) && ReadsAt(h, k, v, readers, writers) && WritersAt(h, k, kWrites)
    requires forall i: nat :: WritesValue(h, i, k, v) ==> (k, i) !in before
    ensures ww.None? ==> HasDivergence(h)
    ensures ww.Some? ==> ww.value == before || exists i: nat, j: nat ::
                           Overwrites(h, j, i, k) && h.extReads[j][k] == v && ww.value == before[(k, i) := j]
    ensures ww.Some? ==> forall i: nat, j: nat :: Overwrites(h, j, i, k) && h.extReads[j][k] == v ==> (k, i) in ww.value && ww.value[(k, i)] == j
  {
    var now := before;
    var todo := readers;
    forall i: nat, j: nat | Overwrites(h, j, i, k) && h.extReads[j][k] == v ensures j in readers && j in kWrites && i in writers {
      assert ReadsValue(h, j, k, v) && WritesValue(h, i, k, v);
    }
    if writers == {} {
      return Some(now);
    }
    var i :| i in writers;
    assert forall x: nat :: x in writers ==> x == i;
    while todo != {}
      invariant todo <= readers
      invariant if (k, i) in now then now == before[(k, i) := now[(k, i)]] && now[(k, i)] in readers - todo && now[(k, i)] in kWrites else now == before
      invariant forall j: nat :: j in readers - todo && j in kWrites ==> (k, i) in now && now[(k, i)] == j
    {
      var j :| j in todo;
      if j in kWrites {
        if (k, i) in now {
          assert Overwrites(h, j, i, k) && Overwrites(h, now[(k, i)], i, k);
          assert Diverge(h, k, i, now[(k, i)], j);
          return None;
        }
        now := now[(k, i) := j];
      }
      todo := todo - {j};
    }
    assert now != before ==> Overwrites(h, now[(k, i)], i, k);
    return Some(now);
  }

  /** Successions found so far: of handled keys, and of handled values of the current key. */
  ghost predicate SuccessionsFound(h: History, ww: Successions, keys: set<Key>, k: Key, values: set<Value>) {
    && (forall q :: q in ww ==> Overwrites(h, ww[q], q.1, q.0) && !Pending(h, keys, k, values, q.0, q.1))
    && (forall q, i: nat, j: nat :: Overwrites(h, j, i, q) && !Pending(h, keys, k, values, q, i) ==> (q, i) in ww && ww[(q, i)] == j)
  }

  /** Version i of key q is yet to be looked at. */
  ghost predicate Pending(h: History, keys: set<Key>, k: Key, values: set<Value>, q: Key, i: nat) {
    q in keys || (q == k && Writes(h, i, k) && h.extWrites[i][k] in values)
  }

  ghost predicate SuccessionsOf(h: History, ww: Successions) {
    forall k, i: nat, j: nat :: IsSuccession(ww, {}, k, i, j) <==> Overwrites(h, j, i, k)
  }

  lemma AddedSuccession(h: History, before: Successions, ww: Successions, keys: set<Key>, k: Key, values: set<Value>, v: Value)
    requires Proper(h) && SuccessionsFound(h, before, keys, k, values) && v in values && k !in keys
    requires ww == before || exists i: nat, j: nat :: Overwrites(h, j, i, k) && h.extReads[j][k] == v && ww == before[(k, i) := j]
    requires forall i: nat, j: nat :: Overwrites(h, j, i, k) && h.extReads[j][k] == v ==> (k, i) in ww && ww[(k, i)] == j
    ensures SuccessionsFound(h, ww, keys, k, values - {v})
  {
    forall q, i: nat, j: nat | Overwrites(h, j, i, q) && !Pending(h, keys, k, values - {v}, q, i) ensures (q, i) in ww && ww[(q, i)] == j {
      if Pending(h, keys, k, values, q, i) {
        assert h.extReads[j][k] == h.extWrites[i][k] == v;
      } else {
        assert (q, i) in before && before[(q, i)] == j;
      }
    }
  }

  /** Successions of all versions of one key. */
  method AddKeySuccessions(h: History, k: Key, extReads: Index<Value>, extWrites: Index<Value>, before: Successions, ghost keys: set<Key>)
      returns (ww: Option<Successions>)
    requires Proper(h) && IsIndex(extReads, h.extReads) && IsIndex(extWrites, h.extWrites) && k in extReads && k !in keys
    requires SuccessionsFound(h, before, keys + {k}, k, {})
    ensures ww.None? ==> HasDivergence(h)
    ensures ww.Some? ==> SuccessionsFound(h, ww.value, keys, k, {})
  {
    var kWrites := WritersOfKey(h, extWrites, k);
    var values := extReads[k];
    var todo := values.Keys;
    var now := before;
    forall i: nat, j: nat | Overwrites(h, j, i, k) ensures h.extWrites[i][k] in values {
      assert Maps(h.extReads, k, h.extReads[j][k], j);
      assert Listed(extReads, k, h.extReads[j][k], j);
    }
    while todo != {}
      invariant todo <= values.Keys && SuccessionsFound(h, now, keys, k, todo)
    {
      var v := Pick(todo);
      IndexReadsAt(h, extReads, extWrites, k, v);
      forall i: nat | WritesValue(h, i, k, v) ensures (k, i) !in now {
        assert Pending(h, keys, k, todo, k, i);
      }
      ww := AddSuccessions(h, k, v, values[v], GetIn(extWrites, k, v), kWrites, now);
      if ww.None? {
        return;
      }
      AddedSuccession(h, now, ww.value, keys, k, todo, v);
      now := ww.value;
      todo := todo - {v};
    }
    return Some(now);
  }

  method FindSuccessions(h: History, extReads: Index<Value>, extWrites: Index<Value>) returns (ww: Option<Successions>)
    requires Proper(h) && IsIndex(extReads, h.extReads) && IsIndex(extWrites, h.extWrites)
    ensures ww.None? <==> HasDivergence(h)
    ensures ww.Some? ==> SuccessionsOf(h, ww.value)
  {
    var now: Successions := map[];
    var todo := extReads.Keys;
    forall k, i: nat, j: nat | Overwrites(h, j, i, k) ensures k in extReads {
      assert Maps(h.extReads, k, h.extReads[j][k], j);
      assert Listed(extReads, k, h.extReads[j][k], j);
    }
    while todo != {}
      invariant todo <= extReads.Keys && SuccessionsFound(h, now, todo, 0, {})
    {
      var k := Pick(todo);
      assert todo - {k} + {k} == todo;
      PendingKeys(h, now, todo, 0, k);
      ww := AddKeySuccessions(h, k, extReads, extWrites, now, todo - {k});
      if ww.None? {
        return;
      }
      now := ww.value;
      todo := todo - {k};
      PendingKeys(h, now, todo, k, 0);
    }
    forall k, i: nat, j1: nat, j2: nat ensures !Diverge(h, k, i, j1, j2) {
      assert !Pending(h, {}, 0, {}, k, i);
    }
    forall k, i: nat, j: nat ensures IsSuccession(now, {}, k, i, j) <==> Overwrites(h, j, i, k) {
      assert !Pending(h, {}, 0, {}, k, i);
      if (k, i) in now {
        assert Overwrites(h, now[(k, i)], (k, i).1, (k, i).0);
      }
    }
    return Some(now);
  }

  lemma PendingKeys(h: History, ww: Successions, keys: set<Key>, k: Key, l: Key)
    requires SuccessionsFound(h, ww, keys, k, {})
    ensures SuccessionsFound(h, ww, keys, l, {})
  {
    assert forall q, i: nat :: Pending(h, keys, k, {}, q, i) <==> Pending(h, keys, l, {}, q, i);
  }

  // ----- chains, inferred edges and constraints

  ghost predicate WriterSetsOf(h: History, writers: map<Key, set<nat>>) {
    && (forall k, i: nat :: Writes(h, i, k) ==> k in writers)
    && (forall k :: k in writers ==> WritersAt(h, k, writers[k]))
  }

  function Singles(ws: set<nat>): set<Chain> {
    set w | w in ws :: [w]
  }

  lemma SinglesAreChained(ws: set<nat>, ww: Successions, k: Key)
    ensures KeyChained(Singles(ws), ws, ww, ww.Keys, k)
  {
    forall x: nat ensures x in ws <==> InSomeChain(Singles(ws), x) {
      if x in ws {
        assert [x] in Singles(ws) && x in [x];
      }
    }
  }

  /** Every writer of a key starts as a chain of its own. */
  method SingleChains(h: History, extWrites: Index<Value>, ghost ww: Successions) returns (chains: map<Key, set<Chain>>, ghost writers: map<Key, set<nat>>)
    requires Proper(h) && IsIndex(extWrites, h.extWrites)
    ensures WriterSetsOf(h, writers) && Chained(chains, writers, ww, ww.Keys)
  {
    chains, writers := map[], map[];
    var todo := extWrites.Keys;
    while todo != {}
      invariant todo <= extWrites.Keys && forall k :: k in writers <==> k in extWrites && k !in todo
      invariant forall k :: k in writers ==> WritersAt(h, k, writers[k])
      invariant Chained(chains, writers, ww, ww.Keys)
    {
      var k := Pick(todo);
      todo := todo - {k};
      var ws := WritersOfKey(h, extWrites, k);
      SinglesAreChained(ws, ww, k);
      chains := chains[k := Singles(ws)];
      writers := writers[k := ws];
    }
    forall k, i: nat | Writes(h, i, k) ensures k in writers {
      assert Maps(h.extWrites, k, h.extWrites[i][k], i);
      assert Listed(extWrites, k, h.extWrites[i][k], i);
    }
  }

  lemma SuccessionsAreProper(h: History, writers: map<Key, set<nat>>, ww: Successions)
    requires Proper(h) && WriterSetsOf(h, writers) && SuccessionsOf(h, ww)
    ensures ProperSuccessions(writers, ww)
  {
    forall q | q in ww ensures q.0 in writers && Overwrites(h, ww[q], q.1, q.0) {
      assert q == (q.0, q.1);
      assert IsSuccession(ww, {}, q.0, q.1, ww[q]);
    }
    forall k | k in writers ensures KeySuccessions(writers[k], ww, k) {
      forall a: nat | (k, a) in ww ensures Overwrites(h, ww[(k, a)], a, k) {
        assert Overwrites(h, ww[(k, a)], (k, a).1, (k, a).0);
      }
    }
  }

  lemma FinishedChains(h: History, chains: map<Key, set<Chain>>, writers: map<Key, set<nat>>, ww: Successions)
    requires WriterSetsOf(h, writers) && SuccessionsOf(h, ww) && Chained(chains, writers, ww, {})
    ensures ChainsOf(h, chains)
  {
    forall k | k in chains ensures KeyChainsOf(h, k, chains[k]) {
      assert KeyChained(chains[k], writers[k], ww, {}, k) && WritersAt(h, k, writers[k]);
      forall a: nat, b: nat ensures AdjacentInSome(chains[k], a, b) <==> Overwrites(h, b, a, k) {
        assert IsSuccession(ww, {}, k, a, b) <==> Overwrites(h, b, a, k);
      }
    }
  }

  /** A circle of transactions each overwriting the version of the one before. */
  ghost predicate OverwriteCycle(h: History, k: Key, p: seq<nat>) {
    |p| >= 2 && p[0] == p[|p| - 1] && forall t :: 0 <= t < |p| - 1 ==> Overwrites(h, p[t + 1], p[t], k)
  }

  lemma SuccessionCycleOverwrites(h: History, ww: Successions, k: Key, p: seq<nat>)
    requires SuccessionsOf(h, ww)
    ensures SuccessionCycle(ww, k, p) <==> OverwriteCycle(h, k, p)
  {
    if SuccessionCycle(ww, k, p) {
      forall t | 0 <= t < |p| - 1 ensures Overwrites(h, p[t + 1], p[t], k) {
        assert IsSuccession(ww, {}, k, p[t], p[t + 1]);
      }
    }
    if OverwriteCycle(h, k, p) {
      forall t | 0 <= t < |p| - 1 ensures (k, p[t]) in ww && ww[(k, p[t])] == p[t + 1] {
        assert IsSuccession(ww, {}, k, p[t], p[t + 1]);
      }
    }
  }

  ghost predicate InferredAt(h: History, k: Key, c: Chain, p: nat, e: Edge) {
    p + 1 < |c| && e.kind.RW? && e.dst == c[p + 1] && e.src != e.dst && ReadsFrom(h, e.src, c[p], k)
  }

  /** Readers of a version come before the next writer in its chain. */
  method InferLink(g: PolyGraph, ghost h: History, k: Key, ghost cs: set<Chain>, c: Chain, i: nat, rf: ReadFrom)
    requires g.Valid() && Proper(h) && g.n == h.N() && ReadersKnown(h, rf) && KeyChains(h, k, cs) && c in cs && i + 1 < |c|
    modifies g
    ensures g.Valid() && g.sessions == old(g.sessions)
    ensures forall e :: e in g.inserted <==> e in old(g.inserted) || InferredAt(h, k, c, i, e)
  {
    ChainMembersWrite(h, k, cs, c);
    KnownReaders(h, rf, k, c[i]);
    AddBefore(g, At(rf, k, c[i]), c[i + 1]);
    assert forall e :: InferredAt(h, k, c, i, e) <==> e.kind.RW? && e.src in ReadersOf(h, k, c[i]) && e.dst == c[i + 1] && e.src != e.dst;
  }

  method InferAlong(g: PolyGraph, ghost h: History, k: Key, ghost cs: set<Chain>, c: Chain, rf: ReadFrom)
    requires g.Valid() && Proper(h) && g.n == h.N() && ReadersKnown(h, rf) && KeyChains(h, k, cs) && c in cs
    modifies g
    ensures g.Valid() && g.sessions == old(g.sessions)
    ensures forall e :: e in g.inserted <==> e in old(g.inserted) || exists p: nat :: InferredAt(h, k, c, p, e)
  {
    if |c| > 1 {
      for i := 0 to |c| - 1
        invariant g.Valid() && g.sessions == old(g.sessions)
        invariant forall e :: e in g.inserted <==> e in old(g.inserted) || exists p: nat :: p < i && InferredAt(h, k, c, p, e)
      {
        InferLink(g, h, k, cs, c, i, rf);
      }
    }
  }

  method AddBefore(g: PolyGraph, readers: set<nat>, next: nat)
    requires g.Valid() && 0 < next < g.n && forall r: nat :: r in readers ==> r < g.n
    modifies g
    ensures g.Valid() && g.sessions == old(g.sessions)
    ensures forall e :: e in g.inserted <==> e in old(g.inserted) || (e.kind.RW? && e.src in readers && e.dst == next && e.src != e.dst)
  {
    var todo := readers;
    while todo != {}
      invariant todo <= readers && g.Valid() && g.sessions == old(g.sessions)
      invariant forall e :: e in g.inserted <==> e in old(g.inserted) || (e.kind.RW? && e.src in readers - todo && e.dst == next && e.src != e.dst)
    {
      var r :| r in todo;
      todo := todo - {r};
      if r != next {
        g.AddEdge(r, next, RW);
      }
    }
  }

  ghost predicate InferredIn(h: History, k: Key, cs: set<Chain>, e: Edge) {
    exists c, p: nat :: c in cs && InferredAt(h, k, c, p, e)
  }

  method InferForKey(g: PolyGraph, ghost h: History, k: Key, cs: set<Chain>, rf: ReadFrom)
    requires g.Valid() && Proper(h) && g.n == h.N() && ReadersKnown(h, rf) && KeyChains(h, k, cs)
    modifies g
    ensures g.Valid() && g.sessions == old(g.sessions)
    ensures forall e :: e in g.inserted <==> e in old(g.inserted) || InferredIn(h, k, cs, e)
  {
    var todo := cs;
    while todo != {}
      invariant todo <= cs && g.Valid() && g.sessions == old(g.sessions)
      invariant forall e :: e in g.inserted <==> e in old(g.inserted) || InferredIn(h, k, cs - todo, e)
    {
      var c :| c in todo;
      InferAlong(g, h, k, cs, c, rf);
      forall e ensures InferredIn(h, k, cs - (todo - {c}), e) <==> InferredIn(h, k, cs - todo, e) || exists p: nat :: InferredAt(h, k, c, p, e) {
      }
      todo := todo - {c};
    }
    assert cs - todo == cs;
  }

  method InferRwEdges(g: PolyGraph, ghost h: History, chains: map<Key, set<Chain>>, rf: ReadFrom)
    requires g.Valid() && Proper(h) && g.n == h.N() && ReadersKnown(h, rf) && AllKeyChains(h, chains)
    modifies g
    ensures g.Valid() && g.sessions == old(g.sessions)
    ensures forall e :: e in g.inserted <==> e in old(g.inserted) || exists k :: k in chains && InferredIn(h, k, chains[k], e)
  {
    var todo := chains.Keys;
    while todo != {}
      invariant todo <= chains.Keys && g.Valid() && g.sessions == old(g.sessions)
      invariant forall e :: e in g.inserted <==> e in old(g.inserted) || exists k :: k in chains && k !in todo && InferredIn(h, k, chains[k], e)
    {
      var k := Pick(todo);
      InferForKey(g, h, k, chains[k], rf);
      todo := todo - {k};
    }
  }

  lemma InferredSomewhere(h: History, chains: map<Key, set<Chain>>, e: Edge)
    requires Proper(h) && ChainsOf(h, chains)
    ensures IsInferred(h, e) <==> exists k :: k in chains && InferredIn(h, k, chains[k], e)
  {
    if IsInferred(h, e) {
      var a: nat, k :| Overwrites(h, e.dst, a, k) && ReadsFrom(h, e.src, a, k);
      assert AdjacentInSome(chains[k], a, e.dst);
      var c, p: nat :| c in chains[k] && Adjacent(c, p, a, e.dst);
      assert InferredAt(h, k, c, p, e);
    }
    if k :| k in chains && InferredIn(h, k, chains[k], e) {
      var c, p: nat :| c in chains[k] && InferredAt(h, k, c, p, e);
      NeighboursOverwrite(h, k, chains[k], c, p);
    }
  }

  method GenChain2ChainEdges(c: Chain, d: Chain, k: Key, rf: ReadFrom) returns (es: set<Edge>)
    requires c != [] && d != []
    ensures es == ChainSide(At(rf, k, Last(c)), c, d)
  {
    es := {Edge(Last(c), d[0], WW)};
    if (k, Last(c)) !in rf {
      return;
    }
    var readers := rf[(k, Last(c))];
    var todo := readers;
    while todo != {}
      invariant todo <= readers && es == ChainSide(readers - todo, c, d)
    {
      var r :| r in todo;
      es := es + {Edge(r, d[0], RW)};
      todo := todo - {r};
    }
    assert readers - todo == readers;
  }

  method Coalesce(ghost h: History, c: Chain, d: Chain, k: Key, rf: ReadFrom) returns (x: Constraint)
    requires c != [] && d != [] && Proper(h) && ReadersKnown(h, rf) && Last(c) != 0 && Last(d) != 0
    ensures x == ChainConstraint(h, k, c, d)
  {
    var es1 := GenChain2ChainEdges(c, d, k, rf);
    var es2 := GenChain2ChainEdges(d, c, k, rf);
    KnownReaders(h, rf, k, Last(c));
    KnownReaders(h, rf, k, Last(d));
    return Constraint(es1, es2);
  }

  lemma KnownReaders(h: History, rf: ReadFrom, k: Key, i: nat)
    requires Proper(h) && ReadersKnown(h, rf) && i != 0
    ensures At(rf, k, i) == ReadersOf(h, k, i)
  {
    forall j: nat ensures j in At(rf, k, i) <==> j in ReadersOf(h, k, i) {
      assert Recorded(rf, k, i, j) <==> IsReader(h, k, i, j);
    }
  }

  /** The constraints of one chain with each later one. */
  method RowConstraints(ghost h: History, k: Key, ghost cs: set<Chain>, l: seq<Chain>, i: nat, rf: ReadFrom) returns (row: set<Constraint>)
    requires Proper(h) && ReadersKnown(h, rf) && KeyChains(h, k, cs)
    requires i < |l| && Distinct(l) && forall c :: c in l <==> c in cs
    ensures forall x :: x in row ==> IsChainConstraint(h, k, cs, x)
    ensures forall b :: i < b < |l| ==> Covers(h, k, l[i], l[b], row)
  {
    row := {};
    for j := i + 1 to |l|
      invariant RowSoFar(h, k, cs, l, i, j, row)
    {
      TwoOfListing(h, k, cs, l, i, j);
      var x := Coalesce(h, l[i], l[j], k, rf);
      RowGrows(h, k, cs, l, i, j, row);
      row := row + {x};
    }
  }

  /** The row holds only constraints of the key, and covers the chains before position j. */
  ghost predicate RowSoFar(h: History, k: Key, cs: set<Chain>, l: seq<Chain>, i: nat, j: nat, row: set<Constraint>)
    requires i < j <= |l|
  {
    && (forall x :: x in row ==> IsChainConstraint(h, k, cs, x))
    && forall b :: i < b < j ==> Covers(h, k, l[i], l[b], row)
  }

  lemma TwoOfListing(h: History, k: Key, cs: set<Chain>, l: seq<Chain>, i: nat, j: nat)
    requires Proper(h) && KeyChains(h, k, cs) && i < j < |l| && Distinct(l) && forall c :: c in l <==> c in cs
    ensures l[i] in cs && l[j] in cs && l[i] != l[j] && l[i] != [] && l[j] != []
    ensures Last(l[i]) != 0 && Last(l[j]) != 0
  {
    assert l[i] in l && l[j] in l;
    ChainMembersWrite(h, k, cs, l[i]);
    ChainMembersWrite(h, k, cs, l[j]);
  }

  lemma RowGrows(h: History, k: Key, cs: set<Chain>, l: seq<Chain>, i: nat, j: nat, row: set<Constraint>)
    requires i < j < |l| && RowSoFar(h, k, cs, l, i, j, row)
    requires l[i] in cs && l[j] in cs && l[i] != l[j] && l[i] != [] && l[j] != []
    ensures RowSoFar(h, k, cs, l, i, j + 1, row + {ChainConstraint(h, k, l[i], l[j])})
  {
    var x := ChainConstraint(h, k, l[i], l[j]);
    assert IsChainConstraint(h, k, cs, x);
    forall b | i < b < j + 1 ensures Covers(h, k, l[i], l[b], row + {x}) {
      assert b < j ==> Covers(h, k, l[i], l[b], row);
    }
  }

  method KeyConstraints(ghost h: History, k: Key, cs: set<Chain>, rf: ReadFrom) returns (conn: set<Constraint>)
    requires Proper(h) && ReadersKnown(h, rf) && KeyChains(h, k, cs)
    ensures forall x :: x in conn ==> IsChainConstraint(h, k, cs, x)
    ensures forall c, d :: c in cs && d in cs && c != d ==> Covers(h, k, c, d, conn)
  {
    conn := {};
    var l := Listing(cs);
    for i := 0 to |l|
      invariant forall x :: x in conn ==> IsChainConstraint(h, k, cs, x)
      invariant forall a, b :: 0 <= a < i && a < b < |l| ==> Covers(h, k, l[a], l[b], conn)
    {
      var row := RowConstraints(h, k, cs, l, i, rf);
      ghost var before := conn;
      conn := conn + row;
      forall a, b | 0 <= a <= i && a < b < |l| ensures Covers(h, k, l[a], l[b], conn) {
        assert Covers(h, k, l[a], l[b], if a < i then before else row);
      }
    }
    forall c, d | c in cs && d in cs && c != d ensures Covers(h, k, c, d, conn) {
      assert c in l && d in l;
      var a :| 0 <= a < |l| && l[a] == c;
      var b :| 0 <= b < |l| && l[b] == d;
      assert Covers(h, k, l[if a < b then a else b], l[if a < b then b else a], conn);
    }
  }

  method AllConstraints(ghost h: History, chains: map<Key, set<Chain>>, rf: ReadFrom) returns (conn: set<Constraint>)
    requires Proper(h) && ReadersKnown(h, rf) && AllKeyChains(h, chains)
    ensures ChainConstraintsOf(h, chains, conn)
  {
    conn := {};
    var todo := chains.Keys;
    while todo != {}
      invariant todo <= chains.Keys
      invariant forall x :: x in conn ==> exists k :: k in chains && IsChainConstraint(h, k, chains[k], x)
      invariant forall k, c, d :: k in chains && k !in todo && c in chains[k] && d in chains[k] && c != d ==> Covers(h, k, c, d, conn)
    {
      var k := Pick(todo);
      todo := todo - {k};
      var more := KeyConstraints(h, k, chains[k], rf);
      conn := conn + more;
    }
  }

  // ----- the whole construction

  /** The code's reasons to reject a history before any solving. */
  ghost predicate RejectedEarly(h: History) {
    HasDirtyRead(h) || HasDivergence(h) || HasOverwriteCycle(h)
  }

  /** Builds the chain polygraph, or rejects the history early. */
  method ConstructEncoding(h: History) returns (encoding: Option<(PolyGraph, set<Constraint>)>, ghost chains: map<Key, set<Chain>>)
    requires Proper(h)
    ensures encoding.None? <==> RejectedEarly(h)
    ensures encoding.Some? ==> encoding.value.0.Valid() && encoding.value.0.n == h.N() && encoding.value.0.sessions == h.sessions
    ensures encoding.Some? ==> ChainsOf(h, chains) && ChainKnownOf(h, encoding.value.0.inserted) && ChainConstraintsOf(h, chains, encoding.value.1)
  {
    chains := map[];
    var g := BaseGraph(h.N(), h.sessions, h.strong, h);
    var extWrites := ExtIndex(h.extWrites);
    var extReads := ExtIndex(h.extReads);
    var dirty, rf := AddAllReads(g, h, extReads, extWrites);
    if dirty {
      return None, chains;
    }
    var ww := FindSuccessions(h, extReads, extWrites);
    if ww.None? {
      return None, chains;
    }
    var singles, writers := SingleChains(h, extWrites, ww.value);
    SuccessionsAreProper(h, writers, ww.value);
    var combined := CombineWrites(singles, writers, ww.value);
    forall k, p ensures SuccessionCycle(ww.value, k, p) <==> OverwriteCycle(h, k, p) {
      SuccessionCycleOverwrites(h, ww.value, k, p);
    }
    if combined.None? {
      return None, chains;
    }
    chains := combined.value;
    FinishedChains(h, combined.value, writers, ww.value);
    InferRwEdges(g, h, combined.value, rf);
    forall e ensures IsInferred(h, e) <==> exists k :: k in chains && InferredIn(h, k, chains[k], e) {
      InferredSomewhere(h, chains, e);
    }
    var conn := AllConstraints(h, combined.value, rf);
    return Some((g, conn)), chains;
  }

  ghost predicate HasOverwriteCycle(h: History) {
    exists k, p :: OverwriteCycle(h, k, p)
  }

  lemma EarlyRejectionIsUnschedulable(h: History, s: Schedule)
    requires Proper(h) && (HasDivergence(h) || HasOverwriteCycle(h))
    ensures !PairwiseOrders(h, s)
  {
    if k, i: nat, j1: nat, j2: nat :| Diverge(h, k, i, j1, j2) {
      DivergenceIsUnschedulable(h, s, k, i, j1, j2);
    } else {
      var k, p :| OverwriteCycle(h, k, p);
      CycleIsUnschedulable(h, s, k, p);
    }
  }

  /** A history is only rejected early if it is not snapshot isolated. */
  lemma EarlyRejectionIsNotSI(h: History)
    requires Proper(h) && RejectedEarly(h)
    ensures !IsSI(h)
  {
    if HasDirtyRead(h) {
      DirtyReadIsNotSI(h);
    } else {
      forall s ensures !SnapshotIsolated(h, s) {
        EarlyRejectionIsUnschedulable(h, s);
        if SnapshotIsolated(h, s) {
          OrdersMeanSnapshotReads(h, s);
        }
      }
    }
  }

  /** Wherever versions diverge or overwrite each other in a circle, the pairwise encoding has no acyclic choice. */
  lemma EarlyRejectionIsJustified(h: History, known: set<Edge>, conn: set<Constraint>)
    requires Proper(h) && (HasDivergence(h) || HasOverwriteCycle(h)) && KnownOf(h, known) && AlternativesOf(h, conn)
    ensures !Satisfiable(h.N(), known, conn)
  {
    KnownIsProper(h, known);
    AlternativesAreProper(h, conn);
    SatisfiableIffSchedulable(h.N(), known, conn);
    forall s ensures !Fits(h.N(), s, known, conn) {
      EarlyRejectionIsUnschedulable(h, s);
      PairwiseFitsMeansOrders(h, s, known, conn);
    }
  }
}
