/** The append builder: the order of versions inferred from the observed lists. */
module AppendBuilder {
  import opened Transactions
  import opened Indexes
  import opened AppendHistories
  import opened Chains
  import opened Sets
  import opened Wrappers

  // ----- collecting the demands

  type Demand = (Key, nat, nat)

  ghost predicate Holds(ww: Successions, demands: set<Demand>) {
    forall k, a: nat, b: nat :: IsSuccession(ww, {}, k, a, b) <==> (k, a, b) in demands
  }

  ghost predicate Conflicting(demands: set<Demand>, k: Key, a: nat, b: nat) {
    exists c: nat :: (k, a, c) in demands && c != b
  }

  /** Notes that b follows a, unless another successor is already noted. */
  method AddDemand(before: Successions, ghost demands: set<Demand>, k: Key, a: nat, b: nat) returns (ww: Option<Successions>)
    requires Holds(before, demands)
    ensures ww.None? <==> Conflicting(demands, k, a, b)
    ensures ww.Some? ==> Holds(ww.value, demands + {(k, a, b)})
  {
    if (k, a) in before {
      assert IsSuccession(before, {}, k, a, before[(k, a)]);
      if before[(k, a)] != b {
        return None;
      }
    }
    assert forall c: nat :: (k, a, c) in demands ==> IsSuccession(before, {}, k, a, c);
    return Some(before[(k, a) := b]);
  }

  ghost predicate AllDemanded(h: AppendHistory, demands: set<Demand>) {
    forall d :: d in demands ==> Demands(h, d.0, d.1, d.2)
  }

  ghost predicate IsElemIndex(h: AppendHistory, idx: Index<Elem>) {
    forall k, e, i: nat :: Listed(idx, k, e, i) <==> Appends(h, i, k, e)
  }

  /** The transactions that read a list and append to it follow the writer of its last element. */
  method AddReaders(h: AppendHistory, k: Key, list: seq<Elem>, a: nat, readers: set<nat>, kWrites: set<nat>,
                    before: Successions, ghost done: set<Demand>) returns (ww: Option<Successions>, ghost demands: set<Demand>)
    requires ProperAppends(h) && Holds(before, done) && AllDemanded(h, done)
    requires list != [] && Appends(h, a, k, list[|list| - 1])
    requires forall j: nat :: j in readers <==> Observes(h, j, k, list)
    requires forall i: nat :: i in kWrites <==> AppendsTo(h, i, k)
    ensures ww.None? ==> HasConflict(h)
    ensures ww.Some? ==> Holds(ww.value, demands) && AllDemanded(h, demands) && done <= demands
    ensures ww.Some? ==> forall b: nat :: Extends(h, k, list, a, b) ==> (k, a, b) in demands
  {
    var now := before;
    demands := done;
    var todo := readers;
    while todo != {}
      invariant todo <= readers && Holds(now, demands) && AllDemanded(h, demands) && done <= demands
      invariant forall b: nat :: Extends(h, k, list, a, b) && b !in todo ==> (k, a, b) in demands
    {
      var j :| j in todo;
      todo := todo - {j};
      if j in kWrites {
        assert Extends(h, k, list, a, j);
        assert ListDemands(h, k, list, a, j);
        assert Demands(h, k, a, j);
        ww := AddDemand(now, demands, k, a, j);
        if ww.None? {
          ConflictFound(h, demands, k, a, j);
          return;
        }
        now := ww.value;
        demands := demands + {(k, a, j)};
      }
    }
    ww := Some(now);
  }

  lemma ConflictFound(h: AppendHistory, demands: set<Demand>, k: Key, a: nat, b: nat)
    requires AllDemanded(h, demands) && Conflicting(demands, k, a, b) && Demands(h, k, a, b)
    ensures HasConflict(h)
  {
    var c :| (k, a, c) in demands && c != b;
    assert Demands(h, (k, a, c).0, (k, a, c).1, (k, a, c).2);
  }

  /** Neighbouring elements of different transactions in an observed list. */
  method AddList(h: AppendHistory, k: Key, list: seq<Elem>, ghost j: nat, idx: Index<Elem>,
                 before: Successions, ghost done: set<Demand>) returns (ww: Option<Successions>, ghost demands: set<Demand>)
    requires ProperAppends(h) && Holds(before, done) && AllDemanded(h, done) && IsElemIndex(h, idx)
    requires Observes(h, j, k, list) && KnownTail(h, k, list)
    ensures ww.None? ==> HasConflict(h)
    ensures ww.Some? ==> Holds(ww.value, demands) && AllDemanded(h, demands) && done <= demands
    ensures ww.Some? ==> forall p: nat, a: nat, b: nat :: ShowsNext(h, k, list, p, a, b) ==> (k, a, b) in demands
  {
    var now := before;
    demands := done;
    for i := 0 to |list| - 1
      invariant Holds(now, demands) && AllDemanded(h, demands) && done <= demands
      invariant forall p: nat, a: nat, b: nat :: ShowsNext(h, k, list, p, a, b) && p < i ==> (k, a, b) in demands
    {
      var a := WriterOf(h, idx, k, list[i]);
      var b := WriterOf(h, idx, k, list[i + 1]);
      if a != b {
        assert ShowsNext(h, k, list, i, a, b);
        assert ListDemands(h, k, list, a, b);
        assert Demands(h, k, a, b);
        ww := AddDemand(now, demands, k, a, b);
        if ww.None? {
          ConflictFound(h, demands, k, a, b);
          return;
        }
        now := ww.value;
        demands := demands + {(k, a, b)};
      }
      assert forall x: nat, y: nat :: ShowsNext(h, k, list, i, x, y) ==> x == a && y == b;
    }
    ww := Some(now);
  }

  method WriterOf(h: AppendHistory, idx: Index<Elem>, k: Key, e: Elem) returns (i: nat)
    requires ProperAppends(h) && IsElemIndex(h, idx) && KnownElem(h, k, e)
    ensures Appends(h, i, k, e)
  {
    ghost var x: nat :| Appends(h, x, k, e);
    assert Listed(idx, k, e, x);
    var ws := GetIn(idx, k, e);
    i :| i in ws;
    assert Listed(idx, k, e, i);
  }

  // ----- all observations

  /** One observed value of a key. */
  method AddObserved(h: AppendHistory, k: Key, v: Observed, readers: set<nat>, kWrites: set<nat>, idx: Index<Elem>,
                     before: Successions, ghost done: set<Demand>) returns (ww: Option<Successions>, ghost demands: set<Demand>)
    requires ProperAppends(h) && Holds(before, done) && AllDemanded(h, done) && IsElemIndex(h, idx)
    requires (forall j: nat :: j in readers <==> Maps(h.observed, k, v, j)) && readers != {}
    requires forall i: nat :: i in kWrites <==> AppendsTo(h, i, k)
    ensures ww.None? ==> HasConflict(h) || HasUnknownTail(h)
    ensures ww.Some? ==> Holds(ww.value, demands) && AllDemanded(h, demands) && done <= demands
    ensures ww.Some? && v.Elems? ==> KnownTail(h, k, v.list)
    ensures ww.Some? && v.Elems? ==> forall a: nat, b: nat :: ListDemands(h, k, v.list, a, b) ==> (k, a, b) in demands
  {
    demands := done;
    if v.Missing? {
      return Some(before), demands;
    }
    var list := v.list;
    ghost var j :| j in readers;
    assert Observes(h, j, k, list);
    var ws := GetIn(idx, k, list[|list| - 1]);
    if ws == {} {
      var e := list[|list| - 1];
      assert !KnownElem(h, k, e) by {
        assert forall i: nat :: Listed(idx, k, e, i) <==> Appends(h, i, k, e);
      }
      return None, demands;
    }
    var a :| a in ws;
    assert Listed(idx, k, list[|list| - 1], a);
    ww, demands := AddReaders(h, k, list, a, readers, kWrites, before, done);
    if ww.None? {
      return;
    }
    ww, demands := AddList(h, k, list, j, idx, ww.value, demands);
  }

  method AddKeyObserved(h: AppendHistory, k: Key, extReads: Index<Observed>, idx: Index<Elem>, before: Successions, ghost done: set<Demand>)
      returns (ww: Option<Successions>, ghost demands: set<Demand>)
    requires ProperAppends(h) && Holds(before, done) && AllDemanded(h, done) && IsElemIndex(h, idx)
    requires IsIndex(extReads, h.observed) && k in extReads
    ensures ww.None? ==> HasConflict(h) || HasUnknownTail(h)
    ensures ww.Some? ==> Holds(ww.value, demands) && AllDemanded(h, demands) && done <= demands
    ensures ww.Some? ==> forall j: nat, list :: Observes(h, j, k, list) ==> KnownTail(h, k, list)
    ensures ww.Some? ==> forall a: nat, b: nat :: Demands(h, k, a, b) ==> (k, a, b) in demands
  {
    var kWrites := KWrites(idx, k);
    forall i: nat ensures i in kWrites <==> AppendsTo(h, i, k) {
      if i in kWrites {
        var e :| Listed(idx, k, e, i);
        assert Appends(h, i, k, e);
      }
      if e :| Appends(h, i, k, e) {
        assert Listed(idx, k, e, i);
      }
    }
    var values := extReads[k];
    var todo := values.Keys;
    var now := before;
    demands := done;
    forall j: nat, v | Maps(h.observed, k, v, j) ensures v in values {
      assert Listed(extReads, k, v, j);
    }
    while todo != {}
      invariant todo <= values.Keys && Holds(now, demands) && AllDemanded(h, demands) && done <= demands
      invariant forall j: nat, list :: Observes(h, j, k, list) && Elems(list) !in todo ==> KnownTail(h, k, list)
      invariant forall j: nat, list, a: nat, b: nat :: Observes(h, j, k, list) && Elems(list) !in todo && ListDemands(h, k, list, a, b) ==> (k, a, b) in demands
    {
      var v := Pick(todo);
      assert forall j: nat :: j in values[v] <==> Listed(extReads, k, v, j);
      ww, demands := AddObserved(h, k, v, values[v], kWrites, idx, now, demands);
      if ww.None? {
        return;
      }
      now := ww.value;
      todo := todo - {v};
    }
    ww := Some(now);
  }

  /** Infers the successions of versions from all observed lists, in any order. Rejects exactly when a
      list ends with an unknown element or two observations disagree about a successor. */
  method InferVersionOrder(h: AppendHistory, extReads: Index<Observed>, idx: Index<Elem>) returns (ww: Option<Successions>)
    requires ProperAppends(h) && IsIndex(extReads, h.observed) && IsElemIndex(h, idx)
    ensures ww.None? <==> HasConflict(h) || HasUnknownTail(h)
    ensures ww.Some? ==> forall k, a: nat, b: nat :: IsSuccession(ww.value, {}, k, a, b) <==> Demands(h, k, a, b)
  {
    var todo := extReads.Keys;
    var now: Successions := map[];
    ghost var demands: set<Demand> := {};
    forall j: nat, k, v | Maps(h.observed, k, v, j) ensures k in extReads {
      assert Listed(extReads, k, v, j);
    }
    while todo != {}
      invariant todo <= extReads.Keys && Holds(now, demands) && AllDemanded(h, demands)
      invariant forall j: nat, k, list :: Observes(h, j, k, list) && k !in todo ==> KnownTail(h, k, list)
      invariant forall k, a: nat, b: nat :: Demands(h, k, a, b) && k !in todo ==> (k, a, b) in demands
    {
      var k := Pick(todo);
      ww, demands := AddKeyObserved(h, k, extReads, idx, now, demands);
      if ww.None? {
        return;
      }
      now := ww.value;
      todo := todo - {k};
    }
    forall k, a: nat, b: nat ensures IsSuccession(now, {}, k, a, b) <==> Demands(h, k, a, b) {
      if (k, a, b) in demands {
        assert Demands(h, (k, a, b).0, (k, a, b).1, (k, a, b).2);
      }
    }
    ww := Some(now);
  }

  /** The index of appended elements. */
  method IndexAppends(h: AppendHistory) returns (idx: Index<Elem>)
    requires |h.appended| >= 1
    ensures IsElemIndex(h, idx)
  {
    idx := map[];
    for i := 1 to |h.appended|
      invariant forall k, e, x: nat :: Listed(idx, k, e, x) <==> Appends(h, x, k, e) && x < i
      invariant forall q, u :: q in idx && u in idx[q] ==> idx[q][u] != {}
    {
      var ops := h.appended[i];
      for m := 0 to |ops|
        invariant forall k, e, x: nat :: Listed(idx, k, e, x) <==> (Appends(h, x, k, e) && x < i) || (x == i && (k, e) in ops[..m])
        invariant forall q, u :: q in idx && u in idx[q] ==> idx[q][u] != {}
      {
        var (k, e) := ops[m];
        idx := AddEntry(idx, k, e, i);
        assert forall q, u :: (q, u) in ops[..m + 1] <==> (q, u) in ops[..m] || (q == k && u == e);
      }
      assert ops[..|ops|] == ops;
    }
  }

  // ----- what the inferred order means for the observations

  /** The writers of a list's elements, a run of one writer counted once. */
  ghost function WriterRuns(h: AppendHistory, k: Key, list: seq<Elem>): (ws: seq<nat>)
    requires forall p :: 0 <= p < |list| ==> KnownElem(h, k, list[p])
    ensures list != [] <==> ws != []
    ensures list != [] ==> Appends(h, ws[|ws| - 1], k, list[|list| - 1])
  {
    if list == [] then []
    else
      var before := WriterRuns(h, k, list[..|list| - 1]);
      assert KnownElem(h, k, list[|list| - 1]);
      var w: nat :| Appends(h, w, k, list[|list| - 1]);
      if before != [] && before[|before| - 1] == w then before else before + [w]
  }

  ghost predicate Explained(h: AppendHistory, ww: Successions) {
    forall k, a: nat, b: nat :: Demands(h, k, a, b) ==> (k, a) in ww && ww[(k, a)] == b
  }

  lemma KnownThroughout(h: AppendHistory, j: nat, k: Key, list: seq<Elem>)
    requires ProperAppends(h) && Observes(h, j, k, list) && !HasUnknownTail(h)
    ensures forall p :: 0 <= p < |list| ==> KnownElem(h, k, list[p])
  {
    assert KnownTail(h, k, list);
  }

  ghost predicate Follows(ww: Successions, k: Key, ws: seq<nat>) {
    forall p :: 0 <= p < |ws| - 1 ==> (k, ws[p]) in ww && ww[(k, ws[p])] == ws[p + 1]
  }

  /** In the runs of an observed list each writer is followed by its inferred successor. */
  lemma {:induction false} RunsFollowSuccessions(h: AppendHistory, ww: Successions, j: nat, k: Key, list: seq<Elem>, m: nat)
    requires ProperAppends(h) && Explained(h, ww) && Observes(h, j, k, list) && m <= |list|
    requires forall p :: 0 <= p < |list| ==> KnownElem(h, k, list[p])
    ensures Follows(ww, k, WriterRuns(h, k, list[..m]))
  {
    if m > 0 {
      RunsFollowSuccessions(h, ww, j, k, list, m - 1);
      assert list[..m][..m - 1] == list[..m - 1];
      var before, ws := WriterRuns(h, k, list[..m - 1]), WriterRuns(h, k, list[..m]);
      assert ws == before || ws == before + [ws[|ws| - 1]];
      if ws != before && before != [] {
        NextRunIsDemanded(h, j, k, list, m);
      }
    }
  }

  lemma NextRunIsDemanded(h: AppendHistory, j: nat, k: Key, list: seq<Elem>, m: nat)
    requires Observes(h, j, k, list) && 2 <= m <= |list|
    requires forall p :: 0 <= p < |list| ==> KnownElem(h, k, list[p])
    requires WriterRuns(h, k, list[..m]) != WriterRuns(h, k, list[..m - 1])
    ensures Demands(h, k, Latest(WriterRuns(h, k, list[..m - 1])), Latest(WriterRuns(h, k, list[..m])))
  {
    assert list[..m][..m - 1] == list[..m - 1];
    var a, b := Latest(WriterRuns(h, k, list[..m - 1])), Latest(WriterRuns(h, k, list[..m]));
    assert ShowsNext(h, k, list, m - 2, a, b);
    assert ListDemands(h, k, list, a, b);
  }

  ghost function Latest(ws: seq<nat>): nat
    requires ws != []
  {
    ws[|ws| - 1]
  }

  lemma {:induction false} RunsAgree(ww: Successions, k: Key, vs: seq<nat>, ws: seq<nat>, p: nat, q: nat, t: nat)
    requires Follows(ww, k, vs) && Follows(ww, k, ws)
    requires p + t < |vs| && q + t < |ws| && vs[p] == ws[q]
    ensures vs[p + t] == ws[q + t]
  {
    if t > 0 {
      RunsAgree(ww, k, vs, ws, p, q, t - 1);
    }
  }

  /** The writers behind an observed list, every element of which somebody appended. */
  ghost function Runs(h: AppendHistory, j: nat, k: Key, list: seq<Elem>): seq<nat>
    requires ProperAppends(h) && !HasUnknownTail(h) && Observes(h, j, k, list)
  {
    KnownThroughout(h, j, k, list);
    WriterRuns(h, k, list)
  }

  /** If the builder finishes, any two observed lists of a key agree, run by run, from any shared
      writer up to the end of the shorter one. */
  lemma ObservedListsAgree(h: AppendHistory, ww: Successions, k: Key, i: nat, v: seq<Elem>, j: nat, w: seq<Elem>, p: nat, q: nat, t: nat)
    requires ProperAppends(h) && Explained(h, ww) && !HasUnknownTail(h) && Observes(h, i, k, v) && Observes(h, j, k, w)
    requires p + t < |Runs(h, i, k, v)| && q + t < |Runs(h, j, k, w)| && Runs(h, i, k, v)[p] == Runs(h, j, k, w)[q]
    ensures Runs(h, i, k, v)[p + t] == Runs(h, j, k, w)[q + t]
  {
    KnownThroughout(h, i, k, v);
    KnownThroughout(h, j, k, w);
    assert v[..|v|] == v && w[..|w|] == w;
    RunsFollowSuccessions(h, ww, i, k, v, |v|);
    RunsFollowSuccessions(h, ww, j, k, w, |w|);
    RunsAgree(ww, k, WriterRuns(h, k, v), WriterRuns(h, k, w), p, q, t);
  }

  /** A transaction that read a list and appended to it is what every observed list shows after the
      list's last writer, and no other transaction extends the same version. */
  lemma ExtenderIsNext(h: AppendHistory, ww: Successions, k: Key, list: seq<Elem>, a: nat, b: nat, j: nat, other: seq<Elem>, p: nat)
    requires ProperAppends(h) && Explained(h, ww) && !HasUnknownTail(h) && Extends(h, k, list, a, b)
    requires Observes(h, j, k, other) && p + 1 < |Runs(h, j, k, other)| && Runs(h, j, k, other)[p] == a
    ensures Runs(h, j, k, other)[p + 1] == b
    ensures forall l, c: nat :: Extends(h, k, l, a, c) ==> c == b
  {
    KnownThroughout(h, j, k, other);
    assert ListDemands(h, k, list, a, b);
    assert Demands(h, k, a, b);
    assert other[..|other|] == other;
    RunsFollowSuccessions(h, ww, j, k, other, |other|);
    forall l, c: nat | Extends(h, k, l, a, c) ensures c == b {
      assert ListDemands(h, k, l, a, c);
      assert Demands(h, k, a, c);
    }
  }
}
