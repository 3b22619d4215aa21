/** Combining the writers of each key into chains along the known successions. */
module Chains {
  import opened Digraph
  import opened Transactions
  import opened Wrappers

  type Chain = seq<nat>

  /** (k, a) maps to b when b is known to be the next writer of k after a. */
  type Successions = map<(Key, nat), nat>

  ghost predicate IsSuccession(ww: Successions, todo: set<(Key, nat)>, k: Key, a: nat, b: nat) {
    (k, a) in ww && ww[(k, a)] == b && (k, a) !in todo
  }

  ghost predicate Adjacent(c: Chain, p: nat, a: nat, b: nat) {
    p + 1 < |c| && c[p] == a && c[p + 1] == b
  }

  ghost predicate InSomeChain(cs: set<Chain>, x: nat) {
    exists c :: c in cs && x in c
  }

  ghost predicate AdjacentInSome(cs: set<Chain>, a: nat, b: nat) {
    exists c, p: nat :: c in cs && Adjacent(c, p, a, b)
  }

  /** The chains partition the writers of a key, and two writers are neighbours exactly when
      one is known to follow the other, as far as the successions have been worked off. */
  ghost predicate KeyChained(cs: set<Chain>, writers: set<nat>, ww: Successions, todo: set<(Key, nat)>, k: Key) {
    && (forall c :: c in cs ==> c != [] && Distinct(c))
    && (forall c, d, x :: c in cs && d in cs && x in c && x in d ==> c == d)
    && (forall x :: x in writers <==> InSomeChain(cs, x))
    && (forall a, b :: AdjacentInSome(cs, a, b) <==> IsSuccession(ww, todo, k, a, b))
  }

  /** The successions of a key join its writers. */
  ghost predicate KeyJoined(writers: set<nat>, ww: Successions, k: Key) {
    forall a :: (k, a) in ww ==> a in writers && ww[(k, a)] in writers
  }

  /** In addition, each writer follows at most one other. */
  ghost predicate KeySuccessions(writers: set<nat>, ww: Successions, k: Key) {
    && KeyJoined(writers, ww, k)
    && (forall a, b :: (k, a) in ww && (k, b) in ww && ww[(k, a)] == ww[(k, b)] ==> a == b)
  }

  ghost predicate Chained(chains: map<Key, set<Chain>>, writers: map<Key, set<nat>>, ww: Successions, todo: set<(Key, nat)>) {
    && (forall k :: k in chains <==> k in writers)
    && (forall k :: k in chains && k in writers ==> KeyChained(chains[k], writers[k], ww, todo, k))
  }

  ghost predicate JoinsWriters(writers: map<Key, set<nat>>, ww: Successions) {
    && (forall q :: q in ww ==> q.0 in writers)
    && (forall k :: k in writers ==> KeyJoined(writers[k], ww, k))
  }

  ghost predicate ProperSuccessions(writers: map<Key, set<nat>>, ww: Successions) {
    && (forall q :: q in ww ==> q.0 in writers)
    && (forall k :: k in writers ==> KeySuccessions(writers[k], ww, k))
  }

  /** A closed sequence of successions of one key. */
  ghost predicate SuccessionCycle(ww: Successions, k: Key, p: seq<nat>) {
    |p| >= 2 && p[0] == p[|p| - 1] && forall i :: 0 <= i < |p| - 1 ==> (k, p[i]) in ww && ww[(k, p[i])] == p[i + 1]
  }

  method FindByLast(cs: set<Chain>, x: nat) returns (c: Chain)
    requires exists d :: d in cs && d != [] && d[|d| - 1] == x
    requires forall d :: d in cs ==> d != []
    ensures c in cs && c != [] && c[|c| - 1] == x
  {
    var todo := cs;
    while todo != {}
      invariant todo <= cs
      invariant exists d :: d in todo && d != [] && d[|d| - 1] == x
    {
      c :| c in todo;
      if c[|c| - 1] == x {
        return;
      }
      todo := todo - {c};
    }
    assert false;
    c := [];
  }

  method FindByFirst(cs: set<Chain>, x: nat) returns (c: Chain)
    requires exists d :: d in cs && d != [] && d[0] == x
    requires forall d :: d in cs ==> d != []
    ensures c in cs && c != [] && c[0] == x
  {
    var todo := cs;
    while todo != {}
      invariant todo <= cs
      invariant exists d :: d in todo && d != [] && d[0] == x
    {
      c :| c in todo;
      if c[0] == x {
        return;
      }
      todo := todo - {c};
    }
    assert false;
    c := [];
  }

  lemma ChainStepIsSuccession(cs: set<Chain>, writers: set<nat>, ww: Successions, todo: set<(Key, nat)>, k: Key, c: Chain, p: nat)
    requires KeyChained(cs, writers, ww, todo, k) && c in cs && p + 1 < |c|
    ensures IsSuccession(ww, todo, k, c[p], c[p + 1])
  {
    assert Adjacent(c, p, c[p], c[p + 1]);
  }

  /** A writer whose successor is still to be worked off is the last of its chain. */
  lemma PendingIsLast(cs: set<Chain>, writers: set<nat>, ww: Successions, todo: set<(Key, nat)>, k: Key, a: nat)
    requires KeyChained(cs, writers, ww, todo, k) && a in writers && ((k, a) in todo || (k, a) !in ww)
    ensures exists c :: c in cs && c != [] && c[|c| - 1] == a
  {
    assert InSomeChain(cs, a);
    var c :| c in cs && a in c;
    var p :| 0 <= p < |c| && c[p] == a;
    if p + 1 < |c| {
      ChainStepIsSuccession(cs, writers, ww, todo, k, c, p);
      assert false;
    }
  }

  /** A writer whose predecessor is still to be worked off, or that has none, is the first of its chain. */
  lemma PendingIsFirst(cs: set<Chain>, writers: set<nat>, ww: Successions, todo: set<(Key, nat)>, k: Key, b: nat)
    requires KeyChained(cs, writers, ww, todo, k) && b in writers
    requires forall a :: (k, a) in ww && ww[(k, a)] == b ==> (k, a) in todo
    ensures exists c :: c in cs && c != [] && c[0] == b
  {
    assert InSomeChain(cs, b);
    var c :| c in cs && b in c;
    var p :| 0 <= p < |c| && c[p] == b;
    if p > 0 {
      ChainStepIsSuccession(cs, writers, ww, todo, k, c, p - 1);
      assert false;
    }
  }

  function Merged(cs: set<Chain>, c: Chain, d: Chain): set<Chain> {
    cs - {c} - {d} + {c + d}
  }

  lemma MergeKeepsPartition(cs: set<Chain>, c: Chain, d: Chain)
    requires c in cs && d in cs && c != d
    requires forall e :: e in cs ==> e != [] && Distinct(e)
    requires forall e, f, x :: e in cs && f in cs && x in e && x in f ==> e == f
    ensures forall e :: e in Merged(cs, c, d) ==> e != [] && Distinct(e)
    ensures forall e, f, x :: e in Merged(cs, c, d) && f in Merged(cs, c, d) && x in e && x in f ==> e == f
    ensures forall x :: InSomeChain(cs, x) <==> InSomeChain(Merged(cs, c, d), x)
  {
    var cd := c + d;
    assert forall x :: x in cd <==> x in c || x in d;
    forall i, j | 0 <= i < j < |cd| ensures cd[i] != cd[j] {
      if i < |c| <= j {
        assert cd[i] in c && cd[j] in d;
      }
    }
    forall x ensures InSomeChain(cs, x) <==> InSomeChain(Merged(cs, c, d), x) {
      if e :| e in cs && x in e {
        assert (if e == c || e == d then cd else e) in Merged(cs, c, d);
      }
      if e :| e in Merged(cs, c, d) && x in e {
        assert e in cs || (e == cd && (x in c || x in d));
      }
    }
  }

  lemma MergeAddsSuccession(cs: set<Chain>, c: Chain, d: Chain, a: nat, b: nat)
    requires c in cs && d in cs && c != [] && d != []
    ensures AdjacentInSome(Merged(cs, c, d), a, b) <==>
              AdjacentInSome(cs, a, b) || (a == c[|c| - 1] && b == d[0])
  {
    var cd := c + d;
    if e, p: nat :| e in cs && Adjacent(e, p, a, b) {
      if e == c {
        assert Adjacent(cd, p, a, b);
      } else if e == d {
        assert Adjacent(cd, p + |c|, a, b);
      } else {
        assert e in Merged(cs, c, d) && Adjacent(e, p, a, b);
      }
    }
    if a == c[|c| - 1] && b == d[0] {
      assert Adjacent(cd, |c| - 1, a, b);
    }
    if e, p: nat :| e in Merged(cs, c, d) && Adjacent(e, p, a, b) && e == cd {
      if p + 1 < |c| {
        assert Adjacent(c, p, a, b);
      } else if p >= |c| {
        assert Adjacent(d, p - |c|, a, b);
      }
    }
  }

  lemma MergeStep(cs: set<Chain>, writers: set<nat>, ww: Successions, todo: set<(Key, nat)>, k: Key, c: Chain, d: Chain)
    requires KeyChained(cs, writers, ww, todo, k)
    requires c in cs && d in cs && c != d
    requires (k, c[|c| - 1]) in todo && (k, c[|c| - 1]) in ww && ww[(k, c[|c| - 1])] == d[0]
    ensures KeyChained(Merged(cs, c, d), writers, ww, todo - {(k, c[|c| - 1])}, k)
  {
    MergeKeepsPartition(cs, c, d);
    forall a, b ensures AdjacentInSome(Merged(cs, c, d), a, b) <==> IsSuccession(ww, todo - {(k, c[|c| - 1])}, k, a, b) {
      MergeAddsSuccession(cs, c, d, a, b);
    }
  }

  lemma ClosingChainIsCycle(cs: set<Chain>, writers: set<nat>, ww: Successions, todo: set<(Key, nat)>, k: Key, c: Chain)
    requires KeyChained(cs, writers, ww, todo, k) && c in cs
    requires (k, c[|c| - 1]) in ww && ww[(k, c[|c| - 1])] == c[0]
    ensures SuccessionCycle(ww, k, c + [c[0]])
  {
    var p := c + [c[0]];
    forall i | 0 <= i < |p| - 1 ensures (k, p[i]) in ww && ww[(k, p[i])] == p[i + 1] {
      if i + 1 < |c| {
        assert Adjacent(c, i, p[i], p[i + 1]);
        assert IsSuccession(ww, todo, k, p[i], p[i + 1]);
      }
    }
  }

  /** Works off the successions in any order. Rejects exactly when the successions of some key close a cycle. */
  method CombineWrites(singles: map<Key, set<Chain>>, ghost writers: map<Key, set<nat>>, ww: Successions)
      returns (chains: Option<map<Key, set<Chain>>>)
    requires ProperSuccessions(writers, ww) && Chained(singles, writers, ww, ww.Keys)
    ensures chains.Some? ==> Chained(chains.value, writers, ww, {})
    ensures chains.None? <==> exists k, p :: SuccessionCycle(ww, k, p)
  {
    var now := singles;
    var todo := ww.Keys;
    while todo != {}
      invariant todo <= ww.Keys && Chained(now, writers, ww, todo)
    {
      var q :| q in todo;
      var (k, a) := q;
      var b := ww[q];
      ProperSuccessionsJoin(writers, ww);
      HasChainToExtend(now, writers, ww, todo, q);
      HasChainToAppend(now, writers, ww, todo, q);
      var c := FindByLast(now[k], a);
      var d := FindByFirst(now[k], b);
      if c == d {
        ClosingChainIsCycle(now[k], writers[k], ww, todo, k, c);
        return None;
      }
      CombineStep(now, writers, ww, todo, q, c, d);
      todo := todo - {q};
      now := now[k := Merged(now[k], c, d)];
    }
    ProperSuccessionsJoin(writers, ww);
    forall k, p ensures !SuccessionCycle(ww, k, p) {
      ChainedHasNoCycle(now, writers, ww, k, p);
    }
    return Some(now);
  }

  lemma ProperSuccessionsJoin(writers: map<Key, set<nat>>, ww: Successions)
    requires ProperSuccessions(writers, ww)
    ensures JoinsWriters(writers, ww)
  {
    forall k | k in writers ensures KeyJoined(writers[k], ww, k) {
      assert KeySuccessions(writers[k], ww, k);
    }
  }

  /** The transaction that the next succession starts from ends a chain of its key. */
  lemma HasChainToExtend(chains: map<Key, set<Chain>>, writers: map<Key, set<nat>>, ww: Successions, todo: set<(Key, nat)>, q: (Key, nat))
    requires JoinsWriters(writers, ww) && Chained(chains, writers, ww, todo) && q in todo && q in ww
    ensures q.0 in writers && q.0 in chains && KeyChained(chains[q.0], writers[q.0], ww, todo, q.0) && ww[q] in writers[q.0]
    ensures exists d :: d in chains[q.0] && d != [] && d[|d| - 1] == q.1
  {
    assert q == (q.0, q.1);
    assert KeyJoined(writers[q.0], ww, q.0);
    PendingIsLast(chains[q.0], writers[q.0], ww, todo, q.0, q.1);
  }

  /** The transaction that it leads to starts a chain of its key. */
  lemma HasChainToAppend(chains: map<Key, set<Chain>>, writers: map<Key, set<nat>>, ww: Successions, todo: set<(Key, nat)>, q: (Key, nat))
    requires ProperSuccessions(writers, ww) && Chained(chains, writers, ww, todo) && q in todo && q in ww && q.0 in chains
    ensures exists d :: d in chains[q.0] && d != [] && d[0] == ww[q]
  {
    assert q == (q.0, q.1);
    assert KeySuccessions(writers[q.0], ww, q.0);
    PendingIsFirst(chains[q.0], writers[q.0], ww, todo, q.0, ww[q]);
  }

  lemma CombineStep(chains: map<Key, set<Chain>>, writers: map<Key, set<nat>>, ww: Successions, todo: set<(Key, nat)>,
                    q: (Key, nat), c: Chain, d: Chain)
    requires Chained(chains, writers, ww, todo) && q in todo && q in ww && q.0 in writers
    requires q.0 in chains && c in chains[q.0] && d in chains[q.0] && c != d && c != [] && d != [] && c[|c| - 1] == q.1 && d[0] == ww[q]
    ensures Chained(chains[q.0 := Merged(chains[q.0], c, d)], writers, ww, todo - {q})
  {
    assert q == (q.0, q.1);
    MergeStep(chains[q.0], writers[q.0], ww, todo, q.0, c, d);
    OtherKeysKept(chains, writers, ww, todo, q);
  }

  lemma OtherKeysKept(chains: map<Key, set<Chain>>, writers: map<Key, set<nat>>, ww: Successions, todo: set<(Key, nat)>, q: (Key, nat))
    requires Chained(chains, writers, ww, todo)
    ensures forall k :: k in chains && k in writers && k != q.0 ==> KeyChained(chains[k], writers[k], ww, todo - {q}, k)
  {
    forall k, a, b | k != q.0 ensures IsSuccession(ww, todo - {q}, k, a, b) <==> IsSuccession(ww, todo, k, a, b) {
    }
  }

  /** Along a finished chain the successions only move forward, so they close no cycle. */
  lemma ChainedHasNoCycle(chains: map<Key, set<Chain>>, writers: map<Key, set<nat>>, ww: Successions, k: Key, p: seq<nat>)
    requires JoinsWriters(writers, ww) && Chained(chains, writers, ww, {})
    ensures !SuccessionCycle(ww, k, p)
  {
    if SuccessionCycle(ww, k, p) {
      assert (k, p[0]) in ww;
      assert KeyChained(chains[k], writers[k], ww, {}, k);
      assert KeyJoined(writers[k], ww, k);
      assert InSomeChain(chains[k], p[0]);
      var c :| c in chains[k] && p[0] in c;
      var i :| 0 <= i < |c| && c[i] == p[0];
      MovesForward(chains[k], writers[k], ww, k, p, c, i, |p| - 1);
    }
  }

  lemma {:induction false} MovesForward(cs: set<Chain>, writers: set<nat>, ww: Successions, k: Key, p: seq<nat>, c: Chain, i: nat, m: nat)
    requires KeyChained(cs, writers, ww, {}, k) && c in cs && i < |c| && m < |p| && c[i] == p[0]
    requires forall t :: 0 <= t < |p| - 1 ==> (k, p[t]) in ww && ww[(k, p[t])] == p[t + 1]
    ensures i + m < |c| && c[i + m] == p[m]
  {
    if m > 0 {
      MovesForward(cs, writers, ww, k, p, c, i, m - 1);
      assert IsSuccession(ww, {}, k, p[m - 1], p[m]);
      assert AdjacentInSome(cs, p[m - 1], p[m]);
      var d, t: nat :| d in cs && Adjacent(d, t, p[m - 1], p[m]);
      assert p[m - 1] in c && p[m - 1] in d;
    }
  }

  /** The outcome does not depend on the order of working off: at most one set of chains fits. */
  lemma ChainsAreUnique(cs: set<Chain>, ds: set<Chain>, writers: set<nat>, ww: Successions, k: Key)
    requires KeyChained(cs, writers, ww, {}, k) && KeyChained(ds, writers, ww, {}, k)
    ensures cs == ds
  {
    forall c | c in cs ensures c in ds { SameChain(cs, ds, writers, ww, k, c); }
    forall c | c in ds ensures c in cs { SameChain(ds, cs, writers, ww, k, c); }
  }

  lemma LastHasNoNext(cs: set<Chain>, writers: set<nat>, ww: Successions, k: Key, c: Chain, b: nat)
    requires KeyChained(cs, writers, ww, {}, k) && c in cs
    ensures !IsSuccession(ww, {}, k, c[|c| - 1], b)
  {
    var x := c[|c| - 1];
    forall e, t: nat | e in cs ensures !Adjacent(e, t, x, b) {
      assert x in c;
      assert t < |e| && e[t] == x ==> x in e && e == c;
    }
    assert !AdjacentInSome(cs, x, b);
  }

  lemma SameChain(cs: set<Chain>, ds: set<Chain>, writers: set<nat>, ww: Successions, k: Key, c: Chain)
    requires KeyChained(cs, writers, ww, {}, k) && KeyChained(ds, writers, ww, {}, k) && c in cs
    ensures c in ds
  {
    assert c[0] in c;
    assert InSomeChain(cs, c[0]);
    assert InSomeChain(ds, c[0]);
    var d :| d in ds && c[0] in d;
    var i :| 0 <= i < |d| && d[i] == c[0];
    if i > 0 {
      assert Adjacent(d, i - 1, d[i - 1], c[0]);
      assert IsSuccession(ww, {}, k, d[i - 1], c[0]);
      assert AdjacentInSome(cs, d[i - 1], c[0]);
      var e, t: nat :| e in cs && Adjacent(e, t, d[i - 1], c[0]);
      assert c[0] in e;
    }
    RunsAlong(cs, ds, writers, ww, k, c, d, |c| - 1);
    if |c| < |d| {
      LastHasNoNext(cs, writers, ww, k, c, d[|c|]);
      assert !Adjacent(d, |c| - 1, d[|c| - 1], d[|c|]) by {
        assert !IsSuccession(ww, {}, k, d[|c| - 1], d[|c|]);
      }
      assert false;
    }
    assert c == d;
  }

  lemma {:induction false} RunsAlong(cs: set<Chain>, ds: set<Chain>, writers: set<nat>, ww: Successions, k: Key, c: Chain, d: Chain, m: nat)
    requires KeyChained(cs, writers, ww, {}, k) && KeyChained(ds, writers, ww, {}, k)
    requires c in cs && d in ds && c[0] == d[0] && m < |c|
    ensures m < |d| && forall i :: 0 <= i <= m ==> d[i] == c[i]
  {
    if m > 0 {
      RunsAlong(cs, ds, writers, ww, k, c, d, m - 1);
      assert Adjacent(c, m - 1, c[m - 1], c[m]);
      assert IsSuccession(ww, {}, k, c[m - 1], c[m]);
      assert AdjacentInSome(ds, c[m - 1], c[m]);
      var e, t: nat :| e in ds && Adjacent(e, t, c[m - 1], c[m]);
      assert c[m - 1] in e && c[m - 1] in d;
    }
  }
}
