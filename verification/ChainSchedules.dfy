/** Chains of writers against schedules: when the writers of every key are arranged in chains, saying in which order
    whole chains come says the same as ordering the writers one by one. */
module ChainSchedules {
  import opened Digraph
  import opened Events
  import opened Transactions
  import opened Histories
  import opened Chains

  function Last(c: Chain): nat
    requires c != []
  {
    c[|c| - 1]
  }

  /** The chains of a key partition its writers, and a transaction that overwrites what it read follows its writer directly. */
  ghost predicate KeyChains(h: History, k: Key, cs: set<Chain>) {
    && (forall c :: c in cs ==> c != [] && Distinct(c))
    && (forall c, d, x: nat :: c in cs && d in cs && x in c && x in d ==> c == d)
    && (forall x: nat :: Writes(h, x, k) <==> InSomeChain(cs, x))
    && (forall a: nat, b: nat :: Overwrites(h, b, a, k) ==> AdjacentInSome(cs, a, b))
  }

  ghost predicate IsWriterChain(h: History, k: Key, c: Chain) {
    c != [] && forall p :: 0 <= p < |c| ==> Writes(h, c[p], k)
  }

  lemma ChainMembersWrite(h: History, k: Key, cs: set<Chain>, c: Chain)
    requires KeyChains(h, k, cs) && c in cs
    ensures IsWriterChain(h, k, c)
  {
    forall p | 0 <= p < |c| ensures Writes(h, c[p], k) {
      assert c[p] in c;
      assert InSomeChain(cs, c[p]);
    }
  }

  lemma NeighboursShareChain(h: History, k: Key, cs: set<Chain>, c: Chain, d: Chain, x: nat, y: nat)
    requires KeyChains(h, k, cs) && c in cs && d in cs && x in c && y in d && Overwrites(h, y, x, k)
    ensures c == d
  {
    assert AdjacentInSome(cs, x, y);
    var e, t: nat :| e in cs && Adjacent(e, t, x, y);
    assert e[t] in e && e[t + 1] in e;
  }

  /** No reader of a chain's last version is the first writer of another chain: the two would be neighbours. */
  lemma TailReaderIsNoHead(h: History, k: Key, cs: set<Chain>, c: Chain, d: Chain, r: nat)
    requires Proper(h) && KeyChains(h, k, cs) && c in cs && d in cs && c != d
    requires ReadsFrom(h, r, Last(c), k)
    ensures r != d[0]
  {
    ChainMembersWrite(h, k, cs, d);
    assert Last(c) in c && d[0] in d;
    if r == d[0] {
      NeighboursShareChain(h, k, cs, c, d, Last(c), d[0]);
    }
  }

  lemma FindInChain(h: History, k: Key, cs: set<Chain>, x: nat) returns (c: Chain, p: nat)
    requires KeyChains(h, k, cs) && Writes(h, x, k)
    ensures c in cs && p < |c| && c[p] == x && IsWriterChain(h, k, c)
  {
    assert InSomeChain(cs, x);
    c :| c in cs && x in c;
    ChainMembersWrite(h, k, cs, c);
    p :| 0 <= p < |c| && c[p] == x;
  }

  // ----- what is demanded of a schedule

  /** All of chain c comes before all of chain d: its last writer commits, and the readers of its last version
      begin, before the other's first writer does. */
  ghost predicate Precedes(h: History, s: Schedule, k: Key, c: Chain, d: Chain)
    requires WellTimed(|h.extWrites|, s) && |h.extReads| == |h.extWrites|
    requires c != [] && d != [] && Last(c) < |h.extWrites| && d[0] < |h.extWrites|
  {
    && CommittedBefore(s, Last(c), d[0])
    && forall r: nat :: ReadsFrom(h, r, Last(c), k) ==> s.begin[r] < s.commit[d[0]]
  }

  ghost predicate ChainsApart(h: History, s: Schedule, k: Key, cs: set<Chain>)
    requires WellTimed(|h.extWrites|, s) && |h.extReads| == |h.extWrites| && KeyChains(h, k, cs)
  {
    forall c, d :: c in cs && d in cs && c != d ==>
      && IsWriterChain(h, k, c) && IsWriterChain(h, k, d)
      && (Precedes(h, s, k, c, d) || Precedes(h, s, k, d, c))
  }

  /** The next writer of the chain begins after this one commits, and commits after the readers of this version begin. */
  ghost predicate NextInOrder(h: History, s: Schedule, k: Key, c: Chain, p: nat)
    requires WellTimed(|h.extWrites|, s) && |h.extReads| == |h.extWrites| && p + 1 < |c| && IsWriterChain(h, k, c)
  {
    && CommittedBefore(s, c[p], c[p + 1])
    && forall j: nat :: ReadsFrom(h, j, c[p], k) ==> s.begin[j] < s.commit[c[p + 1]]
  }

  ghost predicate ChainInOrder(h: History, s: Schedule, k: Key, c: Chain)
    requires WellTimed(|h.extWrites|, s) && |h.extReads| == |h.extWrites|
  {
    IsWriterChain(h, k, c) && forall p: nat :: p + 1 < |c| ==> NextInOrder(h, s, k, c, p)
  }

  ghost predicate ChainsInOrder(h: History, s: Schedule, k: Key, cs: set<Chain>)
    requires WellTimed(|h.extWrites|, s) && |h.extReads| == |h.extWrites|
  {
    forall c :: c in cs ==> ChainInOrder(h, s, k, c)
  }

  /** b is the next writer of k after a. */
  ghost predicate Consecutive(h: History, s: Schedule, k: Key, a: nat, b: nat)
    requires WellTimed(|h.extWrites|, s)
  {
    && Writes(h, a, k) && Writes(h, b, k) && CommittedBefore(s, a, b)
    && forall w: nat :: Writes(h, w, k) && w != a && w != b ==> CommittedBefore(s, w, a) || CommittedBefore(s, b, w)
  }

  ghost predicate ConsecutiveAlong(h: History, s: Schedule, k: Key, c: Chain)
    requires WellTimed(|h.extWrites|, s)
  {
    forall p: nat :: p + 1 < |c| ==> Consecutive(h, s, k, c[p], c[p + 1])
  }

  // ----- from single writers to chains

  /** A writer before the last of a chain it is not in is before all of the chain. */
  lemma {:induction false} BeforeWholeChain(h: History, s: Schedule, k: Key, c: Chain, y: nat, p: nat)
    requires WellTimed(|h.extWrites|, s) && IsWriterChain(h, k, c) && ConsecutiveAlong(h, s, k, c)
    requires Writes(h, y, k) && y !in c && CommittedBefore(s, y, Last(c)) && p < |c|
    ensures CommittedBefore(s, y, c[p])
    decreases |c| - p
  {
    if p + 1 < |c| {
      BeforeWholeChain(h, s, k, c, y, p + 1);
      assert Consecutive(h, s, k, c[p], c[p + 1]);
    }
  }

  /** A writer after the first of a chain it is not in is after all of the chain. */
  lemma {:induction false} AfterWholeChain(h: History, s: Schedule, k: Key, d: Chain, x: nat, p: nat)
    requires WellTimed(|h.extWrites|, s) && IsWriterChain(h, k, d) && ConsecutiveAlong(h, s, k, d)
    requires Writes(h, x, k) && x !in d && CommittedBefore(s, d[0], x) && p < |d|
    ensures CommittedBefore(s, d[p], x)
  {
    if p > 0 {
      AfterWholeChain(h, s, k, d, x, p - 1);
      assert Consecutive(h, s, k, d[p - 1], d[p]);
    }
  }

  /** Readers of a version begin before any writer that comes after it commits. */
  lemma ReaderBeforeLater(h: History, s: Schedule, k: Key, r: nat, a: nat, b: nat)
    requires Proper(h) && PairwiseOrders(h, s) && ReadsFrom(h, r, a, k) && Writes(h, b, k) && a != b && CommittedBefore(s, a, b)
    ensures s.begin[r] < s.commit[b]
  {
    if r != b {
      assert CommittedBefore(s, b, a) || s.begin[r] < s.commit[b];
    }
  }

  lemma CommittedGivesPrecedes(h: History, s: Schedule, k: Key, c: Chain, d: Chain)
    requires Proper(h) && PairwiseOrders(h, s) && IsWriterChain(h, k, c) && IsWriterChain(h, k, d)
    requires CommittedBefore(s, Last(c), d[0]) && Last(c) != d[0]
    ensures Precedes(h, s, k, c, d)
  {
    forall r: nat | ReadsFrom(h, r, Last(c), k) ensures s.begin[r] < s.commit[d[0]] {
      ReaderBeforeLater(h, s, k, r, Last(c), d[0]);
    }
  }

  lemma ConsecutiveGivesApart(h: History, s: Schedule, k: Key, c: Chain, d: Chain)
    requires Proper(h) && PairwiseOrders(h, s) && IsWriterChain(h, k, c) && IsWriterChain(h, k, d)
    requires ConsecutiveAlong(h, s, k, c) && ConsecutiveAlong(h, s, k, d)
    requires forall x :: x in c ==> x !in d
    ensures Precedes(h, s, k, c, d) || Precedes(h, s, k, d, c)
  {
    var x, y := Last(c), d[0];
    assert x in c && y in d;
    if CommittedBefore(s, x, y) {
      CommittedGivesPrecedes(h, s, k, c, d);
    } else {
      assert CommittedBefore(s, y, x);
      BeforeWholeChain(h, s, k, c, y, 0);
      assert c[0] in c;
      AfterWholeChain(h, s, k, d, c[0], |d| - 1);
      assert Last(d) in d;
      CommittedGivesPrecedes(h, s, k, d, c);
    }
  }

  /** If chains follow the order of the writers without a gap, any two of them are apart as a whole. */
  lemma ConsecutiveChains(h: History, s: Schedule, k: Key, cs: set<Chain>)
    requires Proper(h) && PairwiseOrders(h, s) && KeyChains(h, k, cs)
    requires forall c :: c in cs ==> ConsecutiveAlong(h, s, k, c)
    ensures ChainsApart(h, s, k, cs) && ChainsInOrder(h, s, k, cs)
  {
    forall c, d | c in cs && d in cs && c != d
      ensures IsWriterChain(h, k, c) && IsWriterChain(h, k, d) && (Precedes(h, s, k, c, d) || Precedes(h, s, k, d, c))
    {
      ChainMembersWrite(h, k, cs, c);
      ChainMembersWrite(h, k, cs, d);
      ConsecutiveGivesApart(h, s, k, c, d);
    }
    forall c | c in cs ensures ChainInOrder(h, s, k, c) {
      ChainMembersWrite(h, k, cs, c);
      forall p: nat | p + 1 < |c| ensures NextInOrder(h, s, k, c, p) {
        assert Consecutive(h, s, k, c[p], c[p + 1]);
        forall j: nat | ReadsFrom(h, j, c[p], k) ensures s.begin[j] < s.commit[c[p + 1]] {
          ReaderBeforeLater(h, s, k, j, c[p], c[p + 1]);
        }
      }
    }
  }

  // ----- from chains to single writers

  /** A chain is in commit order. */
  lemma {:induction false} ChainIsOrdered(h: History, s: Schedule, k: Key, c: Chain, p: nat, q: nat)
    requires WellTimed(|h.extWrites|, s) && |h.extReads| == |h.extWrites| && ChainInOrder(h, s, k, c) && p < q < |c|
    ensures CommittedBefore(s, c[p], c[q])
  {
    assert NextInOrder(h, s, k, c, q - 1);
    if p < q - 1 {
      ChainIsOrdered(h, s, k, c, p, q - 1);
    }
  }

  lemma PrecedingChain(h: History, s: Schedule, k: Key, c: Chain, d: Chain, p: nat, q: nat)
    requires WellTimed(|h.extWrites|, s) && |h.extReads| == |h.extWrites|
    requires ChainInOrder(h, s, k, c) && ChainInOrder(h, s, k, d) && Precedes(h, s, k, c, d) && p < |c| && q < |d|
    ensures s.commit[c[p]] <= s.commit[Last(c)] && s.commit[d[0]] <= s.commit[d[q]]
    ensures CommittedBefore(s, c[p], d[q])
  {
    if p < |c| - 1 {
      ChainIsOrdered(h, s, k, c, p, |c| - 1);
    }
    if q > 0 {
      ChainIsOrdered(h, s, k, d, 0, q);
    }
  }

  lemma ChainsGiveApart(h: History, s: Schedule, k: Key, cs: set<Chain>, i: nat, j: nat)
    requires Proper(h) && WellTimed(h.N(), s) && KeyChains(h, k, cs) && ChainsApart(h, s, k, cs) && ChainsInOrder(h, s, k, cs)
    requires Writes(h, i, k) && Writes(h, j, k) && i != j
    ensures CommittedBefore(s, i, j) || CommittedBefore(s, j, i)
  {
    var c, p := FindInChain(h, k, cs, i);
    var d, q := FindInChain(h, k, cs, j);
    if c == d {
      ChainIsOrdered(h, s, k, c, if p < q then p else q, if p < q then q else p);
    } else if Precedes(h, s, k, c, d) {
      PrecedingChain(h, s, k, c, d, p, q);
    } else {
      PrecedingChain(h, s, k, d, c, q, p);
    }
  }

  lemma SameChainAlternative(h: History, s: Schedule, k: Key, c: Chain, j: nat, p: nat, q: nat)
    requires WellTimed(|h.extWrites|, s) && |h.extReads| == |h.extWrites| && ChainInOrder(h, s, k, c)
    requires p < |c| && q < |c| && p != q && ReadsFrom(h, j, c[p], k)
    ensures CommittedBefore(s, c[q], c[p]) || s.begin[j] < s.commit[c[q]]
  {
    if q < p {
      ChainIsOrdered(h, s, k, c, q, p);
    } else {
      assert NextInOrder(h, s, k, c, p);
      if p + 1 < q {
        ChainIsOrdered(h, s, k, c, p + 1, q);
      }
    }
  }

  /** A reader of a version of chain c begins before any writer of a later chain commits. */
  lemma ReaderBeforeLaterChain(h: History, s: Schedule, k: Key, c: Chain, d: Chain, j: nat, p: nat, q: nat)
    requires WellTimed(|h.extWrites|, s) && |h.extReads| == |h.extWrites|
    requires ChainInOrder(h, s, k, c) && ChainInOrder(h, s, k, d) && Precedes(h, s, k, c, d)
    requires p < |c| && q < |d| && ReadsFrom(h, j, c[p], k)
    ensures s.begin[j] < s.commit[d[q]]
  {
    if p + 1 < |c| {
      assert NextInOrder(h, s, k, c, p);
      PrecedingChain(h, s, k, c, d, p + 1, q);
    } else {
      PrecedingChain(h, s, k, c, d, p, q);
    }
  }

  lemma ChainsGiveAlternative(h: History, s: Schedule, k: Key, cs: set<Chain>, j: nat, i: nat, w: nat)
    requires Proper(h) && WellTimed(h.N(), s) && KeyChains(h, k, cs) && ChainsApart(h, s, k, cs) && ChainsInOrder(h, s, k, cs)
    requires ReadsFrom(h, j, i, k) && Writes(h, w, k) && w != i
    ensures CommittedBefore(s, w, i) || s.begin[j] < s.commit[w]
  {
    var c, p := FindInChain(h, k, cs, i);
    var d, q := FindInChain(h, k, cs, w);
    if c == d {
      SameChainAlternative(h, s, k, c, j, p, q);
    } else if Precedes(h, s, k, d, c) {
      PrecedingChain(h, s, k, d, c, q, p);
    } else {
      ReaderBeforeLaterChain(h, s, k, c, d, j, p, q);
    }
  }

  ghost predicate AllKeyChains(h: History, chains: map<Key, set<Chain>>) {
    && (forall k, x: nat :: Writes(h, x, k) ==> k in chains)
    && (forall k :: k in chains ==> KeyChains(h, k, chains[k]))
  }

  /** Chains that are in order and apart put all writers, and the readers among them, in order. */
  lemma ChainsGiveOrders(h: History, s: Schedule, chains: map<Key, set<Chain>>)
    requires Proper(h) && WellTimed(h.N(), s) && AllKeyChains(h, chains)
    requires forall k :: k in chains ==> ChainsApart(h, s, k, chains[k]) && ChainsInOrder(h, s, k, chains[k])
    ensures WritersApart(h, s) && Alternatives(h, s)
  {
    forall i: nat, j: nat, k | Writes(h, i, k) && Writes(h, j, k) && i != j ensures CommittedBefore(s, i, j) || CommittedBefore(s, j, i) {
      ChainsGiveApart(h, s, k, chains[k], i, j);
    }
    forall j: nat, i: nat, w: nat, k | ReadsFrom(h, j, i, k) && Writes(h, w, k) && w != i && w != j
      ensures CommittedBefore(s, w, i) || s.begin[j] < s.commit[w]
    {
      ChainsGiveAlternative(h, s, k, chains[k], j, i, w);
    }
  }
}
