/** Histories summarised to external reads and writes, and snapshot isolation over them. */
module Histories {
  import opened Events
  import opened Transactions
  import opened Wrappers

  /** The value that stands for a missing key. */
  const NULL_VALUE: Value := Num(0)

  /** Transaction 0 is T0, which only stands for the initial database: it has no summary.
      `init` is the initial database if the history records one. */
  datatype History = History(
    extReads: seq<map<Key, Value>>,
    extWrites: seq<map<Key, Value>>,
    init: Option<map<Key, Value>>,
    sessions: seq<seq<nat>>,
    strong: bool)
  {
    function N(): nat { |extReads| }
  }

  ghost predicate Reads(h: History, j: nat, k: Key) {
    1 <= j < |h.extReads| && k in h.extReads[j]
  }

  ghost predicate Writes(h: History, i: nat, k: Key) {
    1 <= i < |h.extWrites| && k in h.extWrites[i]
  }

  ghost predicate WritesValue(h: History, i: nat, k: Key, v: Value) {
    Writes(h, i, k) && h.extWrites[i][k] == v
  }

  ghost predicate ReadsValue(h: History, j: nat, k: Key, v: Value) {
    Reads(h, j, k) && h.extReads[j][k] == v
  }

  /** j read the value that i wrote. */
  ghost predicate ReadsFrom(h: History, j: nat, i: nat, k: Key) {
    Reads(h, j, k) && Writes(h, i, k) && h.extReads[j][k] == h.extWrites[i][k]
  }

  /** j read the value that i wrote, and wrote the key itself. */
  ghost predicate Overwrites(h: History, j: nat, i: nat, k: Key) {
    ReadsFrom(h, j, i, k) && Writes(h, j, k)
  }

  /** No transaction leaves value v in key k. */
  ghost predicate Unwritten(h: History, k: Key, v: Value) {
    forall i: nat :: !WritesValue(h, i, k, v)
  }

  /** The recorded initial database is not in conflict with reading v from it. */
  predicate MayBeInitial(h: History, k: Key, v: Value) {
    h.init.None? || (k in h.init.value && h.init.value[k] == v)
  }

  /** j's read of k is attributed to T0. */
  ghost predicate ReadsInitial(h: History, j: nat, k: Key) {
    Reads(h, j, k) && Unwritten(h, k, h.extReads[j][k]) && MayBeInitial(h, k, h.extReads[j][k])
  }

  /** A value nobody left behind and the initial database does not hold: the history is rejected. */
  ghost predicate DirtyRead(h: History, j: nat, k: Key) {
    Reads(h, j, k) && Unwritten(h, k, h.extReads[j][k]) && !MayBeInitial(h, k, h.extReads[j][k]) && h.extReads[j][k] != NULL_VALUE
  }

  /** A null nobody wrote and that the recorded initial database does not hold: nothing is demanded of it. */
  ghost predicate SilentRead(h: History, j: nat, k: Key) {
    Reads(h, j, k) && Unwritten(h, k, h.extReads[j][k]) && !MayBeInitial(h, k, h.extReads[j][k]) && h.extReads[j][k] == NULL_VALUE
  }

  ghost predicate HasDirtyRead(h: History) {
    exists j: nat, k :: DirtyRead(h, j, k)
  }

  /** At most one transaction leaves a given value in a given key. */
  ghost predicate UniqueWriters(h: History) {
    forall i: nat, j: nat, k :: Writes(h, i, k) && Writes(h, j, k) && h.extWrites[i][k] == h.extWrites[j][k] ==> i == j
  }

  ghost predicate NoSelfReads(h: History) {
    forall j: nat, k :: Reads(h, j, k) ==> !ReadsFrom(h, j, j, k)
  }

  ghost predicate Shaped(h: History) {
    |h.extReads| == |h.extWrites| >= 1
  }

  /** What the builders assume of a history. */
  ghost predicate Proper(h: History) {
    && Shaped(h)
    && UniqueWriters(h) && NoSelfReads(h)
    && ProperSessions(h.N(), h.sessions)
  }

  // ----- snapshot isolation

  ghost predicate CommittedBefore(s: Schedule, w: nat, j: nat)
    requires w < |s.commit| && j < |s.begin|
  {
    s.commit[w] < s.begin[j]
  }

  /** i is the last writer of k to commit before j begins. */
  ghost predicate IsLatest(h: History, s: Schedule, i: nat, j: nat, k: Key)
    requires WellTimed(|h.extWrites|, s) && j < |h.extWrites|
  {
    && Writes(h, i, k) && CommittedBefore(s, i, j)
    && forall w: nat :: Writes(h, w, k) && CommittedBefore(s, w, j) ==> s.commit[w] <= s.commit[i]
  }

  /** Nobody has committed a write of k before j begins. */
  ghost predicate NoneCommitted(h: History, s: Schedule, j: nat, k: Key)
    requires WellTimed(|h.extWrites|, s) && j < |h.extWrites|
  {
    forall w: nat :: Writes(h, w, k) ==> !CommittedBefore(s, w, j)
  }

  /** Every read sees the latest version committed before its transaction began. */
  ghost predicate ReadSeesLatest(h: History, s: Schedule, j: nat, k: Key)
    requires WellTimed(|h.extWrites|, s) && |h.extReads| == |h.extWrites| && Reads(h, j, k)
  {
    && (forall i: nat :: ReadsFrom(h, j, i, k) ==> IsLatest(h, s, i, j, k))
    && (ReadsInitial(h, j, k) ==> NoneCommitted(h, s, j, k))
    && !DirtyRead(h, j, k)
  }

  /** T0 commits before everything else begins; under strong sessions, so does each transaction before the later ones of its session. */
  ghost predicate StartsInOrder(h: History, s: Schedule)
    requires WellTimed(|h.extWrites|, s) && |h.extWrites| >= 1
  {
    && (forall i :: 1 <= i < |h.extWrites| ==> CommittedBefore(s, 0, i))
    && (h.strong ==> InSessionOrder(s, h.sessions))
  }

  /** No two writers of a key overlap. */
  ghost predicate WritersApart(h: History, s: Schedule)
    requires WellTimed(|h.extWrites|, s)
  {
    forall i: nat, j: nat, k :: Writes(h, i, k) && Writes(h, j, k) && i != j ==> CommittedBefore(s, i, j) || CommittedBefore(s, j, i)
  }

  ghost predicate OrderlyCommits(h: History, s: Schedule)
    requires WellTimed(|h.extWrites|, s) && |h.extWrites| >= 1
  {
    StartsInOrder(h, s) && WritersApart(h, s)
  }

  ghost predicate SnapshotIsolated(h: History, s: Schedule)
    requires Shaped(h)
  {
    && WellTimed(h.N(), s) && DistinctTimes(h.N(), s)
    && OrderlyCommits(h, s)
    && forall j: nat, k :: Reads(h, j, k) ==> ReadSeesLatest(h, s, j, k)
  }

  /** Snapshot isolation of a history: distinct begin and commit times exist that explain every read. */
  ghost predicate IsSI(h: History)
    requires Shaped(h)
  {
    exists s :: SnapshotIsolated(h, s)
  }

  lemma DirtyReadIsNotSI(h: History)
    requires Shaped(h) && HasDirtyRead(h)
    ensures !IsSI(h)
  {
    var j: nat, k :| DirtyRead(h, j, k);
    assert Reads(h, j, k);
  }

  // ----- the orders that the pairwise encoding demands

  ghost predicate ReadOrders(h: History, s: Schedule)
    requires WellTimed(|h.extWrites|, s) && |h.extReads| == |h.extWrites|
  {
    && (forall j: nat, i: nat, k :: ReadsFrom(h, j, i, k) ==> CommittedBefore(s, i, j))
    && (forall j: nat, w: nat, k :: ReadsInitial(h, j, k) && Writes(h, w, k) && w != j ==> s.begin[j] < s.commit[w])
  }

  ghost predicate Alternatives(h: History, s: Schedule)
    requires WellTimed(|h.extWrites|, s) && |h.extReads| == |h.extWrites|
  {
    forall j: nat, i: nat, w: nat, k :: ReadsFrom(h, j, i, k) && Writes(h, w, k) && w != i && w != j ==>
      CommittedBefore(s, w, i) || s.begin[j] < s.commit[w]
  }

  ghost predicate PairwiseOrders(h: History, s: Schedule)
    requires Shaped(h)
  {
    && WellTimed(h.N(), s) && OrderlyCommits(h, s) && ReadOrders(h, s) && Alternatives(h, s)
  }

  /** On distinct times, the orders of the encoding say exactly that every read sees the latest committed version. */
  lemma OrdersMeanSnapshotReads(h: History, s: Schedule)
    requires Proper(h) && WellTimed(h.N(), s) && DistinctTimes(h.N(), s)
    ensures SnapshotIsolated(h, s) <==> PairwiseOrders(h, s) && !HasDirtyRead(h)
  {
    if PairwiseOrders(h, s) && !HasDirtyRead(h) {
      forall j: nat, k | Reads(h, j, k) ensures ReadSeesLatest(h, s, j, k) {
        OrdersGiveRead(h, s, j, k);
      }
    }
    if SnapshotIsolated(h, s) {
      ReadsGiveOrders(h, s);
    }
  }

  lemma OrdersGiveRead(h: History, s: Schedule, j: nat, k: Key)
    requires Proper(h) && PairwiseOrders(h, s) && !HasDirtyRead(h) && Reads(h, j, k)
    ensures ReadSeesLatest(h, s, j, k)
  {
    forall i: nat | ReadsFrom(h, j, i, k) ensures IsLatest(h, s, i, j, k) {
      forall w: nat | Writes(h, w, k) && CommittedBefore(s, w, j) ensures s.commit[w] <= s.commit[i] {
        if w != i {
          assert w != j;
        }
      }
    }
  }

  lemma ReadsGiveOrders(h: History, s: Schedule)
    requires Proper(h) && SnapshotIsolated(h, s)
    ensures PairwiseOrders(h, s) && !HasDirtyRead(h)
  {
    forall j: nat, i: nat, k | ReadsFrom(h, j, i, k) ensures IsLatest(h, s, i, j, k) {
      assert ReadSeesLatest(h, s, j, k);
    }
    forall j: nat, w: nat, k | ReadsInitial(h, j, k) && Writes(h, w, k) && w != j ensures s.begin[j] < s.commit[w] {
      assert ReadSeesLatest(h, s, j, k);
      assert !CommittedBefore(s, w, j);
    }
    forall j: nat, i: nat, w: nat, k | ReadsFrom(h, j, i, k) && Writes(h, w, k) && w != i && w != j
      ensures CommittedBefore(s, w, i) || s.begin[j] < s.commit[w]
    {
      assert IsLatest(h, s, i, j, k);
      assert CommittedBefore(s, w, i) || CommittedBefore(s, i, w);
    }
    forall j: nat, k ensures !DirtyRead(h, j, k) {
      if Reads(h, j, k) {
        assert ReadSeesLatest(h, s, j, k);
      }
    }
  }
}
