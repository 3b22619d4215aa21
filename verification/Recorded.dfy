/** Recorded histories, operation by operation: what it means that their values can be
    explained by snapshots, and how that relates to the summarised histories the checker works on. */
module Recorded {
  import opened Events
  import opened Transactions
  import opened Histories
  import opened Wrappers

  /** txns[0] is T0 and has no operations of its own; its writes, if recorded, are `init`. */
  datatype Recording = Recording(
    txns: seq<seq<Op>>,
    init: Option<map<Key, Value>>,
    sessions: seq<seq<nat>>,
    strong: bool)

  ghost function Summary(rec: Recording): History {
    History(
      seq(|rec.txns|, i requires 0 <= i < |rec.txns| => if i == 0 then map[] else ExternalReads(Accesses(rec.txns[i]))),
      seq(|rec.txns|, i requires 0 <= i < |rec.txns| => if i == 0 then map[] else Overlay(Accesses(rec.txns[i]))),
      rec.init, rec.sessions, rec.strong)
  }

  /** The history has, for every transaction but T0, its external reads and its last successful writes, and the rest unchanged. */
  ghost predicate Summarises(h: History, rec: Recording) {
    && |h.extReads| == |h.extWrites| == |rec.txns| && h.init == rec.init && h.sessions == rec.sessions && h.strong == rec.strong
    && (forall j: nat, k, v :: ReadsValue(h, j, k, v) <==> 1 <= j < |rec.txns| && IsExternalRead(rec.txns[j], k, v))
    && (forall j: nat, k, v :: WritesValue(h, j, k, v) <==> 1 <= j < |rec.txns| && IsLastWrite(rec.txns[j], k, v))
  }

  lemma SummaryMeans(rec: Recording)
    ensures Summarises(Summary(rec), rec)
  {
    var h := Summary(rec);
    forall j: nat, k, v ensures ReadsValue(h, j, k, v) <==> 1 <= j < |rec.txns| && IsExternalRead(rec.txns[j], k, v) {
      if 1 <= j < |rec.txns| {
        ExternalReadsMean(rec.txns[j], k, v);
      }
    }
    forall j: nat, k, v ensures WritesValue(h, j, k, v) <==> 1 <= j < |rec.txns| && IsLastWrite(rec.txns[j], k, v) {
      if 1 <= j < |rec.txns| {
        OverlayIsOwnWrites(rec.txns[j]);
        OwnWritesMean(rec.txns[j], k, v);
      }
    }
  }

  // ----- snapshots by value

  /** The initial value of a key: recorded, or guessed when the history does not record it. */
  ghost function InitialValue(init: Option<map<Key, Value>>, guess: map<Key, Value>, k: Key): Option<Value> {
    match init
    case Some(db) => Some(if k in db then db[k] else NULL_VALUE)
    case None => if k in guess then Some(guess[k]) else None
  }

  /** Committed state at j's begin: the value of k is v. */
  ghost predicate SnapshotHolds(h: History, s: Schedule, guess: map<Key, Value>, j: nat, k: Key, v: Value)
    requires WellTimed(|h.extWrites|, s) && j < |h.extWrites|
  {
    || (NoneCommitted(h, s, j, k) && InitialValue(h.init, guess, k) == Some(v))
    || (exists i: nat :: IsLatest(h, s, i, j, k) && h.extWrites[i][k] == v)
  }

  ghost predicate RunsOnSnapshot(rec: Recording, s: Schedule, guess: map<Key, Value>, j: nat)
    requires j < |rec.txns| && WellTimed(|rec.txns|, s)
  {
    exists snapshot ::
      && RunsOn(rec.txns[j], snapshot)
      && forall k :: k in snapshot ==> SnapshotHolds(Summary(rec), s, guess, j, k, snapshot[k])
  }

  ghost predicate Explains(rec: Recording, s: Schedule, guess: map<Key, Value>)
    requires |rec.txns| >= 1
  {
    && WellTimed(|rec.txns|, s) && DistinctTimes(|rec.txns|, s)
    && OrderlyCommits(Summary(rec), s)
    && forall j: nat :: 1 <= j < |rec.txns| ==> RunsOnSnapshot(rec, s, guess, j)
  }

  /** Every recorded value is explained by running each transaction on the snapshot at its begin. */
  ghost predicate IsExplained(rec: Recording)
    requires |rec.txns| >= 1
  {
    exists s, guess :: Explains(rec, s, guess)
  }

  /** An explanation in which a value that some transaction left behind is read from that transaction,
      as the builders take it, and never from an equal initial value. */
  ghost predicate ExplainsFromWriters(rec: Recording, s: Schedule, guess: map<Key, Value>)
    requires |rec.txns| >= 1
  {
    && Explains(rec, s, guess)
    && forall j: nat, i: nat, k :: ReadsFrom(Summary(rec), j, i, k) ==> IsLatest(Summary(rec), s, i, j, k)
  }

  ghost predicate IsExplainedFromWriters(rec: Recording)
    requires |rec.txns| >= 1
  {
    exists s, guess :: ExplainsFromWriters(rec, s, guess)
  }

  /** No value that a transaction left behind and another read can be the initial value of its key: the recorded one
      is another, or, if none is recorded, somebody read a value of that key that nobody wrote. */
  ghost predicate Unambiguous(h: History) {
    forall j: nat, i: nat, k :: ReadsFrom(h, j, i, k) ==> NotInitial(h, k, h.extReads[j][k])
  }

  ghost predicate NotInitial(h: History, k: Key, v: Value) {
    match h.init
    case Some(db) => v != if k in db then db[k] else NULL_VALUE
    case None => exists m: nat :: ReadsUnwritten(h, m, k)
  }

  // ----- the checks on single transactions

  ghost predicate NoFutureReads(rec: Recording) {
    forall j: nat :: 1 <= j < |rec.txns| ==> NoFutureRead(rec.txns[j])
  }

  ghost predicate AllPassInt(rec: Recording) {
    forall j: nat :: 1 <= j < |rec.txns| ==> PassesInt(rec.txns[j])
  }

  /** Values nobody wrote that are read from the same key are the same. */
  ghost predicate UnwrittenReadsAgree(h: History) {
    forall i: nat, j: nat, k :: ReadsUnwritten(h, i, k) && ReadsUnwritten(h, j, k) ==> h.extReads[i][k] == h.extReads[j][k]
  }

  ghost predicate ReadsUnwritten(h: History, j: nat, k: Key) {
    Reads(h, j, k) && Unwritten(h, k, h.extReads[j][k])
  }

  ghost predicate NoSilentReads(h: History) {
    forall j: nat, k :: !SilentRead(h, j, k)
  }

  /** Every silent read misses a key that the initial database lacks, before anybody wrote it. */
  ghost predicate SilentReadsMiss(h: History, s: Schedule)
    requires Shaped(h) && WellTimed(h.N(), s)
  {
    forall j: nat, k :: SilentRead(h, j, k) ==> k !in h.init.value && NoneCommitted(h, s, j, k)
  }

  /** Snapshot isolation that also orders silent reads, which the checker does not. */
  ghost predicate IsSIWithSilentReads(h: History)
    requires Shaped(h)
  {
    exists s :: SnapshotIsolated(h, s) && SilentReadsMiss(h, s)
  }

  /** What is assumed of a recording: one writer per value of a key, not counting T0, and sessions of known transactions. */
  ghost predicate ProperRecording(rec: Recording) {
    && |rec.txns| >= 1
    && UniqueWriters(Summary(rec))
    && ProperSessions(|rec.txns|, rec.sessions)
  }

  ghost predicate AllPlain(rec: Recording) {
    forall j :: 0 <= j < |rec.txns| ==> PlainOps(rec.txns[j])
  }

  /** Internal consistency rules out reading a value one writes oneself. */
  lemma SummaryIsProper(rec: Recording)
    requires ProperRecording(rec) && NoFutureReads(rec) && AllPlain(rec)
    ensures Proper(Summary(rec))
  {
    var h := Summary(rec);
    forall j: nat, k | Reads(h, j, k) ensures !ReadsFrom(h, j, j, k) {
      if Writes(h, j, k) {
        NoSelfRead(rec.txns[j], k);
      }
    }
  }

  /** Unwritten values that were read are taken for the initial database. */
  ghost function GuessInitial(h: History): (guess: map<Key, Value>)
    requires UnwrittenReadsAgree(h)
    ensures forall j: nat, k :: ReadsUnwritten(h, j, k) ==> k in guess && guess[k] == h.extReads[j][k]
    ensures forall k :: k in guess ==> Unwritten(h, k, guess[k])
  {
    var keys := set j, k | 0 <= j < |h.extReads| && k in h.extReads[j] && ReadsUnwritten(h, j, k) :: k;
    map k | k in keys :: UnwrittenValue(h, k)
  }

  ghost function UnwrittenValue(h: History, k: Key): (v: Value)
    requires UnwrittenReadsAgree(h) && exists j: nat :: ReadsUnwritten(h, j, k)
    ensures Unwritten(h, k, v) && forall j: nat :: ReadsUnwritten(h, j, k) ==> h.extReads[j][k] == v
  {
    var j: nat :| ReadsUnwritten(h, j, k);
    h.extReads[j][k]
  }

  lemma ReadHoldsInSnapshot(rec: Recording, s: Schedule, guess: map<Key, Value>, j: nat, k: Key)
    requires |rec.txns| >= 1 && UnwrittenReadsAgree(Summary(rec))
    requires SnapshotIsolated(Summary(rec), s) && SilentReadsMiss(Summary(rec), s)
    requires guess == GuessInitial(Summary(rec)) && Reads(Summary(rec), j, k)
    ensures SnapshotHolds(Summary(rec), s, guess, j, k, Summary(rec).extReads[j][k])
  {
    var h := Summary(rec);
    var v := h.extReads[j][k];
    assert ReadSeesLatest(h, s, j, k);
    if Unwritten(h, k, v) {
      assert ReadsUnwritten(h, j, k);
      assert ReadsInitial(h, j, k) || SilentRead(h, j, k);
    } else {
      var i :| WritesValue(h, i, k, v);
      assert ReadsFrom(h, j, i, k);
    }
  }

  lemma SnapshotsExplain(rec: Recording, s: Schedule, guess: map<Key, Value>)
    requires ProperRecording(rec) && AllPassInt(rec) && UnwrittenReadsAgree(Summary(rec))
    requires SnapshotIsolated(Summary(rec), s) && SilentReadsMiss(Summary(rec), s) && guess == GuessInitial(Summary(rec))
    ensures ExplainsFromWriters(rec, s, guess)
  {
    var h := Summary(rec);
    forall j | 1 <= j < |rec.txns| ensures RunsOnSnapshot(rec, s, guess, j) {
      assert PassesInt(rec.txns[j]);
      InternallyConsistent(rec.txns[j]);
      var snapshot := ExternalReads(Accesses(rec.txns[j]));
      forall k | k in snapshot ensures SnapshotHolds(h, s, guess, j, k, snapshot[k]) {
        ReadHoldsInSnapshot(rec, s, guess, j, k);
      }
    }
    forall j: nat, i: nat, k | ReadsFrom(h, j, i, k) ensures IsLatest(h, s, i, j, k) {
      assert ReadSeesLatest(h, s, j, k);
    }
  }

  lemma ExplainedRead(rec: Recording, s: Schedule, guess: map<Key, Value>, j: nat, k: Key)
    requires |rec.txns| >= 1 && Explains(rec, s, guess) && Reads(Summary(rec), j, k)
    ensures SnapshotHolds(Summary(rec), s, guess, j, k, Summary(rec).extReads[j][k])
  {
    assert RunsOnSnapshot(rec, s, guess, j);
    var snapshot :| RunsOn(rec.txns[j], snapshot)
      && forall k :: k in snapshot ==> SnapshotHolds(Summary(rec), s, guess, j, k, snapshot[k]);
    RunsIff(rec.txns[j], snapshot);
    assert k in ExternalReads(Accesses(rec.txns[j]));
  }

  lemma UnwrittenReadIsInitial(rec: Recording, s: Schedule, guess: map<Key, Value>, j: nat, k: Key)
    requires |rec.txns| >= 1 && Explains(rec, s, guess) && Reads(Summary(rec), j, k)
    requires Unwritten(Summary(rec), k, Summary(rec).extReads[j][k])
    ensures NoneCommitted(Summary(rec), s, j, k)
    ensures InitialValue(rec.init, guess, k) == Some(Summary(rec).extReads[j][k])
  {
    var h := Summary(rec);
    ExplainedRead(rec, s, guess, j, k);
    forall i: nat ensures !(IsLatest(h, s, i, j, k) && h.extWrites[i][k] == h.extReads[j][k]) {
      assert !WritesValue(h, i, k, h.extReads[j][k]);
    }
  }

  lemma ExplainedIsIsolated(rec: Recording, s: Schedule, guess: map<Key, Value>)
    requires ProperRecording(rec) && ExplainsFromWriters(rec, s, guess)
    ensures SnapshotIsolated(Summary(rec), s)
  {
    var h := Summary(rec);
    forall j: nat, k | Reads(h, j, k) ensures ReadSeesLatest(h, s, j, k) {
      if Unwritten(h, k, h.extReads[j][k]) {
        UnwrittenReadIsInitial(rec, s, guess, j, k);
      }
    }
  }

  lemma ExplainedAgrees(rec: Recording, s: Schedule, guess: map<Key, Value>)
    requires |rec.txns| >= 1 && Explains(rec, s, guess)
    ensures UnwrittenReadsAgree(Summary(rec))
  {
    var h := Summary(rec);
    forall i: nat, j: nat, k | ReadsUnwritten(h, i, k) && ReadsUnwritten(h, j, k)
      ensures h.extReads[i][k] == h.extReads[j][k]
    {
      UnwrittenReadIsInitial(rec, s, guess, i, k);
      UnwrittenReadIsInitial(rec, s, guess, j, k);
    }
  }

  lemma ExplainedMisses(rec: Recording, s: Schedule, guess: map<Key, Value>)
    requires |rec.txns| >= 1 && Explains(rec, s, guess)
    ensures SilentReadsMiss(Summary(rec), s)
  {
    var h := Summary(rec);
    forall j: nat, k | SilentRead(h, j, k) ensures k !in h.init.value && NoneCommitted(h, s, j, k) {
      UnwrittenReadIsInitial(rec, s, guess, j, k);
    }
  }

  lemma ExplainedPassesInt(rec: Recording, s: Schedule, guess: map<Key, Value>)
    requires |rec.txns| >= 1 && Explains(rec, s, guess) && NoFutureReads(rec)
    ensures AllPassInt(rec)
  {
    forall j | 1 <= j < |rec.txns| ensures PassesInt(rec.txns[j]) {
      assert RunsOnSnapshot(rec, s, guess, j);
    }
  }

  /** The recorded values of any recording are explained by snapshots, each written value from its writer and none
      read ahead, exactly when every transaction is internally consistent, reads of the initial database
      agree, and the summaries are snapshot isolated with silent reads ordered too. */
  lemma SummariesExplainValues(rec: Recording)
    requires ProperRecording(rec)
    ensures AllPassInt(rec) && IsSIWithSilentReads(Summary(rec)) && UnwrittenReadsAgree(Summary(rec))
       <==> IsExplainedFromWriters(rec) && NoFutureReads(rec)
  {
    var h := Summary(rec);
    if AllPassInt(rec) && IsSIWithSilentReads(h) && UnwrittenReadsAgree(h) {
      var s :| SnapshotIsolated(h, s) && SilentReadsMiss(h, s);
      SnapshotsExplain(rec, s, GuessInitial(h));
    }
    if IsExplainedFromWriters(rec) && NoFutureReads(rec) {
      var s, guess :| ExplainsFromWriters(rec, s, guess);
      ExplainedIsIsolated(rec, s, guess);
      ExplainedMisses(rec, s, guess);
      ExplainedAgrees(rec, s, guess);
      ExplainedPassesInt(rec, s, guess);
    }
  }

  /** Where no value that was written and read can be initial, every explanation reads written values from their writers. */
  lemma UnambiguousExplanations(rec: Recording)
    requires ProperRecording(rec) && Unambiguous(Summary(rec))
    ensures IsExplained(rec) <==> IsExplainedFromWriters(rec)
  {
    if s, guess :| Explains(rec, s, guess) {
      forall j: nat, i: nat, k | ReadsFrom(Summary(rec), j, i, k) ensures IsLatest(Summary(rec), s, i, j, k) {
        UnambiguousRead(rec, s, guess, j, i, k);
      }
      assert ExplainsFromWriters(rec, s, guess);
    }
  }

  lemma UnambiguousRead(rec: Recording, s: Schedule, guess: map<Key, Value>, j: nat, i: nat, k: Key)
    requires ProperRecording(rec) && Unambiguous(Summary(rec)) && Explains(rec, s, guess) && ReadsFrom(Summary(rec), j, i, k)
    ensures IsLatest(Summary(rec), s, i, j, k)
  {
    var h := Summary(rec);
    ExplainedRead(rec, s, guess, j, k);
    assert NotInitial(h, k, h.extReads[j][k]);
    if h.init.None? {
      var m: nat :| ReadsUnwritten(h, m, k);
      UnwrittenReadIsInitial(rec, s, guess, m, k);
      assert WritesValue(h, i, k, h.extReads[j][k]);
    }
  }

  // ----- silent reads put in order by completing the recorded initial database

  ghost function ReadKeys(h: History): set<Key> {
    set j, k | 0 <= j < |h.extReads| && k in h.extReads[j] :: k
  }

  /** The recorded initial database, with a null for every other key that was read. */
  ghost function CompletedInit(h: History): Option<map<Key, Value>> {
    match h.init
    case None => None
    case Some(db) => Some((map k | k in ReadKeys(h) :: NULL_VALUE) + db)
  }

  ghost function Completed(h: History): History {
    h.(init := CompletedInit(h))
  }

  ghost function CompletedRecording(rec: Recording): Recording {
    rec.(init := CompletedInit(Summary(rec)))
  }

  /** A read of null that nobody wrote, though the recorded initial database has another value. */
  ghost predicate NullMismatch(h: History) {
    exists j: nat, k :: SilentRead(h, j, k) && k in h.init.value
  }

  lemma CompletedReads(h: History, j: nat, k: Key)
    requires Shaped(h) && !NullMismatch(h)
    ensures DirtyRead(Completed(h), j, k) <==> DirtyRead(h, j, k)
    ensures ReadsInitial(Completed(h), j, k) <==> ReadsInitial(h, j, k) || SilentRead(h, j, k)
    ensures !SilentRead(Completed(h), j, k)
  {
    if Reads(h, j, k) {
      var v := h.extReads[j][k];
      assert k in ReadKeys(h);
      assert Unwritten(Completed(h), k, v) <==> Unwritten(h, k, v) by {
        assert forall i: nat :: WritesValue(Completed(h), i, k, v) <==> WritesValue(h, i, k, v);
      }
      assert SilentRead(h, j, k) ==> k !in h.init.value;
    }
  }

  lemma CompletedIsolation(h: History, s: Schedule)
    requires Shaped(h) && !NullMismatch(h)
    ensures SnapshotIsolated(Completed(h), s) <==> SnapshotIsolated(h, s) && SilentReadsMiss(h, s)
  {
    var c := Completed(h);
    assert forall i: nat, k :: Writes(c, i, k) <==> Writes(h, i, k);
    if WellTimed(h.N(), s) {
      forall j: nat, k | Reads(h, j, k)
        ensures ReadSeesLatest(c, s, j, k) <==> ReadSeesLatest(h, s, j, k) && (SilentRead(h, j, k) ==> NoneCommitted(h, s, j, k))
      {
        CompletedReads(h, j, k);
        assert forall i: nat :: IsLatest(c, s, i, j, k) <==> IsLatest(h, s, i, j, k);
        assert NoneCommitted(c, s, j, k) <==> NoneCommitted(h, s, j, k);
      }
      forall j: nat, k | SnapshotIsolated(c, s) && SilentRead(h, j, k) ensures k !in h.init.value && NoneCommitted(h, s, j, k) {
        assert Reads(c, j, k);
      }
    }
  }

  /** Silent reads can be ordered too exactly when the history with its initial database completed is snapshot
      isolated and no silent read contradicts the recorded database. */
  lemma CompletedOrdersSilentReads(h: History)
    requires Shaped(h)
    ensures IsSIWithSilentReads(h) <==> IsSI(Completed(h)) && !NullMismatch(h)
  {
    if s :| SnapshotIsolated(h, s) && SilentReadsMiss(h, s) {
      CompletedIsolation(h, s);
    }
    if !NullMismatch(h) && IsSI(Completed(h)) {
      var s :| SnapshotIsolated(Completed(h), s);
      CompletedIsolation(h, s);
    }
  }

  /** Checking the completed recording, and scanning the reads of unwritten values, decides whether the
      recorded values are explained: exactly, if no value that was written and read can be initial. */
  lemma CompletedDecidesValues(rec: Recording)
    requires ProperRecording(rec)
    ensures ProperRecording(CompletedRecording(rec)) && (AllPassInt(CompletedRecording(rec)) <==> AllPassInt(rec))
    ensures AllPassInt(rec) && IsSI(Summary(CompletedRecording(rec))) && UnwrittenReadsAgree(Summary(rec)) && !NullMismatch(Summary(rec))
       <==> IsExplainedFromWriters(rec) && NoFutureReads(rec)
    ensures Unambiguous(Summary(rec)) ==> (IsExplained(rec) <==> IsExplainedFromWriters(rec))
  {
    var h := Summary(rec);
    assert Summary(CompletedRecording(rec)) == Completed(h);
    assert UniqueWriters(Completed(h)) by {
      assert forall i: nat, k :: Writes(Completed(h), i, k) <==> Writes(h, i, k);
    }
    CompletedOrdersSilentReads(h);
    SummariesExplainValues(rec);
    if Unambiguous(h) {
      UnambiguousExplanations(rec);
    }
  }

  // ----- what the checker's own verdict says

  /** The checker, which leaves silent reads unordered, never rejects a recording that is explained from its writers
      without reads ahead; without silent reads its verdict, with agreement of the reads of the
      initial database, is exact. */
  lemma SummariesDecideValues(rec: Recording)
    requires ProperRecording(rec)
    ensures IsExplainedFromWriters(rec) && NoFutureReads(rec) ==> AllPassInt(rec) && IsSI(Summary(rec)) && UnwrittenReadsAgree(Summary(rec))
    ensures NoSilentReads(Summary(rec)) && AllPassInt(rec) && IsSI(Summary(rec)) && UnwrittenReadsAgree(Summary(rec)) ==>
              IsExplainedFromWriters(rec) && NoFutureReads(rec)
  {
    SummariesExplainValues(rec);
    if NoSilentReads(Summary(rec)) && IsSI(Summary(rec)) {
      var s :| SnapshotIsolated(Summary(rec), s);
      assert SilentReadsMiss(Summary(rec), s);
    }
  }

  /** A recording explained from its writers is accepted exactly when no transaction reads ahead. */
  lemma ExplainedIsAcceptedUnlessAhead(rec: Recording)
    requires ProperRecording(rec)
    requires IsExplainedFromWriters(rec) || (IsExplained(rec) && Unambiguous(Summary(rec)))
    ensures AllPassInt(rec) && IsSI(Summary(rec)) <==> NoFutureReads(rec)
  {
    SummariesDecideValues(rec);
    if !IsExplainedFromWriters(rec) {
      UnambiguousExplanations(rec);
    }
    assert AllPassInt(rec) ==> NoFutureReads(rec);
  }
}
