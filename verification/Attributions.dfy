/** Explanations in which a value that a transaction left behind may also be read from an equal initial value:
    every choice of the reads that go to the initial database is a history of its own, and the recording
    is explained exactly when one of them is snapshot isolated. */
module Attributions {
  import opened Events
  import opened Transactions
  import opened Histories
  import opened Recorded
  import opened Wrappers

  /** Reads of transactions, by transaction and key. */
  type ReadSet = set<(nat, Key)>

  /** The chosen reads return the initial value, and all reads of values that nobody wrote are among them. */
  ghost predicate IsAttribution(h: History, initial: ReadSet, guess: map<Key, Value>) {
    && (forall j: nat, k :: (j, k) in initial ==> Reads(h, j, k) && InitialValue(h.init, guess, k) == Some(h.extReads[j][k]))
    && (forall j: nat, k :: ReadsUnwritten(h, j, k) ==> (j, k) in initial)
  }

  /** The history with the chosen reads returning a value of their own, which is the initial one of every key. */
  ghost function Attributed(h: History, initial: ReadSet, mark: Value): History {
    History(
      seq(|h.extReads|, j requires 0 <= j < |h.extReads| =>
        map k | k in h.extReads[j] :: if (j, k) in initial then mark else h.extReads[j][k]),
      h.extWrites,
      Some(map k | k in ReadKeys(h) :: mark),
      h.sessions, h.strong)
  }

  ghost predicate UnwrittenAnywhere(h: History, v: Value) {
    forall k :: Unwritten(h, k, v)
  }

  lemma AttributedReads(h: History, initial: ReadSet, guess: map<Key, Value>, mark: Value, j: nat, k: Key)
    requires Shaped(h) && UnwrittenAnywhere(h, mark) && IsAttribution(h, initial, guess) && Reads(h, j, k)
    ensures var a := Attributed(h, initial, mark);
      && (ReadsInitial(a, j, k) <==> (j, k) in initial) && !DirtyRead(a, j, k)
      && (forall i: nat :: ReadsFrom(a, j, i, k) <==> ReadsFrom(h, j, i, k) && (j, k) !in initial)
  {
    var a := Attributed(h, initial, mark);
    assert forall i: nat, v :: WritesValue(a, i, k, v) <==> WritesValue(h, i, k, v);
    assert Unwritten(h, k, mark);
    assert k in ReadKeys(h);
    if (j, k) in initial {
      assert Unwritten(a, k, mark);
      assert forall i: nat :: ReadsFrom(a, j, i, k) ==> WritesValue(h, i, k, mark);
    } else {
      assert !ReadsUnwritten(h, j, k);
      var i: nat :| WritesValue(h, i, k, h.extReads[j][k]);
      assert WritesValue(a, i, k, a.extReads[j][k]);
    }
  }

  /** Under a schedule: the chosen reads precede every commit to their key, all others see the latest version. */
  ghost predicate AttributionHolds(h: History, s: Schedule, initial: ReadSet)
    requires Shaped(h) && WellTimed(h.N(), s)
  {
    forall j: nat, k :: Reads(h, j, k) ==>
      if (j, k) in initial then NoneCommitted(h, s, j, k)
      else forall i: nat :: ReadsFrom(h, j, i, k) ==> IsLatest(h, s, i, j, k)
  }

  lemma AttributedIsolation(h: History, s: Schedule, initial: ReadSet, guess: map<Key, Value>, mark: Value)
    requires Shaped(h) && UnwrittenAnywhere(h, mark) && IsAttribution(h, initial, guess) && WellTimed(h.N(), s)
    ensures SnapshotIsolated(Attributed(h, initial, mark), s) <==>
              DistinctTimes(h.N(), s) && OrderlyCommits(h, s) && AttributionHolds(h, s, initial)
  {
    var a := Attributed(h, initial, mark);
    assert forall i: nat, k :: Writes(a, i, k) <==> Writes(h, i, k);
    assert forall j: nat, k :: Reads(a, j, k) <==> Reads(h, j, k);
    forall j: nat, k | Reads(h, j, k)
      ensures ReadSeesLatest(a, s, j, k) <==>
                if (j, k) in initial then NoneCommitted(h, s, j, k)
                else forall i: nat :: ReadsFrom(h, j, i, k) ==> IsLatest(h, s, i, j, k)
    {
      AttributedReads(h, initial, guess, mark, j, k);
      assert forall i: nat :: IsLatest(a, s, i, j, k) <==> IsLatest(h, s, i, j, k);
      assert NoneCommitted(a, s, j, k) <==> NoneCommitted(h, s, j, k);
    }
  }

  /** The reads that an explanation serves from the initial database. */
  ghost function ServedInitially(h: History, s: Schedule, guess: map<Key, Value>): ReadSet
    requires Shaped(h) && WellTimed(h.N(), s)
  {
    set j, k | 0 <= j < h.N() && k in h.extReads[j] && Reads(h, j, k) && NoneCommitted(h, s, j, k)
                 && InitialValue(h.init, guess, k) == Some(h.extReads[j][k]) :: (j as nat, k)
  }

  lemma ExplanationAttributes(rec: Recording, s: Schedule, guess: map<Key, Value>)
    requires ProperRecording(rec) && Explains(rec, s, guess)
    ensures var h := Summary(rec);
      IsAttribution(h, ServedInitially(h, s, guess), guess) && AttributionHolds(h, s, ServedInitially(h, s, guess))
  {
    var h := Summary(rec);
    var initial := ServedInitially(h, s, guess);
    forall j: nat, k | ReadsUnwritten(h, j, k) ensures (j, k) in initial {
      UnwrittenReadIsInitial(rec, s, guess, j, k);
    }
    forall j: nat, k, i: nat | Reads(h, j, k) && (j, k) !in initial && ReadsFrom(h, j, i, k) ensures IsLatest(h, s, i, j, k) {
      ExplainedRead(rec, s, guess, j, k);
    }
  }

  lemma AttributionExplains(rec: Recording, s: Schedule, initial: ReadSet, guess: map<Key, Value>)
    requires ProperRecording(rec) && AllPassInt(rec) && WellTimed(|rec.txns|, s) && DistinctTimes(|rec.txns|, s)
    requires OrderlyCommits(Summary(rec), s)
    requires IsAttribution(Summary(rec), initial, guess) && AttributionHolds(Summary(rec), s, initial)
    ensures Explains(rec, s, guess)
  {
    var h := Summary(rec);
    forall j | 1 <= j < |rec.txns| ensures RunsOnSnapshot(rec, s, guess, j) {
      assert PassesInt(rec.txns[j]);
      InternallyConsistent(rec.txns[j]);
      var snapshot := ExternalReads(Accesses(rec.txns[j]));
      forall k | k in snapshot ensures SnapshotHolds(h, s, guess, j, k, snapshot[k]) {
        assert Reads(h, j, k);
        if (j, k) !in initial {
          assert !ReadsUnwritten(h, j, k);
          var i: nat :| WritesValue(h, i, k, snapshot[k]);
          assert ReadsFrom(h, j, i, k);
        }
      }
    }
  }

  /** Every recording with unique writers, whatever its initial database: its values are explained without reads ahead
      exactly when every transaction is internally consistent and, for some choice of the reads that go
      to the initial database, the history is snapshot isolated, which the checker decides. */
  lemma AttributionsExplainValues(rec: Recording, mark: Value)
    requires ProperRecording(rec) && UnwrittenAnywhere(Summary(rec), mark)
    ensures IsExplained(rec) && NoFutureReads(rec) <==>
              AllPassInt(rec) && exists initial, guess :: IsAttribution(Summary(rec), initial, guess) && IsSI(Attributed(Summary(rec), initial, mark))
  {
    var h := Summary(rec);
    if IsExplained(rec) && NoFutureReads(rec) {
      var s, guess :| Explains(rec, s, guess);
      ExplainedPassesInt(rec, s, guess);
      ExplanationAttributes(rec, s, guess);
      AttributedIsolation(h, s, ServedInitially(h, s, guess), guess, mark);
    }
    if AllPassInt(rec) {
      if initial, guess :| IsAttribution(h, initial, guess) && IsSI(Attributed(h, initial, mark)) {
        var s :| SnapshotIsolated(Attributed(h, initial, mark), s);
        AttributedIsolation(h, s, initial, guess, mark);
        AttributionExplains(rec, s, initial, guess);
        assert forall j: nat :: 1 <= j < |rec.txns| ==> PassesInt(rec.txns[j]) ==> NoFutureRead(rec.txns[j]);
      }
    }
  }

  /** There always is a value to mark them with. */
  lemma MarkExists(h: History) returns (mark: Value)
    ensures UnwrittenAnywhere(h, mark)
  {
    var values := set i, k | 0 <= i < |h.extWrites| && k in h.extWrites[i] :: h.extWrites[i][k];
    var n := Beyond(values);
    mark := Num(n);
    forall i: nat, k ensures !WritesValue(h, i, k, mark) {
      assert Writes(h, i, k) ==> h.extWrites[i][k] in values;
    }
  }

  lemma Beyond(values: set<Value>) returns (n: int)
    ensures forall v :: v in values ==> v.n < n
  {
    n := 0;
    var todo := values;
    while todo != {}
      invariant todo <= values && forall v :: v in values - todo ==> v.n < n
    {
      var v :| v in todo;
      todo, n := todo - {v}, if v.n < n then n else v.n + 1;
    }
  }

  /** Each of these histories is one the builders take. */
  lemma AttributedIsProper(h: History, initial: ReadSet, guess: map<Key, Value>, mark: Value)
    requires Proper(h) && UnwrittenAnywhere(h, mark) && IsAttribution(h, initial, guess)
    ensures Proper(Attributed(h, initial, mark))
  {
    var a := Attributed(h, initial, mark);
    assert forall i: nat, k :: Writes(a, i, k) <==> Writes(h, i, k);
    forall j: nat, k | Reads(a, j, k) ensures !ReadsFrom(a, j, j, k) {
      AttributedReads(h, initial, guess, mark, j, k);
    }
  }
}
