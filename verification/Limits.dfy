/** Recordings that show where the checker's verdict and the explanation of the recorded values part. */
module Limits {
  import opened Events
  import opened Transactions
  import opened Histories
  import opened Recorded
  import opened Wrappers

  lemma AccessesOfOne(a: Op)
    ensures Accesses([a]) == AccessesOf(a, 0)
  {
    assert [a][..0] == [];
  }

  lemma AccessesOfTwo(a: Op, b: Op)
    ensures Accesses([a, b]) == AccessesOf(a, 0) + AccessesOf(b, 1)
  {
    assert [a, b][..1] == [a];
    AccessesOfOne(a);
  }

  lemma SummaryOfOne(a: Access)
    ensures ExternalReads([a]) == if a.Get? then map[a.key := a.val] else map[]
    ensures Overlay([a]) == if a.Put? then map[a.key := a.val] else map[]
  {
    assert [a][..0] == [];
  }

  lemma SummaryOfTwo(a: Access, b: Access)
    requires a.key != b.key
    ensures ExternalReads([a, b]) == ExternalReads([a]) + ExternalReads([b])
    ensures Overlay([a, b]) == Overlay([a]) + Overlay([b])
  {
    assert [a, b][..1] == [a];
    SummaryOfOne(a);
    SummaryOfOne(b);
  }

  // ----- reads of the initial database need not agree

  ghost predicate IsOneRead(ops: seq<Op>, k: Key, v: Value) {
    |ops| == 1 && ops[0] == Read(k, v)
  }

  lemma OneReadSummary(ops: seq<Op>, k: Key, v: Value)
    requires IsOneRead(ops, k, v)
    ensures Accesses(ops) == [Get(k, v, 0)]
    ensures ExternalReads(Accesses(ops)) == map[k := v] && Overlay(Accesses(ops)) == map[]
  {
    assert ops == [Read(k, v)];
    AccessesOfOne(Read(k, v));
    SummaryOfOne(Get(k, v, 0));
  }

  lemma OneReadPasses(ops: seq<Op>, k: Key, v: Value)
    requires IsOneRead(ops, k, v)
    ensures RunsOn(ops, map[k := v]) && PassesInt(ops)
  {
    assert ops[..0] == [];
    assert RunsOn(ops, map[k := v]);
  }

  /** Two transactions that each do nothing but read the same key. */
  ghost predicate TwoReaders(rec: Recording, k: Key, v: Value, u: Value) {
    && |rec.txns| == 3 && rec.txns[0] == [] && rec.init.None? && rec.sessions == [] && !rec.strong
    && IsOneRead(rec.txns[1], k, v) && IsOneRead(rec.txns[2], k, u)
  }

  ghost function DisagreeingReads(): (rec: Recording)
    ensures TwoReaders(rec, 0, Num(7), Num(8))
  {
    Recording([[], [Read(0, Num(7))], [Read(0, Num(8))]], None, [], false)
  }

  lemma TwoReadersSummary(rec: Recording, k: Key, v: Value, u: Value)
    requires TwoReaders(rec, k, v, u)
    ensures Summary(rec).extReads[1] == map[k := v] && Summary(rec).extReads[2] == map[k := u]
    ensures forall i: nat, l :: !Writes(Summary(rec), i, l)
  {
    OneReadSummary(rec.txns[1], k, v);
    OneReadSummary(rec.txns[2], k, u);
  }

  lemma TwoReadersPass(rec: Recording, k: Key, v: Value, u: Value)
    requires TwoReaders(rec, k, v, u)
    ensures AllPassInt(rec)
  {
    OneReadPasses(rec.txns[1], k, v);
    OneReadPasses(rec.txns[2], k, u);
  }

  /** Without writes, any schedule in which T0 comes first will do. */
  lemma NoWritesIsSI(h: History, s: Schedule)
    requires Shaped(h) && WellTimed(h.N(), s) && DistinctTimes(h.N(), s) && !h.strong && h.init.None?
    requires forall i: nat, k :: !Writes(h, i, k)
    requires forall i :: 1 <= i < h.N() ==> CommittedBefore(s, 0, i)
    ensures IsSI(h)
  {
    forall j: nat, k | Reads(h, j, k) ensures ReadSeesLatest(h, s, j, k) {
      assert forall i :: !ReadsFrom(h, j, i, k);
    }
    assert SnapshotIsolated(h, s);
  }

  /** Two transactions that read different unwritten values of one key are accepted, though no initial database explains both. */
  lemma DisagreeingReadsAreAccepted(rec: Recording, k: Key, v: Value, u: Value)
    requires TwoReaders(rec, k, v, u) && v != u
    ensures ProperRecording(rec) && NoSilentReads(Summary(rec)) && AllPassInt(rec) && IsSI(Summary(rec))
    ensures !UnwrittenReadsAgree(Summary(rec)) && !IsExplained(rec)
  {
    TwoReadersAreSI(rec, k, v, u);
    TwoReadersPass(rec, k, v, u);
    DisagreementIsUnexplained(rec, k, v, u);
  }

  lemma TwoReadersAreSI(rec: Recording, k: Key, v: Value, u: Value)
    requires TwoReaders(rec, k, v, u)
    ensures ProperRecording(rec) && NoSilentReads(Summary(rec)) && IsSI(Summary(rec))
  {
    TwoReadersSummary(rec, k, v, u);
    NoWritesIsSI(Summary(rec), Schedule([0, 2, 4], [1, 3, 5]));
  }

  lemma DisagreementIsUnexplained(rec: Recording, k: Key, v: Value, u: Value)
    requires TwoReaders(rec, k, v, u) && v != u
    ensures !UnwrittenReadsAgree(Summary(rec)) && !IsExplained(rec)
  {
    var h := Summary(rec);
    TwoReadersSummary(rec, k, v, u);
    assert Unwritten(h, k, v) && Unwritten(h, k, u);
    assert ReadsUnwritten(h, 1, k) && ReadsUnwritten(h, 2, k);
    if t, guess :| Explains(rec, t, guess) {
      ExplainedAgrees(rec, t, guess);
    }
  }

  // ----- silent reads are not ordered before the writers of their key

  ghost function SilentMiss(): Recording {
    Recording(
      [[], [Write(0, Num(1), true), Write(1, Num(2), true)], [Read(0, Num(1)), Read(1, NULL_VALUE)]],
      Some(map[]), [], false)
  }

  ghost function SilentHistory(): History {
    History([map[], map[], map[0 := Num(1), 1 := NULL_VALUE]], [map[], map[0 := Num(1), 1 := Num(2)], map[]], Some(map[]), [], false)
  }

  lemma SilentMissSummary()
    ensures Summary(SilentMiss()) == SilentHistory()
    ensures Summary(SilentMiss()).extReads == [map[], map[], map[0 := Num(1), 1 := NULL_VALUE]]
    ensures Summary(SilentMiss()).extWrites == [map[], map[0 := Num(1), 1 := Num(2)], map[]]
  {
    AccessesOfTwo(Write(0, Num(1), true), Write(1, Num(2), true));
    SummaryOfTwo(Put(0, Num(1), 0), Put(1, Num(2), 1));
    SummaryOfOne(Put(0, Num(1), 0));
    SummaryOfOne(Put(1, Num(2), 1));
    AccessesOfTwo(Read(0, Num(1)), Read(1, NULL_VALUE));
    SummaryOfTwo(Get(0, Num(1), 0), Get(1, NULL_VALUE, 1));
    SummaryOfOne(Get(0, Num(1), 0));
    SummaryOfOne(Get(1, NULL_VALUE, 1));
  }

  lemma TwoReadsPass(k: Key, v: Value, l: Key, u: Value)
    requires k != l
    ensures PassesInt([Read(k, v), Read(l, u)])
  {
    var ops := [Read(k, v), Read(l, u)];
    assert ops[..0] == [] && ops[..1] == [ops[0]];
    assert RunsOn(ops, map[k := v, l := u]);
  }

  lemma TwoWritesPass(k: Key, v: Value, l: Key, u: Value)
    ensures PassesInt([Write(k, v, true), Write(l, u, true)])
  {
    assert RunsOn([Write(k, v, true), Write(l, u, true)], map[]);
  }

  lemma SilentMissIsSI()
    ensures IsSI(SilentHistory())
  {
    var h := SilentHistory();
    var s := Schedule([0, 2, 4], [1, 3, 5]);
    assert forall i: nat, k :: Writes(h, i, k) <==> i == 1 && (k == 0 || k == 1);
    OneWriterIsOrderly(h, s);
    SilentMissReads(h, s);
    assert forall j: nat, k :: Reads(h, j, k) ==> j == 2 && (k == 0 || k == 1);
    assert SnapshotIsolated(h, s);
  }

  lemma OneWriterIsOrderly(h: History, s: Schedule)
    requires |h.extWrites| == 3 && s == Schedule([0, 2, 4], [1, 3, 5]) && !h.strong
    requires forall i: nat, k :: Writes(h, i, k) ==> i == 1
    ensures WellTimed(3, s) && DistinctTimes(3, s) && OrderlyCommits(h, s)
  {
  }

  lemma SilentMissReads(h: History, s: Schedule)
    requires Shaped(h) && h.init == Some(map[]) && WellTimed(3, s) && |h.extReads| == 3 && s.commit[1] < s.begin[2]
    requires forall i: nat, k :: Writes(h, i, k) <==> i == 1 && (k == 0 || k == 1)
    requires h.extWrites[1] == map[0 := Num(1), 1 := Num(2)] && h.extReads[2] == map[0 := Num(1), 1 := NULL_VALUE]
    ensures ReadSeesLatest(h, s, 2, 0) && ReadSeesLatest(h, s, 2, 1)
  {
    assert IsLatest(h, s, 1, 2, 0);
    assert WritesValue(h, 1, 0, Num(1));
    assert forall i: nat :: !WritesValue(h, i, 1, NULL_VALUE);
    assert !MayBeInitial(h, 1, NULL_VALUE);
  }

  lemma SilentMissIsUnexplained()
    ensures !IsExplained(SilentMiss())
  {
    var rec := SilentMiss();
    var h := Summary(rec);
    SilentMissSummary();
    forall t, guess ensures !Explains(rec, t, guess) {
      if Explains(rec, t, guess) {
        ExplainedRead(rec, t, guess, 2, 0);
        assert InitialValue(rec.init, guess, 0) == Some(NULL_VALUE);
        var i: nat :| IsLatest(h, t, i, 2, 0);
        assert i == 1 && CommittedBefore(t, 1, 2);
        assert Unwritten(h, 1, NULL_VALUE);
        UnwrittenReadIsInitial(rec, t, guess, 2, 1);
        assert Writes(h, 1, 1);
      }
    }
  }

  lemma SilentMissPassesInt()
    ensures AllPassInt(SilentMiss())
  {
    TwoWritesPass(0, Num(1), 1, Num(2));
    TwoReadsPass(0, Num(1), 1, NULL_VALUE);
  }

  lemma SilentMissIsProper()
    ensures ProperRecording(SilentMiss())
    ensures SilentRead(SilentHistory(), 2, 1) && UnwrittenReadsAgree(SilentHistory())
  {
    var h := SilentHistory();
    SilentMissSummary();
    assert forall i: nat, k :: Writes(h, i, k) <==> i == 1 && (k == 0 || k == 1);
    assert forall j: nat, k :: Reads(h, j, k) ==> j == 2;
    assert forall i: nat :: !WritesValue(h, i, 1, NULL_VALUE);
  }

  /** With the initial database recorded, reading one key of a transaction and missing the other is accepted
      when the miss is recorded as null; no snapshot shows one write without the other. */
  lemma SilentMissIsAccepted()
    ensures ProperRecording(SilentMiss()) && !NoSilentReads(Summary(SilentMiss()))
    ensures AllPassInt(SilentMiss()) && IsSI(Summary(SilentMiss()))
    ensures UnwrittenReadsAgree(Summary(SilentMiss())) && !IsExplained(SilentMiss())
  {
    SilentMissSummary();
    SilentMissIsSI();
    SilentMissIsUnexplained();
    SilentMissPassesInt();
    SilentMissIsProper();
  }

  // ----- a read may look ahead only by coincidence

  ghost function FailedRewrite(): Recording {
    Recording([[], [Read(0, Num(5)), Write(0, Num(5), false)]], None, [], false)
  }

  lemma FailedRewriteReadsAhead()
    ensures RunsOn(FailedRewrite().txns[1], map[0 := Num(5)]) && !NoFutureRead(FailedRewrite().txns[1])
  {
    var ops := FailedRewrite().txns[1];
    assert ops[..0] == [];
    assert Shows(ops[0], 0, Num(5)) && TriesToWrite(ops[1], 0, Num(5));
  }

  /** Reading a value and then failing to write the same value is explained, but rejected as a future read. */
  lemma FailedRewriteIsRejected()
    ensures ProperRecording(FailedRewrite()) && IsExplained(FailedRewrite()) && !AllPassInt(FailedRewrite())
  {
    FailedRewriteReadsAhead();
    AloneIsExplained(FailedRewrite(), Schedule([0, 2], [1, 3]), map[0 := Num(5)]);
    assert !PassesInt(FailedRewrite().txns[1]);
  }

  // ----- successful writes that come later are enough

  ghost function RepeatedWrite(): Recording {
    Recording([[], [Write(0, Num(5), true), Read(0, Num(5)), Write(0, Num(5), true)]], None, [], false)
  }

  ghost function Overwritten(): Recording {
    Recording([[], [Read(0, Num(5)), Write(0, Num(5), true), Write(0, Num(6), true)]], None, [], false)
  }

  lemma RepeatedWriteReadsAhead()
    ensures RunsOn(RepeatedWrite().txns[1], map[]) && !NoFutureRead(RepeatedWrite().txns[1])
  {
    var ops := RepeatedWrite().txns[1];
    assert ops[..1] == [ops[0]] && ops[..1][..0] == [];
    assert Leaves(ops[0], 0, Num(5));
    assert Shows(ops[1], 0, Num(5)) && TriesToWrite(ops[2], 0, Num(5));
  }

  lemma OverwrittenReadsAhead()
    ensures RunsOn(Overwritten().txns[1], map[0 := Num(5)]) && !NoFutureRead(Overwritten().txns[1])
  {
    var ops := Overwritten().txns[1];
    assert ops[..0] == [];
    assert Shows(ops[0], 0, Num(5)) && TriesToWrite(ops[1], 0, Num(5));
  }

  /** A transaction alone with T0, explained by a snapshot of guessed initial values. */
  lemma AloneIsExplained(rec: Recording, s: Schedule, guess: map<Key, Value>)
    requires |rec.txns| == 2 && rec.init.None? && rec.sessions == [] && !rec.strong && s == Schedule([0, 2], [1, 3])
    requires RunsOn(rec.txns[1], guess)
    ensures ProperRecording(rec) && Explains(rec, s, guess)
  {
    AloneIsOrderly(Summary(rec), s, guess);
    assert RunsOnSnapshot(rec, s, guess, 1);
  }

  lemma AloneIsOrderly(h: History, s: Schedule, guess: map<Key, Value>)
    requires |h.extReads| == |h.extWrites| == 2 && h.init.None? && h.sessions == [] && !h.strong && s == Schedule([0, 2], [1, 3])
    ensures WellTimed(2, s) && DistinctTimes(2, s) && OrderlyCommits(h, s) && UniqueWriters(h)
    ensures forall k :: k in guess ==> SnapshotHolds(h, s, guess, 1, k, guess[k])
  {
    assert forall i: nat, k :: Writes(h, i, k) ==> i == 1;
    forall k | k in guess ensures SnapshotHolds(h, s, guess, 1, k, guess[k]) {
      assert NoneCommitted(h, s, 1, k);
    }
  }

  /** Reading a value and writing it again later is explained, but rejected, when the writes succeed too:
      if the own value is written twice, and if the value read is written and then replaced. */
  lemma RewriteIsRejected()
    ensures ProperRecording(RepeatedWrite()) && IsExplained(RepeatedWrite()) && !AllPassInt(RepeatedWrite())
    ensures ProperRecording(Overwritten()) && IsExplained(Overwritten()) && !AllPassInt(Overwritten())
  {
    var s := Schedule([0, 2], [1, 3]);
    RepeatedWriteReadsAhead();
    AloneIsExplained(RepeatedWrite(), s, map[]);
    assert !PassesInt(RepeatedWrite().txns[1]);
    OverwrittenReadsAhead();
    AloneIsExplained(Overwritten(), s, map[0 := Num(5)]);
    assert !PassesInt(Overwritten().txns[1]);
  }

  // ----- a value that equals the initial one is always taken from its writer

  /** Each of two transactions reads what the other writes, and the value one of them writes may be the initial one. */
  ghost predicate CrossedRecording(rec: Recording) {
    && |rec.txns| == 3 && rec.txns[0] == [] && rec.sessions == [] && !rec.strong
    && IsReadThenWrite(rec.txns[1], 1, Num(1), 0, Num(5)) && IsReadThenWrite(rec.txns[2], 0, Num(5), 1, Num(1))
    && (rec.init == None || rec.init == Some(map[0 := Num(5)]))
  }

  ghost function RewrittenInitial(init: Option<map<Key, Value>>): (rec: Recording)
    requires init == None || init == Some(map[0 := Num(5)])
    ensures CrossedRecording(rec)
  {
    Recording([[], [Read(1, Num(1)), Write(0, Num(5), true)], [Read(0, Num(5)), Write(1, Num(1), true)]], init, [], false)
  }

  /** What the two transactions of the recording read and leave behind. */
  ghost predicate Crossed(h: History) {
    && |h.extReads| == |h.extWrites| == 3 && !h.strong && h.sessions == []
    && (forall i: nat, k :: Writes(h, i, k) <==> (i == 1 && k == 0) || (i == 2 && k == 1))
    && h.extWrites[1] == map[0 := Num(5)] && h.extWrites[2] == map[1 := Num(1)]
    && h.extReads[1] == map[1 := Num(1)] && h.extReads[2] == map[0 := Num(5)]
  }

  lemma CrossedSummary(rec: Recording)
    requires CrossedRecording(rec)
    ensures Crossed(Summary(rec))
  {
    ReadThenWriteSummary(rec.txns[1], 1, Num(1), 0, Num(5));
    ReadThenWriteSummary(rec.txns[2], 0, Num(5), 1, Num(1));
  }

  ghost predicate IsReadThenWrite(ops: seq<Op>, k: Key, v: Value, l: Key, u: Value) {
    |ops| == 2 && ops[0] == Read(k, v) && ops[1] == Write(l, u, true)
  }

  lemma ReadThenWriteSummary(ops: seq<Op>, k: Key, v: Value, l: Key, u: Value)
    requires IsReadThenWrite(ops, k, v, l, u) && k != l
    ensures Accesses(ops) == [Get(k, v, 0), Put(l, u, 1)]
    ensures ExternalReads(Accesses(ops)) == map[k := v] && Overlay(Accesses(ops)) == map[l := u]
  {
    assert ops == [Read(k, v), Write(l, u, true)];
    AccessesOfTwo(Read(k, v), Write(l, u, true));
    SummaryOfTwo(Get(k, v, 0), Put(l, u, 1));
    SummaryOfOne(Get(k, v, 0));
    SummaryOfOne(Put(l, u, 1));
  }

  lemma ReadThenWritePasses(ops: seq<Op>, k: Key, v: Value, l: Key, u: Value)
    requires IsReadThenWrite(ops, k, v, l, u) && k != l
    ensures RunsOn(ops, map[k := v]) && PassesInt(ops)
  {
    assert ops[..0] == [];
    assert RunsOn(ops, map[k := v]);
  }

  /** The second transaction runs before the first. */
  lemma CrossedSnapshots(h: History, s: Schedule, guess: map<Key, Value>)
    requires Crossed(h) && InitialValue(h.init, guess, 0) == Some(Num(5)) && s == Schedule([0, 4, 2], [1, 5, 3])
    ensures WellTimed(3, s) && SnapshotHolds(h, s, guess, 1, 1, Num(1)) && SnapshotHolds(h, s, guess, 2, 0, Num(5))
  {
    assert IsLatest(h, s, 2, 1, 1);
    assert NoneCommitted(h, s, 2, 0);
  }

  lemma CrossedCommits(h: History, s: Schedule)
    requires Crossed(h) && s == Schedule([0, 4, 2], [1, 5, 3])
    ensures WellTimed(3, s) && DistinctTimes(3, s) && OrderlyCommits(h, s)
  {
  }

  lemma CrossedIsExplained(rec: Recording, s: Schedule, guess: map<Key, Value>)
    requires |rec.txns| == 3 && Crossed(Summary(rec)) && s == Schedule([0, 4, 2], [1, 5, 3])
    requires InitialValue(rec.init, guess, 0) == Some(Num(5))
    requires RunsOn(rec.txns[1], map[1 := Num(1)]) && RunsOn(rec.txns[2], map[0 := Num(5)])
    ensures Explains(rec, s, guess)
  {
    CrossedCommits(Summary(rec), s);
    CrossedSnapshots(Summary(rec), s, guess);
    assert RunsOnSnapshot(rec, s, guess, 1);
    assert RunsOnSnapshot(rec, s, guess, 2);
  }

  lemma CrossedIsNotSI(h: History)
    requires Crossed(h)
    ensures !IsSI(h)
  {
    forall s ensures !SnapshotIsolated(h, s) {
      if SnapshotIsolated(h, s) {
        WriterCommitsFirst(h, s, 2, 1, 0);
        WriterCommitsFirst(h, s, 1, 2, 1);
      }
    }
  }

  lemma WriterCommitsFirst(h: History, s: Schedule, j: nat, i: nat, k: Key)
    requires Shaped(h) && SnapshotIsolated(h, s) && ReadsFrom(h, j, i, k)
    ensures CommittedBefore(s, i, j)
  {
    assert ReadSeesLatest(h, s, j, k);
    assert IsLatest(h, s, i, j, k);
  }

  lemma CrossedIsAmbiguous(h: History)
    requires Crossed(h) && (h.init == None || h.init == Some(map[0 := Num(5)]))
    ensures !Unambiguous(h)
  {
    assert forall j: nat :: Reads(h, j, 0) ==> j == 2;
    assert WritesValue(h, 1, 0, Num(5)) && ReadsFrom(h, 2, 1, 0);
    assert !NotInitial(h, 0, Num(5));
  }

  lemma CrossedIsProper(rec: Recording)
    requires |rec.txns| == 3 && Crossed(Summary(rec)) && PassesInt(rec.txns[1]) && PassesInt(rec.txns[2])
    ensures ProperRecording(rec) && AllPassInt(rec) && NoFutureReads(rec)
  {
  }

  /** If a transaction writes the initial value of a key again, recorded or not, a read of that value is taken from it;
      the history is rejected although reading the initial value explains it. */
  lemma RewrittenInitialIsRejected(rec: Recording)
    requires CrossedRecording(rec)
    ensures ProperRecording(rec) && AllPassInt(rec) && NoFutureReads(rec)
    ensures IsExplained(rec) && !IsSI(Summary(rec)) && !Unambiguous(Summary(rec))
  {
    CrossedSummary(rec);
    ReadThenWritePasses(rec.txns[1], 1, Num(1), 0, Num(5));
    ReadThenWritePasses(rec.txns[2], 0, Num(5), 1, Num(1));
    CrossedIsProper(rec);
    CrossedIsExplained(rec, Schedule([0, 4, 2], [1, 5, 3]), map[0 := Num(5)]);
    CrossedIsNotSI(Summary(rec));
    CrossedIsAmbiguous(Summary(rec));
  }
}
