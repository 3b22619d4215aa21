/** Operations of one transaction, the check of its internal consistency, its summary as
    external reads and writes, and the replay of the transaction on a snapshot. */
module Transactions {
  import opened Wrappers

  type Key = int

  datatype Value = Num(n: int)

  /** A write that did not succeed changes nothing. A range read lists the returned and the filtered-out items.
      Deletes (val is the mark left behind) and inserts also record the value seen; they always succeed. */
  datatype Op =
    | Read(key: Key, val: Value)
    | Write(key: Key, val: Value, succ: bool)
    | Range(lo: Key, hi: Key, found: seq<Item>, dead: seq<Item>)
    | Delete(key: Key, val: Value, seen: Value)
    | Insert(key: Key, val: Value, seen: Value)
    | Append(key: Key, val: Value)

  datatype Item = Item(id: Key, val: Value)

  /** The bounds are respected, as range results assert. */
  ghost predicate ProperOp(op: Op) {
    op.Range? ==> forall item :: item in op.found || item in op.dead ==> op.lo <= item.id <= op.hi
  }

  ghost predicate ProperOps(ops: seq<Op>) {
    forall op :: op in ops ==> ProperOp(op)
  }

  // ----- running a transaction

  /** The operation returned v for k. */
  ghost predicate Shows(op: Op, k: Key, v: Value) {
    match op
    case Read(key, val) => key == k && val == v
    case Write(_, _, _) => false
    case Range(_, _, found, dead) => Item(k, v) in found || Item(k, v) in dead
    case Delete(key, _, seen) => key == k && seen == v
    case Insert(key, _, seen) => key == k && seen == v
    case Append(_, _) => false
  }

  /** The operation leaves v at k. */
  ghost predicate Leaves(op: Op, k: Key, v: Value) {
    match op
    case Read(_, _) => false
    case Write(key, val, succ) => succ && key == k && val == v
    case Range(_, _, _, _) => false
    case Delete(key, val, _) => key == k && val == v
    case Insert(key, val, _) => key == k && val == v
    case Append(key, val) => key == k && val == v
  }

  /** The own writes after one more operation. */
  ghost function Wrote(own: map<Key, Value>, op: Op): (r: map<Key, Value>)
    ensures forall k, v :: Leaves(op, k, v) ==> k in r && r[k] == v
    ensures own.Keys <= r.Keys && forall k :: k in r ==> (k in own && r[k] == own[k]) || Leaves(op, k, r[k])
  {
    if (op.Write? && op.succ) || op.Delete? || op.Insert? || op.Append? then own[op.key := op.val] else own
  }

  /** What the transaction has written: for each key the value of the last successful write. */
  ghost function OwnWrites(ops: seq<Op>): map<Key, Value> {
    if ops == [] then map[] else Wrote(OwnWrites(ops[..|ops| - 1]), ops[|ops| - 1])
  }

  /** What a read of k returns on a snapshot under the own writes. */
  ghost function Visible(snapshot: map<Key, Value>, own: map<Key, Value>, k: Key): Option<Value> {
    if k in own then Some(own[k])
    else if k in snapshot then Some(snapshot[k])
    else None
  }

  /** Running the transaction on the snapshot reproduces everything that its operations returned. */
  ghost predicate RunsOn(ops: seq<Op>, snapshot: map<Key, Value>) {
    forall i: nat :: i < |ops| ==> ReturnsVisible(ops[i], snapshot, OwnWrites(ops[..i]))
  }

  ghost predicate ReturnsVisible(op: Op, snapshot: map<Key, Value>, own: map<Key, Value>) {
    forall k, v :: Shows(op, k, v) ==> Visible(snapshot, own, k) == Some(v)
  }

  /** No operation returns a value that a later one writes to the same key, successfully or not. */
  ghost predicate NoFutureRead(ops: seq<Op>) {
    forall i: nat, j: nat, k, v :: i < j < |ops| && Shows(ops[i], k, v) ==> !TriesToWrite(ops[j], k, v)
  }

  ghost predicate TriesToWrite(op: Op, k: Key, v: Value) {
    op.Write? && op.key == k && op.val == v
  }

  /** The operation reads k and returns v for it first: a range may list a key more than once. */
  ghost predicate ShowsFirst(op: Op, k: Key, v: Value) {
    match op
    case Range(_, _, found, dead) => exists p: nat :: IsFirstItem(found + dead, p, Item(k, v))
    case _ => Shows(op, k, v)
  }

  ghost predicate IsFirstItem(items: seq<Item>, p: nat, item: Item) {
    p < |items| && items[p] == item && forall q :: 0 <= q < p ==> items[q].id != item.id
  }

  ghost predicate Uses(op: Op, k: Key) {
    exists v :: Shows(op, k, v) || Leaves(op, k, v)
  }

  ghost predicate UsedIn(ops: seq<Op>, k: Key) {
    exists i: nat :: i < |ops| && Uses(ops[i], k)
  }

  /** The first operation that reads or successfully writes k reads it and returns v. */
  ghost predicate IsExternalRead(ops: seq<Op>, k: Key, v: Value) {
    exists i: nat :: FirstReads(ops, i, k, v)
  }

  ghost predicate FirstReads(ops: seq<Op>, i: nat, k: Key, v: Value) {
    i < |ops| && ShowsFirst(ops[i], k, v) && forall j :: 0 <= j < i ==> !Uses(ops[j], k)
  }

  /** The last operation that successfully writes k writes v. */
  ghost predicate IsLastWrite(ops: seq<Op>, k: Key, v: Value) {
    exists i: nat :: LastLeaves(ops, i, k, v)
  }

  ghost predicate LastLeaves(ops: seq<Op>, i: nat, k: Key, v: Value) {
    i < |ops| && Leaves(ops[i], k, v) && forall j, u :: i < j < |ops| ==> !Leaves(ops[j], k, u)
  }

  // ----- a transaction as single-key accesses in order

  /** `at` is the position of the operation in its transaction. */
  datatype Access = Get(key: Key, val: Value, at: nat) | Put(key: Key, val: Value, at: nat)

  ghost function Gets(items: seq<Item>, at: nat): seq<Access> {
    seq(|items|, i requires 0 <= i < |items| => Get(items[i].id, items[i].val, at))
  }

  ghost function AccessesOf(op: Op, at: nat): seq<Access> {
    match op
    case Read(k, v) => [Get(k, v, at)]
    case Write(k, v, succ) => if succ then [Put(k, v, at)] else []
    case Range(_, _, found, dead) => Gets(found + dead, at)
    case Delete(k, v, seen) => [Get(k, seen, at), Put(k, v, at)]
    case Insert(k, v, seen) => [Get(k, seen, at), Put(k, v, at)]
    case Append(k, v) => [Put(k, v, at)]
  }

  ghost function Accesses(ops: seq<Op>): seq<Access> {
    if ops == [] then []
    else Accesses(ops[..|ops| - 1]) + AccessesOf(ops[|ops| - 1], |ops| - 1)
  }

  // ----- replay

  /** The transaction's own writes: for each key the value of the last one. */
  ghost function Overlay(acc: seq<Access>): map<Key, Value> {
    if acc == [] then map[]
    else
      var last := acc[|acc| - 1];
      var before := Overlay(acc[..|acc| - 1]);
      if last.Put? then before[last.key := last.val] else before
  }

  ghost predicate ReadsBack(acc: seq<Access>, snapshot: map<Key, Value>, i: nat)
    requires i < |acc|
  {
    acc[i].Get? ==> Visible(snapshot, Overlay(acc[..i]), acc[i].key) == Some(acc[i].val)
  }

  /** Replaying the accesses on the snapshot reproduces every recorded read. */
  ghost predicate Replays(acc: seq<Access>, snapshot: map<Key, Value>) {
    forall i :: 0 <= i < |acc| ==> ReadsBack(acc, snapshot, i)
  }

  /** The first read of each key that the transaction has not written before it. */
  ghost function ExternalReads(acc: seq<Access>): map<Key, Value> {
    if acc == [] then map[]
    else
      var last := acc[|acc| - 1];
      var before := ExternalReads(acc[..|acc| - 1]);
      if last.Get? && last.key !in before && last.key !in Overlay(acc[..|acc| - 1]) then before[last.key := last.val] else before
  }

  /** Position of the last write of v to k, successful or not. */
  ghost function LastWrites(ops: seq<Op>): map<(Key, Value), nat> {
    if ops == [] then map[]
    else
      var last := ops[|ops| - 1];
      var before := LastWrites(ops[..|ops| - 1]);
      if last.Write? then before[(last.key, last.val) := |ops| - 1] else before
  }

  /** No read returns a value whose last write in the same transaction comes later. */
  ghost predicate NothingAhead(ops: seq<Op>) {
    forall i :: 0 <= i < |Accesses(ops)| ==> !ReadsAhead(ops, Accesses(ops)[i])
  }

  ghost predicate ReadsAhead(ops: seq<Op>, a: Access) {
    a.Get? && (a.key, a.val) in LastWrites(ops) && LastWrites(ops)[(a.key, a.val)] > a.at
  }

  ghost predicate Agrees(snapshot: map<Key, Value>, external: map<Key, Value>) {
    forall k :: k in external ==> k in snapshot && snapshot[k] == external[k]
  }

  /** The value of the last access to each key, read or written. */
  ghost function LastSeen(acc: seq<Access>): map<Key, Value> {
    if acc == [] then map[]
    else LastSeen(acc[..|acc| - 1])[acc[|acc| - 1].key := acc[|acc| - 1].val]
  }

  ghost predicate ReadsLastSeen(acc: seq<Access>, i: nat)
    requires i < |acc|
  {
    acc[i].Get? && acc[i].key in LastSeen(acc[..i]) ==> LastSeen(acc[..i])[acc[i].key] == acc[i].val
  }

  /** Every read returns the value of the previous access to its key, if there is one. */
  ghost predicate Coherent(acc: seq<Access>) {
    forall i :: 0 <= i < |acc| ==> ReadsLastSeen(acc, i)
  }

  lemma ReplaysStep(acc: seq<Access>, snapshot: map<Key, Value>)
    requires |acc| > 0
    ensures Replays(acc, snapshot) <==> Replays(acc[..|acc| - 1], snapshot) && ReadsBack(acc, snapshot, |acc| - 1)
  {
    var init := acc[..|acc| - 1];
    forall i | 0 <= i < |init| ensures ReadsBack(acc, snapshot, i) == ReadsBack(init, snapshot, i) {
      assert init[..i] == acc[..i];
    }
  }

  lemma CoherentStep(acc: seq<Access>)
    requires |acc| > 0
    ensures Coherent(acc) <==> Coherent(acc[..|acc| - 1]) && ReadsLastSeen(acc, |acc| - 1)
  {
    var init := acc[..|acc| - 1];
    forall i | 0 <= i < |init| ensures ReadsLastSeen(acc, i) == ReadsLastSeen(init, i) {
      assert init[..i] == acc[..i];
    }
  }

  lemma {:induction false} CoherentPrefix(acc: seq<Access>, m: nat)
    requires Coherent(acc) && m <= |acc|
    ensures Coherent(acc[..m])
  {
    forall i | 0 <= i < m ensures ReadsLastSeen(acc[..m], i) {
      assert acc[..m][..i] == acc[..i];
      assert ReadsLastSeen(acc, i);
    }
  }

  /** In a coherent transaction the last access to a key saw its own last write, or else its external read. */
  lemma {:induction false} LastSeenSplits(acc: seq<Access>)
    requires Coherent(acc)
    ensures LastSeen(acc) == ExternalReads(acc) + Overlay(acc)
  {
    if acc != [] {
      CoherentStep(acc);
      LastSeenSplits(acc[..|acc| - 1]);
    }
  }

  /** A transaction replays on a snapshot exactly when its reads are coherent and the snapshot
      agrees with its external reads. */
  lemma {:induction false} ReplaysIff(acc: seq<Access>, snapshot: map<Key, Value>)
    ensures Replays(acc, snapshot) <==> Coherent(acc) && Agrees(snapshot, ExternalReads(acc))
  {
    if acc != [] {
      var init := acc[..|acc| - 1];
      ReplaysStep(acc, snapshot);
      CoherentStep(acc);
      ReplaysIff(init, snapshot);
      if Coherent(init) {
        LastSeenSplits(init);
        ReplaysIffLast(acc, snapshot);
      }
    }
  }

  lemma ReplaysIffLast(acc: seq<Access>, snapshot: map<Key, Value>)
    requires |acc| > 0
    requires LastSeen(acc[..|acc| - 1]) == ExternalReads(acc[..|acc| - 1]) + Overlay(acc[..|acc| - 1])
    ensures Agrees(snapshot, ExternalReads(acc[..|acc| - 1])) && ReadsBack(acc, snapshot, |acc| - 1)
       <==> ReadsLastSeen(acc, |acc| - 1) && Agrees(snapshot, ExternalReads(acc))
  {
    var init, last := acc[..|acc| - 1], acc[|acc| - 1];
    if last.Get? && last.key !in Overlay(init) && last.key !in ExternalReads(init) {
      assert ExternalReads(acc) == ExternalReads(init)[last.key := last.val];
      assert Agrees(snapshot, ExternalReads(acc)) <==>
        Agrees(snapshot, ExternalReads(init)) && last.key in snapshot && snapshot[last.key] == last.val by {
        assert last.key in ExternalReads(acc);
        assert forall k :: k in ExternalReads(init) ==> k in ExternalReads(acc) && ExternalReads(acc)[k] == ExternalReads(init)[k];
      }
    } else {
      assert ExternalReads(acc) == ExternalReads(init);
    }
  }

  // ----- what the summaries mean

  /** The overlay holds exactly the written keys, each with the value of its last write. */
  lemma {:induction false} OverlayIsLastPut(acc: seq<Access>, k: Key)
    ensures k in Overlay(acc) <==> exists i :: 0 <= i < |acc| && IsPutOf(acc[i], k)
    ensures forall i :: IsLastPut(acc, k, i) ==> Overlay(acc)[k] == acc[i].val
  {
    if acc != [] {
      var init, last := acc[..|acc| - 1], acc[|acc| - 1];
      OverlayIsLastPut(init, k);
      assert acc == init + [last];
      if !IsPutOf(last, k) {
        forall i | IsLastPut(acc, k, i) ensures IsLastPut(init, k, i) {
        }
      }
    }
  }

  ghost predicate IsLastPut(acc: seq<Access>, k: Key, i: int) {
    0 <= i < |acc| && IsPutOf(acc[i], k) && forall j :: i < j < |acc| ==> !IsPutOf(acc[j], k)
  }

  ghost predicate IsPutOf(a: Access, k: Key) { a.Put? && a.key == k }

  /** External reads are the keys whose first access is a read, each with the value of that read. */
  lemma {:induction false} ExternalReadIsFirstAccess(acc: seq<Access>, k: Key)
    ensures k in ExternalReads(acc) <==> exists i: nat :: IsFirstAccess(acc, k, i) && acc[i].Get?
    ensures forall i: nat :: IsFirstAccess(acc, k, i) && acc[i].Get? ==> ExternalReads(acc)[k] == acc[i].val
    ensures k in ExternalReads(acc) || k in Overlay(acc) <==> exists i :: 0 <= i < |acc| && acc[i].key == k
  {
    if acc != [] {
      var init, last := acc[..|acc| - 1], acc[|acc| - 1];
      ExternalReadIsFirstAccess(init, k);
      forall i: nat | i < |init| ensures IsFirstAccess(acc, k, i) == IsFirstAccess(init, k, i) {
        assert forall j :: 0 <= j <= i ==> init[j] == acc[j];
      }
      assert forall i :: 0 <= i < |init| ==> init[i] == acc[i];
      if last.key == k {
        assert acc[|init|].key == k;
        assert IsFirstAccess(acc, k, |init|) <==> k !in ExternalReads(init) && k !in Overlay(init);
      }
    }
  }

  ghost predicate IsFirstAccess(acc: seq<Access>, k: Key, i: nat) {
    i < |acc| && acc[i].key == k && forall j :: 0 <= j < i ==> acc[j].key != k
  }

  // ----- the three passes over a transaction

  lemma AccessesGrow(ops: seq<Op>, i: nat)
    requires i < |ops|
    ensures Accesses(ops[..i + 1]) == Accesses(ops[..i]) + AccessesOf(ops[i], i)
  {
    assert ops[..i + 1][..i] == ops[..i];
  }

  lemma {:induction false} AccessesPrefix(ops: seq<Op>, i: nat)
    requires i <= |ops|
    ensures Accesses(ops[..i]) <= Accesses(ops)
    decreases |ops| - i
  {
    if i < |ops| {
      AccessesGrow(ops, i);
      AccessesPrefix(ops, i + 1);
    } else {
      assert ops[..i] == ops;
    }
  }

  /** A read must return the last value seen for its key, and not one written only later. */
  predicate ValidRead(k: Key, lastRw: map<Key, Value>, val: Value, i: nat, writes: map<(Key, Value), nat>) {
    && !(k in lastRw && lastRw[k] != val)
    && !((k, val) in writes && writes[(k, val)] > i)
  }

  /** Where the check stands: everything up to here is fine. */
  ghost predicate CheckedSoFar(ops: seq<Op>, acc: seq<Access>, lastRw: map<Key, Value>) {
    && Coherent(acc) && lastRw == LastSeen(acc)
    && forall i :: 0 <= i < |acc| ==> !ReadsAhead(ops, acc[i])
  }

  lemma CheckRead(ops: seq<Op>, acc: seq<Access>, lastRw: map<Key, Value>, a: Access)
    requires CheckedSoFar(ops, acc, lastRw)
    ensures CheckedSoFar(ops, acc + [a], lastRw[a.key := a.val]) <==>
              (a.Get? ==> ValidRead(a.key, lastRw, a.val, a.at, LastWrites(ops)))
  {
    var now := acc + [a];
    assert now[..|acc|] == acc && now[|acc|] == a;
    CoherentStep(now);
  }

  lemma RejectedPrefix(ops: seq<Op>, acc: seq<Access>, lastRw: map<Key, Value>)
    requires acc <= Accesses(ops) && lastRw == LastSeen(acc) && !CheckedSoFar(ops, acc, lastRw)
    ensures !(Coherent(Accesses(ops)) && NothingAhead(ops))
  {
    if Coherent(Accesses(ops)) {
      CoherentPrefix(Accesses(ops), |acc|);
      assert Accesses(ops)[..|acc|] == acc;
      var i :| 0 <= i < |acc| && ReadsAhead(ops, acc[i]);
      assert ReadsAhead(ops, Accesses(ops)[i]);
    }
  }

  method CollectWrites(ops: seq<Op>) returns (writes: map<(Key, Value), nat>)
    ensures writes == LastWrites(ops)
  {
    writes := map[];
    for i := 0 to |ops|
      invariant writes == LastWrites(ops[..i])
    {
      assert ops[..i + 1][..i] == ops[..i];
      if ops[i].Write? {
        writes := writes[(ops[i].key, ops[i].val) := i];
      }
    }
    assert ops[..|ops|] == ops;
  }

  method CheckOne(ops: seq<Op>, k: Key, val: Value, i: nat, writes: map<(Key, Value), nat>, before: map<Key, Value>, ghost acc: seq<Access>)
      returns (ok: bool, lastRw: map<Key, Value>)
    requires writes == LastWrites(ops) && CheckedSoFar(ops, acc, before)
    requires acc + [Get(k, val, i)] <= Accesses(ops)
    ensures ok ==> CheckedSoFar(ops, acc + [Get(k, val, i)], lastRw)
    ensures !ok ==> !(Coherent(Accesses(ops)) && NothingAhead(ops))
  {
    ghost var now := acc + [Get(k, val, i)];
    assert now[..|acc|] == acc;
    CheckRead(ops, acc, before, Get(k, val, i));
    ok := ValidRead(k, before, val, i, writes);
    lastRw := before[k := val];
    if !ok {
      RejectedPrefix(ops, now, lastRw);
    }
  }

  /** Checks the items of one range result in order. */
  method CheckItems(ops: seq<Op>, items: seq<Item>, i: nat, writes: map<(Key, Value), nat>, before: map<Key, Value>, ghost acc: seq<Access>)
      returns (ok: bool, lastRw: map<Key, Value>)
    requires writes == LastWrites(ops) && CheckedSoFar(ops, acc, before)
    requires acc + Gets(items, i) <= Accesses(ops)
    ensures ok ==> CheckedSoFar(ops, acc + Gets(items, i), lastRw)
    ensures !ok ==> !(Coherent(Accesses(ops)) && NothingAhead(ops))
  {
    lastRw := before;
    assert acc + Gets(items[..0], i) == acc;
    for j := 0 to |items|
      invariant CheckedSoFar(ops, acc + Gets(items[..j], i), lastRw)
    {
      OneMoreItem(acc, items, i, j, Accesses(ops));
      ok, lastRw := CheckOne(ops, items[j].id, items[j].val, i, writes, lastRw, acc + Gets(items[..j], i));
      if !ok {
        return;
      }
    }
    assert items[..|items|] == items;
    return true, lastRw;
  }

  lemma OneMoreItem(acc: seq<Access>, items: seq<Item>, at: nat, j: nat, all: seq<Access>)
    requires j < |items| && acc + Gets(items, at) <= all
    ensures acc + Gets(items[..j + 1], at) == acc + Gets(items[..j], at) + [Get(items[j].id, items[j].val, at)]
    ensures acc + Gets(items[..j + 1], at) <= all
  {
    var now := acc + Gets(items[..j + 1], at);
    assert now == (acc + Gets(items, at))[..|now|];
  }

  method CheckRange(ops: seq<Op>, found: seq<Item>, dead: seq<Item>, i: nat, writes: map<(Key, Value), nat>, before: map<Key, Value>,
                    ghost acc: seq<Access>)
      returns (ok: bool, lastRw: map<Key, Value>)
    requires writes == LastWrites(ops) && CheckedSoFar(ops, acc, before)
    requires acc + Gets(found + dead, i) <= Accesses(ops)
    ensures ok ==> CheckedSoFar(ops, acc + Gets(found + dead, i), lastRw)
    ensures !ok ==> !(Coherent(Accesses(ops)) && NothingAhead(ops))
  {
    assert acc + Gets(found + dead, i) == acc + Gets(found, i) + Gets(dead, i);
    ok, lastRw := CheckItems(ops, found, i, writes, before, acc);
    if ok {
      ok, lastRw := CheckItems(ops, dead, i, writes, lastRw, acc + Gets(found, i));
    }
  }

  method CheckOp(ops: seq<Op>, i: nat, writes: map<(Key, Value), nat>, before: map<Key, Value>) returns (ok: bool, lastRw: map<Key, Value>)
    requires i < |ops| && writes == LastWrites(ops) && !ops[i].Insert? && !ops[i].Append?
    requires CheckedSoFar(ops, Accesses(ops[..i]), before)
    ensures ok ==> CheckedSoFar(ops, Accesses(ops[..i + 1]), lastRw)
    ensures !ok ==> !(Coherent(Accesses(ops)) && NothingAhead(ops))
  {
    AccessesGrow(ops, i);
    AccessesPrefix(ops, i + 1);
    ghost var acc := Accesses(ops[..i]);
    match ops[i] {
      case Range(_, _, found, dead) =>
        ok, lastRw := CheckRange(ops, found, dead, i, writes, before, acc);
      case Read(k, val) =>
        ok, lastRw := CheckOne(ops, k, val, i, writes, before, acc);
      case Write(k, val, succ) =>
        ok, lastRw := true, before;
        if succ {
          CheckRead(ops, acc, before, Put(k, val, i));
          lastRw := lastRw[k := val];
        } else {
          assert acc + [] == acc;
        }
      case Delete(k, val, seen) =>
        ok, lastRw := CheckDelete(ops, k, val, seen, i, writes, before, acc);
    }
  }

  /** A delete is checked like a read of the value it saw, and then remembered like a write. */
  method CheckDelete(ops: seq<Op>, k: Key, val: Value, seen: Value, i: nat, writes: map<(Key, Value), nat>, before: map<Key, Value>,
                     ghost acc: seq<Access>)
      returns (ok: bool, lastRw: map<Key, Value>)
    requires writes == LastWrites(ops) && CheckedSoFar(ops, acc, before)
    requires acc + [Get(k, seen, i), Put(k, val, i)] <= Accesses(ops)
    ensures ok ==> CheckedSoFar(ops, acc + [Get(k, seen, i), Put(k, val, i)], lastRw)
    ensures !ok ==> !(Coherent(Accesses(ops)) && NothingAhead(ops))
  {
    ghost var now := acc + [Get(k, seen, i)];
    assert acc + [Get(k, seen, i), Put(k, val, i)] == now + [Put(k, val, i)];
    ok, lastRw := CheckOne(ops, k, seen, i, writes, before, acc);
    if ok {
      CheckRead(ops, now, lastRw, Put(k, val, i));
      lastRw := lastRw[k := val];
    }
  }

  /** What the check is made for: it asserts that there are no appends, and does not look at inserts. */
  ghost predicate Checkable(ops: seq<Op>) {
    ProperOps(ops) && forall op :: op in ops ==> !op.Insert? && !op.Append?
  }

  ghost predicate PassesInt(ops: seq<Op>) {
    (exists snapshot :: RunsOn(ops, snapshot)) && NoFutureRead(ops)
  }

  /** Accepts exactly the transactions that run on some snapshot and read no value that they write later. */
  method CheckInt(ops: seq<Op>) returns (ok: bool)
    requires Checkable(ops)
    ensures ok <==> PassesInt(ops)
  {
    var writes := CollectWrites(ops);
    ok := CheckOps(ops, writes);
    InternallyConsistent(ops);
    NothingAheadMeans(ops);
  }

  /** The second pass, over all operations in order. */
  method CheckOps(ops: seq<Op>, writes: map<(Key, Value), nat>) returns (ok: bool)
    requires Checkable(ops) && writes == LastWrites(ops)
    ensures ok <==> Coherent(Accesses(ops)) && NothingAhead(ops)
  {
    var lastRw: map<Key, Value> := map[];
    for i := 0 to |ops|
      invariant CheckedSoFar(ops, Accesses(ops[..i]), lastRw)
    {
      assert ops[i] in ops;
      ok, lastRw := CheckOp(ops, i, writes, lastRw);
      if !ok {
        return;
      }
    }
    assert ops[..|ops|] == ops;
    return true;
  }

  /** Having a snapshot to run on is the same as having coherent reads; the external reads are one. */
  lemma InternallyConsistent(ops: seq<Op>)
    ensures (exists snapshot :: RunsOn(ops, snapshot)) <==> Coherent(Accesses(ops))
    ensures Coherent(Accesses(ops)) ==> RunsOn(ops, ExternalReads(Accesses(ops)))
  {
    RunsIff(ops, ExternalReads(Accesses(ops)));
    if snapshot :| RunsOn(ops, snapshot) {
      RunsIff(ops, snapshot);
    }
  }

  // ----- the accesses say what the operations say

  lemma GetsShowItems(items: seq<Item>, at: nat, k: Key, v: Value)
    ensures (exists i :: 0 <= i < |items| && Gets(items, at)[i] == Get(k, v, at)) <==> Item(k, v) in items
  {
    if Item(k, v) in items {
      var i :| 0 <= i < |items| && items[i] == Item(k, v);
      assert Gets(items, at)[i] == Get(k, v, at);
    }
  }

  lemma ReplaysMore(acc: seq<Access>, a: Access, snapshot: map<Key, Value>)
    ensures Replays(acc + [a], snapshot) <==> Replays(acc, snapshot) && (a.Get? ==> Visible(snapshot, Overlay(acc), a.key) == Some(a.val))
  {
    assert (acc + [a])[..|acc|] == acc;
    ReplaysStep(acc + [a], snapshot);
  }

  lemma {:induction false} ReplaysItems(acc: seq<Access>, items: seq<Item>, at: nat, snapshot: map<Key, Value>)
    ensures Replays(acc + Gets(items, at), snapshot) <==>
              Replays(acc, snapshot) && forall item :: item in items ==> Visible(snapshot, Overlay(acc), item.id) == Some(item.val)
  {
    if items == [] {
      assert acc + Gets(items, at) == acc;
    } else {
      var init, last := items[..|items| - 1], items[|items| - 1];
      ReplaysItems(acc, init, at, snapshot);
      GetsWriteNothing(acc, init, at);
      ReplaysMore(acc + Gets(init, at), Get(last.id, last.val, at), snapshot);
      assert acc + Gets(init, at) + [Get(last.id, last.val, at)] == acc + Gets(items, at);
      assert items == init + [last];
    }
  }

  lemma ReplaysUpdate(acc: seq<Access>, k: Key, val: Value, seen: Value, at: nat, snapshot: map<Key, Value>)
    ensures Replays(acc + [Get(k, seen, at), Put(k, val, at)], snapshot) <==>
              Replays(acc, snapshot) && Visible(snapshot, Overlay(acc), k) == Some(seen)
  {
    ReplaysMore(acc, Get(k, seen, at), snapshot);
    ReplaysMore(acc + [Get(k, seen, at)], Put(k, val, at), snapshot);
    assert acc + [Get(k, seen, at)] + [Put(k, val, at)] == acc + [Get(k, seen, at), Put(k, val, at)];
  }

  lemma ReplaysOp(acc: seq<Access>, op: Op, at: nat, snapshot: map<Key, Value>)
    ensures Replays(acc + AccessesOf(op, at), snapshot) <==> Replays(acc, snapshot) && ReturnsVisible(op, snapshot, Overlay(acc))
  {
    match op {
      case Read(k, val) =>
        ReplaysMore(acc, Get(k, val, at), snapshot);
        assert Shows(op, k, val);
      case Write(k, val, succ) =>
        assert acc + [] == acc;
        ReplaysMore(acc, Put(k, val, at), snapshot);
      case Range(_, _, found, dead) =>
        ReplaysItems(acc, found + dead, at, snapshot);
        assert forall item :: item in found + dead <==> Shows(op, item.id, item.val);
      case Delete(k, val, seen) =>
        ReplaysUpdate(acc, k, val, seen, at, snapshot);
        assert Shows(op, k, seen);
      case Insert(k, val, seen) =>
        ReplaysUpdate(acc, k, val, seen, at, snapshot);
        assert Shows(op, k, seen);
      case Append(k, val) =>
        ReplaysMore(acc, Put(k, val, at), snapshot);
    }
  }

  /** The overlay of the accesses is what the operations wrote. */
  lemma {:induction false} OverlayIsOwnWrites(ops: seq<Op>)
    ensures Overlay(Accesses(ops)) == OwnWrites(ops)
  {
    if ops != [] {
      var n := |ops| - 1;
      OverlayIsOwnWrites(ops[..n]);
      OverlayGrows(Accesses(ops[..n]), ops[n], n);
    }
  }

  lemma RunsOnStep(ops: seq<Op>, snapshot: map<Key, Value>)
    requires ops != []
    ensures RunsOn(ops, snapshot) <==>
              RunsOn(ops[..|ops| - 1], snapshot) && ReturnsVisible(ops[|ops| - 1], snapshot, OwnWrites(ops[..|ops| - 1]))
  {
    var init := ops[..|ops| - 1];
    forall i: nat | i < |init| ensures init[..i] == ops[..i] && init[i] == ops[i] {
    }
  }

  /** The operations run on a snapshot exactly when their accesses replay on it. */
  lemma {:induction false} RunsMeansReplays(ops: seq<Op>, snapshot: map<Key, Value>)
    ensures RunsOn(ops, snapshot) <==> Replays(Accesses(ops), snapshot)
  {
    if ops != [] {
      var n := |ops| - 1;
      RunsMeansReplays(ops[..n], snapshot);
      RunsOnStep(ops, snapshot);
      OverlayIsOwnWrites(ops[..n]);
      ReplaysOp(Accesses(ops[..n]), ops[n], n, snapshot);
    }
  }

  lemma RunsIff(ops: seq<Op>, snapshot: map<Key, Value>)
    ensures RunsOn(ops, snapshot) <==> Coherent(Accesses(ops)) && Agrees(snapshot, ExternalReads(Accesses(ops)))
  {
    RunsMeansReplays(ops, snapshot);
    ReplaysIff(Accesses(ops), snapshot);
  }

  ghost predicate GetOf(ops: seq<Op>, a: Access) {
    a.Get? && a.at < |ops| && Shows(ops[a.at], a.key, a.val)
  }

  lemma GetsOfOp(op: Op, at: nat, a: Access)
    ensures a in AccessesOf(op, at) && a.Get? <==> a.Get? && a.at == at && Shows(op, a.key, a.val)
  {
    if op.Range? {
      var items := op.found + op.dead;
      GetsShowItems(items, at, a.key, a.val);
      assert a in Gets(items, at) <==> exists i :: 0 <= i < |items| && Gets(items, at)[i] == a;
      assert forall i :: 0 <= i < |items| ==> Gets(items, at)[i].Get? && Gets(items, at)[i].at == at;
    }
  }

  /** The reads among the accesses are what the operations return. */
  lemma {:induction false} GetsAreShown(ops: seq<Op>, a: Access)
    ensures a in Accesses(ops) && a.Get? <==> GetOf(ops, a)
  {
    if ops != [] {
      var n := |ops| - 1;
      GetsAreShown(ops[..n], a);
      GetsOfOp(ops[n], n, a);
    }
  }

  lemma {:induction false} LastWritesMeans(ops: seq<Op>, k: Key, v: Value, p: int)
    requires p >= -1
    ensures (k, v) in LastWrites(ops) && LastWrites(ops)[(k, v)] > p <==> exists j: nat :: p < j < |ops| && TriesToWrite(ops[j], k, v)
  {
    if ops != [] {
      var n := |ops| - 1;
      LastWritesMeans(ops[..n], k, v, p);
      assert forall j :: 0 <= j < n ==> ops[..n][j] == ops[j];
    }
  }

  /** Comparing with the last writes finds every read of a value written later. */
  lemma NothingAheadMeans(ops: seq<Op>)
    ensures NothingAhead(ops) <==> NoFutureRead(ops)
  {
    if NothingAhead(ops) {
      forall i: nat, j: nat, k, v | i < j < |ops| && Shows(ops[i], k, v) ensures !TriesToWrite(ops[j], k, v) {
        GetsAreShown(ops, Get(k, v, i));
        LastWritesMeans(ops, k, v, i);
      }
    }
    if NoFutureRead(ops) {
      forall i | 0 <= i < |Accesses(ops)| ensures !ReadsAhead(ops, Accesses(ops)[i]) {
        var a := Accesses(ops)[i];
        GetsAreShown(ops, a);
        LastWritesMeans(ops, a.key, a.val, a.at);
      }
    }
  }

  lemma {:induction false} OwnWritesMean(ops: seq<Op>, k: Key, v: Value)
    ensures k in OwnWrites(ops) && OwnWrites(ops)[k] == v <==> IsLastWrite(ops, k, v)
    ensures k in OwnWrites(ops) <==> exists i: nat, u :: i < |ops| && Leaves(ops[i], k, u)
  {
    if ops != [] {
      var init, last := ops[..|ops| - 1], ops[|ops| - 1];
      OwnWritesMean(init, k, v);
      assert forall i :: 0 <= i < |init| ==> init[i] == ops[i];
      if u :| Leaves(last, k, u) {
        assert LastLeaves(ops, |init|, k, u);
      } else {
        assert forall i: nat :: i < |init| ==> (LastLeaves(ops, i, k, v) <==> LastLeaves(init, i, k, v));
      }
    }
  }

  /** What the transaction leaves behind: for each key it successfully wrote the last value. */
  method ExtWrites(ops: seq<Op>) returns (r: map<Key, Value>)
    ensures forall k, v :: k in r && r[k] == v <==> IsLastWrite(ops, k, v)
    ensures r == OwnWrites(ops) == Overlay(Accesses(ops))
  {
    OverlayIsOwnWrites(ops);
    forall k, v ensures k in OwnWrites(ops) && OwnWrites(ops)[k] == v <==> IsLastWrite(ops, k, v) {
      OwnWritesMean(ops, k, v);
    }
    r := map[];
    for i := 0 to |ops|
      invariant r == Overlay(Accesses(ops[..i]))
    {
      AccessesGrow(ops, i);
      OverlayGrows(Accesses(ops[..i]), ops[i], i);
      match ops[i] {
        case Write(k, val, succ) =>
          if succ {
            r := r[k := val];
          }
        case Delete(k, val, _) => r := r[k := val];
        case Insert(k, val, _) => r := r[k := val];
        case Append(k, val) => r := r[k := val];
        case Read(_, _) =>
        case Range(_, _, _, _) =>
      }
    }
    assert ops[..|ops|] == ops;
  }

  lemma OverlayGrows(acc: seq<Access>, op: Op, at: nat)
    ensures Overlay(acc + AccessesOf(op, at)) ==
            if (op.Write? && op.succ) || op.Delete? || op.Insert? || op.Append? then Overlay(acc)[op.key := op.val] else Overlay(acc)
  {
    match op {
      case Write(k, val, succ) =>
        if succ {
          assert (acc + [Put(k, val, at)])[..|acc|] == acc;
        } else {
          assert acc + [] == acc;
        }
      case Read(k, val) =>
        assert (acc + [Get(k, val, at)])[..|acc|] == acc;
      case Range(_, _, found, dead) =>
        GetsWriteNothing(acc, found + dead, at);
      case Delete(k, val, seen) =>
        UpdateOverlay(acc, k, val, seen, at);
      case Insert(k, val, seen) =>
        UpdateOverlay(acc, k, val, seen, at);
      case Append(k, val) =>
        assert (acc + [Put(k, val, at)])[..|acc|] == acc;
    }
  }

  lemma UpdateOverlay(acc: seq<Access>, k: Key, val: Value, seen: Value, at: nat)
    ensures Overlay(acc + [Get(k, seen, at), Put(k, val, at)]) == Overlay(acc)[k := val]
  {
    var now := acc + [Get(k, seen, at)];
    assert acc + [Get(k, seen, at), Put(k, val, at)] == now + [Put(k, val, at)];
    assert (now + [Put(k, val, at)])[..|now|] == now && now[..|acc|] == acc;
  }

  lemma {:induction false} GetsWriteNothing(acc: seq<Access>, items: seq<Item>, at: nat)
    ensures Overlay(acc + Gets(items, at)) == Overlay(acc)
  {
    var all := acc + Gets(items, at);
    if items == [] {
      assert all == acc;
    } else {
      GetsWriteNothing(acc, items[..|items| - 1], at);
      assert all[..|all| - 1] == acc + Gets(items[..|items| - 1], at);
    }
  }

  /** `ignore` are the keys already read, or successfully written, before this point. */
  ghost predicate ReadSoFar(acc: seq<Access>, r: map<Key, Value>, ignore: set<Key>) {
    && r == ExternalReads(acc)
    && forall k :: k in ignore <==> k in r || k in Overlay(acc)
  }

  method ReadOne(k: Key, val: Value, r: map<Key, Value>, ignore: set<Key>, ghost acc: seq<Access>, ghost at: nat)
      returns (r': map<Key, Value>, ignore': set<Key>)
    requires ReadSoFar(acc, r, ignore)
    ensures ReadSoFar(acc + [Get(k, val, at)], r', ignore')
  {
    ReadsMore(acc, Get(k, val, at));
    r', ignore' := r, ignore;
    if k !in ignore {
      r' := r[k := val];
      ignore' := ignore + {k};
    }
  }

  method ReadItems(items: seq<Item>, r: map<Key, Value>, ignore: set<Key>, ghost acc: seq<Access>, ghost at: nat)
      returns (r': map<Key, Value>, ignore': set<Key>)
    requires ReadSoFar(acc, r, ignore)
    ensures ReadSoFar(acc + Gets(items, at), r', ignore')
  {
    r', ignore' := r, ignore;
    ghost var now := acc;
    for j := 0 to |items|
      invariant now == acc + Gets(items, at)[..j] && ReadSoFar(now, r', ignore')
    {
      r', ignore' := ReadOne(items[j].id, items[j].val, r', ignore', now, at);
      assert now + [Gets(items, at)[j]] == acc + Gets(items, at)[..j + 1];
      now := now + [Gets(items, at)[j]];
    }
    assert Gets(items, at)[..|items|] == Gets(items, at);
  }

  method ReadRange(found: seq<Item>, dead: seq<Item>, r: map<Key, Value>, ignore: set<Key>, ghost acc: seq<Access>, ghost at: nat)
      returns (r': map<Key, Value>, ignore': set<Key>)
    requires ReadSoFar(acc, r, ignore)
    ensures ReadSoFar(acc + Gets(found + dead, at), r', ignore')
  {
    r', ignore' := ReadItems(found, r, ignore, acc, at);
    r', ignore' := ReadItems(dead, r', ignore', acc + Gets(found, at), at);
    assert acc + Gets(found, at) + Gets(dead, at) == acc + Gets(found + dead, at);
  }

  /** Reads what the operation saw; a delete or insert then leaves nothing more to read of its key. */
  method ReadUpdate(k: Key, val: Value, seen: Value, r: map<Key, Value>, ignore: set<Key>, ghost acc: seq<Access>, ghost at: nat)
      returns (r': map<Key, Value>, ignore': set<Key>)
    requires ReadSoFar(acc, r, ignore)
    ensures ReadSoFar(acc + [Get(k, seen, at), Put(k, val, at)], r', ignore')
  {
    r', ignore' := ReadOne(k, seen, r, ignore, acc, at);
    UpdateReads(acc, k, val, seen, at, r', ignore');
  }

  lemma WriteIsIgnored(acc: seq<Access>, k: Key, val: Value, at: nat, r: map<Key, Value>, ignore: set<Key>)
    requires ReadSoFar(acc, r, ignore)
    ensures ReadSoFar(acc + [Put(k, val, at)], r, ignore + {k})
  {
    ReadsMore(acc, Put(k, val, at));
  }

  method ReadOp(op: Op, r: map<Key, Value>, ignore: set<Key>, ghost acc: seq<Access>, ghost at: nat)
      returns (r': map<Key, Value>, ignore': set<Key>)
    requires ReadSoFar(acc, r, ignore)
    ensures ReadSoFar(acc + AccessesOf(op, at), r', ignore')
  {
    match op {
      case Range(_, _, found, dead) =>
        r', ignore' := ReadRange(found, dead, r, ignore, acc, at);
      case Read(k, val) =>
        r', ignore' := ReadOne(k, val, r, ignore, acc, at);
      case Write(k, val, succ) =>
        r', ignore' := r, ignore;
        if succ {
          WriteIsIgnored(acc, k, val, at, r, ignore);
          ignore' := ignore' + {k};
        } else {
          assert acc + [] == acc;
        }
      case Delete(k, val, seen) =>
        r', ignore' := ReadUpdate(k, val, seen, r, ignore, acc, at);
      case Insert(k, val, seen) =>
        r', ignore' := ReadUpdate(k, val, seen, r, ignore, acc, at);
      case Append(k, val) =>
        r', ignore' := r, ignore + {k};
        WriteIsIgnored(acc, k, val, at, r, ignore);
    }
  }

  lemma UpdateReads(acc: seq<Access>, k: Key, val: Value, seen: Value, at: nat, r: map<Key, Value>, ignore: set<Key>)
    requires ReadSoFar(acc + [Get(k, seen, at)], r, ignore)
    ensures ReadSoFar(acc + [Get(k, seen, at), Put(k, val, at)], r, ignore)
  {
    ReadsMore(acc, Get(k, seen, at));
    ReadsThenWrites(acc, k, val, seen, at);
  }

  // ----- external reads, by operations

  lemma ReadsMore(acc: seq<Access>, a: Access)
    ensures Overlay(acc + [a]) == if a.Put? then Overlay(acc)[a.key := a.val] else Overlay(acc)
    ensures ExternalReads(acc + [a]) ==
      if a.Get? && a.key !in ExternalReads(acc) && a.key !in Overlay(acc) then ExternalReads(acc)[a.key := a.val] else ExternalReads(acc)
  {
    assert (acc + [a])[..|acc|] == acc;
  }

  /** k has the value v among the external reads. */
  ghost predicate ReadExternally(acc: seq<Access>, k: Key, v: Value) {
    k in ExternalReads(acc) && ExternalReads(acc)[k] == v
  }

  ghost predicate Used(acc: seq<Access>, k: Key) {
    k in ExternalReads(acc) || k in Overlay(acc)
  }

  lemma {:induction false} ReadsItems(acc: seq<Access>, items: seq<Item>, at: nat, k: Key, v: Value)
    ensures ReadExternally(acc + Gets(items, at), k, v) <==>
              ReadExternally(acc, k, v) || (!Used(acc, k) && exists p: nat :: IsFirstItem(items, p, Item(k, v)))
    ensures Used(acc + Gets(items, at), k) <==> Used(acc, k) || exists item :: item in items && item.id == k
  {
    if items == [] {
      assert acc + Gets(items, at) == acc;
    } else {
      var init, last := items[..|items| - 1], items[|items| - 1];
      var now := acc + Gets(init, at);
      ReadsItems(acc, init, at, k, v);
      GetsWriteNothing(acc, init, at);
      ReadsMore(now, Get(last.id, last.val, at));
      assert now + [Get(last.id, last.val, at)] == acc + Gets(items, at);
      assert items == init + [last];
      FirstItemStep(init, last, k, v);
    }
  }

  lemma FirstItemStep(init: seq<Item>, last: Item, k: Key, v: Value)
    ensures (exists p: nat :: IsFirstItem(init + [last], p, Item(k, v))) <==>
              (exists p: nat :: IsFirstItem(init, p, Item(k, v))) || (last == Item(k, v) && forall item :: item in init ==> item.id != k)
  {
    var items := init + [last];
    forall p: nat | p < |init| ensures IsFirstItem(items, p, Item(k, v)) <==> IsFirstItem(init, p, Item(k, v)) {
      assert forall q :: 0 <= q <= p ==> items[q] == init[q];
    }
    if last == Item(k, v) && forall item :: item in init ==> item.id != k {
      assert IsFirstItem(items, |init|, Item(k, v));
    }
    if p: nat :| IsFirstItem(items, p, Item(k, v)) && p == |init| {
      forall item | item in init ensures item.id != k {
        var q :| 0 <= q < |init| && init[q] == item;
        assert items[q] == item;
      }
    }
  }

  lemma ReadsOp(acc: seq<Access>, op: Op, at: nat, k: Key, v: Value)
    ensures ReadExternally(acc + AccessesOf(op, at), k, v) <==> ReadExternally(acc, k, v) || (!Used(acc, k) && ShowsFirst(op, k, v))
    ensures Used(acc + AccessesOf(op, at), k) <==> Used(acc, k) || Uses(op, k)
  {
    match op {
      case Read(l, val) =>
        ReadsMore(acc, Get(l, val, at));
        assert Shows(op, l, val);
      case Write(l, val, succ) =>
        ReadsMore(acc, Put(l, val, at));
        assert acc + [] == acc;
        assert succ ==> Leaves(op, l, val);
      case Range(_, _, found, dead) =>
        ReadsItems(acc, found + dead, at, k, v);
        assert forall item :: item in found + dead <==> Shows(op, item.id, item.val);
      case Delete(l, val, seen) =>
        ReadsThenWrites(acc, l, val, seen, at);
        assert Shows(op, l, seen);
      case Insert(l, val, seen) =>
        ReadsThenWrites(acc, l, val, seen, at);
        assert Shows(op, l, seen);
      case Append(l, val) =>
        ReadsMore(acc, Put(l, val, at));
        assert Leaves(op, l, val);
    }
  }

  lemma ReadsThenWrites(acc: seq<Access>, k: Key, val: Value, seen: Value, at: nat)
    ensures var now := acc + [Get(k, seen, at), Put(k, val, at)];
      && Overlay(now) == Overlay(acc)[k := val]
      && ExternalReads(now) == if Used(acc, k) then ExternalReads(acc) else ExternalReads(acc)[k := seen]
  {
    ReadsMore(acc, Get(k, seen, at));
    ReadsMore(acc + [Get(k, seen, at)], Put(k, val, at));
    assert acc + [Get(k, seen, at)] + [Put(k, val, at)] == acc + [Get(k, seen, at), Put(k, val, at)];
  }

  /** A key is externally read as v exactly when the first operation that uses it reads v. */
  lemma {:induction false} ExternalReadsMean(ops: seq<Op>, k: Key, v: Value)
    ensures ReadExternally(Accesses(ops), k, v) <==> IsExternalRead(ops, k, v)
    ensures Used(Accesses(ops), k) <==> UsedIn(ops, k)
  {
    if ops == [] {
      assert !IsExternalRead(ops, k, v) && !UsedIn(ops, k);
    } else {
      var n := |ops| - 1;
      ExternalReadsMean(ops[..n], k, v);
      assert Accesses(ops) == Accesses(ops[..n]) + AccessesOf(ops[n], n);
      ExternalReadsStep(ops[..n], ops[n], k, v, Accesses(ops));
      assert ops == ops[..n] + [ops[n]];
    }
  }

  lemma ExternalReadsStep(init: seq<Op>, last: Op, k: Key, v: Value, now: seq<Access>)
    requires ReadExternally(Accesses(init), k, v) <==> IsExternalRead(init, k, v)
    requires Used(Accesses(init), k) <==> UsedIn(init, k)
    requires now == Accesses(init) + AccessesOf(last, |init|)
    ensures ReadExternally(now, k, v) <==> IsExternalRead(init + [last], k, v)
    ensures Used(now, k) <==> UsedIn(init + [last], k)
  {
    ReadsOp(Accesses(init), last, |init|, k, v);
    FirstReadsStep(init, last, k, v);
  }

  lemma FirstReadsStep(init: seq<Op>, last: Op, k: Key, v: Value)
    ensures IsExternalRead(init + [last], k, v) <==>
              IsExternalRead(init, k, v) || (ShowsFirst(last, k, v) && !UsedIn(init, k))
    ensures UsedIn(init + [last], k) <==> UsedIn(init, k) || Uses(last, k)
  {
    var ops := init + [last];
    assert ops[|init|] == last;
    assert forall i :: 0 <= i < |init| ==> ops[i] == init[i];
    forall i: nat | i < |init| ensures FirstReads(ops, i, k, v) <==> FirstReads(init, i, k, v) {
    }
    assert FirstReads(ops, |init|, k, v) <==> ShowsFirst(last, k, v) && !UsedIn(init, k);
  }

  /** What the transaction read from outside: for each key what the first operation that used it returned, if that read it. */
  method ExtReads(ops: seq<Op>) returns (r: map<Key, Value>)
    requires ProperOps(ops)
    ensures forall k, v :: k in r && r[k] == v <==> IsExternalRead(ops, k, v)
    ensures r == ExternalReads(Accesses(ops))
  {
    forall k, v ensures ReadExternally(Accesses(ops), k, v) <==> IsExternalRead(ops, k, v) {
      ExternalReadsMean(ops, k, v);
    }
    var ignore: set<Key> := {};
    r := map[];
    for i := 0 to |ops|
      invariant ReadSoFar(Accesses(ops[..i]), r, ignore)
    {
      AccessesGrow(ops, i);
      r, ignore := ReadOp(ops[i], r, ignore, Accesses(ops[..i]), i);
    }
    assert ops[..|ops|] == ops;
  }

  /** An internally consistent transaction never writes a value it read from outside: the
      write would come after the read. */
  lemma NoSelfRead(ops: seq<Op>, k: Key)
    requires NoFutureRead(ops) && PlainOps(ops)
    requires k in ExternalReads(Accesses(ops)) && k in Overlay(Accesses(ops))
    ensures ExternalReads(Accesses(ops))[k] != Overlay(Accesses(ops))[k]
  {
    NothingAheadMeans(ops);
    var acc := Accesses(ops);
    ExternalReadIsFirstAccess(acc, k);
    var i: nat :| IsFirstAccess(acc, k, i) && acc[i].Get?;
    var p := LastPut(acc, k);
    PositionsGrow(ops);
    PutIsListed(ops, p);
    assert !ReadsAhead(ops, acc[i]);
    assert i < p;
  }

  lemma {:induction false} LastPut(acc: seq<Access>, k: Key) returns (p: nat)
    requires k in Overlay(acc)
    ensures p < |acc| && IsPutOf(acc[p], k) && Overlay(acc)[k] == acc[p].val
  {
    if IsPutOf(acc[|acc| - 1], k) {
      p := |acc| - 1;
    } else {
      p := LastPut(acc[..|acc| - 1], k);
    }
  }

  /** Reads, writes and range reads only: the operations that either read or write. */
  ghost predicate PlainOps(ops: seq<Op>) {
    forall op :: op in ops ==> op.Read? || op.Write? || op.Range?
  }

  /** Accesses carry the position of their operation, which never decreases. */
  lemma {:induction false} PositionsGrow(ops: seq<Op>)
    requires PlainOps(ops)
    ensures forall i :: 0 <= i < |Accesses(ops)| ==> Accesses(ops)[i].at < |ops|
    ensures forall i, j :: 0 <= i < j < |Accesses(ops)| ==> Accesses(ops)[i].at <= Accesses(ops)[j].at
    ensures forall i, j :: 0 <= i < j < |Accesses(ops)| && Accesses(ops)[i].Get? && Accesses(ops)[j].Put? ==>
              Accesses(ops)[i].at < Accesses(ops)[j].at
  {
    if ops != [] {
      PositionsGrow(ops[..|ops| - 1]);
    }
  }

  /** A successful write is among the last writes, at its own position or a later one. */
  lemma {:induction false} PutIsListed(ops: seq<Op>, p: nat)
    requires PlainOps(ops) && p < |Accesses(ops)| && Accesses(ops)[p].Put?
    ensures var a := Accesses(ops)[p]; (a.key, a.val) in LastWrites(ops) && LastWrites(ops)[(a.key, a.val)] >= a.at
  {
    var init := ops[..|ops| - 1];
    PositionsGrow(init);
    if p < |Accesses(init)| {
      PutIsListed(init, p);
    }
  }
}
