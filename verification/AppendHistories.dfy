/** The append workload: transactions append unique elements to lists and read whole lists, so every
    observed list tells the order of versions. */
module AppendHistories {
  import opened Events
  import opened Transactions
  import opened Histories
  import opened Indexes
  import opened Wrappers

  type Elem = Value

  /** A read returns nil or a non-empty list. */
  datatype Observed = Missing | Elems(list: seq<Elem>)

  /** What each transaction read from outside, and all it appended, in order; entry 0 is T0. */
  datatype AppendHistory = AppendHistory(
    observed: seq<map<Key, Observed>>,
    appended: seq<seq<(Key, Elem)>>,
    sessions: seq<seq<nat>>,
    strong: bool)

  ghost predicate Appends(h: AppendHistory, i: nat, k: Key, e: Elem) {
    1 <= i < |h.appended| && (k, e) in h.appended[i]
  }

  ghost predicate KnownElem(h: AppendHistory, k: Key, e: Elem) {
    exists i: nat :: Appends(h, i, k, e)
  }

  ghost predicate KnownTail(h: AppendHistory, k: Key, list: seq<Elem>) {
    list != [] && KnownElem(h, k, list[|list| - 1])
  }

  ghost predicate AppendsTo(h: AppendHistory, i: nat, k: Key) {
    exists e :: Appends(h, i, k, e)
  }

  ghost predicate Observes(h: AppendHistory, j: nat, k: Key, list: seq<Elem>) {
    Maps(h.observed, k, Elems(list), j)
  }

  /** What the builder asserts: elements are unique per key, lists are not empty, and every element but the last was appended. */
  ghost predicate ProperAppends(h: AppendHistory) {
    && |h.observed| == |h.appended| >= 1
    && (forall i: nat, j: nat, k, e :: Appends(h, i, k, e) && Appends(h, j, k, e) ==> i == j)
    && (forall j: nat, k, list :: Observes(h, j, k, list) ==> list != [])
    && (forall j: nat, k, list, p: nat :: Observes(h, j, k, list) && 0 <= p < |list| - 1 ==> KnownElem(h, k, list[p]))
  }

  /** An observed list shows b's element right after one of a, another transaction. */
  ghost predicate ShowsNext(h: AppendHistory, k: Key, list: seq<Elem>, p: nat, a: nat, b: nat) {
    p + 1 < |list| && a != b && Appends(h, a, k, list[p]) && Appends(h, b, k, list[p + 1])
  }

  /** b read a list that ends with an element of a, and appended to it. */
  ghost predicate Extends(h: AppendHistory, k: Key, list: seq<Elem>, a: nat, b: nat) {
    list != [] && Observes(h, b, k, list) && Appends(h, a, k, list[|list| - 1]) && AppendsTo(h, b, k)
  }

  ghost predicate ListDemands(h: AppendHistory, k: Key, list: seq<Elem>, a: nat, b: nat) {
    || (exists p: nat :: ShowsNext(h, k, list, p, a, b))
    || Extends(h, k, list, a, b)
  }

  /** The observations demand that b's version of k follows a's. */
  ghost predicate Demands(h: AppendHistory, k: Key, a: nat, b: nat) {
    exists j: nat, list :: Observes(h, j, k, list) && ListDemands(h, k, list, a, b)
  }

  /** An observed list ends with an element nobody appended. */
  ghost predicate HasUnknownTail(h: AppendHistory) {
    exists j: nat, k, list :: Observes(h, j, k, list) && !KnownTail(h, k, list)
  }

  ghost predicate HasConflict(h: AppendHistory) {
    exists k, a: nat, b: nat, c: nat :: Demands(h, k, a, b) && Demands(h, k, a, c) && b != c
  }

  // ----- reads and versions

  /** The list ends with an element of a. */
  ghost predicate EndsWith(h: AppendHistory, k: Key, list: seq<Elem>, a: nat) {
    list != [] && Appends(h, a, k, list[|list| - 1])
  }

  ghost predicate ReadsTailOf(h: AppendHistory, j: nat, a: nat, k: Key) {
    exists list :: Observes(h, j, k, list) && EndsWith(h, k, list, a)
  }

  ghost predicate ReadsMissing(h: AppendHistory, j: nat, k: Key) {
    Maps(h.observed, k, Missing, j)
  }

  /** A transaction read a list that ends with an element of its own, which its external reads never should. */
  ghost predicate ReadsOwnTail(h: AppendHistory) {
    exists j: nat, k :: ReadsTailOf(h, j, j, k)
  }

  ghost function KeysOf(ops: seq<(Key, Elem)>): set<Key> {
    set op | op in ops :: op.0
  }

  ghost function TailWriter(h: AppendHistory, k: Key, list: seq<Elem>): nat {
    if KnownTail(h, k, list) then
      var i: nat :| Appends(h, i, k, list[|list| - 1]);
      i
    else 0
  }

  ghost function VersionRead(h: AppendHistory, k: Key, v: Observed): Value {
    match v
    case Missing => Num(0)
    case Elems(list) => Num(TailWriter(h, k, list))
  }

  /** The history of versions behind the lists: a transaction that appends to a key makes a version of it, named after
      the transaction; a reader reads the version of the writer of the last element, or the initial one. */
  ghost function Versions(h: AppendHistory): History {
    History(
      seq(|h.observed|, j requires 0 <= j < |h.observed| => map k | k in h.observed[j] :: VersionRead(h, k, h.observed[j][k])),
      seq(|h.appended|, i requires 0 <= i < |h.appended| => map k | k in KeysOf(h.appended[i]) :: Num(i)),
      None, h.sessions, h.strong)
  }

  lemma VersionsWrite(h: AppendHistory, i: nat, k: Key)
    ensures Writes(Versions(h), i, k) <==> AppendsTo(h, i, k)
    ensures Writes(Versions(h), i, k) ==> Versions(h).extWrites[i][k] == Num(i)
  {
    if 1 <= i < |h.appended| {
      assert forall e :: Appends(h, i, k, e) ==> (k, e).0 in KeysOf(h.appended[i]);
      if k in KeysOf(h.appended[i]) {
        var op :| op in h.appended[i] && op.0 == k;
        assert Appends(h, i, k, op.1);
      }
    }
  }

  lemma VersionsRead(h: AppendHistory, j: nat, i: nat, k: Key)
    requires ProperAppends(h) && !HasUnknownTail(h)
    ensures ReadsFrom(Versions(h), j, i, k) <==> ReadsTailOf(h, j, i, k)
    ensures ReadsInitial(Versions(h), j, k) <==> ReadsMissing(h, j, k)
  {
    var v := Versions(h);
    VersionsWrite(h, i, k);
    if Reads(v, j, k) {
      match h.observed[j][k]
      case Missing =>
        forall w: nat ensures !WritesValue(v, w, k, Num(0)) {
          VersionsWrite(h, w, k);
        }
      case Elems(list) =>
        assert Observes(h, j, k, list);
        assert KnownTail(h, k, list);
        var a := TailWriter(h, k, list);
        assert Appends(h, a, k, list[|list| - 1]);
        VersionsWrite(h, a, k);
        assert WritesValue(v, a, k, Num(a));
    }
  }

  lemma VersionsAreProper(h: AppendHistory)
    requires ProperAppends(h) && !HasUnknownTail(h) && !ReadsOwnTail(h) && ProperSessions(|h.appended|, h.sessions)
    ensures Proper(Versions(h)) && !HasDirtyRead(Versions(h))
  {
    var v := Versions(h);
    forall i: nat, j: nat, k | Writes(v, i, k) && Writes(v, j, k) && v.extWrites[i][k] == v.extWrites[j][k] ensures i == j {
      VersionsWrite(h, i, k);
      VersionsWrite(h, j, k);
    }
    forall j: nat, k ensures !ReadsFrom(v, j, j, k) {
      VersionsRead(h, j, j, k);
    }
  }

  // ----- lists as committed transactions leave them

  /** What a transaction appends to one key, in order. */
  ghost function AppendedTo(ops: seq<(Key, Elem)>, k: Key): (list: seq<Elem>)
    ensures forall e :: e in list <==> (k, e) in ops
  {
    if ops == [] then [] else (if ops[0].0 == k then [ops[0].1] else []) + AppendedTo(ops[1..], k)
  }

  ghost function Part(h: AppendHistory, w: nat, k: Key): (list: seq<Elem>)
    ensures forall e :: e in list <==> Appends(h, w, k, e)
  {
    if 1 <= w < |h.appended| then AppendedTo(h.appended[w], k) else []
  }

  /** The list that these transactions leave behind, one after the other. */
  ghost function AppendedBy(h: AppendHistory, k: Key, ws: seq<nat>): seq<Elem> {
    if ws == [] then [] else AppendedBy(h, k, ws[..|ws| - 1]) + Part(h, ws[|ws| - 1], k)
  }

  /** The transactions that append to k and commit before j begins, in the order they commit. */
  ghost predicate CommittedInOrder(h: AppendHistory, s: Schedule, j: nat, k: Key, ws: seq<nat>)
    requires WellTimed(|h.appended|, s) && j < |h.appended|
  {
    && (forall w: nat :: w in ws <==> AppendsTo(h, w, k) && CommittedBefore(s, w, j))
    && (forall p, q :: 0 <= p < q < |ws| ==> CommitsEarlier(s, ws[p], ws[q]))
  }

  ghost predicate CommitsEarlier(s: Schedule, a: nat, b: nat) {
    a < |s.commit| && b < |s.commit| && s.commit[a] < s.commit[b]
  }

  /** What j read of k is what the transactions committed before its begin have left there. */
  ghost predicate ShowsCommitted(h: AppendHistory, s: Schedule, j: nat, k: Key, v: Observed)
    requires WellTimed(|h.appended|, s) && j < |h.appended|
  {
    match v
    case Missing => forall w: nat :: AppendsTo(h, w, k) ==> !CommittedBefore(s, w, j)
    case Elems(list) => exists ws :: CommittedInOrder(h, s, j, k, ws) && list == AppendedBy(h, k, ws)
  }

  ghost predicate ListsIsolated(h: AppendHistory, s: Schedule)
    requires ProperAppends(h)
  {
    && WellTimed(|h.appended|, s) && DistinctTimes(|h.appended|, s)
    && OrderlyCommits(Versions(h), s)
    && forall j: nat, k, v :: Maps(h.observed, k, v, j) ==> ShowsCommitted(h, s, j, k, v)
  }

  /** Snapshot isolation by content: every list read is the committed list at its reader's begin. */
  ghost predicate IsListSI(h: AppendHistory)
    requires ProperAppends(h)
  {
    exists s :: ListsIsolated(h, s)
  }
}
