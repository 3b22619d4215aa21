/** Inverted indexes of summaries: from a key and a value to the transactions that read or wrote it. */
module Indexes {
  import opened Transactions
  import opened Sets

  type Index<V> = map<Key, map<V, set<nat>>>

  ghost predicate Listed<V>(idx: Index<V>, k: Key, v: V, i: nat) {
    k in idx && v in idx[k] && i in idx[k][v]
  }

  ghost predicate Maps<V>(maps: seq<map<Key, V>>, k: Key, v: V, i: nat) {
    1 <= i < |maps| && k in maps[i] && maps[i][k] == v
  }

  /** The index lists exactly what the summaries say, and nothing under empty entries. T0 is not listed. */
  ghost predicate IsIndex<V(!new)>(idx: Index<V>, maps: seq<map<Key, V>>) {
    && (forall k, v, i: nat :: Listed(idx, k, v, i) <==> Maps(maps, k, v, i))
    && (forall k, v :: k in idx && v in idx[k] ==> idx[k][v] != {})
  }

  function GetIn<V>(idx: Index<V>, k: Key, v: V): set<nat> {
    if k in idx && v in idx[k] then idx[k][v] else {}
  }

  method AddEntry<V(==,!new)>(idx: Index<V>, k: Key, v: V, id: nat) returns (r: Index<V>)
    requires forall q, u :: q in idx && u in idx[q] ==> idx[q][u] != {}
    ensures forall q, u, i: nat :: Listed(r, q, u, i) <==> Listed(idx, q, u, i) || (q == k && u == v && i == id)
    ensures forall q, u :: q in r && u in r[q] ==> r[q][u] != {}
  {
    if k !in idx {
      r := idx[k := map[v := {id}]];
    } else if v !in idx[k] {
      r := idx[k := idx[k][v := {id}]];
    } else {
      r := idx[k := idx[k][v := idx[k][v] + {id}]];
    }
  }

  method ExtIndex<V(==,!new)>(maps: seq<map<Key, V>>) returns (idx: Index<V>)
    requires |maps| >= 1
    ensures IsIndex(idx, maps)
  {
    idx := map[];
    for id := 1 to |maps|
      invariant forall k, v, i: nat :: Listed(idx, k, v, i) <==> Maps(maps[..id], k, v, i)
      invariant forall k, v :: k in idx && v in idx[k] ==> idx[k][v] != {}
    {
      var extMap := maps[id];
      var todo := extMap.Keys;
      while todo != {}
        invariant todo <= extMap.Keys
        invariant forall k, v, i: nat :: Listed(idx, k, v, i) <==> Maps(maps[..id], k, v, i) || (i == id && k in extMap && k !in todo && extMap[k] == v)
        invariant forall k, v :: k in idx && v in idx[k] ==> idx[k][v] != {}
      {
        var k := Pick(todo);
        todo := todo - {k};
        idx := AddEntry(idx, k, extMap[k], id);
      }
    }
    assert maps[..|maps|] == maps;
  }

  /** All transactions listed under a key, whatever the value. */
  method KWrites<V(==,!new)>(idx: Index<V>, k: Key) returns (ws: set<nat>)
    ensures forall i: nat :: i in ws <==> exists v :: Listed(idx, k, v, i)
  {
    ws := {};
    if k !in idx {
      return;
    }
    var todo := idx[k].Keys;
    while todo != {}
      invariant todo <= idx[k].Keys
      invariant forall i: nat :: i in ws <==> exists v :: v !in todo && Listed(idx, k, v, i)
    {
      var v :| v in todo;
      ws := ws + idx[k][v];
      todo := todo - {v};
    }
  }
}
