/**
 * The posting table of the inverted index: a map from a marshaled tag
 * key/value pair to the set of metric IDs that carry it, with the single
 * mutation the index performs on it (addMetricIDLocked) and the counts it
 * reports.
 */
module PostingTable {
  import opened Encoding

  type Key = seq<byte>
  type Table = map<Key, set<u64>>

  /** The IDs stored under key; a missing key holds none. */
  function Posting(t: Table, key: Key): set<u64>
  {
    if key in t then t[key] else {}
  }

  /** The table after addMetricIDLocked(key, id). */
  function Insert(t: Table, key: Key, id: u64): (r: Table)
    ensures r.Keys == t.Keys + {key}
    ensures id in r[key] && r[key] - {id} == Posting(t, key) - {id}
    ensures forall k :: k in t && k != key ==> r[k] == t[k]
  {
    t[key := Posting(t, key) + {id}]
  }

  /** Inserting the same ID twice is the same as inserting it once. */
  lemma InsertIdempotent(t: Table, key: Key, id: u64)
    ensures Insert(Insert(t, key, id), key, id) == Insert(t, key, id)
  {
  }

  /** Inserts commute, so the order in which IDs reach the table does not matter. */
  lemma InsertCommutes(t: Table, k1: Key, id1: u64, k2: Key, id2: u64)
    ensures Insert(Insert(t, k1, id1), k2, id2) == Insert(Insert(t, k2, id2), k1, id1)
  {
    var a := Insert(Insert(t, k1, id1), k2, id2);
    var b := Insert(Insert(t, k2, id2), k1, id1);
    assert forall k :: k in a ==> a[k] == b[k];
  }

  /** The table after inserting one ID under each key of a list, in list order. */
  function InsertAll(t: Table, keys: seq<Key>, id: u64): Table
    decreases |keys|
  {
    if keys == [] then t else InsertAll(Insert(t, keys[0], id), keys[1..], id)
  }

  /** InsertAll adds the ID under exactly the listed keys and touches nothing else. */
  lemma {:induction false} InsertAllEffect(t: Table, keys: seq<Key>, id: u64)
    ensures InsertAll(t, keys, id).Keys == t.Keys + set k | k in keys
    ensures forall k :: k in keys ==> InsertAll(t, keys, id)[k] == Posting(t, k) + {id}
    ensures forall k :: k in t && k !in keys ==> InsertAll(t, keys, id)[k] == t[k]
    decreases |keys|
  {
    if keys != [] {
      var t1 := Insert(t, keys[0], id);
      InsertAllEffect(t1, keys[1..], id);
      assert forall k :: k in keys <==> k == keys[0] || k in keys[1..];
    }
  }

  /** The sum of the sizes of the posting sets under the given keys of t. */
  ghost function SumSizes(t: Table, keys: set<Key>): nat
    requires keys <= t.Keys
    decreases keys
  {
    if keys == {} then 0
    else
      var k :| k in keys;
      |t[k]| + SumSizes(t, keys - {k})
  }

  /** The number of (key, ID) pairs stored: what GetEntriesCount reports. */
  ghost function TotalPostings(t: Table): nat
  {
    SumSizes(t, t.Keys)
  }

  /** SumSizes may peel off any key, not only the one it chose. */
  lemma {:induction false} SumSizesRemove(t: Table, keys: set<Key>, k: Key)
    requires keys <= t.Keys && k in keys
    ensures SumSizes(t, keys) == |t[k]| + SumSizes(t, keys - {k})
    decreases keys
  {
    var c :| c in keys && SumSizes(t, keys) == |t[c]| + SumSizes(t, keys - {c});
    if c != k {
      SumSizesRemove(t, keys - {c}, k);
      SumSizesRemove(t, keys - {k}, c);
      assert keys - {c} - {k} == keys - {k} - {c};
    }
  }

  /** SumSizes only looks at the posting sets under the given keys. */
  lemma {:induction false} SumSizesLocal(t: Table, u: Table, keys: set<Key>)
    requires keys <= t.Keys && keys <= u.Keys
    requires forall k :: k in keys ==> t[k] == u[k]
    ensures SumSizes(t, keys) == SumSizes(u, keys)
    decreases keys
  {
    if keys != {} {
      var k :| k in keys && SumSizes(t, keys) == |t[k]| + SumSizes(t, keys - {k});
      SumSizesRemove(u, keys, k);
      SumSizesLocal(t, u, keys - {k});
    }
  }

  /** One insert adds one entry to the count unless the ID was already under the key. */
  lemma TotalPostingsAfterInsert(t: Table, key: Key, id: u64)
    ensures TotalPostings(Insert(t, key, id))
         == TotalPostings(t) + (if id in Posting(t, key) then 0 else 1)
  {
    var r := Insert(t, key, id);
    var rest := t.Keys - {key};
    assert r.Keys - {key} == rest;
    SumSizesRemove(r, r.Keys, key);
    SumSizesLocal(t, r, rest);
    if key in t {
      SumSizesRemove(t, t.Keys, key);
    } else {
      assert t.Keys == rest;
    }
  }

  /** One insert adds a tag pair exactly when the key is new. */
  lemma UniqueTagPairsAfterInsert(t: Table, key: Key, id: u64)
    ensures |Insert(t, key, id)| == |t| + (if key in t then 0 else 1)
  {
  }
}
