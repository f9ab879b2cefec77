/**
 * The in-memory inverted index of the storage package: a posting table and a
 * queue of entries awaiting their metric name, updated in place. Locking is
 * not modelled: each method is one atomic step.
 */
module Storage {
  import opened Wrappers
  import opened Encoding
  import opened PostingTable
  import opened PendingQueue
  import opened TagFilterEval
  import opened Snapshot

  /** A tenant: the (accountID, projectID) pair that scopes metric IDs. */
  datatype TenantKey = TenantKey(accountID: u32, projectID: u32)

  predicate NoDuplicates<T(==)>(s: seq<T>)
  {
    forall i, j :: 0 <= i < j < |s| ==> s[i] != s[j]
  }

  /** uint64set.Set.AppendTo: every ID of the set, once each. */
  method AppendTo(s: set<u64>) returns (ids: seq<u64>)
    ensures Elements(ids) == s && NoDuplicates(ids) && |ids| == |s|
  {
    ids := [];
    var rest := s;
    while rest != {}
      invariant Elements(ids) + rest == s && Elements(ids) !! rest
      invariant NoDuplicates(ids) && |ids| + |rest| == |s|
      decreases rest
    {
      var x :| x in rest;
      ids := ids + [x];
      rest := rest - {x};
    }
  }

  class InmemoryInvertedIndex {
    /** Marshaled tag key/value pair to the IDs of the metrics carrying it. */
    var m: Table
    /** Entries whose metric name could not be found yet. */
    var pendingEntries: seq<PendingEntry>

    /** Every count the snapshot writes fits its 64-bit field. */
    ghost predicate Fits()
      reads this
    {
      |m| < TWO_64 && TableFits(m) && |pendingEntries| < TWO_64
    }

    /** newInmemoryInvertedIndex */
    constructor ()
      ensures m == map[] && pendingEntries == []
    {
      m := map[];
      pendingEntries := [];
    }

    /**
     * Appends the snapshot of the index to dst. The table is written in map
     * iteration order, which `listing` records: each key once, with the IDs
     * of its posting set each once.
     */
    method Marshal(dst: seq<byte>) returns (r: seq<byte>, ghost listing: seq<TableEntry>)
      ensures r == dst + SnapshotBytes(listing, pendingEntries)
      ensures Lists(listing, m, m.Keys)
      ensures Rebuild(map[], listing) == m && |listing| == |m|
      ensures Fits() ==> Restore(map[], [], r[|dst|..]) == Restored(m, pendingEntries, [], None)
    {
      r, listing := MarshalTable(dst);
      r := MarshalPendingEntries(r);
      AppendAssoc(dst, TableBytes(listing), PendingBytes(pendingEntries));
      if Fits() {
        ghost var snapshot := SnapshotBytes(listing, pendingEntries);
        ListsFit(listing, m);
        SnapshotRoundTrip(map[], [], listing, pendingEntries, []);
        assert r[|dst|..] == snapshot + [];
        assert [] + pendingEntries == pendingEntries;
      }
    }

    /** The table section of Marshal. */
    method MarshalTable(dst: seq<byte>) returns (r: seq<byte>, ghost listing: seq<TableEntry>)
      ensures r == dst + TableBytes(listing)
      ensures Lists(listing, m, m.Keys)
      ensures Rebuild(map[], listing) == m && |listing| == |m|
    {
      ghost var header := MarshalUint64(Uint64Of(|m|));
      r := dst + MarshalUint64(Uint64Of(|m|));
      listing := [];
      var remaining := m.Keys;
      ghost var done: set<Key> := {};
      while remaining != {}
        invariant done !! remaining && done + remaining == m.Keys
        invariant Lists(listing, m, done)
        invariant r == dst + header + EntriesBytes(listing)
        decreases remaining
      {
        var k :| k in remaining;
        ghost var e;
        r, e := MarshalEntry(r, k);
        EntriesBytesSnoc(listing, e);
        AppendAssoc(dst + header, EntriesBytes(listing), EntryBytes(e));
        ListsStep(listing, m, done, e);
        listing := listing + [e];
        remaining := remaining - {k};
        done := done + {k};
      }
      ListsAll(listing, m);
      assert TableBytes(listing) == header + EntriesBytes(listing);
      AppendAssoc(dst, header, EntriesBytes(listing));
    }

    /** One table entry of Marshal: the key, then the IDs of its posting set. */
    method MarshalEntry(dst: seq<byte>, k: Key) returns (r: seq<byte>, ghost e: TableEntry)
      requires k in m
      ensures r == dst + EntryBytes(e)
      ensures e.key == k && Elements(e.ids) == m[k] && |e.ids| == |m[k]|
    {
      r := dst + MarshalBytes(k);
      var metricIDs := AppendTo(m[k]);
      r := MarshalMetricIDs(r, metricIDs);
      e := TableEntry(k, metricIDs);
      AppendAssoc(dst, MarshalBytes(k), MetricIDsBytes(metricIDs));
    }

    /** The pending section of Marshal. */
    method MarshalPendingEntries(dst: seq<byte>) returns (r: seq<byte>)
      ensures r == dst + PendingBytes(pendingEntries)
    {
      r := dst + MarshalUint64(Uint64Of(|pendingEntries|));
      var i := 0;
      while i < |pendingEntries|
        invariant 0 <= i <= |pendingEntries|
        invariant r == dst + MarshalUint64(Uint64Of(|pendingEntries|)) + PendingEntriesBytes(pendingEntries[..i])
      {
        var e := pendingEntries[i];
        PendingEntriesBytesSnoc(pendingEntries[..i], e);
        assert pendingEntries[..i + 1] == pendingEntries[..i] + [e];
        r := r + MarshalUint32(e.accountID);
        r := r + MarshalUint32(e.projectID);
        r := r + MarshalUint64(e.metricID);
        i := i + 1;
      }
      assert pendingEntries[..i] == pendingEntries;
    }

    /**
     * Restores the index from a snapshot at the front of src and returns the
     * bytes after it. The table is replaced once its whole section has been
     * read; decoded pending entries are appended to the queue.
     */
    method Unmarshal(src: seq<byte>) returns (tail: seq<byte>, err: Option<SnapshotError>)
      modifies this
      ensures Restore(old(m), old(pendingEntries), src) == Restored(m, pendingEntries, tail, err)
    {
      var t, rest, tableErr := UnmarshalTable(src);
      if tableErr.Some? {
        return rest, tableErr;
      }
      m := t;
      tail, err := UnmarshalPendingEntries(rest);
    }

    /** The table section of Unmarshal, read into a new table. */
    static method UnmarshalTable(src: seq<byte>) returns (t: Table, tail: seq<byte>, err: Option<SnapshotError>)
      ensures match ParseTable(src)
              case Parsed(t1, rest) => t == t1 && tail == rest && err == None
              case Failed(e, rest) => tail == rest && err == Some(e)
    {
      if |src| < 8 {
        return map[], src, Some(TableLenTooShort(|src|));
      }
      var mLen: nat := UnmarshalUint64(src);
      tail := src[8..];
      t := map[];
      var i := 0;
      while i < mLen
        invariant i <= mLen
        invariant ParseEntries(tail, i, mLen, t) == ParseTable(src)
      {
        ghost var tail0 := tail;
        var k := UnmarshalBytes(tail);
        if k.Failed? {
          return t, k.tail, Some(BadKey(i, k.error));
        }
        tail := k.tail;
        var idsTail, metricIDs, idsErr := UnmarshalMetricIDs([], tail);
        if idsErr.Some? {
          return t, idsTail, Some(BadValue(i, idsErr.value));
        }
        tail := idsTail;
        assert [] + ParseMetricIDs(k.tail).value == ParseMetricIDs(k.tail).value;
        ParseEntriesStep(tail0, i, mLen, t, k.value, k.tail, metricIDs, idsTail);
        var v := SetOf(metricIDs);
        t := t[k.value := v];
        i := i + 1;
      }
      err := None;
    }

    /** The set holding the IDs of a decoded list, added one by one. */
    static method SetOf(ids: seq<u64>) returns (v: set<u64>)
      ensures v == Elements(ids)
    {
      v := {};
      for j := 0 to |ids|
        invariant v == Elements(ids[..j])
      {
        assert ids[..j + 1] == ids[..j] + [ids[j]];
        v := v + {ids[j]};
      }
      assert ids[..|ids|] == ids;
    }

    /** The pending section of Unmarshal: decoded entries are appended to the queue. */
    method UnmarshalPendingEntries(src: seq<byte>) returns (tail: seq<byte>, err: Option<SnapshotError>)
      modifies this`pendingEntries
      ensures match ParsePending(src)
              case Parsed(ps, rest) => pendingEntries == old(pendingEntries) + ps && tail == rest && err == None
              case Failed(e, rest) => pendingEntries == old(pendingEntries) && tail == rest && err == Some(e)
    {
      if |src| < 8 {
        return src, Some(PendingLenTooShort(|src|));
      }
      var n: nat := UnmarshalUint64(src);
      tail := src[8..];
      if |tail| < 16 * n {
        return tail, Some(PendingTooShort(n, |tail|));
      }
      ghost var payload := tail;
      var i := 0;
      while i < n
        invariant 0 <= i <= n
        invariant |tail| >= 16 * (n - i)
        invariant pendingEntries + PendingEntriesOf(tail, n - i)
               == old(pendingEntries) + PendingEntriesOf(payload, n)
        invariant tail[16 * (n - i)..] == payload[16 * n..]
      {
        AppendAssoc(pendingEntries, [PendingEntryAt(tail)], PendingEntriesOf(tail[16..], n - i - 1));
        assert tail[16..][16 * (n - i - 1)..] == tail[16 * (n - i)..];
        assert tail[4..][4..][8..] == tail[16..];
        var e: PendingEntry := PendingEntry(0, 0, 0);
        e := e.(accountID := UnmarshalUint32(tail));
        tail := tail[4..];
        e := e.(projectID := UnmarshalUint32(tail));
        tail := tail[4..];
        e := e.(metricID := UnmarshalUint64(tail));
        tail := tail[8..];
        pendingEntries := pendingEntries + [e];
        i := i + 1;
      }
      err := None;
    }

    /** addMetricIDLocked: adds metricID to the posting set of key, creating the set for a new key. */
    method AddMetricIDLocked(key: Key, metricID: u64)
      modifies this`m
      ensures m == Insert(old(m), key, metricID)
    {
      if key !in m {
        m := m[key := {}];
      }
      m := m[key := m[key] + {metricID}];
    }

    /**
     * addPendingEntriesLocked: takes the queue and resolves its entries in
     * order, requeueing those whose name is not found yet (io.EOF), indexing
     * the resolved ones and stopping at the first other failure.
     */
    method AddPendingEntriesLocked(db: IndexDB, codec: NameCodec) returns (err: Option<DrainError>)
      modifies this
      ensures Drain(db, codec, old(m), [], old(pendingEntries)) == DrainOutcome(m, pendingEntries, err)
    {
      var entries := pendingEntries;
      pendingEntries := [];
      var i := 0;
      while i < |entries|
        invariant 0 <= i <= |entries|
        invariant Drain(db, codec, m, pendingEntries, entries[i..]) == Drain(db, codec, old(m), [], old(pendingEntries))
      {
        var e := entries[i];
        assert entries[i..][0] == e && entries[i..][1..] == entries[i + 1..];
        var metricID := e.metricID;
        var found := db.searchMetricName(metricID, e.accountID, e.projectID);
        if found.EOF? {
          pendingEntries := pendingEntries + [e];
          i := i + 1;
          continue;
        }
        if found.SearchFailed? {
          return Some(CannotFindMetricName(metricID, found.reason));
        }
        var mn := codec.unmarshalMetricName(found.raw);
        if mn.None? {
          return Some(CannotUnmarshalMetricName(found.raw));
        }
        IndexMetricName(codec, mn.value, metricID);
        i := i + 1;
      }
      assert entries[i..] == [];
      return None;
    }

    /** Adds metricID under the metric-group key of name and then under the key of each of its tags. */
    method IndexMetricName(codec: NameCodec, name: MetricName, metricID: u64)
      modifies this`m
      ensures m == InsertAll(old(m), IndexKeys(codec, name), metricID)
    {
      ghost var keys := IndexKeys(codec, name);
      var key := codec.marshalTagValue([]);
      key := key + codec.marshalTagValue(name.metricGroup);
      AddMetricIDLocked(key, metricID);
      for j := 0 to |name.tags|
        invariant InsertAll(m, keys[1 + j..], metricID) == InsertAll(old(m), keys, metricID)
      {
        assert keys[1 + j..][0] == codec.marshalTag(name.tags[j]) && keys[1 + j..][1..] == keys[2 + j..];
        AddMetricIDLocked(codec.marshalTag(name.tags[j]), metricID);
      }
      assert keys[1 + |name.tags|..] == [];
    }

    /** AddMetricID: queues one entry and drains the queue. */
    method AddMetricID(db: IndexDB, codec: NameCodec, e: PendingEntry) returns (err: Option<DrainError>)
      modifies this
      ensures Drain(db, codec, old(m), [], old(pendingEntries) + [e]) == DrainOutcome(m, pendingEntries, err)
    {
      pendingEntries := pendingEntries + [e];
      err := AddPendingEntriesLocked(db, codec);
    }

    /**
     * MustUpdate: queues one entry per (tenant, ID) pair of byTenant, in map
     * iteration order (recorded in `batch`), and drains the queue.
     */
    method MustUpdate(db: IndexDB, codec: NameCodec, byTenant: map<TenantKey, set<u64>>)
      returns (err: Option<DrainError>, ghost batch: seq<PendingEntry>)
      modifies this
      ensures forall e :: e in batch <==> Enqueued(byTenant, byTenant.Keys, e)
      ensures NoDuplicates(batch)
      ensures Drain(db, codec, old(m), [], old(pendingEntries) + batch) == DrainOutcome(m, pendingEntries, err)
    {
      var entries: seq<PendingEntry> := [];
      var remaining := byTenant.Keys;
      while remaining != {}
        invariant remaining <= byTenant.Keys
        invariant forall e :: e in entries <==> Enqueued(byTenant, byTenant.Keys - remaining, e)
        invariant NoDuplicates(entries)
        invariant m == old(m) && pendingEntries == old(pendingEntries)
        decreases remaining
      {
        var k :| k in remaining;
        ghost var done := byTenant.Keys - remaining;
        var metricIDs := AppendTo(byTenant[k]);
        ghost var before := entries;
        for j := 0 to |metricIDs|
          invariant forall e :: e in entries <==>
                      Enqueued(byTenant, done, e) || (TenantOf(e) == k && e.metricID in metricIDs[..j])
          invariant NoDuplicates(entries)
        {
          var e := PendingEntry(k.accountID, k.projectID, metricIDs[j]);
          assert metricIDs[..j + 1] == metricIDs[..j] + [metricIDs[j]];
          assert e !in entries;
          entries := entries + [e];
        }
        assert metricIDs[..|metricIDs|] == metricIDs;
        remaining := remaining - {k};
        assert byTenant.Keys - remaining == done + {k};
      }
      batch := entries;
      pendingEntries := pendingEntries + entries;
      err := AddPendingEntriesLocked(db, codec);
    }

    /**
     * getMetricIDsForTagFilterLocked: the union of the posting sets of every
     * key that starts with the filter's prefix (common prefix removed) and
     * whose remainder the filter's matchSuffix accepts.
     */
    method GetMetricIDsForTagFilterLocked(tf: TagFilter, commonPrefix: seq<byte>) returns (r: set<u64>)
      requires HasPrefix(tf.prefix, commonPrefix)
      ensures r == Matches(m, tf, commonPrefix)
    {
      var prefix := tf.prefix[|commonPrefix|..];
      r := {};
      var remaining := m.Keys;
      while remaining != {}
        invariant remaining <= m.Keys
        invariant r == MatchesAmong(m, m.Keys - remaining, tf, commonPrefix)
        decreases remaining
      {
        var k :| k in remaining;
        MatchesAmongAdd(m, m.Keys - remaining, k, tf, commonPrefix);
        assert m.Keys - (remaining - {k}) == (m.Keys - remaining) + {k};
        remaining := remaining - {k};
        if |k| < |prefix| || k[..|prefix|] != prefix {
          continue;
        }
        var ok := tf.matchSuffix(k[|prefix|..]);
        if !ok {
          continue;
        }
        r := r + m[k];
      }
    }
  }

  /** The tenant an entry belongs to. */
  function TenantOf(e: PendingEntry): TenantKey
  {
    TenantKey(e.accountID, e.projectID)
  }

  /** e is one of the (tenant, ID) pairs of byTenant among the given tenants. */
  ghost predicate Enqueued(byTenant: map<TenantKey, set<u64>>, tenants: set<TenantKey>, e: PendingEntry)
  {
    TenantOf(e) in tenants && TenantOf(e) in byTenant && e.metricID in byTenant[TenantOf(e)]
  }

  /** The index of the first filter that is not negative, if any. */
  method FirstPositive(tfs: TagFilters) returns (tfFirst: Option<nat>)
    ensures IsSeed(tfs, tfFirst)
    ensures tfFirst.Some? ==> forall j :: 0 <= j < tfFirst.value ==> tfs.tfs[j].isNegative
  {
    tfFirst := None;
    var i := 0;
    while i < |tfs.tfs|
      invariant i <= |tfs.tfs|
      invariant forall j :: 0 <= j < i ==> tfs.tfs[j].isNegative
    {
      if !tfs.tfs[i].isNegative {
        return Some(i);
      }
      i := i + 1;
    }
  }

  /**
   * UpdateMetricIDsForTagFilters: adds to metricIDs the allowed IDs that pass
   * every filter of tfs. A nil index adds nothing.
   */
  method UpdateMetricIDsForTagFilters(iidx: InmemoryInvertedIndex?, metricIDs: set<u64>,
                                      allMetricIDs: set<u64>, tfs: TagFilters) returns (r: set<u64>)
    requires iidx != null ==> WellFormed(tfs)
    ensures iidx == null ==> r == metricIDs
    ensures iidx != null ==> r == metricIDs + Selected(iidx.m, allMetricIDs, tfs)
  {
    if iidx == null {
      return metricIDs;
    }
    var tfFirst := FirstPositive(tfs);
    ghost var t := iidx.m;

    var result: set<u64>;
    SurvivorsStart(t, allMetricIDs, tfs, tfFirst);
    if tfFirst == None {
      result := allMetricIDs;
    } else {
      result := iidx.GetMetricIDsForTagFilterLocked(tfs.tfs[tfFirst.value], tfs.commonPrefix);
      result := result * allMetricIDs;
    }
    for i := 0 to |tfs.tfs|
      invariant result == Survivors(t, allMetricIDs, tfs, tfFirst, i)
    {
      var tf := tfs.tfs[i];
      if Some(i) == tfFirst {
        SurvivorsStep(t, allMetricIDs, tfs, tfFirst, i);
        continue;
      }
      result := ApplyFilter(iidx, allMetricIDs, result, tfs, tfFirst, i);
      if |result| == 0 {
        SelectedSurvives(t, allMetricIDs, tfs, tfFirst, i + 1);
        return metricIDs;
      }
    }
    SurvivorsComplete(t, allMetricIDs, tfs, tfFirst);
    r := metricIDs + result;
  }

  /** One step of UpdateMetricIDsForTagFilters: filter i, other than the seed, narrows the running result. */
  method ApplyFilter(iidx: InmemoryInvertedIndex, ghost allowed: set<u64>, result: set<u64>,
                     tfs: TagFilters, tfFirst: Option<nat>, i: nat) returns (next: set<u64>)
    requires WellFormed(tfs) && IsSeed(tfs, tfFirst) && i < |tfs.tfs| && Some(i) != tfFirst
    requires result == Survivors(iidx.m, allowed, tfs, tfFirst, i)
    ensures next == Survivors(iidx.m, allowed, tfs, tfFirst, i + 1)
  {
    var tf := tfs.tfs[i];
    var matched := iidx.GetMetricIDsForTagFilterLocked(tf, tfs.commonPrefix);
    SurvivorsStep(iidx.m, allowed, tfs, tfFirst, i);
    if tf.isNegative {
      next := result - matched;
    } else {
      next := result * matched;
    }
  }

  /** GetUniqueTagPairsLen: the number of distinct keys; 0 for a nil index. */
  function GetUniqueTagPairsLen(iidx: InmemoryInvertedIndex?): (n: nat)
    reads iidx
    ensures iidx == null ==> n == 0
    ensures iidx != null ==> n == |iidx.m.Keys|
  {
    if iidx == null then 0 else |iidx.m|
  }

  /** GetEntriesCount: the number of (key, ID) pairs stored; 0 for a nil index. */
  method GetEntriesCount(iidx: InmemoryInvertedIndex?) returns (n: nat)
    ensures iidx == null ==> n == 0
    ensures iidx != null ==> n == TotalPostings(iidx.m)
  {
    if iidx == null {
      return 0;
    }
    n := 0;
    var remaining := iidx.m.Keys;
    while remaining != {}
      invariant remaining <= iidx.m.Keys
      invariant n + SumSizes(iidx.m, remaining) == TotalPostings(iidx.m)
      decreases remaining
    {
      var k :| k in remaining;
      SumSizesRemove(iidx.m, remaining, k);
      n := n + |iidx.m[k]|;
      remaining := remaining - {k};
    }
  }

  /** GetPendingMetricIDsLen: the length of the queue; 0 for a nil index. */
  function GetPendingMetricIDsLen(iidx: InmemoryInvertedIndex?): (n: nat)
    reads iidx
    ensures iidx == null ==> n == 0
    ensures iidx != null ==> n == |iidx.pendingEntries|
  {
    if iidx == null then 0 else |iidx.pendingEntries|
  }

  /**
   * A snapshot of one index restores into an index with an empty queue: the
   * table and the queue come back, and exactly the bytes after the snapshot
   * are returned.
   */
  method SnapshotRestores(source: InmemoryInvertedIndex, target: InmemoryInvertedIndex, rest: seq<byte>)
    returns (tail: seq<byte>, err: Option<SnapshotError>)
    requires source.Fits() && target.pendingEntries == []
    modifies target
    ensures target.m == old(source.m) && target.pendingEntries == old(source.pendingEntries)
    ensures tail == rest && err == None
  {
    var snapshot, listing := source.Marshal([]);
    ListsFit(listing, source.m);
    SnapshotRoundTrip(target.m, [], listing, source.pendingEntries, rest);
    assert snapshot == SnapshotBytes(listing, source.pendingEntries);
    tail, err := target.Unmarshal(snapshot + rest);
  }
}
