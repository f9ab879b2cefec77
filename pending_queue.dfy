/**
 * The deferred-indexing queue: entries whose metric name may not yet be
 * retrievable, the resolver that turns an entry into index keys, and the
 * specification of one drain (addPendingEntriesLocked) as a function over
 * the table and the queue.
 */
module PendingQueue {
  import opened Wrappers
  import opened Encoding
  import opened PostingTable

  datatype PendingEntry = PendingEntry(accountID: u32, projectID: u32, metricID: u64)

  datatype Tag = Tag(key: seq<byte>, value: seq<byte>)
  datatype MetricName = MetricName(metricGroup: seq<byte>, tags: seq<Tag>)

  /** The answer of indexDB.searchMetricName: the stored name, io.EOF ("not yet"), or another error. */
  datatype SearchResult = NameFound(raw: seq<byte>) | EOF | SearchFailed(reason: string)

  /** The durable index, seen only through its metric-name lookup. */
  datatype IndexDB = IndexDB(searchMetricName: (u64, u32, u32) -> SearchResult)

  /**
   * The metric-name encoding rules the index relies on: MetricName.Unmarshal,
   * marshalTagValue and Tag.Marshal.
   */
  datatype NameCodec = NameCodec(
    unmarshalMetricName: seq<byte> -> Option<MetricName>,
    marshalTagValue: seq<byte> -> seq<byte>,
    marshalTag: Tag -> seq<byte>)

  datatype DrainError =
    | CannotFindMetricName(metricID: u64, reason: string)
    | CannotUnmarshalMetricName(raw: seq<byte>)

  datatype Resolution = Resolved(name: MetricName) | NotYet | Unresolvable(error: DrainError)

  /** What the drain learns about one entry. */
  function Resolve(db: IndexDB, codec: NameCodec, e: PendingEntry): (r: Resolution)
    ensures r.NotYet? <==> db.searchMetricName(e.metricID, e.accountID, e.projectID).EOF?
    ensures r.Resolved? <==>
              var s := db.searchMetricName(e.metricID, e.accountID, e.projectID);
              s.NameFound? && codec.unmarshalMetricName(s.raw).Some?
    ensures r.Resolved? ==>
              codec.unmarshalMetricName(db.searchMetricName(e.metricID, e.accountID, e.projectID).raw) == Some(r.name)
  {
    match db.searchMetricName(e.metricID, e.accountID, e.projectID)
    case EOF => NotYet
    case SearchFailed(reason) => Unresolvable(CannotFindMetricName(e.metricID, reason))
    case NameFound(raw) =>
      match codec.unmarshalMetricName(raw)
      case None => Unresolvable(CannotUnmarshalMetricName(raw))
      case Some(mn) => Resolved(mn)
  }

  /** The key of the metric-group pseudo-tag: an empty tag name, then the group. */
  function GroupKey(codec: NameCodec, metricGroup: seq<byte>): (r: Key)
    ensures |r| == |codec.marshalTagValue([])| + |codec.marshalTagValue(metricGroup)|
    ensures r[..|codec.marshalTagValue([])|] == codec.marshalTagValue([])
    ensures r[|codec.marshalTagValue([])|..] == codec.marshalTagValue(metricGroup)
  {
    codec.marshalTagValue([]) + codec.marshalTagValue(metricGroup)
  }

  function TagKeys(codec: NameCodec, tags: seq<Tag>): (r: seq<Key>)
    ensures |r| == |tags|
    ensures forall i :: 0 <= i < |tags| ==> r[i] == codec.marshalTag(tags[i])
  {
    if tags == [] then [] else [codec.marshalTag(tags[0])] + TagKeys(codec, tags[1..])
  }

  /** The keys a resolved metric is indexed under, in the order they are added. */
  function IndexKeys(codec: NameCodec, mn: MetricName): (r: seq<Key>)
    ensures |r| == |mn.tags| + 1
    ensures r[0] == GroupKey(codec, mn.metricGroup)
    ensures forall i :: 0 <= i < |mn.tags| ==> r[i + 1] == codec.marshalTag(mn.tags[i])
  {
    [GroupKey(codec, mn.metricGroup)] + TagKeys(codec, mn.tags)
  }

  datatype DrainOutcome = DrainOutcome(table: Table, pending: seq<PendingEntry>, err: Option<DrainError>)

  /**
   * Resolving `entries` in order against table t, with `requeued` already
   * back in the queue: "not yet" entries go back to the queue, resolved ones
   * are added under their keys, and the first unresolvable one stops the drain.
   */
  function Drain(db: IndexDB, codec: NameCodec, t: Table, requeued: seq<PendingEntry>,
                 entries: seq<PendingEntry>): (r: DrainOutcome)
    ensures |requeued| <= |r.pending| <= |requeued| + |entries|
    ensures r.pending[..|requeued|] == requeued
    ensures forall e :: e in r.pending ==> e in requeued || e in entries
    decreases |entries|
  {
    if entries == [] then DrainOutcome(t, requeued, None)
    else
      var e := entries[0];
      match Resolve(db, codec, e)
      case NotYet => Drain(db, codec, t, requeued + [e], entries[1..])
      case Unresolvable(err) => DrainOutcome(t, requeued, Some(err))
      case Resolved(mn) => Drain(db, codec, InsertAll(t, IndexKeys(codec, mn), e.metricID), requeued, entries[1..])
  }

  /** The entries the resolver answers "not yet" for, in their original order. */
  function NotYetEntries(db: IndexDB, codec: NameCodec, entries: seq<PendingEntry>): seq<PendingEntry>
  {
    if entries == [] then []
    else (if Resolve(db, codec, entries[0]).NotYet? then [entries[0]] else [])
         + NotYetEntries(db, codec, entries[1..])
  }

  /** An entry resolves to a name that is indexed under key k. */
  ghost predicate IndexedUnder(db: IndexDB, codec: NameCodec, e: PendingEntry, k: Key)
  {
    Resolve(db, codec, e).Resolved? && k in IndexKeys(codec, Resolve(db, codec, e).name)
  }

  /** The IDs that resolving `entries` puts under key k. */
  ghost function AddedIds(db: IndexDB, codec: NameCodec, entries: seq<PendingEntry>, k: Key): set<u64>
  {
    set e | e in entries && IndexedUnder(db, codec, e, k) :: e.metricID
  }

  ghost predicate HasUnresolvable(db: IndexDB, codec: NameCodec, entries: seq<PendingEntry>)
  {
    exists j :: 0 <= j < |entries| && Resolve(db, codec, entries[j]).Unresolvable?
  }

  /** A drain fails exactly when some entry cannot be resolved. */
  lemma {:induction false} DrainFailsIff(db: IndexDB, codec: NameCodec, t: Table,
                                        requeued: seq<PendingEntry>, entries: seq<PendingEntry>)
    ensures Drain(db, codec, t, requeued, entries).err.Some? <==> HasUnresolvable(db, codec, entries)
    decreases |entries|
  {
    if entries != [] {
      var e := entries[0];
      var tail := entries[1..];
      assert forall j :: 1 <= j < |entries| ==> entries[j] == tail[j - 1];
      assert forall j :: 0 <= j < |tail| ==> tail[j] == entries[j + 1];
      match Resolve(db, codec, e)
      case NotYet =>
        DrainFailsIff(db, codec, t, requeued + [e], tail);
      case Unresolvable(_) =>
      case Resolved(mn) =>
        DrainFailsIff(db, codec, InsertAll(t, IndexKeys(codec, mn), e.metricID), requeued, tail);
    }
  }

  /** After a successful drain the queue holds the old requeued entries, then every "not yet" entry, in order. */
  lemma {:induction false} DrainRequeuesNotYet(db: IndexDB, codec: NameCodec, t: Table,
                                              requeued: seq<PendingEntry>, entries: seq<PendingEntry>)
    requires Drain(db, codec, t, requeued, entries).err.None?
    ensures Drain(db, codec, t, requeued, entries).pending == requeued + NotYetEntries(db, codec, entries)
    decreases |entries|
  {
    if entries != [] {
      var e := entries[0];
      match Resolve(db, codec, e)
      case NotYet =>
        DrainRequeuesNotYet(db, codec, t, requeued + [e], entries[1..]);
        assert requeued + [e] + NotYetEntries(db, codec, entries[1..])
            == requeued + NotYetEntries(db, codec, entries);
      case Resolved(mn) =>
        DrainRequeuesNotYet(db, codec, InsertAll(t, IndexKeys(codec, mn), e.metricID), requeued, entries[1..]);
    }
  }

  /** The IDs the first entry adds under k, and those the rest add. */
  lemma AddedIdsCons(db: IndexDB, codec: NameCodec, entries: seq<PendingEntry>, k: Key)
    requires entries != []
    ensures AddedIds(db, codec, entries, k)
         == (if IndexedUnder(db, codec, entries[0], k) then {entries[0].metricID} else {})
            + AddedIds(db, codec, entries[1..], k)
  {
    assert forall x :: x in entries <==> x == entries[0] || x in entries[1..];
  }

  /**
   * After a successful drain every key holds its old IDs plus the IDs of the
   * resolved entries indexed under it, and no other key appears.
   */
  lemma {:induction false} DrainIndexesResolved(db: IndexDB, codec: NameCodec, t: Table,
                                               requeued: seq<PendingEntry>, entries: seq<PendingEntry>, k: Key)
    requires Drain(db, codec, t, requeued, entries).err.None?
    ensures Posting(Drain(db, codec, t, requeued, entries).table, k) == Posting(t, k) + AddedIds(db, codec, entries, k)
    ensures k in Drain(db, codec, t, requeued, entries).table <==> k in t || AddedIds(db, codec, entries, k) != {}
    decreases |entries|
  {
    if entries != [] {
      var e := entries[0];
      var tail := entries[1..];
      AddedIdsCons(db, codec, entries, k);
      match Resolve(db, codec, e)
      case NotYet =>
        DrainIndexesResolved(db, codec, t, requeued + [e], tail, k);
      case Resolved(mn) =>
        var t1 := InsertAll(t, IndexKeys(codec, mn), e.metricID);
        InsertAllAt(t, IndexKeys(codec, mn), e.metricID, k);
        DrainIndexesResolved(db, codec, t1, requeued, tail, k);
    }
  }

  /** What one InsertAll does to the posting set of a single key k. */
  lemma InsertAllAt(t: Table, keys: seq<Key>, id: u64, k: Key)
    ensures Posting(InsertAll(t, keys, id), k) == Posting(t, k) + (if k in keys then {id} else {})
    ensures k in InsertAll(t, keys, id) <==> k in t || k in keys
  {
    InsertAllEffect(t, keys, id);
  }

  /** A drain that meets an unresolvable entry stops there: the state is that of draining the entries before it. */
  lemma {:induction false} DrainStopsAtFirstFailure(db: IndexDB, codec: NameCodec, t: Table,
                                                   requeued: seq<PendingEntry>, entries: seq<PendingEntry>, j: nat)
    requires j < |entries| && Resolve(db, codec, entries[j]).Unresolvable?
    requires forall i :: 0 <= i < j ==> !Resolve(db, codec, entries[i]).Unresolvable?
    ensures var before := Drain(db, codec, t, requeued, entries[..j]);
            Drain(db, codec, t, requeued, entries)
            == DrainOutcome(before.table, before.pending, Some(Resolve(db, codec, entries[j]).error))
    decreases j
  {
    var e := entries[0];
    if j > 0 {
      assert entries[..j][0] == e && entries[..j][1..] == entries[1..][..j - 1];
      match Resolve(db, codec, e)
      case NotYet =>
        DrainStopsAtFirstFailure(db, codec, t, requeued + [e], entries[1..], j - 1);
      case Resolved(mn) =>
        DrainStopsAtFirstFailure(db, codec, InsertAll(t, IndexKeys(codec, mn), e.metricID), requeued, entries[1..], j - 1);
    }
  }
}
