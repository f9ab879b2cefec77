# In-memory inverted index of the storage engine

This project models `inmemoryInvertedIndex` from VictoriaMetrics
(`lib/storage/inmemory_inverted_index.go`). The index maps every marshaled tag
key/value pair to the set of metric IDs that carry it. It also keeps a queue of
pending (accountID, projectID, metricID) entries whose metric names cannot be
looked up yet. The model covers:

- Inserting one metric ID under one key (`addMetricIDLocked`).
- Draining the queue (`addPendingEntriesLocked`), which backs `MustUpdate` and
  `AddMetricID`.
- Evaluating one tag filter against the table (`getMetricIDsForTagFilterLocked`).
- Evaluating a filter set within an allowed scope of IDs
  (`UpdateMetricIDsForTagFilters`).
- The snapshot format (`Marshal`, `Unmarshal`, `marshalMetricIDs`,
  `unmarshalMetricIDs`).
- The three counters.

The index is a Dafny class with the fields `m` (a `map` from key to ID set) and
`pendingEntries` (a `seq`). Its methods update those fields in place. Each
method is proved against a specification function:

- `PostingTable.Insert` and `InsertAll` specify updates to the table.
- `PendingQueue.Drain` specifies one drain of the queue.
- `TagFilterEval.Matches` and `Selected` specify filter evaluation.
- `Snapshot.*Bytes` and `Snapshot.Parse*` specify the byte format.

The properties the source promises are lemmas about those functions.

Modules and files:

| file | module | contents |
|---|---|---|
| `wrappers.dfy` | `Wrappers` | `Option` |
| `encoding.dfy` | `Encoding` | byte and integer types; the big-endian 32/64-bit codec; the length-prefixed byte-string codec |
| `posting_table.dfy` | `PostingTable` | the table, inserts, entry counts |
| `pending_queue.dfy` | `PendingQueue` | queue entries, the name resolver, the drain specification |
| `tag_filters.dfy` | `TagFilterEval` | tag filters, what one filter matches, what a filter set selects |
| `snapshot.dfy` | `Snapshot` | the snapshot format, its decoders, and the round-trip and truncation lemmas |
| `inmemory_inverted_index.dfy` | `Storage` | the `InmemoryInvertedIndex` class and the nil-receiver operations |

Go map iteration order is unspecified. Each loop over a map therefore picks the
next key with `:|`. `Marshal` and `MustUpdate` return the order they used as
ghost results (`listing`, `batch`), so their contracts hold for every order.

The collaborators outside the file are passed in as function-valued parameters:

- the metric-name lookup of the durable index (`IndexDB.searchMetricName`);
- the metric-name codec (`MetricName.Unmarshal`, `marshalTagValue`, `Tag.Marshal`);
- the suffix matcher of each tag filter.

## Model

| member | source | states |
|---|---|---|
| Encoding.BigEndianRoundTrip | lib/storage/inmemory_inverted_index.go:27-53 | reading back `width` big-endian bytes gives the number that was written, for any number below 256^width |
| Encoding.Uint64RoundTrip | lib/storage/inmemory_inverted_index.go:50-54 | `UnmarshalUint64` of `MarshalUint64(x)` followed by any bytes is `x` |
| Encoding.Uint32RoundTrip | lib/storage/inmemory_inverted_index.go:86-90 | `UnmarshalUint32` of `MarshalUint32(x)` followed by any bytes is `x` |
| Encoding.BytesRoundTrip | lib/storage/inmemory_inverted_index.go:58-62 | decoding an encoded key returns the key and exactly the bytes after it |
| Encoding.BytesPrefixRejected | lib/storage/inmemory_inverted_index.go:58-61 | every strict prefix of an encoded key is rejected |
| PostingTable.Insert | lib/storage/inmemory_inverted_index.go:306-313 | after an insert the key is present and holds its old IDs plus the new one; no other key changes and no other key appears |
| PostingTable.InsertIdempotent | lib/storage/inmemory_inverted_index.go:306-313 | inserting the same (key, ID) twice leaves the table as inserting it once |
| PostingTable.InsertCommutes | lib/storage/inmemory_inverted_index.go:306-313 | two inserts give the same table in either order |
| PostingTable.InsertAllEffect | lib/storage/inmemory_inverted_index.go:295-301 | indexing one ID under a list of keys adds the ID under exactly those keys, adds no other key and leaves every other key's set unchanged |
| PostingTable.SumSizesRemove | lib/storage/inmemory_inverted_index.go:152-154 | the entry count may add the keys' set sizes in any order |
| PostingTable.TotalPostingsAfterInsert | lib/storage/inmemory_inverted_index.go:306-313 | an insert raises the entry count by one exactly when the ID was not already under the key |
| PostingTable.UniqueTagPairsAfterInsert | lib/storage/inmemory_inverted_index.go:307-311 | an insert raises the number of tag pairs by one exactly when the key is new |
| PendingQueue.TagKeys | lib/storage/inmemory_inverted_index.go:298-300 | one key per tag, in tag order, each the tag's marshaled form |
| PendingQueue.Resolve | lib/storage/inmemory_inverted_index.go:284-294 | an entry is "not yet" exactly when the name lookup answers io.EOF; it is resolved exactly when the lookup finds a name that unmarshals, and the resolved name is that unmarshaled name; every other outcome is an error |
| PendingQueue.GroupKey | lib/storage/inmemory_inverted_index.go:295-296 | the metric-group key is the marshaled empty tag name followed by the marshaled metric group |
| PendingQueue.IndexKeys | lib/storage/inmemory_inverted_index.go:295-300 | a resolved name is indexed under one key more than it has tags: the metric-group key first, then each tag's marshaled form in tag order |
| PendingQueue.Drain | lib/storage/inmemory_inverted_index.go:272-303 | the queue after a drain starts with the entries already requeued, is no longer than those plus the drained entries, and holds only entries from either |
| PendingQueue.DrainFailsIff | lib/storage/inmemory_inverted_index.go:281-294 | a drain returns an error exactly when some queued entry's lookup fails with something other than io.EOF, or its name cannot be unmarshaled |
| PendingQueue.DrainRequeuesNotYet | lib/storage/inmemory_inverted_index.go:284-289 | after a successful drain the queue holds exactly the io.EOF entries, in their original order |
| PendingQueue.DrainIndexesResolved | lib/storage/inmemory_inverted_index.go:292-301 | after a successful drain each key holds its old IDs plus the IDs of the resolved entries whose group or tags produce that key; a key is present exactly when it was before or received an ID |
| PendingQueue.DrainStopsAtFirstFailure | lib/storage/inmemory_inverted_index.go:289-293 | at the first unresolvable entry the drain returns its error; table and queue are those of draining only the entries before it |
| TagFilterEval.SelectedIgnoresOrder | lib/storage/inmemory_inverted_index.go:210-243 | two filter lists with the same filters (any order, any multiplicity) select the same IDs, whichever positive filter comes first |
| TagFilterEval.SelectedWithinScope | lib/storage/inmemory_inverted_index.go:223-228 | the selection never leaves the allowed scope; with only negative filters, an allowed ID is dropped only when some filter matches it |
| TagFilterEval.KeyMatches | lib/storage/inmemory_inverted_index.go:251-266 | a stored key passes a filter exactly when the key, with the common prefix put back in front, starts with the filter's prefix and matchSuffix accepts the bytes after that prefix |
| TagFilterEval.MatchesAmongAdd | lib/storage/inmemory_inverted_index.go:255-268 | scanning one more key adds its ID set exactly when the key has the filter's prefix and the suffix matcher accepts the rest |
| TagFilterEval.SurvivorsStart | lib/storage/inmemory_inverted_index.go:223-228 | the running result starts as the whole scope without a positive filter, and as the first positive filter's matches within the scope otherwise |
| TagFilterEval.SurvivorsStep | lib/storage/inmemory_inverted_index.go:229-239 | each later filter, other than the first positive one, removes its matches when negative and keeps only its matches when positive |
| TagFilterEval.SelectedSurvives | lib/storage/inmemory_inverted_index.go:240-242 | every selected ID survives every step, so an empty running result means an empty selection |
| TagFilterEval.SurvivorsComplete | lib/storage/inmemory_inverted_index.go:229-244 | after all filters the running result equals the selection formula |
| TagFilterEval.SelectedExample | lib/storage/inmemory_inverted_index.go:206-245 | the example: keys `tag=value1` with {1,2,3} and `tag=value2` with {3,4}, one positive filter matching either value, scope {1..5}; the selection is {1,2,3,4} |
| Snapshot.Uint64sRoundTrip | lib/storage/inmemory_inverted_index.go:116-120 | reading consecutive 8-byte IDs back gives the written IDs |
| Snapshot.MetricIDsRoundTrip | lib/storage/inmemory_inverted_index.go:99-122 | decoding an encoded ID list returns the list and exactly the bytes after it |
| Snapshot.MetricIDsPrefixRejected | lib/storage/inmemory_inverted_index.go:107-115 | every strict prefix of an encoded ID list is rejected |
| Snapshot.MarshalMetricIDs | lib/storage/inmemory_inverted_index.go:99-105 | appends to dst the count followed by each ID in list order |
| Snapshot.UnmarshalMetricIDs | lib/storage/inmemory_inverted_index.go:107-122 | on success the decoded IDs are appended to dst; on either error dst comes back unchanged with the documented tail (the input when the count is missing, the bytes after the count when the IDs are short) |
| Snapshot.ListsStep | lib/storage/inmemory_inverted_index.go:28-32 | writing one more unvisited key extends a listing of the visited keys to the visited keys plus that key |
| Snapshot.ListsAll | lib/storage/inmemory_inverted_index.go:28-32 | a listing of every key rebuilds the table and has one entry per key |
| Snapshot.EntryRoundTrip | lib/storage/inmemory_inverted_index.go:57-72 | one encoded table entry is read back as its key and ID set, leaving exactly the bytes after it |
| Snapshot.EntriesRoundTrip | lib/storage/inmemory_inverted_index.go:57-73 | decoding encoded entries into a table stores every key with its IDs and leaves exactly the bytes after them |
| Snapshot.TableRoundTrip | lib/storage/inmemory_inverted_index.go:49-74 | the table section of a snapshot decodes to the table it lists and exactly the bytes after it |
| Snapshot.ParseEntriesFailsAt | lib/storage/inmemory_inverted_index.go:58-66 | a key or ID list that cannot be read fails the table decoder |
| Snapshot.EntryPrefixRejected | lib/storage/inmemory_inverted_index.go:58-66 | cutting one encoded entry short fails the table decoder |
| Snapshot.EntriesPrefixRejected | lib/storage/inmemory_inverted_index.go:57-73 | every strict prefix of the encoded entries fails the table decoder |
| Snapshot.PendingEntryRoundTrip | lib/storage/inmemory_inverted_index.go:86-92 | one 16-byte pending entry reads back as the entry |
| Snapshot.PendingEntriesRoundTrip | lib/storage/inmemory_inverted_index.go:85-94 | the encoded queue reads back as the queue, in order |
| Snapshot.PendingRoundTrip | lib/storage/inmemory_inverted_index.go:76-96 | the pending section decodes to the queue and exactly the bytes after it |
| Snapshot.PendingPrefixRejected | lib/storage/inmemory_inverted_index.go:77-84 | every strict prefix of the pending section is rejected |
| Snapshot.ParsePendingInBounds | lib/storage/inmemory_inverted_index.go:80-85 | the pending section is accepted exactly when the count and all its 16-byte entries are present; the tail starts right after them |
| Snapshot.ParseMetricIDsInBounds | lib/storage/inmemory_inverted_index.go:111-116 | an ID list is accepted exactly when the count and all its 8-byte IDs are present; the tail starts right after them |
| Snapshot.PendingGuardOverflows | lib/storage/inmemory_inverted_index.go:80-85 | as written, a pending count of 2^60 passes the length check with no bytes left, because `count*16` wraps to 0; the model's decoder rejects the same input |
| Snapshot.IdsGuardOverflows | lib/storage/inmemory_inverted_index.go:111-116 | as written, an ID count of 2^61 passes the length check with no bytes left, because `8*count` wraps to 0; the model's decoder rejects the same input |
| Snapshot.NegativeCountReadAsEmpty | lib/storage/inmemory_inverted_index.go:80-85 | as written, a count of 2^63 is negative as a Go int and passes both length checks with no bytes left, so the source reads an empty list; the model's pending and ID-list decoders reject the same input |
| Snapshot.Restore | lib/storage/inmemory_inverted_index.go:45-97 | an error in the table section keeps the old table; on any error the queue is unchanged; the old queue is always a prefix of the new one |
| Snapshot.SnapshotRoundTrip | lib/storage/inmemory_inverted_index.go:45-97 | restoring a snapshot followed by any bytes replaces the table with the listed one, appends the snapshot's entries to the queue already present, and returns exactly the trailing bytes |
| Snapshot.SnapshotPrefixRejected | lib/storage/inmemory_inverted_index.go:45-97 | every strict prefix of a snapshot is rejected, and the queue is left as it was |
| Storage.AppendTo | lib/storage/inmemory_inverted_index.go:30 | lists every ID of a set exactly once |
| Storage.InmemoryInvertedIndex.constructor | lib/storage/inmemory_inverted_index.go:169-173 | a new index has an empty table and an empty queue |
| Storage.InmemoryInvertedIndex.Marshal | lib/storage/inmemory_inverted_index.go:21-43 | appends to dst the table section for a listing of the table (each key once, each ID once), then the queue section; the listing rebuilds the table; when every count fits 64 bits, the appended bytes decode into an empty index as exactly this table and queue, with nothing left over |
| Storage.InmemoryInvertedIndex.MarshalTable | lib/storage/inmemory_inverted_index.go:25-32 | appends the key count, then each key with its IDs in the chosen key order |
| Storage.InmemoryInvertedIndex.MarshalEntry | lib/storage/inmemory_inverted_index.go:29-31 | appends one key and the IDs of its set, each once |
| Storage.InmemoryInvertedIndex.MarshalPendingEntries | lib/storage/inmemory_inverted_index.go:34-40 | appends the queue length, then each entry's accountID, projectID and metricID |
| Storage.InmemoryInvertedIndex.Unmarshal | lib/storage/inmemory_inverted_index.go:45-97 | the new table, queue, tail and error are what the snapshot decoder gives for the old state: the table is replaced only once the whole table section has been read, and decoded entries are appended to the queue |
| Storage.InmemoryInvertedIndex.UnmarshalTable | lib/storage/inmemory_inverted_index.go:49-73 | returns the table section's decoded table and tail, or the decoder's error, the index of the failing entry and the tail at that point |
| Storage.InmemoryInvertedIndex.SetOf | lib/storage/inmemory_inverted_index.go:68-71 | the set built from a decoded list holds exactly its IDs |
| Storage.InmemoryInvertedIndex.UnmarshalPendingEntries | lib/storage/inmemory_inverted_index.go:76-96 | on success the decoded entries are appended to the queue; on either error the queue is unchanged |
| Storage.InmemoryInvertedIndex.AddMetricIDLocked | lib/storage/inmemory_inverted_index.go:306-313 | the table becomes `Insert(old table, key, metricID)` |
| Storage.InmemoryInvertedIndex.AddPendingEntriesLocked | lib/storage/inmemory_inverted_index.go:272-304 | the new table, queue and error are those of `Drain` over the old queue, starting from an empty queue |
| Storage.InmemoryInvertedIndex.IndexMetricName | lib/storage/inmemory_inverted_index.go:295-301 | adds the ID under the metric-group key, then under each tag's key |
| Storage.InmemoryInvertedIndex.AddMetricID | lib/storage/inmemory_inverted_index.go:197-204 | the result is the drain of the old queue with the entry appended |
| Storage.InmemoryInvertedIndex.MustUpdate | lib/storage/inmemory_inverted_index.go:175-195 | the batch holds each (tenant, ID) pair of byTenant exactly once and nothing else; the result is the drain of the old queue followed by the batch |
| Storage.InmemoryInvertedIndex.GetMetricIDsForTagFilterLocked | lib/storage/inmemory_inverted_index.go:247-270 | returns the union of the ID sets of exactly the keys with the filter's prefix (common prefix removed) whose rest the suffix matcher accepts |
| Storage.FirstPositive | lib/storage/inmemory_inverted_index.go:210-218 | returns the index of the first filter that is not negative, or none when all are negative |
| Storage.UpdateMetricIDsForTagFilters | lib/storage/inmemory_inverted_index.go:206-245 | a nil index leaves metricIDs unchanged; otherwise the result is metricIDs plus the allowed IDs matched by every positive filter and by no negative filter |
| Storage.ApplyFilter | lib/storage/inmemory_inverted_index.go:229-239 | one filter other than the first positive one takes the running result from the survivors before it to the survivors after it |
| Storage.GetUniqueTagPairsLen | lib/storage/inmemory_inverted_index.go:136-144 | 0 for a nil index, otherwise the number of distinct keys |
| Storage.GetEntriesCount | lib/storage/inmemory_inverted_index.go:146-157 | 0 for a nil index, otherwise the number of (key, ID) pairs stored |
| Storage.GetPendingMetricIDsLen | lib/storage/inmemory_inverted_index.go:159-167 | 0 for a nil index, otherwise the queue length |
| Storage.SnapshotRestores | lib/storage/inmemory_inverted_index.go:21-97 | unmarshaling an index's snapshot, followed by any bytes, into an index with an empty queue restores the table and the queue and returns exactly the trailing bytes with no error |

## Left out

- Locking (`mu`): the model has no concurrency. Each method is one atomic step on the index's state.
- `SizeBytes`: it depends on the memory layout of `uint64set.Set` and of Go structs, which this model does not represent.
- `kbPool`, the reuse of `metricIDs[:0]` and the pooled `MetricName`: these are buffer reuse only. The model builds fresh values.
- Error texts: errors are structured values (`SnapshotError`, `IdsError`, `DrainError`) that carry the counts and indexes the messages report.
- `encoding.MarshalBytes`/`UnmarshalBytes`, `MarshalUint32/64` and `UnmarshalUint32/64` are not part of this model's sources. The byte-string length prefix is modelled as 8 bytes, big-endian. When a byte string is too short, its decoder returns the input as the tail. The round-trip and prefix properties do not depend on either choice.
- `indexDB.searchMetricName`, `MetricName.Unmarshal`, `marshalTagValue`, `Tag.Marshal` and `tagFilter.matchSuffix` are not part of this model. They are function-valued parameters, so every property holds for any behaviour of theirs. A `matchSuffix` error, which the source turns into a panic, is not modelled.
- `uint64set.Set.AppendTo` returns the IDs in ascending order. `Storage.AppendTo` guarantees each ID exactly once in some order. The snapshot properties hold for any order.
- Storage.InmemoryInvertedIndex.MustUpdate: the source panics when the drain fails; the model returns the drain error instead and states the state the drain leaves.
- Storage.InmemoryInvertedIndex.AddMetricID: the source panics when the drain fails; the model returns the drain error instead.
- Storage.UpdateMetricIDsForTagFilters: the source panics on a filter whose prefix does not start with the common prefix, but only once it reaches that filter. The model requires every filter to start with the common prefix, including filters after an early return.
- Storage.InmemoryInvertedIndex.GetMetricIDsForTagFilterLocked: the panic on a prefix that does not start with the common prefix becomes a precondition.
- Go's `int(...)` of a 64-bit count is negative from 2^63 upwards. This applies to the table count (line 53), the pending count (line 80) and the ID-list count (line 111). With a table count in that range the source's loop runs zero times. A pending or ID-list count of 2^63 also makes the length check's product wrap to 0, so the source accepts it as an empty list, with the tail right after the count. The model reads counts as unbounded naturals and rejects all of these for lack of bytes. The two length checks are covered under Findings.
- Storage.SnapshotRestores: requires every count to fit in 64 bits (`Fits`). Without that, `uint64(len(...))` wraps and the snapshot cannot be read back.
- The aliasing in `addPendingEntriesLocked` is not modelled. There, `entries` and the emptied `pendingEntries` share one backing array. A requeued entry is written at an index no larger than the entry being read, so the order of reads is unaffected. The model uses two separate sequences.

## Findings

| source | as written | input that shows it | evidently intended | confidence | as-written member | corrected member |
|---|---|---|---|---|---|---|
| lib/storage/inmemory_inverted_index.go:80-85 | the guard compares `len(src)` with `pendingEntriesLen*16` computed in 64-bit `int`, which wraps | a pending count of 2^60 followed by no bytes: `2^60*16` wraps to 0, the guard passes and the loop reads past the end of `src` | reject the snapshot unless all `16*count` bytes are present | not executed | Snapshot.PendingGuardOverflows | Snapshot.ParsePendingInBounds |
| lib/storage/inmemory_inverted_index.go:111-116 | the guard compares `len(src)` with `8*metricIDsLen` computed in 64-bit `int`, which wraps | an ID count of 2^61 followed by no bytes: `8*2^61` wraps to 0, the guard passes and the loop reads past the end of `src` | reject the list unless all `8*count` bytes are present | not executed | Snapshot.IdsGuardOverflows | Snapshot.ParseMetricIDsInBounds |
| lib/storage/inmemory_inverted_index.go:80-85 | `int(...)` makes a pending count of 2^63 or more negative, and `pendingEntriesLen*16` wraps | a pending count of 2^63 followed by no bytes: the product wraps to 0, the guard passes, the loop runs zero times and the corrupt count is read as an empty queue | reject a count whose entries are not all present | not executed | Snapshot.NegativeCountReadAsEmpty | Snapshot.ParsePendingInBounds |
| lib/storage/inmemory_inverted_index.go:111-116 | `int(...)` makes an ID count of 2^63 or more negative, and `8*metricIDsLen` wraps | an ID count of 2^63 followed by no bytes: the product wraps to 0, the guard passes, the loop runs zero times and the corrupt count is read as an empty ID list | reject a count whose IDs are not all present | not executed | Snapshot.NegativeCountReadAsEmpty | Snapshot.ParseMetricIDsInBounds |
