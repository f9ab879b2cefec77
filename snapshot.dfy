/**
 * The snapshot format of the inverted index and its decoders:
 *
 *   entryCount u64, then per entry: MarshalBytes(key), idCount u64, ids u64...
 *   pendingCount u64, then per entry: accountID u32, projectID u32, metricID u64
 *
 * The byte strings are given by functions; the decoders are functions that
 * return the value and the tail, or an error naming the section and the
 * index that could not be read, and the tail at that point.
 */
module Snapshot {
  import opened Wrappers
  import opened Encoding
  import opened PostingTable
  import opened PendingQueue

  // ---------------------------------------------------------------------
  // Metric ID lists (marshalMetricIDs / unmarshalMetricIDs)

  function Uint64sBytes(ids: seq<u64>): (r: seq<byte>)
    ensures |r| == 8 * |ids|
  {
    if ids == [] then [] else MarshalUint64(ids[0]) + Uint64sBytes(ids[1..])
  }

  lemma {:induction false} Uint64sBytesSnoc(ids: seq<u64>, x: u64)
    ensures Uint64sBytes(ids + [x]) == Uint64sBytes(ids) + MarshalUint64(x)
  {
    if ids != [] {
      assert (ids + [x])[1..] == ids[1..] + [x];
      Uint64sBytesSnoc(ids[1..], x);
    }
  }

  /** The bytes marshalMetricIDs appends for a list of IDs. */
  function MetricIDsBytes(ids: seq<u64>): (r: seq<byte>)
    ensures |r| == 8 + 8 * |ids|
  {
    MarshalUint64(Uint64Of(|ids|)) + Uint64sBytes(ids)
  }

  /** Consecutive 8-byte IDs. */
  function Uint64s(bs: seq<byte>): (r: seq<u64>)
    requires |bs| % 8 == 0
    ensures |r| == |bs| / 8
  {
    if bs == [] then [] else [UnmarshalUint64(bs)] + Uint64s(bs[8..])
  }

  lemma {:induction false} Uint64sRoundTrip(ids: seq<u64>)
    ensures Uint64s(Uint64sBytes(ids)) == ids
  {
    if ids != [] {
      var bs := Uint64sBytes(ids);
      Uint64RoundTrip(ids[0], Uint64sBytes(ids[1..]));
      assert bs[8..] == Uint64sBytes(ids[1..]);
      Uint64sRoundTrip(ids[1..]);
    }
  }

  datatype IdsError = IdsLenTooShort(have: nat) | IdsTooShort(count: nat, have: nat)

  /**
   * What unmarshalMetricIDs reads from src. Fewer than 8 bytes for the count
   * fail with src itself as the tail; fewer than 8*count bytes for the IDs
   * fail with the tail after the count.
   */
  function ParseMetricIDs(src: seq<byte>): Parse<seq<u64>, IdsError>
  {
    if |src| < 8 then Failed(IdsLenTooShort(|src|), src)
    else
      var n := UnmarshalUint64(src);
      var rest := src[8..];
      if |rest| < 8 * n then Failed(IdsTooShort(n, |rest|), rest)
      else Parsed(Uint64s(rest[..8 * n]), rest[8 * n..])
  }

  /** Decoding an encoded ID list gives back the list and exactly the bytes after it. */
  lemma {:induction false} MetricIDsRoundTrip(ids: seq<u64>, rest: seq<byte>)
    requires |ids| < TWO_64
    ensures ParseMetricIDs(MetricIDsBytes(ids) + rest) == Parsed(ids, rest)
  {
    var body := Uint64sBytes(ids) + rest;
    var src := MetricIDsBytes(ids) + rest;
    Uint64OfSmall(|ids|);
    assert src == MarshalUint64(|ids|) + body;
    Uint64RoundTrip(|ids|, body);
    assert UnmarshalUint64(src) == |ids|;
    assert src[8..] == body;
    assert body[..8 * |ids|] == Uint64sBytes(ids);
    assert body[8 * |ids|..] == rest;
    Uint64sRoundTrip(ids);
  }

  /** Every strict prefix of an encoded ID list is rejected. */
  lemma {:induction false} MetricIDsPrefixRejected(ids: seq<u64>, j: nat)
    requires |ids| < TWO_64 && j < |MetricIDsBytes(ids)|
    ensures ParseMetricIDs(MetricIDsBytes(ids)[..j]).Failed?
  {
    if j >= 8 {
      var full := MetricIDsBytes(ids);
      var src := full[..j];
      Uint64OfSmall(|ids|);
      Uint64RoundTrip(|ids|, Uint64sBytes(ids));
      assert src[..8] == full[..8];
      assert UnmarshalUint64(src) == |ids|;
      assert |src[8..]| < 8 * |ids|;
    }
  }

  /** marshalMetricIDs: appends the count and then each ID. */
  method MarshalMetricIDs(dst: seq<byte>, metricIDs: seq<u64>) returns (r: seq<byte>)
    ensures r == dst + MetricIDsBytes(metricIDs)
  {
    r := dst + MarshalUint64(Uint64Of(|metricIDs|));
    var i := 0;
    while i < |metricIDs|
      invariant 0 <= i <= |metricIDs|
      invariant r == dst + MarshalUint64(Uint64Of(|metricIDs|)) + Uint64sBytes(metricIDs[..i])
    {
      Uint64sBytesSnoc(metricIDs[..i], metricIDs[i]);
      assert metricIDs[..i + 1] == metricIDs[..i] + [metricIDs[i]];
      r := r + MarshalUint64(metricIDs[i]);
      i := i + 1;
    }
    assert metricIDs[..i] == metricIDs;
  }

  /** unmarshalMetricIDs: appends the decoded IDs to dst; on an error dst comes back as it was. */
  method UnmarshalMetricIDs(dst: seq<u64>, src: seq<byte>) returns (tail: seq<byte>, out: seq<u64>, err: Option<IdsError>)
    ensures match ParseMetricIDs(src)
            case Parsed(ids, t) => tail == t && out == dst + ids && err == None
            case Failed(e, t) => tail == t && out == dst && err == Some(e)
  {
    if |src| < 8 {
      return src, dst, Some(IdsLenTooShort(|src|));
    }
    var n: nat := UnmarshalUint64(src);
    tail := src[8..];
    if |tail| < 8 * n {
      return tail, dst, Some(IdsTooShort(n, |tail|));
    }
    ghost var payload := tail;
    out := dst;
    var i := 0;
    while i < n
      invariant 0 <= i <= n
      invariant |tail| >= 8 * (n - i)
      invariant out + Uint64s(tail[..8 * (n - i)]) == dst + Uint64s(payload[..8 * n])
      invariant tail[8 * (n - i)..] == payload[8 * n..]
    {
      var rem := tail[..8 * (n - i)];
      assert rem[..8] == tail[..8] && rem[8..] == tail[8..][..8 * (n - i - 1)];
      var metricID := UnmarshalUint64(tail);
      tail := tail[8..];
      out := out + [metricID];
      i := i + 1;
    }
    assert tail[..0] == [];
    err := None;
  }

  // ---------------------------------------------------------------------
  // The table section

  /** One marshaled table entry: a key and the IDs written for its posting set. */
  datatype TableEntry = TableEntry(key: Key, ids: seq<u64>)

  function EntryBytes(e: TableEntry): seq<byte>
  {
    MarshalBytes(e.key) + MetricIDsBytes(e.ids)
  }

  function EntriesBytes(es: seq<TableEntry>): seq<byte>
  {
    if es == [] then [] else EntryBytes(es[0]) + EntriesBytes(es[1..])
  }

  lemma {:induction false} EntriesBytesSnoc(es: seq<TableEntry>, e: TableEntry)
    ensures EntriesBytes(es + [e]) == EntriesBytes(es) + EntryBytes(e)
  {
    if es != [] {
      assert (es + [e])[1..] == es[1..] + [e];
      EntriesBytesSnoc(es[1..], e);
    }
  }

  function TableBytes(es: seq<TableEntry>): seq<byte>
  {
    MarshalUint64(Uint64Of(|es|)) + EntriesBytes(es)
  }

  function Elements(ids: seq<u64>): set<u64>
  {
    set id | id in ids
  }

  /** The table the decoder builds from entries read in order into acc: a later key replaces an earlier one. */
  function Rebuild(acc: Table, es: seq<TableEntry>): Table
    decreases |es|
  {
    if es == [] then acc else Rebuild(acc[es[0].key := Elements(es[0].ids)], es[1..])
  }

  lemma {:induction false} RebuildSnoc(acc: Table, es: seq<TableEntry>, e: TableEntry)
    ensures Rebuild(acc, es + [e]) == Rebuild(acc, es)[e.key := Elements(e.ids)]
    decreases |es|
  {
    if es != [] {
      assert (es + [e])[1..] == es[1..] + [e];
      RebuildSnoc(acc[es[0].key := Elements(es[0].ids)], es[1..], e);
    }
  }

  /**
   * `es` lists the keys of `done` (a part of t's keys) each once, in some
   * order, with the IDs of each key's posting set each once.
   */
  ghost predicate Lists(es: seq<TableEntry>, t: Table, done: set<Key>)
  {
    && done <= t.Keys
    && Rebuild(map[], es) == (map k | k in done :: t[k])
    && |es| == |done|
    && forall j :: 0 <= j < |es| ==>
         es[j].key in t && Elements(es[j].ids) == t[es[j].key] && |es[j].ids| == |t[es[j].key]|
  }

  lemma ListsStep(es: seq<TableEntry>, t: Table, done: set<Key>, e: TableEntry)
    requires Lists(es, t, done)
    requires e.key in t && e.key !in done
    requires Elements(e.ids) == t[e.key] && |e.ids| == |t[e.key]|
    ensures Lists(es + [e], t, done + {e.key})
  {
    RebuildSnoc(map[], es, e);
    assert (map k | k in done :: t[k])[e.key := t[e.key]] == map k | k in done + {e.key} :: t[k];
  }

  /** A listing of every key rebuilds the table and is as long as it. */
  lemma ListsAll(es: seq<TableEntry>, t: Table)
    requires Lists(es, t, t.Keys)
    ensures Rebuild(map[], es) == t && |es| == |t|
  {
    assert (map k | k in t.Keys :: t[k]) == t;
  }

  /** Every key of t and every posting set of t is short enough for its 64-bit length field. */
  ghost predicate TableFits(t: Table)
  {
    forall k :: k in t ==> |k| < TWO_64 && |t[k]| < TWO_64
  }

  /** A listing of a table that fits has lengths that fit. */
  lemma ListsFit(es: seq<TableEntry>, t: Table)
    requires Lists(es, t, t.Keys) && |t| < TWO_64 && TableFits(t)
    ensures |es| < TWO_64 && EntriesFit(es)
  {
  }

  datatype SnapshotError =
    | TableLenTooShort(have: nat)
    | BadKey(index: nat, keyError: BytesError)
    | BadValue(index: nat, idsError: IdsError)
    | PendingLenTooShort(have: nat)
    | PendingTooShort(count: nat, have: nat)

  /** Reads table entries i, i+1, ..., n-1 from src into acc. */
  function ParseEntries(src: seq<byte>, i: nat, n: nat, acc: Table): Parse<Table, SnapshotError>
    decreases n - i
  {
    if i >= n then Parsed(acc, src)
    else
      match UnmarshalBytes(src)
      case Failed(e, t) => Failed(BadKey(i, e), t)
      case Parsed(k, src1) =>
        match ParseMetricIDs(src1)
        case Failed(e, t) => Failed(BadValue(i, e), t)
        case Parsed(ids, src2) => ParseEntries(src2, i + 1, n, acc[k := Elements(ids)])
  }

  /** The table section: a count of at least 8 bytes, then that many entries, into an empty table. */
  function ParseTable(src: seq<byte>): Parse<Table, SnapshotError>
  {
    if |src| < 8 then Failed(TableLenTooShort(|src|), src)
    else ParseEntries(src[8..], 0, UnmarshalUint64(src), map[])
  }

  /** Every length in the listing fits the 64-bit fields that carry it. */
  ghost predicate EntriesFit(es: seq<TableEntry>)
  {
    forall j :: 0 <= j < |es| ==> |es[j].key| < TWO_64 && |es[j].ids| < TWO_64
  }

  /** One step of the table decoder: a key and its ID list are read, and the rest follows. */
  lemma ParseEntriesStep(src: seq<byte>, i: nat, n: nat, acc: Table, k: Key, src1: seq<byte>,
                         ids: seq<u64>, src2: seq<byte>)
    requires i < n && UnmarshalBytes(src) == Parsed(k, src1) && ParseMetricIDs(src1) == Parsed(ids, src2)
    ensures ParseEntries(src, i, n, acc) == ParseEntries(src2, i + 1, n, acc[k := Elements(ids)])
  {
  }

  /** One encoded entry is read back whole, leaving exactly the bytes after it. */
  lemma EntryRoundTrip(e: TableEntry, rest: seq<byte>, i: nat, n: nat, acc: Table)
    requires |e.key| < TWO_64 && |e.ids| < TWO_64 && i < n
    ensures ParseEntries(EntryBytes(e) + rest, i, n, acc) == ParseEntries(rest, i + 1, n, acc[e.key := Elements(e.ids)])
  {
    var vb := MetricIDsBytes(e.ids) + rest;
    assert EntryBytes(e) + rest == MarshalBytes(e.key) + vb;
    BytesRoundTrip(e.key, vb);
    MetricIDsRoundTrip(e.ids, rest);
    ParseEntriesStep(EntryBytes(e) + rest, i, n, acc, e.key, vb, e.ids, rest);
  }

  lemma {:induction false} EntriesRoundTrip(es: seq<TableEntry>, rest: seq<byte>, i: nat, n: nat, acc: Table)
    requires EntriesFit(es) && n == i + |es|
    ensures ParseEntries(EntriesBytes(es) + rest, i, n, acc) == Parsed(Rebuild(acc, es), rest)
    decreases |es|
  {
    if es != [] {
      var e := es[0];
      AppendAssoc(EntryBytes(e), EntriesBytes(es[1..]), rest);
      EntryRoundTrip(e, EntriesBytes(es[1..]) + rest, i, n, acc);
      EntriesRoundTrip(es[1..], rest, i + 1, n, acc[e.key := Elements(e.ids)]);
    } else {
      assert EntriesBytes(es) + rest == rest;
    }
  }

  lemma {:induction false} TableRoundTrip(es: seq<TableEntry>, rest: seq<byte>)
    requires |es| < TWO_64 && EntriesFit(es)
    ensures ParseTable(TableBytes(es) + rest) == Parsed(Rebuild(map[], es), rest)
  {
    var body := EntriesBytes(es) + rest;
    var src := TableBytes(es) + rest;
    Uint64OfSmall(|es|);
    assert src == MarshalUint64(|es|) + body;
    Uint64RoundTrip(|es|, body);
    assert src[8..] == body;
    EntriesRoundTrip(es, rest, 0, |es|, map[]);
  }

  /** A key that cannot be read, or an ID list that cannot, fails the table decoder. */
  lemma ParseEntriesFailsAt(src: seq<byte>, i: nat, n: nat, acc: Table)
    requires i < n
    requires UnmarshalBytes(src).Failed?
          || ParseMetricIDs(UnmarshalBytes(src).tail).Failed?
    ensures ParseEntries(src, i, n, acc).Failed?
  {
  }

  /** Cutting one encoded entry short fails the decoder. */
  lemma EntryPrefixRejected(e: TableEntry, j: nat, i: nat, n: nat, acc: Table)
    requires |e.key| < TWO_64 && |e.ids| < TWO_64 && i < n && j < |EntryBytes(e)|
    ensures ParseEntries(EntryBytes(e)[..j], i, n, acc).Failed?
  {
    var src := EntryBytes(e)[..j];
    var kb := MarshalBytes(e.key);
    var vb := MetricIDsBytes(e.ids);
    if j < |kb| {
      assert src == kb[..j];
      BytesPrefixRejected(e.key, j);
    } else {
      assert src == kb + vb[..j - |kb|];
      BytesRoundTrip(e.key, vb[..j - |kb|]);
      MetricIDsPrefixRejected(e.ids, j - |kb|);
    }
    ParseEntriesFailsAt(src, i, n, acc);
  }

  lemma {:induction false} EntriesPrefixRejected(es: seq<TableEntry>, j: nat, i: nat, n: nat, acc: Table)
    requires EntriesFit(es) && n == i + |es| && j < |EntriesBytes(es)|
    ensures ParseEntries(EntriesBytes(es)[..j], i, n, acc).Failed?
    decreases |es|
  {
    assert es != [];
    var e := es[0];
    var eb := EntryBytes(e);
    var src := EntriesBytes(es)[..j];
    assert EntriesBytes(es) == eb + EntriesBytes(es[1..]);
    if j < |eb| {
      assert src == eb[..j];
      EntryPrefixRejected(e, j, i, n, acc);
    } else {
      var after := EntriesBytes(es[1..])[..j - |eb|];
      assert src == eb + after;
      assert EntriesFit(es[1..]);
      EntryRoundTrip(e, after, i, n, acc);
      EntriesPrefixRejected(es[1..], j - |eb|, i + 1, n, acc[e.key := Elements(e.ids)]);
    }
  }

  // ---------------------------------------------------------------------
  // The pending section

  function PendingEntryBytes(e: PendingEntry): (r: seq<byte>)
    ensures |r| == 16
  {
    MarshalUint32(e.accountID) + MarshalUint32(e.projectID) + MarshalUint64(e.metricID)
  }

  function PendingEntriesBytes(ps: seq<PendingEntry>): (r: seq<byte>)
    ensures |r| == 16 * |ps|
  {
    if ps == [] then [] else PendingEntryBytes(ps[0]) + PendingEntriesBytes(ps[1..])
  }

  lemma {:induction false} PendingEntriesBytesSnoc(ps: seq<PendingEntry>, e: PendingEntry)
    ensures PendingEntriesBytes(ps + [e]) == PendingEntriesBytes(ps) + PendingEntryBytes(e)
  {
    if ps != [] {
      assert (ps + [e])[1..] == ps[1..] + [e];
      PendingEntriesBytesSnoc(ps[1..], e);
    }
  }

  function PendingBytes(ps: seq<PendingEntry>): seq<byte>
  {
    MarshalUint64(Uint64Of(|ps|)) + PendingEntriesBytes(ps)
  }

  /** One 16-byte pending entry at the front of src. */
  function PendingEntryAt(src: seq<byte>): PendingEntry
    requires |src| >= 16
  {
    PendingEntry(UnmarshalUint32(src), UnmarshalUint32(src[4..]), UnmarshalUint64(src[8..]))
  }

  /** The first k entries of 16 bytes each at the front of bs. */
  function PendingEntriesOf(bs: seq<byte>, k: nat): (r: seq<PendingEntry>)
    requires |bs| >= 16 * k
    ensures |r| == k
  {
    if k == 0 then [] else [PendingEntryAt(bs)] + PendingEntriesOf(bs[16..], k - 1)
  }

  lemma {:induction false} PendingEntryRoundTrip(e: PendingEntry, rest: seq<byte>)
    ensures PendingEntryAt(PendingEntryBytes(e) + rest) == e
  {
    var a, p, m := MarshalUint32(e.accountID), MarshalUint32(e.projectID), MarshalUint64(e.metricID);
    var src := PendingEntryBytes(e) + rest;
    assert src == a + (p + m + rest);
    assert src[4..] == p + (m + rest);
    assert src[8..] == m + rest;
    Uint32RoundTrip(e.accountID, p + m + rest);
    Uint32RoundTrip(e.projectID, m + rest);
    Uint64RoundTrip(e.metricID, rest);
  }

  lemma {:induction false} PendingEntriesRoundTrip(ps: seq<PendingEntry>, rest: seq<byte>)
    ensures PendingEntriesOf(PendingEntriesBytes(ps) + rest, |ps|) == ps
  {
    if ps != [] {
      var bs := PendingEntriesBytes(ps) + rest;
      assert bs == PendingEntryBytes(ps[0]) + (PendingEntriesBytes(ps[1..]) + rest);
      PendingEntryRoundTrip(ps[0], PendingEntriesBytes(ps[1..]) + rest);
      assert bs[16..] == PendingEntriesBytes(ps[1..]) + rest;
      PendingEntriesRoundTrip(ps[1..], rest);
    }
  }

  /**
   * The pending section: a count of at least 8 bytes, then 16 bytes per
   * entry, all checked to be present before any entry is read.
   */
  function ParsePending(src: seq<byte>): Parse<seq<PendingEntry>, SnapshotError>
  {
    if |src| < 8 then Failed(PendingLenTooShort(|src|), src)
    else
      var n := UnmarshalUint64(src);
      var rest := src[8..];
      if |rest| < 16 * n then Failed(PendingTooShort(n, |rest|), rest)
      else Parsed(PendingEntriesOf(rest, n), rest[16 * n..])
  }

  lemma {:induction false} PendingRoundTrip(ps: seq<PendingEntry>, rest: seq<byte>)
    requires |ps| < TWO_64
    ensures ParsePending(PendingBytes(ps) + rest) == Parsed(ps, rest)
  {
    var src := PendingBytes(ps) + rest;
    Uint64OfSmall(|ps|);
    Uint64RoundTrip(|ps|, PendingEntriesBytes(ps) + rest);
    AppendAssoc(MarshalUint64(|ps|), PendingEntriesBytes(ps), rest);
    assert UnmarshalUint64(src) == |ps|;
    assert src[8..] == PendingEntriesBytes(ps) + rest;
    assert src[8..][16 * |ps|..] == rest;
    PendingEntriesRoundTrip(ps, rest);
  }

  lemma {:induction false} PendingPrefixRejected(ps: seq<PendingEntry>, j: nat)
    requires |ps| < TWO_64 && j < |PendingBytes(ps)|
    ensures ParsePending(PendingBytes(ps)[..j]).Failed?
  {
    if j >= 8 {
      var full := PendingBytes(ps);
      var src := full[..j];
      Uint64OfSmall(|ps|);
      Uint64RoundTrip(|ps|, PendingEntriesBytes(ps));
      assert src[..8] == full[..8];
      assert UnmarshalUint64(src) == |ps|;
      assert |src[8..]| < 16 * |ps|;
    }
  }

  // ---------------------------------------------------------------------
  // The length guards as written: a count is converted to Go's 64-bit int
  // and multiplied by the entry width before it is compared with the bytes
  // left, and both steps wrap around.

  /** Go's int(x) for a uint64 on a 64-bit platform. */
  function GoInt(x: u64): (r: int)
    ensures r == x || r == x - TWO_64
    ensures r >= 0 <==> x < TWO_64 / 2
  {
    if x < TWO_64 / 2 then x else x - TWO_64
  }

  /** A product in Go's 64-bit int: the signed value congruent to x modulo 2^64. */
  function WrapInt64(x: int): (r: int)
    ensures -TWO_64 / 2 <= r < TWO_64 / 2
    ensures (x - r) % TWO_64 == 0
  {
    var m := x % TWO_64;
    if m < TWO_64 / 2 then m else m - TWO_64
  }

  /** The guard `len(src) < count*width` as written: true rejects the input. */
  function ShortAsWritten(have: nat, count: u64, width: nat): bool
  {
    have < WrapInt64(GoInt(count) * width)
  }

  /**
   * A pending count of 2^60 passes the guard with no bytes left, although
   * its entries need 2^64 bytes: the loop then reads past the end of src.
   */
  lemma PendingGuardOverflows()
    ensures var count: u64 := 0x1000_0000_0000_0000;
            !ShortAsWritten(0, count, 16) && GoInt(count) > 0 && 16 * count > 0
            && ParsePending(MarshalUint64(count)).Failed?
  {
    var count: u64 := 0x1000_0000_0000_0000;
    assert GoInt(count) * 16 == TWO_64;
    assert WrapInt64(TWO_64) == 0;
    Uint64RoundTrip(count, []);
    assert MarshalUint64(count) + [] == MarshalUint64(count);
  }

  /** The same for an ID list: a count of 2^61 passes with no bytes left. */
  lemma IdsGuardOverflows()
    ensures var count: u64 := 0x2000_0000_0000_0000;
            !ShortAsWritten(0, count, 8) && GoInt(count) > 0 && 8 * count > 0
            && ParseMetricIDs(MarshalUint64(count)).Failed?
  {
    var count: u64 := 0x2000_0000_0000_0000;
    assert GoInt(count) * 8 == TWO_64;
    assert WrapInt64(TWO_64) == 0;
    Uint64RoundTrip(count, []);
    assert MarshalUint64(count) + [] == MarshalUint64(count);
  }

  /**
   * A count of 2^63 or more is negative once cast to Go's int. With count
   * 2^63 both products wrap to 0, so the guard passes with no bytes left;
   * the decoding loop `for i := 0; i < n; i++` then runs zero times and the
   * source reports an empty list. The decoders of this model reject it.
   */
  lemma NegativeCountReadAsEmpty()
    ensures var count: u64 := 0x8000_0000_0000_0000;
            GoInt(count) < 0
            && !ShortAsWritten(0, count, 16) && ParsePending(MarshalUint64(count)).Failed?
            && !ShortAsWritten(0, count, 8) && ParseMetricIDs(MarshalUint64(count)).Failed?
  {
    var count: u64 := 0x8000_0000_0000_0000;
    assert GoInt(count) == -TWO_64 / 2;
    assert GoInt(count) * 16 == -8 * TWO_64;
    assert GoInt(count) * 8 == -4 * TWO_64;
    assert WrapInt64(-8 * TWO_64) == 0;
    assert WrapInt64(-4 * TWO_64) == 0;
    Uint64RoundTrip(count, []);
    assert MarshalUint64(count) + [] == MarshalUint64(count);
  }

  /**
   * The decoders of this model compare without wrap-around, so a pending
   * section is accepted exactly when all its entries are present, and the
   * tail starts right after them.
   */
  lemma ParsePendingInBounds(src: seq<byte>)
    ensures ParsePending(src).Parsed? <==> |src| >= 8 && |src| - 8 >= 16 * UnmarshalUint64(src)
    ensures ParsePending(src).Parsed? ==>
              var n := |ParsePending(src).value|;
              |src| >= 8 + 16 * n && ParsePending(src).tail == src[8 + 16 * n..]
  {
  }

  /** The same for an ID list. */
  lemma ParseMetricIDsInBounds(src: seq<byte>)
    ensures ParseMetricIDs(src).Parsed? <==> |src| >= 8 && |src| - 8 >= 8 * UnmarshalUint64(src)
    ensures ParseMetricIDs(src).Parsed? ==>
              var n := |ParseMetricIDs(src).value|;
              |src| >= 8 + 8 * n && ParseMetricIDs(src).tail == src[8 + 8 * n..]
  {
  }

  // ---------------------------------------------------------------------
  // The whole snapshot

  function SnapshotBytes(es: seq<TableEntry>, ps: seq<PendingEntry>): seq<byte>
  {
    TableBytes(es) + PendingBytes(ps)
  }

  /** The index state and the result Unmarshal leaves behind. */
  datatype Restored = Restored(table: Table, pending: seq<PendingEntry>, rest: seq<byte>, err: Option<SnapshotError>)

  /**
   * Unmarshal applied to an index holding table t and queue q: the table is
   * replaced only once the whole table section has been read, and decoded
   * pending entries are appended to q only once the whole pending section is
   * known to be present.
   */
  function Restore(t: Table, q: seq<PendingEntry>, src: seq<byte>): (r: Restored)
    ensures ParseTable(src).Failed? ==> r.table == t && r.err.Some?
    ensures r.err.Some? ==> r.pending == q
    ensures |q| <= |r.pending| && r.pending[..|q|] == q
  {
    match ParseTable(src)
    case Failed(e, tail) => Restored(t, q, tail, Some(e))
    case Parsed(t1, src1) =>
      match ParsePending(src1)
      case Failed(e, tail) => Restored(t1, q, tail, Some(e))
      case Parsed(ps, tail) => Restored(t1, q + ps, tail, None)
  }

  /**
   * Unmarshal(Marshal(x) ++ rest): the table is rebuilt from the listing, the
   * decoded entries are appended to whatever was already queued, and exactly
   * rest is returned.
   */
  lemma {:induction false} SnapshotRoundTrip(t: Table, q: seq<PendingEntry>, es: seq<TableEntry>,
                                            ps: seq<PendingEntry>, rest: seq<byte>)
    requires |es| < TWO_64 && EntriesFit(es) && |ps| < TWO_64
    ensures Restore(t, q, SnapshotBytes(es, ps) + rest) == Restored(Rebuild(map[], es), q + ps, rest, None)
  {
    var src := SnapshotBytes(es, ps) + rest;
    AppendAssoc(TableBytes(es), PendingBytes(ps), rest);
    TableRoundTrip(es, PendingBytes(ps) + rest);
    assert ParseTable(src) == Parsed(Rebuild(map[], es), PendingBytes(ps) + rest);
    PendingRoundTrip(ps, rest);
  }

  /** Every strict prefix of a snapshot is rejected, and the pending queue is then left as it was. */
  lemma {:induction false} SnapshotPrefixRejected(t: Table, q: seq<PendingEntry>, es: seq<TableEntry>,
                                                 ps: seq<PendingEntry>, j: nat)
    requires |es| < TWO_64 && EntriesFit(es) && |ps| < TWO_64
    requires j < |SnapshotBytes(es, ps)|
    ensures Restore(t, q, SnapshotBytes(es, ps)[..j]).err.Some?
    ensures Restore(t, q, SnapshotBytes(es, ps)[..j]).pending == q
  {
    var tb := TableBytes(es);
    var src := SnapshotBytes(es, ps)[..j];
    if j < |tb| {
      assert src == tb[..j];
      if j >= 8 {
        Uint64OfSmall(|es|);
        assert src == MarshalUint64(|es|) + EntriesBytes(es)[..j - 8];
        Uint64RoundTrip(|es|, EntriesBytes(es)[..j - 8]);
        assert src[8..] == EntriesBytes(es)[..j - 8];
        EntriesPrefixRejected(es, j - 8, 0, |es|, map[]);
      }
    } else {
      var after := PendingBytes(ps)[..j - |tb|];
      assert src == tb + after;
      TableRoundTrip(es, after);
      PendingPrefixRejected(ps, j - |tb|);
    }
  }
}
