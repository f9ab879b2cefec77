/**
 * Tag filters as the inverted index consumes them, and the specification of
 * what a filter selects from the posting table and what a filter set selects
 * within an allowed scope of metric IDs.
 */
module TagFilterEval {
  import opened Wrappers
  import opened Encoding
  import opened PostingTable

  /**
   * A tag filter: a key prefix, a negation flag and the predicate its
   * matchSuffix applies to the rest of a key.
   */
  datatype TagFilter = TagFilter(prefix: seq<byte>, isNegative: bool, matchSuffix: seq<byte> -> bool)

  /** An ordered filter list with the prefix that all its filters share. */
  datatype TagFilters = TagFilters(tfs: seq<TagFilter>, commonPrefix: seq<byte>)

  predicate HasPrefix(s: seq<byte>, p: seq<byte>)
  {
    |p| <= |s| && s[..|p|] == p
  }

  /** Every filter's prefix starts with the common prefix; the index panics otherwise. */
  predicate WellFormed(tfs: TagFilters)
  {
    forall i :: 0 <= i < |tfs.tfs| ==> HasPrefix(tfs.tfs[i].prefix, tfs.commonPrefix)
  }

  /**
   * Key k passes tf: after the common prefix is dropped from the filter's
   * prefix, k starts with what remains and matchSuffix accepts the rest of k.
   */
  predicate KeyMatches(tf: TagFilter, commonPrefix: seq<byte>, k: Key): (b: bool)
    requires HasPrefix(tf.prefix, commonPrefix)
    ensures b <==> HasPrefix(commonPrefix + k, tf.prefix)
                   && tf.matchSuffix(k[|tf.prefix| - |commonPrefix|..])
  {
    var p := tf.prefix[|commonPrefix|..];
    HasPrefix(k, p) && tf.matchSuffix(k[|p|..])
  }

  /** The union of the posting sets under the given keys of t that pass tf. */
  ghost function MatchesAmong(t: Table, keys: set<Key>, tf: TagFilter, commonPrefix: seq<byte>): set<u64>
    requires HasPrefix(tf.prefix, commonPrefix)
  {
    set k, id | k in keys && k in t && id in t[k] && KeyMatches(tf, commonPrefix, k) :: id
  }

  /** The IDs tf matches in t: the union of the posting sets of every key that passes it. */
  ghost function Matches(t: Table, tf: TagFilter, commonPrefix: seq<byte>): set<u64>
    requires HasPrefix(tf.prefix, commonPrefix)
  {
    MatchesAmong(t, t.Keys, tf, commonPrefix)
  }

  /** An ID survives filter j: it is matched by a positive filter, or not matched by a negative one. */
  ghost predicate Keeps(t: Table, tfs: TagFilters, j: nat, id: u64)
    requires WellFormed(tfs) && j < |tfs.tfs|
  {
    if tfs.tfs[j].isNegative then id !in Matches(t, tfs.tfs[j], tfs.commonPrefix)
    else id in Matches(t, tfs.tfs[j], tfs.commonPrefix)
  }

  /**
   * What a filter set selects within the allowed scope:
   * (allowed ∩ every positive match) minus every negative match.
   */
  ghost function Selected(t: Table, allowed: set<u64>, tfs: TagFilters): set<u64>
    requires WellFormed(tfs)
  {
    set id | id in allowed && forall j :: 0 <= j < |tfs.tfs| ==> Keeps(t, tfs, j, id)
  }

  /** Two filters that select the same keys. */
  ghost predicate SameFilter(a: TagFilter, b: TagFilter)
  {
    a.prefix == b.prefix && a.isNegative == b.isNegative
    && forall s :: a.matchSuffix(s) == b.matchSuffix(s)
  }

  /** Every filter of y has a twin in x, under the same common prefix. */
  ghost predicate Covers(x: TagFilters, y: TagFilters)
  {
    && x.commonPrefix == y.commonPrefix
    && forall j :: 0 <= j < |y.tfs| ==> exists i :: 0 <= i < |x.tfs| && SameFilter(x.tfs[i], y.tfs[j])
  }

  /** Two filter lists with the same common prefix and the same filters, in any order and multiplicity. */
  ghost predicate SameFilterSet(x: TagFilters, y: TagFilters)
  {
    Covers(x, y) && Covers(y, x)
  }

  lemma SameFilterSameMatches(t: Table, a: TagFilter, b: TagFilter, commonPrefix: seq<byte>)
    requires HasPrefix(a.prefix, commonPrefix) && SameFilter(a, b)
    ensures Matches(t, a, commonPrefix) == Matches(t, b, commonPrefix)
  {
    assert forall k :: KeyMatches(a, commonPrefix, k) == KeyMatches(b, commonPrefix, k);
  }

  /** An ID selected by x passes every filter of a list whose filters all occur in x. */
  lemma SelectedCovered(t: Table, allowed: set<u64>, x: TagFilters, y: TagFilters)
    requires WellFormed(x) && WellFormed(y) && Covers(x, y)
    ensures Selected(t, allowed, x) <= Selected(t, allowed, y)
  {
    forall id | id in Selected(t, allowed, x) ensures id in Selected(t, allowed, y) {
      forall j | 0 <= j < |y.tfs| ensures Keeps(t, y, j, id) {
        var i :| 0 <= i < |x.tfs| && SameFilter(x.tfs[i], y.tfs[j]);
        SameFilterSameMatches(t, x.tfs[i], y.tfs[j], x.commonPrefix);
        assert Keeps(t, x, i, id);
      }
    }
  }

  /**
   * The selection depends only on which filters there are: neither their
   * order nor which positive filter comes first changes it.
   */
  lemma SelectedIgnoresOrder(t: Table, allowed: set<u64>, x: TagFilters, y: TagFilters)
    requires WellFormed(x) && WellFormed(y) && SameFilterSet(x, y)
    ensures Selected(t, allowed, x) == Selected(t, allowed, y)
  {
    SelectedCovered(t, allowed, x, y);
    SelectedCovered(t, allowed, y, x);
  }

  /** Selection never leaves the allowed scope, and a purely negative filter set keeps the scope minus its matches. */
  lemma SelectedWithinScope(t: Table, allowed: set<u64>, tfs: TagFilters)
    requires WellFormed(tfs)
    ensures Selected(t, allowed, tfs) <= allowed
    ensures (forall j :: 0 <= j < |tfs.tfs| ==> tfs.tfs[j].isNegative) ==>
              forall id :: id in allowed && id !in Selected(t, allowed, tfs) ==>
                exists j :: 0 <= j < |tfs.tfs| && id in Matches(t, tfs.tfs[j], tfs.commonPrefix)
  {
  }

  /** Scanning one more key adds its posting set exactly when the key passes the filter. */
  lemma MatchesAmongAdd(t: Table, done: set<Key>, k: Key, tf: TagFilter, commonPrefix: seq<byte>)
    requires HasPrefix(tf.prefix, commonPrefix) && k in t
    ensures MatchesAmong(t, done + {k}, tf, commonPrefix)
         == MatchesAmong(t, done, tf, commonPrefix) + (if KeyMatches(tf, commonPrefix, k) then t[k] else {})
  {
    var a := MatchesAmong(t, done + {k}, tf, commonPrefix);
    var b := MatchesAmong(t, done, tf, commonPrefix) + (if KeyMatches(tf, commonPrefix, k) then t[k] else {});
    forall id | id in b ensures id in a {
      if id !in MatchesAmong(t, done, tf, commonPrefix) {
        assert id in t[k] && KeyMatches(tf, commonPrefix, k);
      }
    }
  }

  /**
   * The running result of the evaluator after the filters before index i:
   * the allowed IDs matched by the seed filter (when there is one) and kept
   * by every other filter before i.
   */
  ghost function Survivors(t: Table, allowed: set<u64>, tfs: TagFilters, seed: Option<nat>, i: nat): set<u64>
    requires WellFormed(tfs) && (seed.Some? ==> seed.value < |tfs.tfs|)
  {
    set id | id in allowed
             && (seed.Some? ==> id in Matches(t, tfs.tfs[seed.value], tfs.commonPrefix))
             && forall j :: 0 <= j < i && j < |tfs.tfs| && Some(j) != seed ==> Keeps(t, tfs, j, id)
  }

  /** A seed is a positive filter; without one, every filter is negative. */
  ghost predicate IsSeed(tfs: TagFilters, seed: Option<nat>)
  {
    match seed
    case Some(s) => s < |tfs.tfs| && !tfs.tfs[s].isNegative
    case None => forall j :: 0 <= j < |tfs.tfs| ==> tfs.tfs[j].isNegative
  }

  /** Before any filter is applied, the survivors are the allowed IDs the seed matches. */
  lemma SurvivorsStart(t: Table, allowed: set<u64>, tfs: TagFilters, seed: Option<nat>)
    requires WellFormed(tfs) && IsSeed(tfs, seed)
    ensures seed.None? ==> Survivors(t, allowed, tfs, seed, 0) == allowed
    ensures seed.Some? ==>
              Survivors(t, allowed, tfs, seed, 0) == Matches(t, tfs.tfs[seed.value], tfs.commonPrefix) * allowed
  {
  }

  /**
   * Applying filter i: the seed is skipped, a negative filter removes its
   * matches and a positive one keeps only its matches.
   */
  lemma SurvivorsStep(t: Table, allowed: set<u64>, tfs: TagFilters, seed: Option<nat>, i: nat)
    requires WellFormed(tfs) && IsSeed(tfs, seed) && i < |tfs.tfs|
    ensures Some(i) == seed ==>
              Survivors(t, allowed, tfs, seed, i + 1) == Survivors(t, allowed, tfs, seed, i)
    ensures Some(i) != seed && tfs.tfs[i].isNegative ==>
              Survivors(t, allowed, tfs, seed, i + 1)
              == Survivors(t, allowed, tfs, seed, i) - Matches(t, tfs.tfs[i], tfs.commonPrefix)
    ensures Some(i) != seed && !tfs.tfs[i].isNegative ==>
              Survivors(t, allowed, tfs, seed, i + 1)
              == Survivors(t, allowed, tfs, seed, i) * Matches(t, tfs.tfs[i], tfs.commonPrefix)
  {
    var before := Survivors(t, allowed, tfs, seed, i);
    var after := Survivors(t, allowed, tfs, seed, i + 1);
    forall id | id in before && (Some(i) == seed || Keeps(t, tfs, i, id)) ensures id in after {
      forall j | 0 <= j < i + 1 && j < |tfs.tfs| && Some(j) != seed ensures Keeps(t, tfs, j, id) {
        if j < i {
          assert id in before;
        }
      }
    }
  }

  /** Every ID the whole filter set selects survives every prefix of the evaluation. */
  lemma SelectedSurvives(t: Table, allowed: set<u64>, tfs: TagFilters, seed: Option<nat>, i: nat)
    requires WellFormed(tfs) && IsSeed(tfs, seed)
    ensures Selected(t, allowed, tfs) <= Survivors(t, allowed, tfs, seed, i)
  {
    forall id | id in Selected(t, allowed, tfs) ensures id in Survivors(t, allowed, tfs, seed, i) {
      if seed.Some? {
        assert Keeps(t, tfs, seed.value, id);
      }
    }
  }

  /** Once every filter has been applied, the survivors are exactly the selection. */
  lemma SurvivorsComplete(t: Table, allowed: set<u64>, tfs: TagFilters, seed: Option<nat>)
    requires WellFormed(tfs) && IsSeed(tfs, seed)
    ensures Survivors(t, allowed, tfs, seed, |tfs.tfs|) == Selected(t, allowed, tfs)
  {
    SelectedSurvives(t, allowed, tfs, seed, |tfs.tfs|);
    forall id | id in Survivors(t, allowed, tfs, seed, |tfs.tfs|) ensures id in Selected(t, allowed, tfs) {
      forall j | 0 <= j < |tfs.tfs| ensures Keeps(t, tfs, j, id) {
        if Some(j) == seed {
          assert id in Matches(t, tfs.tfs[j], tfs.commonPrefix);
        }
      }
    }
  }

  /** Example: tag name bytes [7], with values [1] and [2]. */
  function ExampleTable(): Table
  {
    map[[7, 1] := {1, 2, 3}, [7, 2] := {3, 4}]
  }

  predicate ValueOneOrTwo(suffix: seq<byte>)
  {
    suffix == [1] || suffix == [2]
  }

  /** One positive filter: the tag-name prefix, with a suffix matching either value. */
  function ExampleFilters(): TagFilters
  {
    TagFilters([TagFilter([7], false, ValueOneOrTwo)], [])
  }

  /** The filter selects the union of both posting sets, within the allowed scope. */
  lemma SelectedExample()
    ensures WellFormed(ExampleFilters())
    ensures Selected(ExampleTable(), {1, 2, 3, 4, 5}, ExampleFilters()) == {1, 2, 3, 4}
  {
    var t := ExampleTable();
    var tfs := ExampleFilters();
    var tf := tfs.tfs[0];
    var k1: seq<byte>, k2: seq<byte> := [7, 1], [7, 2];
    assert KeyMatches(tf, [], k1) && KeyMatches(tf, [], k2);
    forall id | id in Matches(t, tf, []) ensures id in {1, 2, 3, 4} {
      var k :| k in t && id in t[k];
      assert k == k1 || k == k2;
    }
    forall id | id in {1, 2, 3, 4} ensures id in Matches(t, tf, []) {
      if id in t[k1] {
        assert id in MatchesAmong(t, t.Keys, tf, []) by { assert k1 in t.Keys; }
      } else {
        assert id in t[k2];
        assert id in MatchesAmong(t, t.Keys, tf, []) by { assert k2 in t.Keys; }
      }
    }
    forall id ensures id in Selected(t, {1, 2, 3, 4, 5}, tfs) <==> id in {1, 2, 3, 4} {
      assert Keeps(t, tfs, 0, id) <==> id in Matches(t, tf, []);
    }
  }
}
