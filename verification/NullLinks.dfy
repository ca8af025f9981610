/** Where the link of a pair is written, the code first reads through the link of the new pair, which is null.
    This module says exactly which stores do that; the rest of the hash table takes the read as one of the new
    pair itself. */
module NullLinks {
  import opened Bits
  import opened Values
  import opened ChainedTable
  import opened TableLaws

  // ---------------------------------------------------------------- stores into buckets

  /** A store appends behind an existing pair: the bucket of the key is not empty and holds no match. */
  predicate StoreReadsNull(h: Hash, b: Buckets, key: Value)
    requires Placed(h, b) && !key.NotPresent?
  {
    IndexInRange(h, key, |b|);
    var chain := b[Index(h, key, |b|)];
    chain != [] && Find(h, chain, key) == |chain|
  }

  /** One of a sequence of stores does. */
  predicate StoresReadNull(h: Hash, b: Buckets, es: seq<Entry>)
    requires Placed(h, b) && Present(es)
  {
    es != [] && (StoresReadNull(h, b, es[..|es| - 1])
                 || StoreReadsNull(h, SetAll(h, b, es[..|es| - 1]), es[|es| - 1].key))
  }

  /** No bucket holds more than one pair. */
  ghost predicate Single(b: Buckets) {
    forall k :: 0 <= k < |b| ==> |b[k]| <= 1
  }

  lemma StoreAndSingle(h: Hash, b: Buckets, key: Value, value: Value)
    requires Placed(h, b) && !key.NotPresent? && !value.NotPresent?
    ensures Single(SetEntry(h, b, key, value)) <==> Single(b) && !StoreReadsNull(h, b, key)
  {
    hide HashOf, Matches, Find, And, PowerOfTwo, DistinctKeys;
    IndexInRange(h, key, |b|);
    var k, r := Index(h, key, |b|), SetEntry(h, b, key, value);
    assert forall l :: 0 <= l < |b| && l != k ==> r[l] == b[l];
    assert |r[k]| == if Find(h, b[k], key) < |b[k]| then |b[k]| else |b[k]| + 1;
    if Single(r) {
      assert forall l :: 0 <= l < |b| ==> |b[l]| <= |r[l]|;
    }
  }

  lemma {:induction false} StoresAndSingle(h: Hash, b: Buckets, es: seq<Entry>)
    requires Placed(h, b) && Present(es)
    ensures Single(SetAll(h, b, es)) <==> Single(b) && !StoresReadNull(h, b, es)
  {
    hide Single, SetEntry, StoreReadsNull, Placed;
    if es != [] {
      var front, last := es[..|es| - 1], es[|es| - 1];
      StoresAndSingle(h, b, front);
      StoreAndSingle(h, SetAll(h, b, front), last.key, last.value);
    }
  }

  // ---------------------------------------------------------------- rehashing

  /** Two entries have the same bucket at a capacity. */
  ghost predicate TwoShare(h: Hash, es: seq<Entry>, capacity: nat)
    requires Present(es) && capacity > 0
  {
    exists i, j :: 0 <= i < j < |es| && Index(h, es[i].key, capacity) == Index(h, es[j].key, capacity)
  }

  ghost predicate InBucket(h: Hash, es: seq<Entry>, capacity: nat, k: nat)
    requires Present(es) && capacity > 0
  {
    exists i :: 0 <= i < |es| && Index(h, es[i].key, capacity) == k
  }

  ghost predicate Among(e: Entry, es: seq<Entry>) {
    exists i :: 0 <= i < |es| && es[i] == e
  }

  ghost predicate FilledBy(h: Hash, b: Buckets, es: seq<Entry>)
    requires Present(es) && |b| > 0
  {
    && (forall k :: 0 <= k < |b| ==> (b[k] != [] <==> InBucket(h, es, |b|, k)))
    && (forall k, j :: 0 <= k < |b| && 0 <= j < |b[k]| ==> Among(b[k][j], es))
  }

  /** What fills the buckets of an array that was empty. */
  lemma {:induction false} FilledFrom(h: Hash, capacity: nat, es: seq<Entry>)
    requires PowerOfTwo(capacity) && Placed(h, Empty(capacity)) && Present(es)
    ensures FilledBy(h, SetAll(h, Empty(capacity), es), es)
  {
    hide HashOf, Matches, And, PowerOfTwo, DistinctKeys, Find, Placed;
    if es != [] {
      var n := |es| - 1;
      var front, last := es[..n], es[n];
      FilledFrom(h, capacity, front);
      var m, r := SetAll(h, Empty(capacity), front), SetAll(h, Empty(capacity), es);
      StoreFills(h, m, last);
      forall k | 0 <= k < capacity
        ensures r[k] != [] <==> InBucket(h, es, capacity, k)
      {
        InBucketOfMore(h, es, capacity, k);
      }
      forall k, j | 0 <= k < capacity && 0 <= j < |r[k]|
        ensures Among(r[k][j], es)
      {
        if r[k][j] == last {
          assert es[n] == r[k][j];
        } else {
          var i :| 0 <= i < |m[k]| && m[k][i] == r[k][j];
          assert Among(m[k][i], front);
          var l :| 0 <= l < n && front[l] == r[k][j];
          assert es[l] == r[k][j];
        }
      }
    }
  }

  lemma StoreFills(h: Hash, b: Buckets, e: Entry)
    requires Placed(h, b) && Accepted(e)
    ensures var r := SetEntry(h, b, e.key, e.value);
            && (forall k :: 0 <= k < |b| ==> (r[k] != [] <==> b[k] != [] || k == Index(h, e.key, |b|)))
            && (forall k, j :: 0 <= k < |b| && 0 <= j < |r[k]| ==> r[k][j] == e || r[k][j] in b[k])
  {
    hide HashOf, Matches, And, PowerOfTwo, DistinctKeys;
    IndexInRange(h, e.key, |b|);
  }

  lemma InBucketOfMore(h: Hash, es: seq<Entry>, capacity: nat, k: nat)
    requires Present(es) && capacity > 0 && es != []
    ensures var n := |es| - 1;
            InBucket(h, es, capacity, k) <==>
            InBucket(h, es[..n], capacity, k) || Index(h, es[n].key, capacity) == k
  {
    hide HashOf, And, Index;
    var n := |es| - 1;
    if InBucket(h, es[..n], capacity, k) {
      var i :| 0 <= i < n && Index(h, es[..n][i].key, capacity) == k;
      assert Index(h, es[i].key, capacity) == k;
    }
    if InBucket(h, es, capacity, k) {
      var i :| 0 <= i < |es| && Index(h, es[i].key, capacity) == k;
      assert i < n ==> Index(h, es[..n][i].key, capacity) == k;
    }
  }

  lemma TwoShareOfMore(h: Hash, es: seq<Entry>, capacity: nat)
    requires Present(es) && capacity > 0 && es != []
    ensures var n := |es| - 1;
            TwoShare(h, es, capacity) <==>
            TwoShare(h, es[..n], capacity) || InBucket(h, es[..n], capacity, Index(h, es[n].key, capacity))
  {
    hide HashOf, And, Index;
    var n := |es| - 1;
    var front := es[..n];
    if TwoShare(h, front, capacity) {
      var i, j :| 0 <= i < j < n && Index(h, front[i].key, capacity) == Index(h, front[j].key, capacity);
      assert Index(h, es[i].key, capacity) == Index(h, es[j].key, capacity);
    }
    if InBucket(h, front, capacity, Index(h, es[n].key, capacity)) {
      var i :| 0 <= i < n && Index(h, front[i].key, capacity) == Index(h, es[n].key, capacity);
      assert Index(h, es[i].key, capacity) == Index(h, es[n].key, capacity);
    }
    if TwoShare(h, es, capacity) {
      var i, j :| 0 <= i < j < |es| && Index(h, es[i].key, capacity) == Index(h, es[j].key, capacity);
      assert es[i] == front[i];
      if j < n {
        assert es[j] == front[j];
        assert Index(h, front[i].key, capacity) == Index(h, front[j].key, capacity);
      } else {
        assert Index(h, front[i].key, capacity) == Index(h, es[n].key, capacity);
      }
    }
  }

  /** A resize reads the null link exactly when two stored entries share a bucket at the new capacity. */
  lemma {:induction false} RehashReadsNullExactly(h: Hash, capacity: nat, es: seq<Entry>)
    requires PowerOfTwo(capacity) && Placed(h, Empty(capacity)) && Present(es) && DistinctKeys(h, es)
    ensures StoresReadNull(h, Empty(capacity), es) <==> TwoShare(h, es, capacity)
  {
    hide HashOf, Matches, And, Index, Placed, SetEntry, TwoShare, InBucket, StoreReadsNull;
    if es == [] {
      NoneShare(h, capacity);
    } else {
      var n := |es| - 1;
      RehashReadsNullExactly(h, capacity, es[..n]);
      TwoShareOfMore(h, es, capacity);
      LastReadsNull(h, capacity, es);
    }
  }

  lemma NoneShare(h: Hash, capacity: nat)
    requires capacity > 0
    ensures !TwoShare(h, [], capacity)
  {
  }

  lemma LastReadsNull(h: Hash, capacity: nat, es: seq<Entry>)
    requires PowerOfTwo(capacity) && Placed(h, Empty(capacity)) && Present(es) && DistinctKeys(h, es) && es != []
    ensures var n := |es| - 1;
            StoreReadsNull(h, SetAll(h, Empty(capacity), es[..n]), es[n].key) <==>
            InBucket(h, es[..n], capacity, Index(h, es[n].key, capacity))
  {
    hide HashOf, Matches, And, Index, SetEntry, PowerOfTwo, InBucket, SetAll;
    var n := |es| - 1;
    var front, last := es[..n], es[n];
    FilledFrom(h, capacity, front);
    IndexInRange(h, last.key, capacity);
    var chain := SetAll(h, Empty(capacity), front)[Index(h, last.key, capacity)];
    forall i | 0 <= i < |chain|
      ensures !Matches(h, chain[i].key, last.key)
    {
      assert Among(chain[i], front);
      var j :| 0 <= j < n && front[j] == chain[i];
      assert !Matches(h, es[j].key, es[n].key);
    }
    assert Find(h, chain, last.key) == |chain|;
  }

  // ---------------------------------------------------------------- stores into tables

  /** What hashtable_set does: the resize, or the store behind it. */
  predicate SetReadsNull(h: Hash, t: TableState, key: Value, value: Value)
    requires Placed(h, t.buckets)
  {
    && Accepted(Entry(key, value))
    && (GrowReadsNull(h, t) || StoreReadsNull(h, Grown(h, t).buckets, key))
  }

  predicate GrowReadsNull(h: Hash, t: TableState)
    requires Placed(h, t.buckets)
  {
    Full(t) && ResizeReadsNull(h, t.buckets, 2 * |t.buckets|)
  }

  predicate ResizeReadsNull(h: Hash, b: Buckets, capacity: nat)
    requires Placed(h, b) && PowerOfTwo(capacity)
  {
    EmptyIsPlaced(h, capacity);
    FlatIsPresent(b);
    StoresReadNull(h, Empty(capacity), Flat(b))
  }

  /** In terms of the table alone: two stored entries share a bucket at the new capacity of a full table, or the
      bucket of the key in the table about to be written is not empty and holds no match. */
  lemma SetReadsNullExactly(h: Hash, t: TableState, key: Value, value: Value)
    requires Placed(h, t.buckets) && Accepted(Entry(key, value))
    ensures AllPresent(t.buckets) && Present(Flat(t.buckets))
    ensures SetReadsNull(h, t, key, value) <==>
            || (Full(t) && TwoShare(h, Flat(t.buckets), 2 * |t.buckets|))
            || StoreReadsNull(h, Grown(h, t).buckets, key)
  {
    hide HashOf, Matches, And, Index, SetEntry, TwoShare, StoreReadsNull, StoresReadNull, Flat, Rehash;
    PlacedIsDistinct(h, t.buckets);
    EmptyIsPlaced(h, 2 * |t.buckets|);
    RehashReadsNullExactly(h, 2 * |t.buckets|, Flat(t.buckets));
  }

  lemma SetAndSingle(h: Hash, t: TableState, key: Value, value: Value)
    requires Placed(h, t.buckets) && Single(t.buckets)
    ensures Single(TableSet(h, t, key, value).0.buckets) <==> !SetReadsNull(h, t, key, value)
  {
    hide HashOf, Matches, And, Index, SetEntry, StoreReadsNull, StoresReadNull, Flat, SetAll;
    if Accepted(Entry(key, value)) {
      var g := Grown(h, t);
      if Full(t) {
        EmptyIsPlaced(h, 2 * |t.buckets|);
        FlatIsPresent(t.buckets);
        StoresAndSingle(h, Empty(2 * |t.buckets|), Flat(t.buckets));
      }
      StoreAndSingle(h, g.buckets, key, value);
    }
  }

  // ---------------------------------------------------------------- runs

  /** One of the stores of a run reads the null link. */
  predicate RunReadsNull(h: Hash, t: TableState, ops: seq<Entry>)
    requires Placed(h, t.buckets)
  {
    ops != [] && (RunReadsNull(h, t, ops[..|ops| - 1])
                  || SetReadsNull(h, Run(h, t, ops[..|ops| - 1]), ops[|ops| - 1].key, ops[|ops| - 1].value))
  }

  /** A run reads the null link exactly when some prefix of it leaves the table so that the next store does. */
  lemma {:induction false} RunReadsNullExactly(h: Hash, t: TableState, ops: seq<Entry>)
    requires Placed(h, t.buckets)
    ensures RunReadsNull(h, t, ops) <==>
            exists n :: 0 <= n < |ops| && SetReadsNull(h, Run(h, t, ops[..n]), ops[n].key, ops[n].value)
  {
    hide SetReadsNull, Run, Placed;
    if ops != [] {
      var last := |ops| - 1;
      var front := ops[..last];
      RunReadsNullExactly(h, t, front);
      forall n | 0 <= n < last
        ensures front[..n] == ops[..n] && front[n] == ops[n]
      {
      }
      if RunReadsNull(h, t, front) {
        var n :| 0 <= n < last && SetReadsNull(h, Run(h, t, front[..n]), front[n].key, front[n].value);
        assert SetReadsNull(h, Run(h, t, ops[..n]), ops[n].key, ops[n].value);
      }
      if n :| 0 <= n < last && SetReadsNull(h, Run(h, t, ops[..n]), ops[n].key, ops[n].value) {
        assert SetReadsNull(h, Run(h, t, front[..n]), front[n].key, front[n].value);
      }
    }
  }

  /** A run on a new table is free of the read exactly when at no time two stored keys share a bucket. */
  lemma {:induction false} FreeRunsExactly(h: Hash, t: TableState, ops: seq<Entry>)
    requires Placed(h, t.buckets) && Single(t.buckets)
    ensures !RunReadsNull(h, t, ops) <==> forall n :: 0 <= n <= |ops| ==> Single(Run(h, t, ops[..n]).buckets)
  {
    hide SetReadsNull, TableSet, Placed, Single;
    assert ops[..|ops|] == ops;
    if ops == [] {
      assert Run(h, t, ops[..0]) == t;
    } else {
      var last := |ops| - 1;
      var front := ops[..last];
      FreeRunsExactly(h, t, front);
      assert forall n :: 0 <= n <= last ==> front[..n] == ops[..n];
      var m := Run(h, t, front);
      if Single(m.buckets) {
        SetAndSingle(h, m, ops[last].key, ops[last].value);
      }
      assert Run(h, t, ops) == TableSet(h, m, ops[last].key, ops[last].value).0;
    }
  }

  lemma NewIsSingle(h: Hash, loadFactor: real, capacity: int)
    requires NewTable(loadFactor, capacity).Some?
    ensures var t := NewTable(loadFactor, capacity).value; Placed(h, t.buckets) && Single(t.buckets)
  {
    hide Placed;
    NewTableIsEmpty(h, loadFactor, capacity);
  }

  /** Two plain keys are enough, whatever the hash: both go into the one bucket of a table with room. */
  lemma TwoKeysReadNull(h: Hash)
    ensures NewTable(1000.0, 1) == Some(ONE_BUCKET) && Placed(h, ONE_BUCKET.buckets)
    ensures RunReadsNull(h, ONE_BUCKET, [Entry(Long(1), Nil), Entry(Long(2), Nil)])
  {
    hide SetReadsNull, Run, HashOf, Placed, NewTable;
    var e, f := Entry(Long(1), Nil), Entry(Long(2), Nil);
    OneBucketIsNew(h);
    TwoInOneBucket(h, e, f);
    SecondReadsNull(h, Run(h, ONE_BUCKET, [e]), e, f);
    assert [e, f][..1] == [e];
  }

  lemma SecondReadsNull(h: Hash, t: TableState, e: Entry, f: Entry)
    requires Placed(h, t.buckets) && t == TableState([[e]], 1000.0, 1)
    requires Accepted(e) && Accepted(f) && !ValueEquals(e.key, f.key)
    ensures SetReadsNull(h, t, f.key, f.value)
  {
    hide HashOf, ValueEquals, StoresReadNull, Full;
    RoomForTwo();
    IndexInRange(h, f.key, 1);
    assert Find(h, [e], f.key) == 1;
  }
}
