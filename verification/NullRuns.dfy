/** Which runs of stores read through a null link, in terms of what is stored: the keys, and the capacity at each store,
    which the number of stores determines. */
module NullRuns {
  import opened Arithmetic
  import opened Bits
  import opened Values
  import opened ChainedTable
  import opened TableLaws
  import opened NullLinks

  // ---------------------------------------------------------------- capacities

  /** How many stores of a run are accepted. */
  function Stores(ops: seq<Entry>): nat {
    if ops == [] then 0 else Stores(ops[..|ops| - 1]) + if Accepted(ops[|ops| - 1]) then 1 else 0
  }

  /** The capacity after a number of stores, and at the last of them. */
  function CapacityAt(loadFactor: real, capacity: nat, stores: nat): nat {
    if stores == 0 then capacity
    else
      var n := CapacityAt(loadFactor, capacity, stores - 1);
      if stores as real >= Threshold(n, loadFactor) then 2 * n else n
  }

  lemma {:induction false} RunSize(h: Hash, t: TableState, ops: seq<Entry>)
    requires Placed(h, t.buckets) && t.usage == 0
    ensures var r := Run(h, t, ops);
            && r.usage == Stores(ops) && r.loadFactor == t.loadFactor
            && |r.buckets| == CapacityAt(t.loadFactor, |t.buckets|, r.usage) > 0
  {
    hide Placed, TableSet, Threshold;
    if ops == [] {
      PlacedHasBuckets(h, t.buckets);
    } else {
      var front, op := ops[..|ops| - 1], ops[|ops| - 1];
      RunSize(h, t, front);
      StoreSize(h, Run(h, t, front), op);
    }
  }

  lemma PlacedHasBuckets(h: Hash, b: Buckets)
    requires Placed(h, b)
    ensures |b| > 0
  {
  }

  lemma StoreSize(h: Hash, t: TableState, op: Entry)
    requires Placed(h, t.buckets)
    ensures var r := TableSet(h, t, op.key, op.value).0;
            && r.loadFactor == t.loadFactor
            && r.usage == t.usage + (if Accepted(op) then 1 else 0)
            && |r.buckets| == if Accepted(op) && Full(t) then 2 * |t.buckets| else |t.buckets|
  {
    hide Placed, Rehash, SetEntry, Threshold;
  }

  // ---------------------------------------------------------------- clashes

  /** An earlier key has the bucket of a new one and is not overwritten by it. */
  ghost predicate Clash(h: Hash, ops: seq<Entry>, key: Value, capacity: nat)
    requires !key.NotPresent? && capacity > 0
  {
    exists i :: 0 <= i < |ops| && Accepted(ops[i]) && Shares(h, ops[i].key, key, capacity)
  }

  ghost predicate Shares(h: Hash, earlier: Value, key: Value, capacity: nat)
    requires !earlier.NotPresent? && !key.NotPresent? && capacity > 0
  {
    Index(h, earlier, capacity) == Index(h, key, capacity) && !Matches(h, earlier, key)
  }

  /** Two stores of a run clash, at the capacity of the later one. */
  ghost predicate KeysClash(h: Hash, loadFactor: real, capacity: nat, ops: seq<Entry>) {
    exists j :: 0 <= j < |ops| && ClashAt(h, loadFactor, capacity, ops, j)
  }

  ghost predicate ClashAt(h: Hash, loadFactor: real, capacity: nat, ops: seq<Entry>, j: nat)
    requires j < |ops|
  {
    var size := CapacityAt(loadFactor, capacity, Stores(ops[..j]) + 1);
    Accepted(ops[j]) && size > 0 && Clash(h, ops[..j], ops[j].key, size)
  }

  lemma KeysClashInMore(h: Hash, loadFactor: real, capacity: nat, ops: seq<Entry>)
    requires ops != []
    ensures var n := |ops| - 1;
            KeysClash(h, loadFactor, capacity, ops) <==>
            KeysClash(h, loadFactor, capacity, ops[..n]) || ClashAt(h, loadFactor, capacity, ops, n)
  {
    hide Clash, CapacityAt, Stores;
    var n := |ops| - 1;
    forall j | 0 <= j < n
      ensures ClashAt(h, loadFactor, capacity, ops[..n], j) <==> ClashAt(h, loadFactor, capacity, ops, j)
    {
      assert ops[..n][..j] == ops[..j];
    }
  }

  // ---------------------------------------------------------------- what single buckets hold

  /** Every pair is one that was stored, and the bucket of every key that was stored begins with it. */
  ghost predicate Covers(h: Hash, b: Buckets, ops: seq<Entry>)
    requires Placed(h, b)
  {
    PlacedHasBuckets(h, b);
    && (forall k :: 0 <= k < |b| && b[k] != [] ==> Known(h, ops, b[k][0].key))
    && (forall i :: 0 <= i < |ops| && Accepted(ops[i]) ==> Holds(h, b, ops[i].key))
  }

  ghost predicate Known(h: Hash, ops: seq<Entry>, key: Value)
    requires !key.NotPresent?
  {
    exists i :: 0 <= i < |ops| && Accepted(ops[i]) && KeyOf(h, ops[i].key) == KeyOf(h, key)
  }

  ghost predicate Holds(h: Hash, b: Buckets, key: Value)
    requires Placed(h, b) && !key.NotPresent?
  {
    IndexInRange(h, key, |b|);
    var chain := b[Index(h, key, |b|)];
    chain != [] && KeyOf(h, chain[0].key) == KeyOf(h, key)
  }

  lemma KnownInMore(h: Hash, ops: seq<Entry>, op: Entry, key: Value)
    requires !key.NotPresent?
    ensures Known(h, ops, key) ==> Known(h, ops + [op], key)
    ensures Accepted(op) && KeyOf(h, op.key) == KeyOf(h, key) ==> Known(h, ops + [op], key)
  {
    hide KeyOf;
    if i :| 0 <= i < |ops| && Accepted(ops[i]) && KeyOf(h, ops[i].key) == KeyOf(h, key) {
      assert (ops + [op])[i] == ops[i];
    }
    assert (ops + [op])[|ops|] == op;
  }

  /** A store into single buckets appends behind a pair exactly when its key clashes. */
  lemma StoreReadsNullOnClash(h: Hash, b: Buckets, ops: seq<Entry>, key: Value)
    requires Placed(h, b) && Single(b) && Covers(h, b, ops) && !key.NotPresent? && |b| > 0
    ensures StoreReadsNull(h, b, key) <==> Clash(h, ops, key, |b|)
  {
    hide And, HashOf, PowerOfTwo, DistinctKeys, Matches;
    IndexInRange(h, key, |b|);
    var k := Index(h, key, |b|);
    if b[k] != [] {
      var y := b[k][0].key;
      MatchesIsKeyEquality(h, y, key);
      assert b[k] == [b[k][0]];
      var i :| 0 <= i < |ops| && Accepted(ops[i]) && KeyOf(h, ops[i].key) == KeyOf(h, y);
      MatchesIsKeyEquality(h, ops[i].key, key);
      assert StoreReadsNull(h, b, key) ==> Shares(h, ops[i].key, key, |b|);
    }
    if i :| 0 <= i < |ops| && Accepted(ops[i]) && Shares(h, ops[i].key, key, |b|) {
      assert Holds(h, b, ops[i].key);
      MatchesIsKeyEquality(h, ops[i].key, key);
      MatchesIsKeyEquality(h, b[k][0].key, key);
    }
  }

  lemma StoreCovers(h: Hash, b: Buckets, ops: seq<Entry>, op: Entry)
    requires Placed(h, b) && Single(b) && Covers(h, b, ops) && Accepted(op)
    requires !StoreReadsNull(h, b, op.key)
    ensures var r := SetEntry(h, b, op.key, op.value); Placed(h, r) && Covers(h, r, ops + [op])
  {
    hide And, HashOf, PowerOfTwo, DistinctKeys, Matches, Known;
    SetEntryIsPlaced(h, b, op.key, op.value);
    IndexInRange(h, op.key, |b|);
    var k, r := Index(h, op.key, |b|), SetEntry(h, b, op.key, op.value);
    assert r[k] == [op];
    forall l | 0 <= l < |r| && r[l] != []
      ensures Known(h, ops + [op], r[l][0].key)
    {
      KnownInMore(h, ops, op, r[l][0].key);
    }
    forall i | 0 <= i < |ops + [op]| && Accepted((ops + [op])[i])
      ensures Holds(h, r, (ops + [op])[i].key)
    {
      var key := (ops + [op])[i].key;
      IndexInRange(h, key, |b|);
      if i < |ops| {
        assert Holds(h, b, ops[i].key);
        if Index(h, key, |b|) == k {
          assert Matches(h, b[k][0].key, op.key);
          MatchesIsKeyEquality(h, b[k][0].key, op.key);
        } else {
          assert r[Index(h, key, |b|)] == b[Index(h, key, |b|)];
        }
      }
    }
  }

  // ---------------------------------------------------------------- growing

  /** Keys with the same bucket in twice the capacity have the same bucket. */
  lemma IndexOfDouble(h: Hash, a: Value, b: Value, capacity: nat)
    requires !a.NotPresent? && !b.NotPresent? && PowerOfTwo(capacity) && PowerOfTwo(2 * capacity) && capacity > 0
    ensures Index(h, a, 2 * capacity) == Index(h, b, 2 * capacity) ==> Index(h, a, capacity) == Index(h, b, capacity)
  {
    hide PowerOfTwo, HashOf;
    MaskIsRemainder(HashOf(h, a), capacity);
    MaskIsRemainder(HashOf(h, b), capacity);
    MaskIsRemainder(HashOf(h, a), 2 * capacity);
    MaskIsRemainder(HashOf(h, b), 2 * capacity);
    RemainderOfDouble(HashOf(h, a), capacity);
    RemainderOfDouble(HashOf(h, b), capacity);
  }

  lemma RemainderOfDouble(x: nat, m: nat)
    requires m > 0
    ensures x % (2 * m) % m == x % m
  {
    var q, r := x / (2 * m), x % (2 * m);
    assert x == q * (2 * m) + r;
    assert q * (2 * m) == (2 * q) * m;
    ModMultiple(r, 2 * q, m);
  }

  lemma NoTwoShare(h: Hash, b: Buckets)
    requires Placed(h, b) && Single(b) && PowerOfTwo(2 * |b|) && |b| > 0
    ensures AllPresent(b) && Present(Flat(b)) && !TwoShare(h, Flat(b), 2 * |b|)
  {
    hide And, HashOf, PowerOfTwo, DistinctKeys, Matches, Flat, Index;
    FlatIsPresent(b);
    var es := Flat(b);
    forall p, q | 0 <= p < q < |es|
      ensures Index(h, es[p].key, 2 * |b|) != Index(h, es[q].key, 2 * |b|)
    {
      var k, i := FlatLocate(b, p);
      var l, j := FlatLocate(b, q);
      assert i == 0 && j == 0;
      IndexOfDouble(h, es[p].key, es[q].key, |b|);
    }
  }

  lemma GrowsSilently(h: Hash, b: Buckets)
    requires Placed(h, b) && Single(b) && PowerOfTwo(2 * |b|) && |b| > 0
    ensures !ResizeReadsNull(h, b, 2 * |b|) && Single(Rehash(h, b, 2 * |b|))
  {
    hide Placed, StoresReadNull, SetAll, TwoShare, Flat, PowerOfTwo, DistinctKeys;
    NoTwoShare(h, b);
    PlacedIsDistinct(h, b);
    EmptyIsPlaced(h, 2 * |b|);
    RehashReadsNullExactly(h, 2 * |b|, Flat(b));
    StoresAndSingle(h, Empty(2 * |b|), Flat(b));
  }

  lemma GrownCovers(h: Hash, b: Buckets, ops: seq<Entry>)
    requires Placed(h, b) && Single(b) && Covers(h, b, ops) && PowerOfTwo(2 * |b|) && |b| > 0
    ensures Covers(h, Rehash(h, b, 2 * |b|), ops)
  {
    hide And, PowerOfTwo, DistinctKeys, Matches, Flat, Index, Known, SetAll, KeyOf, HashOf, TwoShare, InBucket;
    var es := Flat(b);
    var r: Buckets := Rehash(h, b, 2 * |b|);
    NoTwoShare(h, b);
    EmptyIsPlaced(h, 2 * |b|);
    FilledFrom(h, 2 * |b|, es);
    forall k | 0 <= k < |r| && r[k] != []
      ensures Known(h, ops, r[k][0].key)
    {
      assert Among(r[k][0], es);
      var p :| 0 <= p < |es| && es[p] == r[k][0];
      var l, i := FlatLocate(b, p);
    }
    forall i | 0 <= i < |ops| && Accepted(ops[i])
      ensures Holds(h, r, ops[i].key)
    {
      assert Holds(h, b, ops[i].key);
      HeldAfterwards(h, b, r, ops[i].key);
    }
  }

  lemma HeldAfterwards(h: Hash, b: Buckets, r: Buckets, key: Value)
    requires Placed(h, b) && Placed(h, r) && |r| > 0 && !key.NotPresent? && Holds(h, b, key)
    requires Present(Flat(b)) && !TwoShare(h, Flat(b), |r|) && FilledBy(h, r, Flat(b))
    ensures Holds(h, r, key)
  {
    hide And, PowerOfTwo, DistinctKeys, Matches, Flat;
    var es := Flat(b);
    IndexInRange(h, key, |b|);
    IndexInRange(h, key, |r|);
    var l, k := Index(h, key, |b|), Index(h, key, |r|);
    var x := b[l][0];
    FlatOverwritten(b, l, 0, x);
    var q := |Flat(b[..l])|;
    assert KeyOf(h, x.key) == KeyOf(h, key);
    assert Index(h, es[q].key, |r|) == k;
    assert InBucket(h, es, |r|, k);
    assert Among(r[k][0], es);
    var p :| 0 <= p < |es| && es[p] == r[k][0];
    assert Index(h, es[p].key, |r|) == k;
    assert p == q;
  }

  // ---------------------------------------------------------------- runs

  /** A run on a new table reads the null link exactly when two of its keys clash; as long as none do, no bucket holds
      two pairs. */
  lemma {:induction false} RunClashes(h: Hash, t: TableState, ops: seq<Entry>)
    requires Placed(h, t.buckets) && Single(t.buckets) && t.usage == 0 && Covers(h, t.buckets, [])
    ensures RunReadsNull(h, t, ops) <==> KeysClash(h, t.loadFactor, |t.buckets|, ops)
    ensures !RunReadsNull(h, t, ops) ==>
              var b := Run(h, t, ops).buckets; Single(b) && Covers(h, b, ops)
  {
    hide Placed, SetReadsNull, Covers, Single, KeysClash, ClashAt, TableSet;
    if ops == [] {
      NoClashes(h, t);
    } else {
      var n := |ops| - 1;
      var front, op := ops[..n], ops[n];
      RunClashes(h, t, front);
      KeysClashInMore(h, t.loadFactor, |t.buckets|, ops);
      if !RunReadsNull(h, t, front) {
        RunSize(h, t, front);
        SetClashes(h, Run(h, t, front), t.loadFactor, |t.buckets|, ops);
      }
    }
  }

  lemma NoClashes(h: Hash, t: TableState)
    ensures !KeysClash(h, t.loadFactor, |t.buckets|, [])
  {
  }

  lemma SetClashes(h: Hash, s: TableState, loadFactor: real, capacity: nat, ops: seq<Entry>)
    requires ops != [] && Placed(h, s.buckets) && Single(s.buckets) && Covers(h, s.buckets, ops[..|ops| - 1])
    requires s.loadFactor == loadFactor && s.usage == Stores(ops[..|ops| - 1])
    requires |s.buckets| == CapacityAt(loadFactor, capacity, s.usage) > 0
    ensures var n := |ops| - 1;
            var r := TableSet(h, s, ops[n].key, ops[n].value).0;
            && (SetReadsNull(h, s, ops[n].key, ops[n].value) <==> ClashAt(h, loadFactor, capacity, ops, n))
            && (!SetReadsNull(h, s, ops[n].key, ops[n].value) ==>
                  Single(r.buckets) && Covers(h, r.buckets, ops))
  {
    hide Placed, Covers, Single, StoreReadsNull, ResizeReadsNull, SetEntry, Rehash, Clash, Threshold, Stores;
    hide PowerOfTwo;
    var n := |ops| - 1;
    var front, op := ops[..n], ops[n];
    assert front + [op] == ops;
    if Accepted(op) {
      var g := Grown(h, s);
      GrownTable(h, s, front);
      StoreReadsNullOnClash(h, g.buckets, front, op.key);
      if !StoreReadsNull(h, g.buckets, op.key) {
        StoreCovers(h, g.buckets, front, op);
        StoreAndSingle(h, g.buckets, op.key, op.value);
      }
    } else {
      RefusedCovers(h, s.buckets, front, op);
    }
  }

  lemma GrownTable(h: Hash, s: TableState, ops: seq<Entry>)
    requires Placed(h, s.buckets) && Single(s.buckets) && Covers(h, s.buckets, ops)
    ensures var g := Grown(h, s);
            && !GrowReadsNull(h, s) && Single(g.buckets) && Covers(h, g.buckets, ops)
            && |g.buckets| == (if Full(s) then 2 * |s.buckets| else |s.buckets|) > 0
  {
    hide Covers, Single, ResizeReadsNull, Rehash, Threshold;
    if Full(s) {
      GrowsSilently(h, s.buckets);
      GrownCovers(h, s.buckets, ops);
    }
  }

  lemma RefusedCovers(h: Hash, b: Buckets, ops: seq<Entry>, op: Entry)
    requires Placed(h, b) && Covers(h, b, ops) && !Accepted(op)
    ensures Covers(h, b, ops + [op])
  {
    hide PowerOfTwo, DistinctKeys, Known, Holds;
    forall k | 0 <= k < |b| && b[k] != []
      ensures Known(h, ops + [op], b[k][0].key)
    {
      KnownInMore(h, ops, op, b[k][0].key);
    }
  }

  /** The run of the code as it is written: nothing can be said behind a read through the null link. */
  function AsWritten(h: Hash, t: TableState, ops: seq<Entry>): (r: Option<TableState>)
    requires Placed(h, t.buckets)
    ensures r.Some? ==> Placed(h, r.value.buckets)
  {
    if ops == [] then Some(t)
    else
      var op := ops[|ops| - 1];
      match AsWritten(h, t, ops[..|ops| - 1])
      case None => None
      case Some(s) => if SetReadsNull(h, s, op.key, op.value) then None else Some(TableSet(h, s, op.key, op.value).0)
  }

  lemma {:induction false} AsWrittenIsRun(h: Hash, t: TableState, ops: seq<Entry>)
    requires Placed(h, t.buckets)
    ensures AsWritten(h, t, ops) == if RunReadsNull(h, t, ops) then None else Some(Run(h, t, ops))
  {
    hide Placed, SetReadsNull, TableSet;
    if ops != [] {
      AsWrittenIsRun(h, t, ops[..|ops| - 1]);
    }
  }

  /** The code as written, on a new table: the run is defined exactly when no two of its keys clash, and a lookup then
      returns the value last stored under an equal key of equal hash. */
  lemma LookupAsWritten(h: Hash, loadFactor: real, capacity: int, ops: seq<Entry>, key: Value)
    requires NewTable(loadFactor, capacity).Some? && !key.NotPresent?
    requires Placed(h, NewTable(loadFactor, capacity).value.buckets)
    ensures var r := AsWritten(h, NewTable(loadFactor, capacity).value, ops);
            && (r.Some? <==> !KeysClash(h, loadFactor, capacity, ops))
            && (r.Some? ==> Lookup(h, r.value.buckets, key) == LastSet(h, ops, key))
  {
    hide NewTable, Placed, AsWritten, KeysClash, RunReadsNull, Lookup, Covers, Single;
    var t := NewTable(loadFactor, capacity).value;
    NewTableIsEmpty(h, loadFactor, capacity);
    NewIsSingle(h, loadFactor, capacity);
    NewCovers(h, loadFactor, capacity);
    AsWrittenIsRun(h, t, ops);
    RunClashes(h, t, ops);
    LookupAfterRun(h, loadFactor, capacity, ops, key);
  }

  lemma NewCovers(h: Hash, loadFactor: real, capacity: int)
    requires NewTable(loadFactor, capacity).Some?
    requires Placed(h, NewTable(loadFactor, capacity).value.buckets)
    ensures Covers(h, NewTable(loadFactor, capacity).value.buckets, [])
  {
    hide Placed, Known, Holds;
  }
}
