/** Where entries are in a table: a store changes one place, and growing keeps the order of the entries that stay
    together. The iteration visits them in this order. */
module TableOrder {
  import opened Bits
  import opened Values
  import opened ChainedTable
  import opened NullLinks

  /** A store changes its bucket only: the first match becomes the new entry, key and all, where it is; without one, the
      new entry goes behind all others. */
  lemma StoreChangesOnePlace(h: Hash, b: Buckets, key: Value, value: Value, i: nat)
    requires Placed(h, b) && !key.NotPresent? && !value.NotPresent?
    ensures Index(h, key, |b|) < |b|
    ensures var k, r := Index(h, key, |b|), SetEntry(h, b, key, value);
            && |r| == |b| && (forall l :: 0 <= l < |b| && l != k ==> r[l] == b[l])
            && (i < |b[k]| && Matches(h, b[k][i].key, key)
                && (forall j :: 0 <= j < i ==> !Matches(h, b[k][j].key, key)) ==>
                  r[k] == b[k][i := Entry(key, value)])
            && ((forall j :: 0 <= j < |b[k]| ==> !Matches(h, b[k][j].key, key)) ==>
                  r[k] == b[k] + [Entry(key, value)])
  {
    hide And, Matches, DistinctKeys;
    IndexInRange(h, key, |b|);
  }

  /** The entries of a bucket, in their order. */
  function Selected(h: Hash, es: seq<Entry>, capacity: nat, k: nat): seq<Entry>
    requires Present(es) && capacity > 0
  {
    if es == [] then []
    else
      var last := es[|es| - 1];
      Selected(h, es[..|es| - 1], capacity, k) + if Index(h, last.key, capacity) == k then [last] else []
  }

  /** Every bucket of a rehashed table holds the entries that belong there, in the order in which the old table had
      them. */
  lemma RehashKeepsOrder(h: Hash, b: Buckets, capacity: nat, k: nat)
    requires Placed(h, b) && PowerOfTwo(capacity) && 0 < capacity && k < capacity
    ensures Present(Flat(b)) && Rehash(h, b, capacity)[k] == Selected(h, Flat(b), capacity, k)
  {
    hide And, Flat, SetAll, Placed, PowerOfTwo, DistinctKeys;
    FlatIsPresentIn(h, b);
    PlacedIsDistinct(h, b);
    EmptyIsPlaced(h, capacity);
    FilledInOrder(h, capacity, Flat(b), k);
  }

  lemma FlatIsPresentIn(h: Hash, b: Buckets)
    requires Placed(h, b)
    ensures AllPresent(b)
  {
  }

  lemma {:induction false} FilledInOrder(h: Hash, capacity: nat, es: seq<Entry>, k: nat)
    requires PowerOfTwo(capacity) && 0 < capacity && k < capacity && Placed(h, Empty(capacity))
    requires Present(es) && DistinctKeys(h, es)
    ensures SetAll(h, Empty(capacity), es)[k] == Selected(h, es, capacity, k)
  {
    hide And, Index, Matches, HashOf, Placed, PowerOfTwo;
    if es != [] {
      var n := |es| - 1;
      var front, last := es[..n], es[n];
      FilledInOrder(h, capacity, front, k);
      AppendedLast(h, capacity, es, SetAll(h, Empty(capacity), front), k);
    }
  }

  lemma AppendedLast(h: Hash, capacity: nat, es: seq<Entry>, b: Buckets, k: nat)
    requires es != [] && Present(es) && DistinctKeys(h, es) && PowerOfTwo(capacity) && 0 < capacity && k < capacity
    requires Placed(h, Empty(capacity)) && Placed(h, b) && b == SetAll(h, Empty(capacity), es[..|es| - 1])
    ensures |b| == capacity
    ensures var last := es[|es| - 1];
            SetEntry(h, b, last.key, last.value)[k]
            == b[k] + if Index(h, last.key, capacity) == k then [last] else []
  {
    hide And, HashOf, Placed, PowerOfTwo, SetAll, Index, Matches;
    var n := |es| - 1;
    var last := es[n];
    FilledFrom(h, capacity, es[..n]);
    IndexInRange(h, last.key, capacity);
    LastReadsNull(h, capacity, es);
    var chain := b[Index(h, last.key, capacity)];
    forall j | 0 <= j < |chain|
      ensures !Matches(h, chain[j].key, last.key)
    {
      assert Among(chain[j], es[..n]);
      var i :| 0 <= i < n && es[..n][i] == chain[j];
      assert !Matches(h, es[i].key, es[n].key);
    }
    PlacedIsPresent(h, b);
    assert Entry(last.key, last.value) == last;
    StoreChangesOnePlace(h, b, last.key, last.value, 0);
  }

  lemma PlacedIsPresent(h: Hash, b: Buckets)
    requires Placed(h, b)
    ensures AllPresent(b)
  {
  }
}
