/** The chained hash table as sequences of buckets, and the map it stands for. */
module ChainedTable {
  import opened Arithmetic
  import opened Bits
  import opened Values

  datatype Entry = Entry(key: Value, value: Value)

  // ---------------------------------------------------------------- indices

  predicate PowerOfTwo(n: nat) {
    n == 1 || (n > 0 && n % 2 == 0 && PowerOfTwo(n / 2))
  }

  /** The capacity check of the constructor and of the resize: n & (n - 1) is zero exactly for powers of two. */
  lemma {:induction false} PowerOfTwoTest(n: nat)
    requires n > 0
    ensures And(n, n - 1) == 0 <==> PowerOfTwo(n)
  {
    if n > 1 {
      if n % 2 == 0 {
        assert (n - 1) % 2 == 1 && (n - 1) / 2 == n / 2 - 1;
        PowerOfTwoTest(n / 2);
      } else {
        assert (n - 1) / 2 == n / 2;
        AndSelf(n / 2);
      }
    }
  }

  /** Masking with capacity - 1 is the remainder by the capacity. */
  lemma {:induction false} MaskIsRemainder(hash: nat, capacity: nat)
    requires PowerOfTwo(capacity)
    ensures And(hash, capacity - 1) == hash % capacity
    decreases capacity
  {
    hide And;
    if capacity == 1 {
      AndZero(hash);
    } else {
      var half := capacity / 2;
      assert capacity == 2 * half && capacity - 1 == 2 * (half - 1) + 1;
      AndOdd(hash, half - 1);
      MaskIsRemainder(hash / 2, half);
      RemainderByDouble(hash, half);
    }
  }

  lemma AndZero(a: nat)
    ensures And(a, 0) == 0
  {
  }

  lemma AndOdd(a: nat, c: nat)
    ensures And(a, 2 * c + 1) == 2 * And(a / 2, c) + a % 2
  {
    HalfOf(c, 1);
  }

  lemma RemainderByDouble(x: nat, m: nat)
    requires m > 0
    ensures x % (2 * m) == 2 * ((x / 2) % m) + x % 2
  {
    var q, r := (x / 2) / m, (x / 2) % m;
    assert x == 2 * (x / 2) + x % 2 && x / 2 == q * m + r;
    assert x == q * (2 * m) + (2 * r + x % 2);
    ModUnique(x, 2 * m, q, 2 * r + x % 2);
  }

  /** The bucket of a key: its hash masked with capacity - 1. */
  function Index(h: Hash, key: Value, capacity: nat): nat
    requires !key.NotPresent? && capacity > 0
  {
    And(HashOf(h, key), capacity - 1)
  }

  // ---------------------------------------------------------------- chains

  /** The comparison of the chain walk: hashes first, then values. */
  predicate Matches(h: Hash, a: Value, b: Value)
    requires !a.NotPresent? && !b.NotPresent?
  {
    HashOf(h, a) == HashOf(h, b) && ValueEquals(a, b)
  }

  lemma MatchesIsKeyEquality(h: Hash, a: Value, b: Value)
    requires !a.NotPresent? && !b.NotPresent?
    ensures Matches(h, a, b) <==> KeyOf(h, a) == KeyOf(h, b) && !IdOf(a).KNaN?
  {
    EqualityIsIdentityOfKeys(a, b);
  }

  ghost predicate Present(chain: seq<Entry>) {
    forall i :: 0 <= i < |chain| ==> !chain[i].key.NotPresent? && !chain[i].value.NotPresent?
  }

  /** The position of the first entry a key matches, or the length of the chain. */
  function Find(h: Hash, chain: seq<Entry>, key: Value): (i: nat)
    requires Present(chain) && !key.NotPresent?
    ensures i <= |chain|
    ensures i < |chain| ==> Matches(h, chain[i].key, key)
    ensures forall j :: 0 <= j < i ==> !Matches(h, chain[j].key, key)
  {
    if chain == [] then 0
    else if Matches(h, chain[0].key, key) then 0
    else 1 + Find(h, chain[1..], key)
  }

  /** set_entry within the right bucket: overwrite the first match, or append. */
  function ChainSet(h: Hash, chain: seq<Entry>, key: Value, value: Value): (r: seq<Entry>)
    requires Present(chain) && !key.NotPresent? && !value.NotPresent?
    ensures Present(r)
  {
    var i := Find(h, chain, key);
    if i < |chain| then chain[i := Entry(key, value)] else chain + [Entry(key, value)]
  }

  // ---------------------------------------------------------------- buckets

  type Buckets = seq<seq<Entry>>

  /** No two entries have the same key. (A NaN has no equal, so it may be there any number of times.) */
  ghost predicate DistinctKeys(h: Hash, es: seq<Entry>)
    requires Present(es)
  {
    forall i, j :: 0 <= i < j < |es| ==> !Matches(h, es[i].key, es[j].key)
  }

  ghost predicate AllPresent(b: Buckets) {
    forall k :: 0 <= k < |b| ==> Present(b[k])
  }

  /** Every entry is in the bucket its hash selects, and no bucket holds a key twice. */
  ghost predicate Placed(h: Hash, b: Buckets) {
    && PowerOfTwo(|b|) && AllPresent(b)
    && (forall k :: 0 <= k < |b| ==> DistinctKeys(h, b[k]))
    && (forall k, i :: 0 <= k < |b| && 0 <= i < |b[k]| ==> Index(h, b[k][i].key, |b|) == k)
  }

  function Empty(capacity: nat): Buckets {
    seq(capacity, _ => [])
  }

  function SetEntry(h: Hash, b: Buckets, key: Value, value: Value): (r: Buckets)
    requires Placed(h, b) && !key.NotPresent? && !value.NotPresent?
    ensures |r| == |b|
  {
    IndexInRange(h, key, |b|);
    var k := Index(h, key, |b|);
    b[k := ChainSet(h, b[k], key, value)]
  }

  function Lookup(h: Hash, b: Buckets, key: Value): Value
    requires Placed(h, b) && !key.NotPresent?
  {
    IndexInRange(h, key, |b|);
    var chain := b[Index(h, key, |b|)];
    var i := Find(h, chain, key);
    if i < |chain| then chain[i].value else NotPresent
  }

  lemma IndexInRange(h: Hash, key: Value, capacity: nat)
    requires !key.NotPresent? && PowerOfTwo(capacity)
    ensures Index(h, key, capacity) < capacity
  {
    MaskIsRemainder(HashOf(h, key), capacity);
  }

  lemma EmptyIsPlaced(h: Hash, capacity: nat)
    requires PowerOfTwo(capacity)
    ensures Placed(h, Empty(capacity)) && Flat(Empty(capacity)) == []
  {
    FlatOfEmpties(Empty(capacity));
  }

  lemma SetEntryIsPlaced(h: Hash, b: Buckets, key: Value, value: Value)
    requires Placed(h, b) && !key.NotPresent? && !value.NotPresent?
    ensures Placed(h, SetEntry(h, b, key, value))
  {
    IndexInRange(h, key, |b|);
    var k := Index(h, key, |b|);
    var i := Find(h, b[k], key);
    ChainSetIsDistinct(h, b[k], key, value);
    if i < |b[k]| {
      MatchesIsKeyEquality(h, b[k][i].key, key);
    }
  }

  lemma ChainSetIsDistinct(h: Hash, chain: seq<Entry>, key: Value, value: Value)
    requires Present(chain) && DistinctKeys(h, chain) && !key.NotPresent? && !value.NotPresent?
    ensures DistinctKeys(h, ChainSet(h, chain, key, value))
  {
    var i := Find(h, chain, key);
    var r := ChainSet(h, chain, key, value);
    forall p, q | 0 <= p < q < |r|
      ensures !Matches(h, r[p].key, r[q].key)
    {
      MatchesIsKeyEquality(h, r[p].key, r[q].key);
      if i < |chain| {
        MatchesIsKeyEquality(h, chain[i].key, key);
        MatchesIsKeyEquality(h, chain[p].key, chain[q].key);
      } else if q < |chain| {
        assert !Matches(h, chain[p].key, chain[q].key);
      }
    }
  }

  // ---------------------------------------------------------------- the map a table stands for

  /** All entries, bucket by bucket. */
  function Flat(b: Buckets): seq<Entry> {
    if b == [] then [] else Flat(b[..|b| - 1]) + b[|b| - 1]
  }

  /** Storing the entries one after the other into a map. */
  function MapOf(h: Hash, es: seq<Entry>): TableMap
    requires Present(es)
  {
    if es == [] then map[]
    else MapSet(MapOf(h, es[..|es| - 1]), h, es[|es| - 1].key, es[|es| - 1].value)
  }

  function Contents(h: Hash, b: Buckets): TableMap
    requires AllPresent(b)
  {
    FlatIsPresent(b);
    MapOf(h, Flat(b))
  }

  lemma {:induction false} FlatIsPresent(b: Buckets)
    requires AllPresent(b)
    ensures Present(Flat(b))
  {
    if b != [] {
      FlatIsPresent(b[..|b| - 1]);
    }
  }

  lemma {:induction false} FlatOfEmpties(b: Buckets)
    requires forall k :: 0 <= k < |b| ==> b[k] == []
    ensures Flat(b) == []
  {
    if b != [] {
      FlatOfEmpties(b[..|b| - 1]);
    }
  }

  lemma {:induction false} FlatSplit(b: Buckets, k: nat)
    requires k < |b|
    ensures Flat(b) == Flat(b[..k]) + b[k] + Flat(b[k + 1..])
    decreases |b|
  {
    var n := |b| - 1;
    if k == n {
      assert b[k + 1..] == [];
    } else {
      FlatSplit(b[..n], k);
      assert b[..n][..k] == b[..k] && b[..n][k + 1..] == b[k + 1..n];
      assert b[k + 1..][..|b[k + 1..]| - 1] == b[k + 1..n];
      assert Flat(b[k + 1..]) == Flat(b[k + 1..n]) + b[n];
    }
  }

  /** Where an entry of a bucket is in the flat order, and back. */
  lemma {:induction false} FlatLocate(b: Buckets, p: nat) returns (k: nat, i: nat)
    requires p < |Flat(b)|
    ensures k < |b| && i < |b[k]| && Flat(b)[p] == b[k][i] && p == |Flat(b[..k])| + i
    decreases |b|
  {
    var n := |b| - 1;
    var low := Flat(b[..n]);
    if p < |low| {
      k, i := FlatLocate(b[..n], p);
      assert b[..n][..k] == b[..k];
    } else {
      k, i := n, p - |low|;
    }
  }

  /** Keys of different buckets differ, so a placed table holds no key twice. */
  lemma PlacedIsDistinct(h: Hash, b: Buckets)
    requires Placed(h, b)
    ensures Present(Flat(b)) && DistinctKeys(h, Flat(b))
  {
    FlatIsPresent(b);
    var es := Flat(b);
    forall p, q | 0 <= p < q < |es|
      ensures !Matches(h, es[p].key, es[q].key)
    {
      var k, i := FlatLocate(b, p);
      var l, j := FlatLocate(b, q);
      if k != l {
        assert Index(h, b[k][i].key, |b|) == k && Index(h, b[l][j].key, |b|) == l;
      } else {
        assert i < j;
      }
    }
  }

  // ---------------------------------------------------------------- entries in a map

  lemma {:induction false} MapOfAbsent(h: Hash, es: seq<Entry>, key: Value)
    requires Present(es) && !key.NotPresent?
    requires forall i :: 0 <= i < |es| ==> !Matches(h, es[i].key, key)
    ensures IdOf(key).KNaN? || KeyOf(h, key) !in MapOf(h, es)
  {
    if es != [] {
      MapOfAbsent(h, es[..|es| - 1], key);
      MatchesIsKeyEquality(h, es[|es| - 1].key, key);
    }
  }

  lemma {:induction false} MapOfEntry(h: Hash, es: seq<Entry>, i: nat)
    requires Present(es) && DistinctKeys(h, es) && i < |es| && !IdOf(es[i].key).KNaN?
    ensures KeyOf(h, es[i].key) in MapOf(h, es) && MapOf(h, es)[KeyOf(h, es[i].key)] == es[i].value
  {
    var n := |es| - 1;
    if i < n {
      MapOfEntry(h, es[..n], i);
      MatchesIsKeyEquality(h, es[i].key, es[n].key);
    }
  }

  lemma MapOfPushed(h: Hash, es: seq<Entry>, e: Entry)
    requires Present(es) && !e.key.NotPresent? && !e.value.NotPresent?
    ensures MapOf(h, es + [e]) == MapSet(MapOf(h, es), h, e.key, e.value)
  {
    assert (es + [e])[..|es|] == es;
  }

  lemma MapSetCommutes(m: TableMap, h: Hash, a: Entry, b: Entry)
    requires !a.key.NotPresent? && !b.key.NotPresent? && !Matches(h, a.key, b.key)
    ensures MapSet(MapSet(m, h, a.key, a.value), h, b.key, b.value)
         == MapSet(MapSet(m, h, b.key, b.value), h, a.key, a.value)
  {
    MatchesIsKeyEquality(h, a.key, b.key);
  }

  lemma MapSetOver(m: TableMap, h: Hash, a: Entry, b: Entry)
    requires !a.key.NotPresent? && !b.key.NotPresent? && Matches(h, a.key, b.key)
    ensures MapSet(MapSet(m, h, a.key, a.value), h, b.key, b.value) == MapSet(m, h, b.key, b.value)
  {
    MatchesIsKeyEquality(h, a.key, b.key);
  }

  /** Two different keys do not both match a third. */
  lemma MatchesOnlyOne(h: Hash, a: Value, b: Value, key: Value)
    requires !a.NotPresent? && !b.NotPresent? && !key.NotPresent?
    requires Matches(h, a, key) && !Matches(h, a, b)
    ensures !Matches(h, b, key)
  {
    MatchesIsKeyEquality(h, a, key);
    MatchesIsKeyEquality(h, a, b);
    MatchesIsKeyEquality(h, b, key);
  }

  /** Overwriting the entry of a key is setting the key. */
  lemma {:induction false} MapOfReplaced(h: Hash, es: seq<Entry>, i: nat, key: Value, value: Value)
    requires Present(es) && DistinctKeys(h, es) && i < |es| && !key.NotPresent? && !value.NotPresent?
    requires Matches(h, es[i].key, key)
    ensures MapOf(h, es[i := Entry(key, value)]) == MapSet(MapOf(h, es), h, key, value)
  {
    hide MapOf, MapSet, HashOf, IdOf, ValueEquals, Matches;
    var n, e := |es| - 1, Entry(key, value);
    var front, last := es[..n], es[n];
    assert es == front + [last];
    MapOfPushed(h, front, last);
    if i == n {
      MapOfPushed(h, front, e);
      assert es[i := e] == front + [e];
      MapSetOver(MapOf(h, front), h, last, e);
    } else {
      MapOfReplaced(h, front, i, key, value);
      MapOfPushed(h, front[i := e], last);
      assert es[i := e] == front[i := e] + [last];
      MatchesOnlyOne(h, es[i].key, last.key, key);
      MapSetCommutes(MapOf(h, front), h, last, e);
    }
  }

  /** Inserting an entry with a new key anywhere is setting the key. */
  lemma {:induction false} MapOfInserted(h: Hash, es: seq<Entry>, p: nat, key: Value, value: Value)
    requires Present(es) && p <= |es| && !key.NotPresent? && !value.NotPresent?
    requires forall i :: 0 <= i < |es| ==> !Matches(h, es[i].key, key)
    ensures Present(es[..p] + [Entry(key, value)] + es[p..])
    ensures MapOf(h, es[..p] + [Entry(key, value)] + es[p..]) == MapSet(MapOf(h, es), h, key, value)
  {
    hide MapOf, MapSet, HashOf, IdOf, ValueEquals, Matches;
    var n, e := |es| - 1, Entry(key, value);
    if p == |es| {
      assert es[..p] + [e] + es[p..] == es + [e];
      MapOfPushed(h, es, e);
    } else {
      var front, last := es[..n], es[n];
      MapOfInserted(h, front, p, key, value);
      assert es[..p] + [e] + es[p..] == (front[..p] + [e] + front[p..]) + [last];
      MapOfPushed(h, front[..p] + [e] + front[p..], last);
      assert es == front + [last];
      MapOfPushed(h, front, last);
      MapSetCommutes(MapOf(h, front), h, last, e);
    }
  }

  // ---------------------------------------------------------------- refinement

  /** set_entry stores the pair in the map and changes nothing else. */
  lemma SetEntryRefines(h: Hash, b: Buckets, key: Value, value: Value)
    requires Placed(h, b) && !key.NotPresent? && !value.NotPresent?
    ensures var r := SetEntry(h, b, key, value);
            && Placed(h, r) && Contents(h, r) == MapSet(Contents(h, b), h, key, value)
            && |Flat(b)| <= |Flat(r)| <= |Flat(b)| + 1
  {
    hide MapOf, Find, HashOf, IdOf, ValueEquals, And, MapSet, PowerOfTwo, Matches;
    IndexInRange(h, key, |b|);
    SetEntryIsPlaced(h, b, key, value);
    PlacedIsDistinct(h, b);
    var k := Index(h, key, |b|);
    var i := Find(h, b[k], key);
    if i < |b[k]| {
      FlatOverwritten(b, k, i, Entry(key, value));
      MapOfReplaced(h, Flat(b), |Flat(b[..k])| + i, key, value);
    } else {
      KeyNotThere(h, b, key);
      FlatAppended(b, k, Entry(key, value));
      MapOfInserted(h, Flat(b), |Flat(b[..k])| + |b[k]|, key, value);
    }
  }

  lemma FlatOverwritten(b: Buckets, k: nat, i: nat, e: Entry)
    requires k < |b| && i < |b[k]|
    ensures var p := |Flat(b[..k])| + i;
            p < |Flat(b)| && Flat(b)[p] == b[k][i] && Flat(b[k := b[k][i := e]]) == Flat(b)[p := e]
  {
    hide Flat;
    var r := b[k := b[k][i := e]];
    FlatSplit(b, k);
    FlatSplit(r, k);
    assert r[..k] == b[..k] && r[k + 1..] == b[k + 1..];
  }

  lemma FlatAppended(b: Buckets, k: nat, e: Entry)
    requires k < |b|
    ensures var p := |Flat(b[..k])| + |b[k]|;
            p <= |Flat(b)| && Flat(b[k := b[k] + [e]]) == Flat(b)[..p] + [e] + Flat(b)[p..]
  {
    hide Flat;
    var r := b[k := b[k] + [e]];
    FlatSplit(b, k);
    FlatSplit(r, k);
    assert r[..k] == b[..k] && r[k + 1..] == b[k + 1..];
  }

  /** A key without a match in its bucket has no match in the table. */
  lemma KeyNotThere(h: Hash, b: Buckets, key: Value)
    requires Placed(h, b) && !key.NotPresent? && Index(h, key, |b|) < |b|
    requires Find(h, b[Index(h, key, |b|)], key) == |b[Index(h, key, |b|)]|
    ensures Present(Flat(b)) && forall i :: 0 <= i < |Flat(b)| ==> !Matches(h, Flat(b)[i].key, key)
  {
    FlatIsPresent(b);
    forall p | 0 <= p < |Flat(b)|
      ensures !Matches(h, Flat(b)[p].key, key)
    {
      var k, i := FlatLocate(b, p);
      assert Index(h, b[k][i].key, |b|) == k;
    }
  }

  /** hashtable_get returns what the map holds for the key. */
  lemma LookupRefines(h: Hash, b: Buckets, key: Value)
    requires Placed(h, b) && !key.NotPresent?
    ensures Lookup(h, b, key) == MapGet(Contents(h, b), h, key)
  {
    IndexInRange(h, key, |b|);
    PlacedIsDistinct(h, b);
    var k := Index(h, key, |b|);
    var chain, es := b[k], Flat(b);
    var i := Find(h, chain, key);
    if i < |chain| {
      FlatSplit(b, k);
      var p := |Flat(b[..k])| + i;
      assert es[p] == chain[i];
      MatchesIsKeyEquality(h, chain[i].key, key);
      MapOfEntry(h, es, p);
    } else {
      KeyNotThere(h, b, key);
      MapOfAbsent(h, es, key);
    }
  }

  // ---------------------------------------------------------------- rehashing

  function SetAll(h: Hash, b: Buckets, es: seq<Entry>): (r: Buckets)
    requires Placed(h, b) && Present(es)
    ensures Placed(h, r) && |r| == |b|
  {
    if es == [] then b
    else
      var r := SetAll(h, b, es[..|es| - 1]);
      SetEntryIsPlaced(h, r, es[|es| - 1].key, es[|es| - 1].value);
      SetEntry(h, r, es[|es| - 1].key, es[|es| - 1].value)
  }

  /** Every entry, in bucket-then-chain order, stored into a fresh bucket array. */
  function Rehash(h: Hash, b: Buckets, capacity: nat): (r: Buckets)
    requires Placed(h, b) && PowerOfTwo(capacity)
    ensures Placed(h, r) && |r| == capacity
  {
    EmptyIsPlaced(h, capacity);
    FlatIsPresent(b);
    SetAll(h, Empty(capacity), Flat(b))
  }

  lemma {:induction false} SetAllRefines(h: Hash, capacity: nat, es: seq<Entry>)
    requires PowerOfTwo(capacity) && Placed(h, Empty(capacity)) && Flat(Empty(capacity)) == [] && Present(es)
    ensures Contents(h, SetAll(h, Empty(capacity), es)) == MapOf(h, es)
    ensures |Flat(SetAll(h, Empty(capacity), es))| <= |es|
  {
    if es != [] {
      var n := |es| - 1;
      SetAllRefines(h, capacity, es[..n]);
      SetEntryRefines(h, SetAll(h, Empty(capacity), es[..n]), es[n].key, es[n].value);
    }
  }

  /** Rehashing into any capacity leaves the map as it was, and stores nothing more. */
  lemma RehashRefines(h: Hash, b: Buckets, capacity: nat)
    requires Placed(h, b) && PowerOfTwo(capacity)
    ensures Contents(h, Rehash(h, b, capacity)) == Contents(h, b)
    ensures |Flat(Rehash(h, b, capacity))| <= |Flat(b)|
  {
    EmptyIsPlaced(h, capacity);
    FlatIsPresent(b);
    SetAllRefines(h, capacity, Flat(b));
  }
}
