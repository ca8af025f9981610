/** The chained hash table in place: an array of linked pairs, and strings that remember their hash. */
module HashTables {
  import opened Bits
  import opened Values
  import opened ChainedTable
  import opened NullLinks
  import opened TableLaws

  // ---------------------------------------------------------------- hash codes

  /** The hash-code fields of all string structures. Zero means that the hash has not been computed. */
  class HashCodes {
    const hash: Hash
    var codes: map<Value, U64>

    ghost predicate Valid()
      reads this
    {
      forall v :: v in codes ==> v.Str? && (codes[v] != 0 ==> codes[v] == hash(v.text))
    }

    constructor (hash: Hash)
      ensures Valid() && this.hash == hash
    {
      this.hash := hash;
      codes := map[];
    }

    /** value_hash_code: remembering the hash of a string never changes a result. */
    method HashCode(v: Value) returns (code: U64)
      requires Valid() && !v.NotPresent?
      modifies `codes
      ensures Valid() && code == HashOf(hash, v)
    {
      if !v.Str? {
        return HashOf(hash, v);
      }
      if v in codes && codes[v] != 0 {
        return codes[v];
      }
      code := hash(v.text);
      codes := codes[v := code];
    }

    /** value_equals: two strings are compared by length, then by hash, and only then byte by byte. */
    method Equals(a: Value, b: Value) returns (r: bool)
      requires Valid() && !a.NotPresent? && !b.NotPresent?
      modifies `codes
      ensures Valid() && r == ValueEquals(a, b)
    {
      if !(a.Str? && b.Str?) {
        return ValueEquals(a, b);
      }
      r := false;
      if |a.text| == |b.text| {
        var hashA := HashCode(a);
        var hashB := HashCode(b);
        if hashA == hashB {
          r := a.text == b.text;
        }
      }
    }

    method MatchesKey(stored: Value, key: Value, code: U64) returns (r: bool)
      requires Valid() && !stored.NotPresent? && !key.NotPresent? && code == HashOf(hash, key)
      modifies `codes
      ensures Valid() && r == Matches(hash, stored, key)
    {
      var storedCode := HashCode(stored);
      if code != storedCode {
        return false;
      }
      r := Equals(stored, key);
    }
  }

  // ---------------------------------------------------------------- chains of pairs

  class Pair {
    var key: Value
    var value: Value
    var next: Pair?
    /** Where the pair is, fixed for its lifetime. */
    ghost const bucket: nat
    ghost const position: nat

    constructor (key: Value, value: Value, ghost bucket: nat, ghost position: nat)
      ensures this.key == key && this.value == value && this.next == null
      ensures this.bucket == bucket && this.position == position
    {
      this.key, this.value, this.next := key, value, null;
      this.bucket, this.position := bucket, position;
    }

    ghost function Abs(): Entry
      reads this
    {
      Entry(key, value)
    }
  }

  /** The pair at a position of a chain, or the null that ends it. */
  ghost function At(chain: seq<Pair>, i: nat): Pair? {
    if i < |chain| then chain[i] else null
  }

  ghost predicate Linked(first: Pair?, chain: seq<Pair>, bucket: nat)
    reads chain
  {
    && first == At(chain, 0)
    && (forall i :: 0 <= i < |chain| ==> chain[i].bucket == bucket && chain[i].position == i)
    && (forall i {:trigger chain[i].next} :: 0 <= i < |chain| ==> chain[i].next == At(chain, i + 1))
  }

  ghost function Entries(chain: seq<Pair>): (es: seq<Entry>)
    reads chain
    ensures |es| == |chain| && forall i :: 0 <= i < |es| ==> es[i] == chain[i].Abs()
  {
    if chain == [] then [] else Entries(chain[..|chain| - 1]) + [chain[|chain| - 1].Abs()]
  }

  // ---------------------------------------------------------------- bucket arrays

  class BucketArray {
    const hashes: HashCodes
    const slots: array<Pair?>
    ghost var chains: seq<seq<Pair>>
    ghost var pairs: set<Pair>

    ghost predicate Valid()
      reads this, slots, pairs
    {
      && |chains| == slots.Length
      && (forall k, i :: 0 <= k < |chains| && 0 <= i < |chains[k]| ==> chains[k][i] in pairs)
      && (forall k :: 0 <= k < |chains| ==> Linked(slots[k], chains[k], k))
    }

    ghost function Abs(): (b: Buckets)
      requires Valid()
      reads this, slots, pairs
      ensures |b| == slots.Length && forall k :: 0 <= k < |b| ==> b[k] == Entries(chains[k])
    {
      AbsUpTo(|chains|)
    }

    ghost function AbsUpTo(n: nat): (b: Buckets)
      requires Valid() && n <= |chains|
      reads this, slots, pairs
      ensures |b| == n && forall k :: 0 <= k < n ==> b[k] == Entries(chains[k])
    {
      if n == 0 then [] else AbsUpTo(n - 1) + [Entries(chains[n - 1])]
    }

    constructor (hashes: HashCodes, capacity: nat)
      ensures Valid() && Abs() == Empty(capacity) && fresh(slots) && pairs == {} && this.hashes == hashes
    {
      this.hashes := hashes;
      slots := new Pair?[capacity](_ => null);
      chains := seq(capacity, _ => []);
      pairs := {};
    }

    /** The bucket a key belongs to. */
    method IndexOf(key: Value) returns (index: nat, code: U64)
      requires hashes.Valid() && !key.NotPresent? && PowerOfTwo(slots.Length)
      modifies hashes`codes
      ensures hashes.Valid() && code == HashOf(hashes.hash, key)
      ensures index == Index(hashes.hash, key, slots.Length) < slots.Length
    {
      code := hashes.HashCode(key);
      index := And(code, slots.Length - 1);
      IndexInRange(hashes.hash, key, slots.Length);
    }

    /** set_entry; nullRead says that it read the link of a new pair through the null pointer. */
    method SetEntry(key: Value, value: Value) returns (nullRead: bool)
      requires Valid() && hashes.Valid() && Placed(hashes.hash, Abs()) && !key.NotPresent? && !value.NotPresent?
      modifies this`chains, this`pairs, hashes`codes, slots, pairs
      ensures Valid() && hashes.Valid() && fresh(pairs - old(pairs))
      ensures Abs() == ChainedTable.SetEntry(hashes.hash, old(Abs()), key, value)
      ensures nullRead == StoreReadsNull(hashes.hash, old(Abs()), key)
    {
      hide Linked, Entries, BucketArray.Abs, BucketArray.AbsUpTo, Find, HashOf, Matches, Index, And, DistinctKeys;
      var index, code := IndexOf(key);
      assert Abs() == old(Abs());
      var prev, current := Walk(hashes, slots[index], chains[index], index, key, code);
      assert Abs() == old(Abs());
      if current != null {
        Overwrite(index, Find(hashes.hash, Abs()[index], key), current, key, value);
        nullRead := false;
      } else {
        nullRead := Append(index, prev, key, value);
      }
    }

    method Overwrite(ghost index: nat, ghost i: nat, current: Pair, key: Value, value: Value)
      requires Valid() && index < slots.Length && i < |chains[index]| && current == chains[index][i]
      modifies current`key, current`value
      ensures Valid()
      ensures Abs() == old(Abs())[index := old(Abs())[index][i := Entry(key, value)]]
    {
      hide Entries, BucketArray.Abs, BucketArray.AbsUpTo;
      current.key := key;
      current.value := value;
      assert forall k :: 0 <= k < |chains| ==> Linked(slots[k], chains[k], k);
      assert forall k :: 0 <= k < |chains| && k != index ==> Entries(chains[k]) == old(Entries(chains[k]));
      assert Entries(chains[index]) == old(Entries(chains[index]))[i := Entry(key, value)];
    }

    method Append(index: nat, prev: Pair?, key: Value, value: Value) returns (nullRead: bool)
      requires Valid() && index < slots.Length
      requires prev == if chains[index] == [] then null else chains[index][|chains[index]| - 1]
      modifies this`chains, this`pairs, slots, pairs
      ensures Valid() && fresh(pairs - old(pairs))
      ensures Abs() == old(Abs())[index := old(Abs())[index] + [Entry(key, value)]]
      ensures nullRead == (old(Abs())[index] != [])
    {
      hide Linked, Entries, BucketArray.Abs, BucketArray.AbsUpTo;
      ghost var chain := chains[index];
      var pair := new Pair(key, value, index, |chain|);
      BucketsApart(chains, slots[..], index);
      nullRead := Attach(slots, index, chain, prev, pair);
      forall k | 0 <= k < |chains| && k != index
        ensures Linked(slots[k], chains[k], k) && Entries(chains[k]) == old(Entries(chains[k]))
      {
        assert prev != null ==> prev in chain && prev !in chains[k];
      }
      chains, pairs := chains[index := chain + [pair]], pairs + {pair};
    }
  }

  /** Pairs of different buckets are different. */
  lemma BucketsApart(chains: seq<seq<Pair>>, slots: seq<Pair?>, index: nat)
    requires |slots| == |chains| && index < |chains|
    requires forall k :: 0 <= k < |chains| ==> Linked(slots[k], chains[k], k)
    ensures forall p, k :: p in chains[index] && 0 <= k < |chains| && k != index ==> p !in chains[k]
  {
  }

  /** Link a new pair behind the last pair of a chain, or into its empty slot. Behind a pair, the code reads
      through the new pair's own link first; the link it then writes is taken as the one it means. */
  method Attach(slots: array<Pair?>, index: nat, ghost chain: seq<Pair>, prev: Pair?, pair: Pair)
    returns (nullRead: bool)
    requires index < slots.Length && Linked(slots[index], chain, index) && pair !in chain
    requires pair.next == null && pair.bucket == index && pair.position == |chain|
    requires prev == if chain == [] then null else chain[|chain| - 1]
    modifies slots, if prev == null then {} else {prev}
    ensures forall k :: 0 <= k < slots.Length && k != index ==> slots[k] == old(slots[k])
    ensures Linked(slots[index], chain + [pair], index)
    ensures Entries(chain + [pair]) == old(Entries(chain)) + [pair.Abs()]
    ensures nullRead == (chain != [])
  {
    hide Entries;
    nullRead := false;
    if prev != null {
      nullRead := pair.next == null;
      prev.next := pair;
    } else {
      slots[index] := pair;
    }
  }

  lemma LinkAt(first: Pair?, chain: seq<Pair>, bucket: nat)
    requires Linked(first, chain, bucket)
    ensures first == At(chain, 0)
    ensures forall i {:trigger chain[i].next} :: 0 <= i < |chain| ==> chain[i].next == At(chain, i + 1)
  {
  }

  /** The first pair of a chain that a key matches, and the pair before it; at the end of the chain, null
      and the last pair. */
  method Walk(hashes: HashCodes, first: Pair?, ghost chain: seq<Pair>, ghost bucket: nat, key: Value, code: U64)
    returns (prev: Pair?, current: Pair?)
    requires hashes.Valid() && Linked(first, chain, bucket) && Present(Entries(chain)) && !key.NotPresent?
    requires code == HashOf(hashes.hash, key)
    modifies hashes`codes
    ensures hashes.Valid()
    ensures var i := Find(hashes.hash, Entries(chain), key);
            current == At(chain, i) && prev == if i == 0 then null else chain[i - 1]
  {
    hide Linked, Entries, Find, HashOf, Matches;
    ghost var i, es := 0, Entries(chain);
    LinkAt(first, chain, bucket);
    prev, current := null, first;
    while current != null
      invariant hashes.Valid()
      invariant forall j {:trigger chain[j].next} :: 0 <= j < |chain| ==> chain[j].next == At(chain, j + 1)
      invariant forall j :: 0 <= j < |chain| ==> chain[j].key == es[j].key
      invariant i <= |chain| && current == At(chain, i)
      invariant prev == if i == 0 then null else chain[i - 1]
      invariant forall j :: 0 <= j < i ==> !Matches(hashes.hash, es[j].key, key)
      decreases |chain| - i
    {
      var found := hashes.MatchesKey(current.key, key, code);
      if found {
        assert Matches(hashes.hash, es[i].key, key);
        break;
      }
      prev := current;
      current := prev.next;
      i := i + 1;
    }
    FindIsFirst(hashes.hash, es, key, i);
    assert Entries(chain) == es;
  }

  /** A position without an earlier match is the one the walk ends at. */
  lemma FindIsFirst(h: Hash, chain: seq<Entry>, key: Value, i: nat)
    requires Present(chain) && !key.NotPresent? && i <= |chain|
    requires i < |chain| ==> Matches(h, chain[i].key, key)
    requires forall j :: 0 <= j < i ==> !Matches(h, chain[j].key, key)
    ensures Find(h, chain, key) == i
  {
  }

  // ---------------------------------------------------------------- the table

  lemma SetAllInTwo(h: Hash, b: Buckets, es: seq<Entry>, fs: seq<Entry>)
    requires Placed(h, b) && Present(es) && Present(fs)
    ensures SetAll(h, SetAll(h, b, es), fs) == SetAll(h, b, es + fs)
    ensures StoresReadNull(h, b, es + fs) ==
            (StoresReadNull(h, b, es) || StoresReadNull(h, SetAll(h, b, es), fs))
  {
    hide Placed, ChainedTable.SetEntry, StoreReadsNull;
    if fs == [] {
      assert es + fs == es;
    } else {
      var n := |fs| - 1;
      SetAllInTwo(h, b, es, fs[..n]);
      assert (es + fs)[..|es + fs| - 1] == es + fs[..n];
    }
  }

  lemma SetAllPushed(h: Hash, b: Buckets, es: seq<Entry>, j: nat)
    requires Placed(h, b) && Present(es) && j < |es|
    ensures SetAll(h, b, es[..j + 1]) == ChainedTable.SetEntry(h, SetAll(h, b, es[..j]), es[j].key, es[j].value)
    ensures StoresReadNull(h, b, es[..j + 1]) ==
            (StoresReadNull(h, b, es[..j]) || StoreReadsNull(h, SetAll(h, b, es[..j]), es[j].key))
  {
    hide Placed, ChainedTable.SetEntry, StoreReadsNull;
    assert es[..j + 1][..j] == es[..j];
  }

  /** Every pair of a chain stored into another bucket array; the chain itself stays as it is. */
  method RehashChain(first: Pair?, ghost chain: seq<Pair>, ghost bucket: nat, target: BucketArray)
    returns (nullRead: bool)
    requires Linked(first, chain, bucket) && Present(Entries(chain))
    requires target.Valid() && target.hashes.Valid() && Placed(target.hashes.hash, target.Abs())
    requires forall p :: p in chain ==> p !in target.pairs
    modifies target`chains, target`pairs, target.hashes`codes, target.slots, target.pairs
    ensures target.Valid() && target.hashes.Valid() && fresh(target.pairs - old(target.pairs))
    ensures target.Abs() == SetAll(target.hashes.hash, old(target.Abs()), Entries(chain))
    ensures nullRead == StoresReadNull(target.hashes.hash, old(target.Abs()), Entries(chain))
  {
    hide Entries, BucketArray.Valid, BucketArray.Abs, Placed, ChainedTable.SetEntry, SetAll, StoreReadsNull;
    hide StoresReadNull;
    ghost var h, b, es, j := target.hashes.hash, target.Abs(), Entries(chain), 0;
    LinkAt(first, chain, bucket);
    SetAllNothing(h, b, es);
    var next := first;
    nullRead := false;
    while next != null
      invariant j <= |chain| && next == At(chain, j)
      invariant Linked(first, chain, bucket) && Entries(chain) == es
      invariant target.Valid() && target.hashes.Valid() && fresh(target.pairs - old(target.pairs))
      invariant forall p :: p in chain ==> p !in target.pairs
      invariant target.Abs() == SetAll(h, b, es[..j]) && nullRead == StoresReadNull(h, b, es[..j])
      decreases |chain| - j
    {
      var currentPair := next;
      LinkAt(first, chain, bucket);
      next := next.next;
      SetAllPushed(h, b, es, j);
      var readsNull := target.SetEntry(currentPair.key, currentPair.value);
      nullRead := nullRead || readsNull;
      j := j + 1;
    }
    assert es[..j] == es;
  }

  lemma SetAllNothing(h: Hash, b: Buckets, es: seq<Entry>)
    requires Placed(h, b) && Present(es)
    ensures SetAll(h, b, es[..0]) == b && !StoresReadNull(h, b, es[..0])
  {
  }

  class HashTable {
    const hashes: HashCodes
    const loadFactor: real
    var table: BucketArray
    var capacity: nat
    var usage: nat

    ghost predicate Valid()
      reads this, hashes, table, table.slots, table.pairs
    {
      && table.hashes == hashes && table.Valid() && hashes.Valid()
      && capacity == table.slots.Length && Placed(hashes.hash, table.Abs())
    }

    ghost function Abs(): (t: TableState)
      requires Valid()
      reads this, hashes, table, table.slots, table.pairs
      ensures Placed(hashes.hash, t.buckets)
    {
      TableState(table.Abs(), loadFactor, usage)
    }

    ghost function Owned(): set<object>
      reads this, table
    {
      {table, table.slots} + table.pairs
    }

    constructor (hashes: HashCodes, loadFactor: real, capacity: nat)
      requires hashes.Valid() && capacity > 0 && And(capacity, capacity - 1) == 0
      ensures Valid() && fresh(Owned()) && this.hashes == hashes
      ensures NewTable(loadFactor, capacity) == Some(Abs())
    {
      hide And, PowerOfTwo, Placed, BucketArray.Abs, BucketArray.Valid, Flat;
      this.hashes, this.loadFactor, this.capacity, usage := hashes, loadFactor, capacity, 0;
      table := new BucketArray(hashes, capacity);
      new;
      PowerOfTwoTest(capacity);
      EmptyIsPlaced(hashes.hash, capacity);
    }

    /** hashtable_new: no table for a capacity that is not a power of two. */
    static method New(hashes: HashCodes, loadFactor: real, initialCapacity: int) returns (t: HashTable?)
      requires hashes.Valid()
      ensures match NewTable(loadFactor, initialCapacity)
              case None => t == null
              case Some(s) =>
                t != null && fresh(t) && fresh(t.Owned()) && t.hashes == hashes && t.Valid() && t.Abs() == s
    {
      if !(initialCapacity > 0 && And(initialCapacity, initialCapacity - 1) == 0) {
        return null;
      }
      t := new HashTable(hashes, loadFactor, initialCapacity);
    }

    /** False for a capacity that is not a power of two. */
    method Resize(prevCapacity: nat, desiredCapacity: nat) returns (ok: bool, nullRead: bool)
      requires Valid() && prevCapacity == capacity
      modifies this`table, this`capacity, hashes`codes
      ensures Valid() && ok == PowerOfTwo(desiredCapacity)
      ensures !ok ==> Abs() == old(Abs()) && Owned() == old(Owned())
      ensures ok ==> Abs() == old(Abs()).(buckets := Rehash(hashes.hash, old(Abs()).buckets, desiredCapacity))
      ensures ok ==> fresh(Owned())
      ensures nullRead == (ok && ResizeReadsNull(hashes.hash, old(Abs()).buckets, desiredCapacity))
    {
      hide BucketArray.Abs, BucketArray.Valid, Placed, Rehash, And, Flat, StoresReadNull;
      if desiredCapacity > 0 {
        PowerOfTwoTest(desiredCapacity);
      }
      if !(desiredCapacity != 0 && And(desiredCapacity, desiredCapacity - 1) == 0) {
        return false, false;
      }
      var newTable := new BucketArray(hashes, desiredCapacity);
      nullRead := RehashInto(newTable);
      capacity := desiredCapacity;
      table := newTable;
      ok := true;
    }

    /** Every pair, in bucket-then-chain order, stored into an empty bucket array. */
    method RehashInto(target: BucketArray) returns (nullRead: bool)
      requires Valid() && target.Valid() && target.hashes == hashes && target.pairs == {}
      requires target != table && target.slots != table.slots
      requires PowerOfTwo(target.slots.Length) && target.Abs() == Empty(target.slots.Length)
      modifies target`chains, target`pairs, hashes`codes, target.slots
      ensures Valid() && Abs() == old(Abs())
      ensures target.Valid() && fresh(target.pairs)
      ensures target.Abs() == Rehash(hashes.hash, table.Abs(), target.slots.Length)
      ensures nullRead == ResizeReadsNull(hashes.hash, table.Abs(), target.slots.Length)
    {
      hide Linked, DistinctKeys, Index, HashOf, Matches, ValueEquals;
      hide Entries, BucketArray.Abs, SetAll, Flat, Placed, And, Empty, PowerOfTwo, StoresReadNull;
      ghost var h, b, empty := hashes.hash, table.Abs(), target.Abs();
      EmptyIsPlaced(h, target.slots.Length);
      PrefixesArePresent(h, b);
      assert b[..|b|] == b;
      SetAllNothing(h, empty, Flat(b));
      NoBuckets();
      assert b[..0] == [] && Flat(b)[..0] == [];
      nullRead := false;
      for i := 0 to capacity
        invariant Valid() && Abs() == old(Abs())
        invariant target.Valid() && fresh(target.pairs)
        invariant target.Abs() == SetAll(h, empty, Flat(b[..i]))
        invariant nullRead == StoresReadNull(h, empty, Flat(b[..i]))
      {
        ghost var chain := table.chains[i];
        FlatPushed(b, i);
        var readsNull := RehashChain(table.slots[i], chain, i, target);
        nullRead := nullRead || readsNull;
        SetAllInTwo(h, empty, Flat(b[..i]), b[i]);
      }
      assert b[..capacity] == b;
    }

    /** A full table is resized to twice its capacity. */
    method GrowIfFull() returns (ok: bool, nullRead: bool)
      requires Valid()
      modifies this`table, this`capacity, hashes`codes
      ensures Valid() && ok && Abs() == Grown(hashes.hash, old(Abs()))
      ensures (table == old(table) && Owned() == old(Owned())) || fresh(Owned())
      ensures nullRead == GrowReadsNull(hashes.hash, old(Abs()))
    {
      hide BucketArray.Abs, BucketArray.Valid, Placed, Rehash, And, Flat, Threshold, ResizeReadsNull;
      ok, nullRead := true, false;
      if (usage + 1) as real >= Threshold(capacity, loadFactor) {
        DoublePower(hashes.hash, table.Abs());
        ok, nullRead := Resize(capacity, capacity * 2);
      }
    }

    /** A store into a table that has been grown if it was full. */
    method Store(key: Value, value: Value) returns (nullRead: bool)
      requires Valid() && !key.NotPresent? && !value.NotPresent?
      modifies this`usage, hashes`codes, table`chains, table`pairs, table.slots, table.pairs
      ensures Valid() && fresh(Owned() - old(Owned()))
      ensures Abs() == old(Abs()).(buckets := ChainedTable.SetEntry(hashes.hash, old(Abs()).buckets, key, value),
                                   usage := old(Abs()).usage + 1)
      ensures nullRead == StoreReadsNull(hashes.hash, old(Abs()).buckets, key)
    {
      hide BucketArray.Abs, BucketArray.Valid, Placed, And, Flat, ChainedTable.SetEntry, StoreReadsNull;
      SetEntryIsPlaced(hashes.hash, table.Abs(), key, value);
      nullRead := table.SetEntry(key, value);
      usage := usage + 1;
    }

    /** hashtable_set */
    method Set(key: Value, value: Value) returns (ok: bool, nullRead: bool)
      requires Valid()
      modifies this`table, this`capacity, this`usage, hashes`codes
      modifies table`chains, table`pairs, table.slots, table.pairs
      ensures Valid() && fresh(Owned() - old(Owned()))
      ensures (Abs(), ok) == TableSet(hashes.hash, old(Abs()), key, value)
      ensures nullRead == SetReadsNull(hashes.hash, old(Abs()), key, value)
    {
      hide HashTable.Valid, HashTable.Abs, Grown, ChainedTable.SetEntry, GrowReadsNull, StoreReadsNull, Placed;
      if key.NotPresent? || value.NotPresent? {
        return false, false;
      }
      ok, nullRead := GrowIfFull();
      if !ok {
        return false, nullRead;
      }
      var readsNull := Store(key, value);
      nullRead := nullRead || readsNull;
    }

    /** hashtable_get */
    method Get(key: Value) returns (v: Value)
      requires Valid() && !key.NotPresent?
      modifies hashes`codes
      ensures Valid() && Abs() == old(Abs()) && Owned() == old(Owned())
      ensures v == Lookup(hashes.hash, Abs().buckets, key)
    {
      hide Entries, Linked, BucketArray.Abs, And, Flat, Find, Matches, HashOf, DistinctKeys;
      ghost var b := table.Abs();
      var index, code := table.IndexOf(key);
      assert table.Abs() == b;
      var prev, current := Walk(hashes, table.slots[index], table.chains[index], index, key, code);
      assert table.Abs() == b;
      return if current != null then current.value else NotPresent;
    }

    /** hashtable_next */
    method Next(key: Value) returns (newKey: Value)
      requires Valid()
      modifies hashes`codes
      ensures Valid() && Abs() == old(Abs()) && Owned() == old(Owned())
      ensures newKey == TableLaws.Next(hashes.hash, Abs().buckets, key)
    {
      hide BucketArray.Abs, BucketArray.Valid, And, Flat, NextFrom, Matches, HashOf, DistinctKeys, PowerOfTwo;
      ghost var b := table.Abs();
      var bucketStart := 0;
      if !key.NotPresent? {
        var code: U64;
        bucketStart, code := table.IndexOf(key);
      }
      assert table.Abs() == b && b[0..] == b;
      newKey := ScanFrom(bucketStart, key);
    }

    /** The bucket loop of hashtable_next. */
    method ScanFrom(bucketStart: nat, key: Value) returns (newKey: Value)
      requires Valid() && bucketStart <= capacity
      modifies hashes`codes
      ensures Valid() && Abs() == old(Abs()) && Owned() == old(Owned())
      ensures newKey == NextFrom(Abs().buckets[bucketStart..], key, key.NotPresent?)
    {
      hide HashTable.Valid, HashTable.Abs, HashTable.Owned, Placed, Present, FindEqual, NextFrom;
      HasCapacity();
      ghost var b := Abs().buckets;
      newKey := NotPresent;
      var hasFound := key.NotPresent?;
      var bucket := bucketStart;
      while bucket < capacity
        invariant bucketStart <= bucket <= capacity && newKey == NotPresent
        invariant Valid() && Abs() == old(Abs()) && Owned() == old(Owned())
        invariant key.NotPresent? ==> hasFound
        invariant NextFrom(b[bucketStart..], key, key.NotPresent?) == NextFrom(b[bucket..], key, hasFound)
      {
        NextFromBucket(b, bucket, key, hasFound);
        newKey, hasFound := ScanBucket(bucket, key, hasFound);
        if !newKey.NotPresent? {
          return;
        }
        bucket := bucket + 1;
      }
      NextFromNothing(b[bucket..], key, hasFound);
    }

    lemma HasCapacity()
      requires Valid()
      ensures |Abs().buckets| == capacity && AllPresent(Abs().buckets)
    {
    }

    /** One bucket of that loop: the key behind the first equal one, if there is one in the chain. */
    method ScanBucket(bucket: nat, key: Value, hasFound: bool) returns (newKey: Value, found: bool)
      requires Valid() && bucket < capacity && |Abs().buckets| == capacity && (key.NotPresent? ==> hasFound)
      modifies hashes`codes
      ensures Valid() && Abs() == old(Abs()) && Owned() == old(Owned())
      ensures var chain := Abs().buckets[bucket];
              var i := if hasFound then 0 else FindEqual(chain, key);
              var after := if hasFound || i == |chain| then i else i + 1;
              && found == (hasFound || i < |chain|)
              && newKey == KeyAt(chain, after)
              && (newKey.NotPresent? <==> after >= |chain|)
    {
      hide BucketArray.Abs, And, FindEqual, Matches, HashOf, DistinctKeys, PowerOfTwo, Index, ValueEquals;
      ghost var b := table.Abs();
      var pair;
      pair, found := After(hashes, table.slots[bucket], table.chains[bucket], bucket, key, hasFound);
      assert table.Abs() == b;
      newKey := if pair != null then pair.key else NotPresent;
    }
  }

  lemma DoublePower(h: Hash, b: Buckets)
    requires Placed(h, b)
    ensures PowerOfTwo(2 * |b|)
  {
  }

  /** The pair of a chain that follows the first with an equal key; the first pair if the key has been found
      before. */
  method After(hashes: HashCodes, first: Pair?, ghost chain: seq<Pair>, ghost bucket: nat, key: Value, hasFound: bool)
    returns (pair: Pair?, found: bool)
    requires hashes.Valid() && Linked(first, chain, bucket) && Present(Entries(chain))
    requires key.NotPresent? ==> hasFound
    modifies hashes`codes
    ensures hashes.Valid()
    ensures var i := if hasFound then 0 else FindEqual(Entries(chain), key);
            && found == (hasFound || i < |chain|)
            && pair == At(chain, if hasFound || i == |chain| then i else i + 1)
  {
    hide Linked, Entries, FindEqual, ValueEquals;
    ghost var i, es := 0, Entries(chain);
    LinkAt(first, chain, bucket);
    pair, found := first, hasFound;
    while pair != null && !found
      invariant hashes.Valid() && (hasFound ==> found && i == 0)
      invariant forall j {:trigger chain[j].next} :: 0 <= j < |chain| ==> chain[j].next == At(chain, j + 1)
      invariant forall j :: 0 <= j < |chain| ==> chain[j].key == es[j].key
      invariant i <= |chain| && (found && !hasFound ==> i < |chain| && ValueEquals(es[i].key, key))
      invariant pair == At(chain, if found && !hasFound then i + 1 else i)
      invariant forall j :: 0 <= j < i ==> !ValueEquals(es[j].key, key)
      decreases |chain| - i, !found
    {
      var equal := hashes.Equals(pair.key, key);
      if equal {
        found := true;
      } else {
        i := i + 1;
      }
      pair := pair.next;
    }
    if !hasFound {
      FindEqualUnique(es, key, i);
    }
    assert Entries(chain) == es;
  }

  lemma PrefixesArePresent(h: Hash, b: Buckets)
    requires Placed(h, b)
    ensures AllPresent(b)
    ensures forall i :: 0 <= i <= |b| ==> Present(Flat(b[..i]))
  {
    forall i | 0 <= i <= |b|
      ensures Present(Flat(b[..i]))
    {
      FlatIsPresent(b[..i]);
    }
  }

  lemma FlatPushed(b: Buckets, i: nat)
    requires i < |b|
    ensures Flat(b[..i + 1]) == Flat(b[..i]) + b[i]
  {
    assert b[..i + 1][..i] == b[..i];
  }
}
