/** What whole runs of table operations do: lookups after any sequence of stores, how far the
    table grows, and iteration with next. */
module TableLaws {
  import opened Bits
  import opened Values
  import opened ChainedTable

  // ---------------------------------------------------------------- operations on a table

  datatype TableState = TableState(buckets: Buckets, loadFactor: real, usage: nat)

  ghost predicate TableOk(h: Hash, t: TableState) {
    Placed(h, t.buckets) && |Flat(t.buckets)| <= t.usage
  }

  /** hashtable_new: None for a capacity that is not a power of two. */
  function NewTable(loadFactor: real, capacity: int): Option<TableState> {
    if capacity > 0 && And(capacity, capacity - 1) == 0
    then Some(TableState(Empty(capacity), loadFactor, 0))
    else None
  }

  /** How many stores fill a table. */
  function Threshold(capacity: nat, loadFactor: real): real {
    capacity as real * loadFactor / 100.0
  }

  predicate Full(t: TableState) {
    (t.usage + 1) as real >= Threshold(|t.buckets|, t.loadFactor)
  }

  function Grown(h: Hash, t: TableState): (r: TableState)
    requires Placed(h, t.buckets)
    ensures Placed(h, r.buckets) && r.usage == t.usage && r.loadFactor == t.loadFactor
  {
    if Full(t) then t.(buckets := Rehash(h, t.buckets, 2 * |t.buckets|))
    else t
  }

  /** hashtable_set: grow when full, store, count the store. */
  function TableSet(h: Hash, t: TableState, key: Value, value: Value): (r: (TableState, bool))
    requires Placed(h, t.buckets)
    ensures Placed(h, r.0.buckets)
  {
    if key.NotPresent? || value.NotPresent? then (t, false)
    else
      var g := Grown(h, t);
      SetEntryIsPlaced(h, g.buckets, key, value);
      (g.(buckets := SetEntry(h, g.buckets, key, value), usage := t.usage + 1), true)
  }

  /** Growing leaves the map as it was. */
  lemma GrownRefines(h: Hash, t: TableState)
    requires TableOk(h, t)
    ensures var g := Grown(h, t);
            && TableOk(h, g) && g.usage == t.usage && g.loadFactor == t.loadFactor
            && Contents(h, g.buckets) == Contents(h, t.buckets)
  {
    hide Contents, Rehash, Flat, HashOf, ValueEquals, And, Matches, Index;
    if Full(t) {
      RehashRefines(h, t.buckets, 2 * |t.buckets|);
    }
  }

  /** A refused store changes nothing; any other is a store into the map, however the table grew. */
  lemma TableSetRefines(h: Hash, t: TableState, key: Value, value: Value)
    requires TableOk(h, t)
    ensures var (r, ok) := TableSet(h, t, key, value);
            && TableOk(h, r) && ok == !(key.NotPresent? || value.NotPresent?)
            && (!ok ==> r == t)
            && (ok ==> Contents(h, r.buckets) == MapSet(Contents(h, t.buckets), h, key, value))
  {
    hide Contents, SetEntry, Grown, MapSet, Flat, Placed;
    GrownRefines(h, t);
    if !key.NotPresent? && !value.NotPresent? {
      SetEntryRefines(h, Grown(h, t).buckets, key, value);
    }
  }

  // ---------------------------------------------------------------- runs

  function Run(h: Hash, t: TableState, ops: seq<Entry>): (r: TableState)
    requires Placed(h, t.buckets)
    ensures Placed(h, r.buckets)
  {
    if ops == [] then t
    else TableSet(h, Run(h, t, ops[..|ops| - 1]), ops[|ops| - 1].key, ops[|ops| - 1].value).0
  }

  predicate Accepted(op: Entry) {
    !op.key.NotPresent? && !op.value.NotPresent?
  }

  /** The value of the last accepted store under a key that is equal and hashes alike. */
  function LastSet(h: Hash, ops: seq<Entry>, key: Value): Value
    requires !key.NotPresent?
  {
    if ops == [] then NotPresent
    else
      var op := ops[|ops| - 1];
      if Accepted(op) && Matches(h, op.key, key) then op.value
      else LastSet(h, ops[..|ops| - 1], key)
  }

  /** The value of the last accepted store under an equal key. */
  function LastEqual(ops: seq<Entry>, key: Value): Value {
    if ops == [] then NotPresent
    else
      var op := ops[|ops| - 1];
      if Accepted(op) && ValueEquals(op.key, key) then op.value
      else LastEqual(ops[..|ops| - 1], key)
  }

  lemma NewTableIsEmpty(h: Hash, loadFactor: real, capacity: int)
    ensures NewTable(loadFactor, capacity).Some? <==> capacity > 0 && PowerOfTwo(capacity)
    ensures NewTable(loadFactor, capacity).Some? ==>
              var t := NewTable(loadFactor, capacity).value;
              && TableOk(h, t) && |t.buckets| == capacity && t.usage == 0
              && t.loadFactor == loadFactor && Contents(h, t.buckets) == map[]
  {
    if capacity > 0 {
      PowerOfTwoTest(capacity);
      if PowerOfTwo(capacity) {
        EmptyIsPlaced(h, capacity);
      }
    }
  }

  /** A lookup after any run of stores, with any number of doublings in between. */
  lemma {:induction false} LookupAfterRun(h: Hash, loadFactor: real, capacity: int, ops: seq<Entry>, key: Value)
    requires NewTable(loadFactor, capacity).Some? && !key.NotPresent?
    requires Placed(h, NewTable(loadFactor, capacity).value.buckets)
    ensures var r := Run(h, NewTable(loadFactor, capacity).value, ops);
            TableOk(h, r) && Lookup(h, r.buckets, key) == LastSet(h, ops, key)
  {
    hide NewTable, Contents, SetEntry, Rehash, MapSet, MapGet, Flat, Lookup, Matches, And, HashOf, ValueEquals;
    var t := NewTable(loadFactor, capacity).value;
    NewTableIsEmpty(h, loadFactor, capacity);
    LookupRefines(h, Run(h, t, ops).buckets, key);
    if ops == [] {
      GetFromEmpty(h, key);
    } else {
      var front, op := ops[..|ops| - 1], ops[|ops| - 1];
      var s := Run(h, t, front);
      LookupAfterRun(h, loadFactor, capacity, front, key);
      TableSetRefines(h, s, op.key, op.value);
      LookupRefines(h, s.buckets, key);
      if Accepted(op) {
        GetAfterSet(Contents(h, s.buckets), h, op, key);
      }
    }
  }

  lemma GetFromEmpty(h: Hash, key: Value)
    requires !key.NotPresent?
    ensures MapGet(map[], h, key) == NotPresent
  {
  }

  lemma GetAfterSet(m: TableMap, h: Hash, op: Entry, key: Value)
    requires Accepted(op) && !key.NotPresent?
    ensures MapGet(MapSet(m, h, op.key, op.value), h, key)
         == if Matches(h, op.key, key) then op.value else MapGet(m, h, key)
  {
    MatchesIsKeyEquality(h, op.key, key);
  }

  // ---------------------------------------------------------------- equality and hashing

  /** All keys equal to this one hash alike. */
  ghost predicate SingleHash(h: Hash, key: Value)
    requires !key.NotPresent?
  {
    forall v: Value :: !v.NotPresent? && ValueEquals(v, key) ==> HashOf(h, v) == HashOf(h, key)
  }

  const PLUS_ZERO: U64 := 0
  const MINUS_ZERO: U64 := TWO_63

  /** Which keys those are: all but the zeros of binary64, unless their two patterns collide, and
      collectable userdata, which is compared by one field and hashed by the other. */
  lemma SingleHashExactly(h: Hash, key: Value)
    requires !key.NotPresent?
    ensures SingleHash(h, key) <==>
            match key
            case Double(w) =>
              IsZero(w) ==> h(LittleEndian(PLUS_ZERO, 8)) == h(LittleEndian(MINUS_ZERO, 8))
            case GcUserdata(_, d, _) => forall e: U64 :: h(LittleEndian(e, 8)) == h(LittleEndian(d, 8))
            case _ => true
  {
    match key
    case Double(w) => ZerosHash(h, w);
    case GcUserdata(o, d, g) => CollectableHash(h, o, d, g);
    case _ =>
  }

  lemma ZerosHash(h: Hash, w: U64)
    ensures SingleHash(h, Double(w)) <==>
            (IsZero(w) ==> h(LittleEndian(PLUS_ZERO, 8)) == h(LittleEndian(MINUS_ZERO, 8)))
  {
    hide LittleEndian;
    if IsZero(w) && SingleHash(h, Double(w)) {
      assert HashOf(h, Double(PLUS_ZERO)) == HashOf(h, Double(w));
      assert HashOf(h, Double(MINUS_ZERO)) == HashOf(h, Double(w));
    }
  }

  lemma CollectableHash(h: Hash, o: Obj, d: U64, g: Obj)
    ensures SingleHash(h, GcUserdata(o, d, g)) <==>
            forall e: U64 :: h(LittleEndian(e, 8)) == h(LittleEndian(d, 8))
  {
    hide LittleEndian;
    var key := GcUserdata(o, d, g);
    if SingleHash(h, key) {
      forall e: U64
        ensures h(LittleEndian(e, 8)) == h(LittleEndian(d, 8))
      {
        assert HashOf(h, GcUserdata(o, e, g)) == HashOf(h, key);
      }
    } else {
      var v: Value :| !v.NotPresent? && ValueEquals(v, key) && HashOf(h, v) != HashOf(h, key);
      assert h(LittleEndian(v.data, 8)) != h(LittleEndian(d, 8));
    }
  }

  lemma {:induction false} LastSetIsLastEqual(h: Hash, ops: seq<Entry>, key: Value)
    requires !key.NotPresent? && SingleHash(h, key)
    ensures LastSet(h, ops, key) == LastEqual(ops, key)
  {
    if ops != [] {
      LastSetIsLastEqual(h, ops[..|ops| - 1], key);
    }
  }

  /** hashtable_get returns the last value set for an equal key, after every run, exactly for the
      keys whose equals all hash alike. */
  lemma GetReturnsLastExactly(h: Hash, loadFactor: real, capacity: int, key: Value)
    requires NewTable(loadFactor, capacity).Some? && !key.NotPresent?
    requires Placed(h, NewTable(loadFactor, capacity).value.buckets)
    ensures SingleHash(h, key) <==>
            forall ops: seq<Entry> ::
              Lookup(h, Run(h, NewTable(loadFactor, capacity).value, ops).buckets, key) == LastEqual(ops, key)
  {
    hide NewTable, Placed, Lookup, LastEqual, LastSet, HashOf, ValueEquals;
    var t := NewTable(loadFactor, capacity).value;
    forall ops: seq<Entry>
      ensures Lookup(h, Run(h, t, ops).buckets, key) == LastSet(h, ops, key)
      ensures SingleHash(h, key) ==> Lookup(h, Run(h, t, ops).buckets, key) == LastEqual(ops, key)
    {
      LookupAfterRun(h, loadFactor, capacity, ops, key);
      if SingleHash(h, key) {
        LastSetIsLastEqual(h, ops, key);
      }
    }
    if !SingleHash(h, key) {
      var v: Value :| !v.NotPresent? && ValueEquals(v, key) && HashOf(h, v) != HashOf(h, key);
      var ops := [Entry(v, Nil)];
      LoneStore(h, v, key);
      assert Lookup(h, Run(h, t, ops).buckets, key) != LastEqual(ops, key);
    }
  }

  lemma LoneStore(h: Hash, v: Value, key: Value)
    requires !key.NotPresent? && !v.NotPresent? && ValueEquals(v, key) && HashOf(h, v) != HashOf(h, key)
    ensures LastSet(h, [Entry(v, Nil)], key) == NotPresent && LastEqual([Entry(v, Nil)], key) == Nil
  {
    assert [Entry(v, Nil)][..0] == [];
  }

  // ---------------------------------------------------------------- growth

  lemma TableSetSize(h: Hash, t: TableState, key: Value, value: Value)
    requires Placed(h, t.buckets)
    ensures var r := TableSet(h, t, key, value).0;
            && r.loadFactor == t.loadFactor
            && (r == t || (r.usage == t.usage + 1 &&
                           |r.buckets| == if Full(t) then 2 * |t.buckets| else |t.buckets|))
  {
    hide Flat, Placed, Rehash, SetEntry, Matches, And, HashOf, ValueEquals, Threshold;
  }

  lemma ThresholdDoubles(n: nat, f: real)
    ensures Threshold(2 * n, f) == 2.0 * Threshold(n, f)
  {
    assert (2 * n) as real == 2.0 * n as real;
    assert (2.0 * n as real) * f == 2.0 * (n as real * f);
  }

  /** The capacity stays a power of two and never outgrows the stores by more than the load factor
      allows; there are never more entries than stores. */
  lemma {:induction false} GrowthBounds(h: Hash, loadFactor: real, capacity: int, ops: seq<Entry>)
    requires NewTable(loadFactor, capacity).Some?
    requires Placed(h, NewTable(loadFactor, capacity).value.buckets)
    ensures var r := Run(h, NewTable(loadFactor, capacity).value, ops);
            && TableOk(h, r) && r.loadFactor == loadFactor && PowerOfTwo(|r.buckets|)
            && |Flat(r.buckets)| <= r.usage <= |ops|
            && (|r.buckets| == capacity || Threshold(|r.buckets|, loadFactor) <= 2.0 * r.usage as real)
  {
    hide SetEntry, Rehash, Flat, PowerOfTwo, NewTable, TableSet, And, Threshold, Contents, MapSet;
    var t := NewTable(loadFactor, capacity).value;
    NewTableIsEmpty(h, loadFactor, capacity);
    if ops != [] {
      var front, op := ops[..|ops| - 1], ops[|ops| - 1];
      GrowthBounds(h, loadFactor, capacity, front);
      var s := Run(h, t, front);
      TableSetRefines(h, s, op.key, op.value);
      TableSetSize(h, s, op.key, op.value);
      ThresholdDoubles(|s.buckets|, loadFactor);
    }
  }

  /** Once the stores are below a threshold of at least one, they stay below it for good. */
  lemma {:induction false} ThresholdStays(h: Hash, t: TableState, ops: seq<Entry>)
    requires Placed(h, t.buckets)
    requires t.usage as real < Threshold(|t.buckets|, t.loadFactor) && Threshold(|t.buckets|, t.loadFactor) >= 1.0
    ensures var r := Run(h, t, ops);
            && r.loadFactor == t.loadFactor
            && r.usage as real < Threshold(|r.buckets|, r.loadFactor) && Threshold(|r.buckets|, r.loadFactor) >= 1.0
  {
    hide Placed, SetEntry, Rehash, Flat, PowerOfTwo, TableSet, And, Threshold, Contents, MapSet;
    if ops != [] {
      var front, op := ops[..|ops| - 1], ops[|ops| - 1];
      ThresholdStays(h, t, front);
      var s := Run(h, t, front);
      TableSetSize(h, s, op.key, op.value);
      ThresholdDoubles(|s.buckets|, s.loadFactor);
    }
  }

  const DEFAULT_LOAD_FACTOR: real := 0.75

  /** The threshold is a percentage and the default load factor is a fraction: with the default factor, a table is
      full until it has more than 400/3 buckets for each store. */
  lemma DefaultFactorFills(t: TableState)
    requires t.loadFactor == DEFAULT_LOAD_FACTOR
    ensures Full(t) <==> 3 * |t.buckets| <= 400 * (t.usage + 1)
    ensures t.usage as real < Threshold(|t.buckets|, t.loadFactor) <==> 400 * t.usage < 3 * |t.buckets|
  {
    var n := |t.buckets| as real;
    assert n * 0.75 / 100.0 == 3.0 * n / 400.0;
    assert (3 * |t.buckets|) as real == 3.0 * n;
    assert (400 * (t.usage + 1)) as real == 400.0 * (t.usage + 1) as real;
    assert (400 * t.usage) as real == 400.0 * t.usage as real;
  }

  /** With the default factor, a new table doubles on every store until it has more than 400/3 buckets for each;
      after eleven stores it always has. */
  lemma {:induction false} DefaultFactorRun(h: Hash, capacity: int, ops: seq<Entry>)
    requires NewTable(DEFAULT_LOAD_FACTOR, capacity).Some?
    requires Placed(h, NewTable(DEFAULT_LOAD_FACTOR, capacity).value.buckets)
    ensures var r := Run(h, NewTable(DEFAULT_LOAD_FACTOR, capacity).value, ops);
            && r.loadFactor == DEFAULT_LOAD_FACTOR
            && (400 * r.usage < 3 * |r.buckets| || |r.buckets| == capacity * Pow2(r.usage))
            && (r.usage == 0 ==> |r.buckets| == capacity)
            && (r.usage >= 11 ==> 400 * r.usage < 3 * |r.buckets|)
  {
    hide NewTable, Placed, TableSet, Full, Pow2, DEFAULT_LOAD_FACTOR;
    var t := NewTable(DEFAULT_LOAD_FACTOR, capacity).value;
    NewTableIsEmpty(h, DEFAULT_LOAD_FACTOR, capacity);
    if ops == [] {
      DoublingStarts(capacity);
    } else {
      var front, op := ops[..|ops| - 1], ops[|ops| - 1];
      DefaultFactorRun(h, capacity, front);
      var s := Run(h, t, front);
      TableSetSize(h, s, op.key, op.value);
      DefaultFactorFills(s);
      DoublingGoesOn(capacity, s.usage, |s.buckets|);
      if s.usage + 1 >= 11 {
        DoublingWins(capacity, s.usage + 1);
      }
    }
  }

  lemma DoublingStarts(capacity: nat)
    ensures capacity * Pow2(0) == capacity
  {
  }

  lemma DoublingGoesOn(capacity: nat, usage: nat, size: nat)
    requires 400 * usage < 3 * size || size == capacity * Pow2(usage)
    requires usage == 0 ==> size == capacity
    ensures var next := if 3 * size <= 400 * (usage + 1) then 2 * size else size;
            400 * (usage + 1) < 3 * next || next == capacity * Pow2(usage + 1)
  {
    assert capacity * Pow2(usage + 1) == 2 * (capacity * Pow2(usage));
    assert usage == 0 ==> capacity * Pow2(usage) == capacity;
  }

  lemma {:induction false} DoublingWins(capacity: nat, usage: nat)
    requires capacity > 0 && usage >= 11
    ensures 400 * usage < 3 * (capacity * Pow2(usage))
  {
    if usage == 11 {
      assert Pow2(11) == 2048;
      assert capacity * 2048 >= 2048;
    } else {
      DoublingWins(capacity, usage - 1);
      assert capacity * Pow2(usage) == 2 * (capacity * Pow2(usage - 1));
    }
  }

  // ---------------------------------------------------------------- iteration

  function FindEqual(chain: seq<Entry>, key: Value): (i: nat)
    ensures i <= |chain|
    ensures i < |chain| ==> ValueEquals(chain[i].key, key)
    ensures forall j :: 0 <= j < i ==> !ValueEquals(chain[j].key, key)
  {
    if chain == [] then 0
    else if ValueEquals(chain[0].key, key) then 0
    else 1 + FindEqual(chain[1..], key)
  }

  /** The bucket loop of hashtable_next; found says that an earlier bucket ended with the key. */
  function NextFrom(b: Buckets, key: Value, found: bool): Value {
    if b == [] then NotPresent
    else
      var i := if found then 0 else FindEqual(b[0], key);
      var after := if found || i == |b[0]| then i else i + 1;
      if after < |b[0]| then b[0][after].key else NextFrom(b[1..], key, found || i < |b[0]|)
  }

  function Next(h: Hash, b: Buckets, key: Value): Value
    requires Placed(h, b)
  {
    if key.NotPresent? then NextFrom(b, key, true)
    else
      IndexInRange(h, key, |b|);
      NextFrom(b[Index(h, key, |b|)..], key, false)
  }

  /** The key at a position of a flat table, or not-present past the end. */
  function KeyAt(es: seq<Entry>, p: nat): Value {
    if p < |es| then es[p].key else NotPresent
  }

  lemma {:induction false} FlatFirst(b: Buckets)
    requires b != []
    ensures Flat(b) == b[0] + Flat(b[1..])
  {
    FlatSplit(b, 0);
    assert b[..0] == [];
  }

  /** One turn of the bucket loop. */
  lemma NextFromBucket(b: Buckets, k: nat, key: Value, found: bool)
    requires k < |b|
    ensures var i := if found then 0 else FindEqual(b[k], key);
            var after := if found || i == |b[k]| then i else i + 1;
            NextFrom(b[k..], key, found) ==
            if after < |b[k]| then b[k][after].key else NextFrom(b[k + 1..], key, found || i < |b[k]|)
  {
    assert b[k..][1..] == b[k + 1..];
  }

  lemma NextFromNothing(b: Buckets, key: Value, found: bool)
    requires b == []
    ensures NextFrom(b, key, found) == NotPresent
  {
  }

  lemma KeyAtInTwo(a: seq<Entry>, b: seq<Entry>, p: nat)
    ensures KeyAt(a + b, p) == if p < |a| then a[p].key else KeyAt(b, p - |a|)
  {
  }

  /** The loop returns the key that follows the first equal key in the flattened buckets. */
  lemma {:induction false} NextFromIsSuccessor(b: Buckets, key: Value, found: bool)
    ensures var i := FindEqual(Flat(b), key);
            NextFrom(b, key, found) == KeyAt(Flat(b), if found then 0 else i + 1)
  {
    hide Flat, FindEqual, ValueEquals, NextFrom;
    if b == [] {
      NoBuckets();
      NextFromNothing(b, key, found);
    } else {
      var rest := Flat(b[1..]);
      FlatFirst(b);
      FindEqualInTwo(b[0], rest, key);
      var i := FindEqual(b[0], key);
      var p := if found then 0 else FindEqual(b[0] + rest, key) + 1;
      KeyAtInTwo(b[0], rest, p);
      assert b[0..] == b;
      NextFromBucket(b, 0, key, found);
      NextFromIsSuccessor(b[1..], key, found || i < |b[0]|);
    }
  }

  lemma NoBuckets()
    ensures Flat([]) == []
  {
  }

  lemma FindEqualInTwo(a: seq<Entry>, b: seq<Entry>, key: Value)
    ensures FindEqual(a + b, key)
         == if FindEqual(a, key) < |a| then FindEqual(a, key) else |a| + FindEqual(b, key)
  {
    hide ValueEquals;
    FindEqualUnique(a + b, key, if FindEqual(a, key) < |a| then FindEqual(a, key) else |a| + FindEqual(b, key));
  }

  lemma FindEqualUnique(es: seq<Entry>, key: Value, i: nat)
    requires i <= |es| && (i < |es| ==> ValueEquals(es[i].key, key))
    requires forall j :: 0 <= j < i ==> !ValueEquals(es[j].key, key)
    ensures FindEqual(es, key) == i
  {
  }

  /** Every step of the iteration goes to the next stored key. */
  ghost predicate StepsThrough(h: Hash, b: Buckets)
    requires Placed(h, b)
  {
    forall p :: 0 <= p < |Flat(b)| ==> Next(h, b, Flat(b)[p].key) == KeyAt(Flat(b), p + 1)
  }

  /** No NaN key except in the last place, and no bucket with two keys that are equal. */
  ghost predicate Traversable(b: Buckets)
    requires AllPresent(b)
  {
    FlatIsPresent(b);
    && (forall p :: 0 <= p < |Flat(b)| - 1 ==> !IdOf(Flat(b)[p].key).KNaN?)
    && (forall k, i, j :: 0 <= k < |b| && 0 <= i < j < |b[k]| ==> !ValueEquals(b[k][i].key, b[k][j].key))
  }

  /** next from a stored key: the search starts at the bucket of the key. */
  lemma NextOfStored(h: Hash, b: Buckets, k: nat, i: nat)
    requires Placed(h, b) && k < |b| && i < |b[k]|
    ensures var low := |Flat(b[..k])|;
            var key := b[k][i].key;
            && low + i < |Flat(b)| && Flat(b)[low + i] == b[k][i]
            && Next(h, b, key) == KeyAt(Flat(b), low + FindEqual(Flat(b)[low..], key) + 1)
  {
    hide Flat, NextFrom, HashOf, ValueEquals, Matches, FindEqual;
    var key, low := b[k][i].key, Flat(b[..k]);
    FlatSplit(b, k);
    FlatFirst(b[k..]);
    assert b[k..][1..] == b[k + 1..];
    assert Flat(b) == low + Flat(b[k..]);
    assert Flat(b)[|low|..] == Flat(b[k..]);
    NextFromIsSuccessor(b[k..], key, false);
    assert Index(h, key, |b|) == k;
  }

  /** The iteration is right exactly on traversable tables. */
  lemma IterationExactly(h: Hash, b: Buckets)
    requires Placed(h, b)
    ensures StepsThrough(h, b) <==> Traversable(b)
  {
    hide Flat, Next, FindEqual, HashOf, ValueEquals, Matches, IdOf;
    if Traversable(b) {
      forall p | 0 <= p < |Flat(b)|
        ensures Next(h, b, Flat(b)[p].key) == KeyAt(Flat(b), p + 1)
      {
        TraversableStep(h, b, p);
      }
    }
    if StepsThrough(h, b) {
      NoEarlyNaN(h, b);
      forall k, i, j | 0 <= k < |b| && 0 <= i < j < |b[k]|
        ensures !ValueEquals(b[k][i].key, b[k][j].key)
      {
        NoEqualPair(h, b, k, i, j);
      }
    }
  }

  lemma TraversableStep(h: Hash, b: Buckets, p: nat)
    requires Placed(h, b) && Traversable(b) && p < |Flat(b)|
    ensures Next(h, b, Flat(b)[p].key) == KeyAt(Flat(b), p + 1)
  {
    hide NextFrom, Index, And, ValueEquals, FindEqual;
    hide Flat, Next, HashOf, Matches;
    FlatIsPresent(b);
    var k, i := FlatLocate(b, p);
    NextOfStored(h, b, k, i);
    var low, key, es := |Flat(b[..k])|, b[k][i].key, Flat(b);
    var tail := es[low..];
    FlatSplit(b, k);
    EqualityIsIdentityOfKeys(key, key);
    if IdOf(key).KNaN? {
      NaNIsNeverFound(tail, key);
    } else {
      assert forall j :: 0 <= j < i ==> tail[j] == b[k][j];
      FindEqualUnique(tail, key, i);
    }
  }

  lemma NaNIsNeverFound(es: seq<Entry>, key: Value)
    requires !key.NotPresent? && IdOf(key).KNaN?
    ensures FindEqual(es, key) == |es|
  {
    var i := FindEqual(es, key);
    if i < |es| {
      EqualityIsIdentityOfKeys(key, key);
    }
  }

  lemma NoEarlyNaN(h: Hash, b: Buckets)
    requires Placed(h, b) && StepsThrough(h, b)
    ensures Present(Flat(b)) && forall p :: 0 <= p < |Flat(b)| - 1 ==> !IdOf(Flat(b)[p].key).KNaN?
  {
    hide Flat, Next, HashOf, Matches;
    FlatIsPresent(b);
    forall p | 0 <= p < |Flat(b)| - 1
      ensures !IdOf(Flat(b)[p].key).KNaN?
    {
      var k, i := FlatLocate(b, p);
      NextOfStored(h, b, k, i);
      var low, key := |Flat(b[..k])|, b[k][i].key;
      if IdOf(key).KNaN? {
        NaNIsNeverFound(Flat(b)[low..], key);
      }
    }
  }

  lemma NoEqualPair(h: Hash, b: Buckets, k: nat, i: nat, j: nat)
    requires Placed(h, b) && StepsThrough(h, b) && k < |b| && i < j < |b[k]|
    ensures !ValueEquals(b[k][i].key, b[k][j].key)
  {
    hide Flat, Next, HashOf, Matches, DistinctKeys, IdOf, ValueEquals, KeyAt, StepsThrough, PowerOfTwo, Index;
    var es, low := Flat(b), |Flat(b[..k])|;
    var f := StoredAt(h, b, k, j);
    FlatSplit(b, k);
    PlacedIsDistinct(h, b);
    NoEarlyNaN(h, b);
    assert es[low..][i] == b[k][i];
    if f <= i {
      KeysDoNotRepeat(h, es, low + f + 1, low + j + 1);
    }
  }

  /** In a right iteration, what follows the first equal key is what follows the key itself. */
  lemma StoredAt(h: Hash, b: Buckets, k: nat, j: nat) returns (f: nat)
    requires Placed(h, b) && StepsThrough(h, b) && k < |b| && j < |b[k]|
    ensures var low := |Flat(b[..k])|;
            && low + j < |Flat(b)| && f == FindEqual(Flat(b)[low..], b[k][j].key)
            && KeyAt(Flat(b), low + f + 1) == KeyAt(Flat(b), low + j + 1)
  {
    hide Flat, Next, HashOf, Matches, DistinctKeys, IdOf, ValueEquals, KeyAt, FindEqual, PowerOfTwo, Index;
    NextOfStored(h, b, k, j);
    f := FindEqual(Flat(b)[|Flat(b[..k])|..], b[k][j].key);
  }

  lemma KeysDoNotRepeat(h: Hash, es: seq<Entry>, p: nat, q: nat)
    requires Present(es) && DistinctKeys(h, es) && p < q && p < |es|
    requires forall i :: 0 <= i < |es| - 1 ==> !IdOf(es[i].key).KNaN?
    ensures KeyAt(es, p) != KeyAt(es, q)
  {
    if q < |es| {
      assert !Matches(h, es[p].key, es[q].key);
      EqualityIsIdentityOfKeys(es[p].key, es[q].key);
    }
  }

  /** Plain keys make any table traversable. */
  lemma PlainTablesAreTraversable(h: Hash, b: Buckets)
    requires Placed(h, b)
    requires forall k, i :: 0 <= k < |b| && 0 <= i < |b[k]| ==> PlainKey(b[k][i].key)
    ensures Traversable(b)
  {
    hide Flat, HashOf, ValueEquals;
    FlatIsPresent(b);
    forall p | 0 <= p < |Flat(b)| - 1
      ensures !IdOf(Flat(b)[p].key).KNaN?
    {
      var k, i := FlatLocate(b, p);
      assert PlainKey(b[k][i].key);
    }
    forall k, i, j | 0 <= k < |b| && 0 <= i < j < |b[k]|
      ensures !ValueEquals(b[k][i].key, b[k][j].key)
    {
      assert PlainKey(b[k][i].key);
      assert !Matches(h, b[k][i].key, b[k][j].key);
      if ValueEquals(b[k][i].key, b[k][j].key) {
        EqualPlainKeysHashAlike(h, b[k][i].key, b[k][j].key);
      }
    }
  }

  /** The keys that repeated next delivers, for at most fuel steps. */
  function Traverse(h: Hash, b: Buckets, key: Value, fuel: nat): seq<Value>
    requires Placed(h, b)
    decreases fuel
  {
    var n := Next(h, b, key);
    if fuel == 0 || n.NotPresent? then [] else [n] + Traverse(h, b, n, fuel - 1)
  }

  lemma {:induction false} TraverseFrom(h: Hash, b: Buckets, p: nat, fuel: nat)
    requires Placed(h, b) && Traversable(b) && p <= |Flat(b)| <= p + fuel
    ensures Traverse(h, b, if p == 0 then NotPresent else Flat(b)[p - 1].key, fuel)
         == seq(|Flat(b)| - p, i requires 0 <= i < |Flat(b)| - p => Flat(b)[p + i].key)
    decreases fuel
  {
    hide Flat, Next, Traversable, StepsThrough, NextFrom;
    var es := Flat(b);
    FlatIsPresent(b);
    IterationStep(h, b, p);
    if p < |es| {
      TraverseFrom(h, b, p + 1, fuel - 1);
    }
  }

  lemma IterationStep(h: Hash, b: Buckets, p: nat)
    requires Placed(h, b) && Traversable(b) && p <= |Flat(b)|
    ensures Next(h, b, if p == 0 then NotPresent else Flat(b)[p - 1].key) == KeyAt(Flat(b), p)
  {
    hide Flat, NextFrom, Traversable, FindEqual;
    IterationExactly(h, b);
    NextFromIsSuccessor(b, NotPresent, true);
  }

  /** Repeated next from not-present visits every stored key exactly once, bucket by bucket and chain
      by chain, and then returns not-present. */
  lemma IterationIsComplete(h: Hash, b: Buckets, fuel: nat)
    requires Placed(h, b) && Traversable(b) && fuel >= |Flat(b)|
    ensures var visited := Traverse(h, b, NotPresent, fuel);
            && |visited| == |Flat(b)|
            && (forall i :: 0 <= i < |visited| ==> visited[i] == Flat(b)[i].key)
            && (forall k, i :: 0 <= k < |b| && 0 <= i < |b[k]| ==> b[k][i].key in visited)
            && Next(h, b, if visited == [] then NotPresent else visited[|visited| - 1]) == NotPresent
  {
    hide Flat, Next, Traversable, Traverse;
    TraverseFrom(h, b, 0, fuel);
    IterationStep(h, b, |Flat(b)|);
    var visited := Traverse(h, b, NotPresent, fuel);
    forall k, i | 0 <= k < |b| && 0 <= i < |b[k]|
      ensures b[k][i].key in visited
    {
      NextOfStored(h, b, k, i);
      assert visited[|Flat(b[..k])| + i] == b[k][i].key;
    }
  }

  // ---------------------------------------------------------------- where the iteration goes wrong

  /** A new table of one bucket with room for several stores. */
  const ONE_BUCKET := TableState([[]], 1000.0, 0)

  lemma OneBucketIsNew(h: Hash)
    ensures NewTable(1000.0, 1) == Some(ONE_BUCKET) && Placed(h, ONE_BUCKET.buckets)
  {
    EmptyIsPlaced(h, 1);
    assert Empty(1) == [[]];
  }

  /** A store into a table of one bucket with room left. */
  lemma StoreInOneBucket(h: Hash, t: TableState, e: Entry)
    requires |t.buckets| == 1 && Placed(h, t.buckets) && Accepted(e) && !Full(t)
    ensures TableSet(h, t, e.key, e.value).0
         == t.(buckets := [ChainSet(h, t.buckets[0], e.key, e.value)], usage := t.usage + 1)
  {
    hide Find, ChainSet, HashOf, Threshold, Matches, Rehash, Full, Flat;
    IndexInRange(h, e.key, |t.buckets|);
    var chain := ChainSet(h, t.buckets[0], e.key, e.value);
    assert Index(h, e.key, |t.buckets|) == 0;
    assert t.buckets[0 := chain] == [chain];
    assert Grown(h, t) == t;
    var r := TableSet(h, t, e.key, e.value).0;
    assert r.buckets == SetEntry(h, t.buckets, e.key, e.value) == [chain];
    assert r == TableState([chain], t.loadFactor, t.usage + 1);
  }

  lemma RunOfOne(h: Hash, t: TableState, e: Entry)
    requires Placed(h, t.buckets)
    ensures Run(h, t, [e]) == TableSet(h, t, e.key, e.value).0
  {
    assert [e][..0] == [];
  }

  lemma RunOfTwo(h: Hash, t: TableState, e: Entry, f: Entry)
    requires Placed(h, t.buckets)
    ensures Run(h, t, [e, f]) == TableSet(h, Run(h, t, [e]), f.key, f.value).0
  {
    assert [e, f][..1] == [e];
  }

  /** The first store puts its pair into the bucket, a second with a key that does not match goes behind it. */
  lemma TwoInOneBucket(h: Hash, e: Entry, f: Entry)
    requires Accepted(e) && Accepted(f) && !Matches(h, e.key, f.key)
    ensures Placed(h, ONE_BUCKET.buckets)
    ensures Run(h, ONE_BUCKET, [e]) == TableState([[e]], 1000.0, 1)
    ensures Run(h, ONE_BUCKET, [e, f]) == TableState([[e, f]], 1000.0, 2)
  {
    hide SetEntry, Flat, Run, HashOf, Matches, TableSet, Placed;
    OneBucketIsNew(h);
    RoomForTwo();
    RunOfOne(h, ONE_BUCKET, e);
    StoreInOneBucket(h, ONE_BUCKET, e);
    assert ChainSet(h, [], e.key, e.value) == [e];
    RunOfTwo(h, ONE_BUCKET, e, f);
    StoreInOneBucket(h, TableState([[e]], 1000.0, 1), f);
    assert Find(h, [e], f.key) == 1;
    assert ChainSet(h, [e], f.key, f.value) == [e, f];
  }

  lemma RoomForTwo()
    ensures forall b: Buckets :: |b| == 1 ==> !Full(TableState(b, 1000.0, 0)) && !Full(TableState(b, 1000.0, 1))
  {
    assert Threshold(1, 1000.0) == 10.0;
  }

  /** Two zeros stored in one bucket send the iteration round in a circle. */
  lemma ZerosLoop(h: Hash, value: Value)
    requires h(LittleEndian(PLUS_ZERO, 8)) != h(LittleEndian(MINUS_ZERO, 8)) && !value.NotPresent?
    ensures NewTable(1000.0, 1) == Some(ONE_BUCKET) && Placed(h, ONE_BUCKET.buckets)
    ensures var r := Run(h, ONE_BUCKET, [Entry(Double(PLUS_ZERO), value), Entry(Double(MINUS_ZERO), value)]);
            Next(h, r.buckets, Double(MINUS_ZERO)) == Double(MINUS_ZERO)
  {
    hide LittleEndian, Next, Run, Placed, NewTable;
    var e, f := Entry(Double(PLUS_ZERO), value), Entry(Double(MINUS_ZERO), value);
    OneBucketIsNew(h);
    TwoInOneBucket(h, e, f);
    NextOfTwoZeros(h, e, f);
  }

  lemma NextOfTwoZeros(h: Hash, e: Entry, f: Entry)
    requires Placed(h, [[e, f]]) && IsZeroKey(e.key) && IsZeroKey(f.key)
    ensures Next(h, [[e, f]], f.key) == f.key
  {
    hide HashOf;
    IndexInRange(h, f.key, 1);
    assert [[e, f]][0..] == [[e, f]];
    assert FindEqual([e, f], f.key) == 0;
  }

  predicate IsZeroKey(v: Value) {
    v.Double? && IsZero(v.bits)
  }

  const A_NAN: U64 := 0x7FF8_0000_0000_0000

  /** A NaN that is stored first ends the iteration, although a key is stored behind it. */
  lemma NaNStopsIteration(h: Hash, value: Value)
    requires !value.NotPresent?
    ensures NewTable(1000.0, 1) == Some(ONE_BUCKET) && Placed(h, ONE_BUCKET.buckets)
    ensures var r := Run(h, ONE_BUCKET, [Entry(Double(A_NAN), value), Entry(Long(1), value)]);
            && r.buckets == [[Entry(Double(A_NAN), value), Entry(Long(1), value)]]
            && Next(h, r.buckets, Double(A_NAN)) == NotPresent
  {
    hide LittleEndian, Next, Run, Placed, NewTable, HashOf;
    var e, f := Entry(Double(A_NAN), value), Entry(Long(1), value);
    OneBucketIsNew(h);
    TwoInOneBucket(h, e, f);
    NaNHasNoNext(h, e, f);
  }

  lemma NaNHasNoNext(h: Hash, e: Entry, f: Entry)
    requires Placed(h, [[e, f]]) && e.key == Double(A_NAN)
    ensures Next(h, [[e, f]], e.key) == NotPresent
  {
    hide HashOf, NextFrom;
    var b := [[e, f]];
    IndexInRange(h, e.key, 1);
    NaNIsNeverFound(b[0], e.key);
    NextFromBucket(b, 0, e.key, false);
    NextFromNothing(b[1..], e.key, false);
  }
}
