/** Tagged values of the virtual machine: classification, equality, ordering,
    arithmetic and the identity under which a value serves as a table key. */
module Values {
  datatype Option<+T> = None | Some(value: T)

  const TWO_63 := 0x8000_0000_0000_0000
  const TWO_64 := 0x1_0000_0000_0000_0000

  type Byte = x: int | 0 <= x < 256
  type U64 = x: int | 0 <= x < TWO_64
  type I64 = x: int | -TWO_63 <= x < TWO_63

  /** The identity of an object on the garbage-collected heap. */
  type Obj = nat

  /** A function body as loaded from a bytecode file. */
  datatype Prototype = Prototype(instructions: seq<U64>, prototypes: seq<Prototype>,
                                 lineInfo: seq<int>, sourceFile: seq<Byte>)

  /** A closure runs bytecode (with the constants of its bytecode file) or the native function at an address. */
  datatype Body =
    | Bytecode(prototype: Prototype, constants: seq<Value>)
    | Native(address: nat)

  datatype Closure = Closure(gcThis: Obj, body: Body, env: Value)

  datatype Value =
    | NotPresent
    | Nil
    | Double(bits: U64)
    | Long(num: I64)
    | Str(obj: Obj, text: seq<Byte>)
    | Table(table: Obj)
    | Fun(closure: Closure)
    | Bool(b: bool)
    | Thread(coroutine: Obj)
    | FullUserdata(dataObj: Obj, data: U64)
    | LightUserdata(dataObj: Obj, data: U64)
    | GcUserdata(dataObj: Obj, data: U64, gcData: Obj)

  // ---------------------------------------------------------------- objects

  /** The heap object a slot must keep alive for the collector; None is the C NULL. */
  function ObjectPtr(v: Value): Option<Obj>
  {
    match v
    case Str(o, _) => Some(o)
    case Table(o) => Some(o)
    case Fun(c) => Some(c.gcThis)
    case FullUserdata(o, _) => Some(o)
    case LightUserdata(o, _) => Some(o)
    case GcUserdata(o, _, _) => Some(o)
    case Thread(o) => Some(o)
    case Long(_) | Double(_) | Bool(_) | Nil | NotPresent => None
  }

  // ---------------------------------------------------------------- 64-bit words

  /** Two's-complement reading of an unsigned 64-bit pattern. */
  function Signed(w: U64): I64 {
    if w < TWO_63 then w else w - TWO_64
  }

  /** The value a 64-bit signed register holds after computing the exact result x. */
  function Wrap(x: int): I64 {
    Signed(x % TWO_64)
  }

  lemma WrapIsIdentityInRange(x: I64)
    ensures Wrap(x) == x
  {
  }

  /** C division and remainder truncate toward zero. */
  function TruncDiv(a: int, b: int): int
    requires b != 0
  {
    if a >= 0 then (if b > 0 then a / b else -(a / -b))
    else (if b > 0 then -(-a / b) else -a / -b)
  }

  function TruncMod(a: int, b: int): int
    requires b != 0
  {
    a - b * TruncDiv(a, b)
  }

  /** Section 6.5.5 of ISO/IEC 9899:2011: quotient and remainder add up to the dividend, and the remainder is
      smaller than the divisor and has the sign of the dividend. */
  lemma DivisionTruncates(a: int, b: int)
    requires b != 0
    ensures var q, r := TruncDiv(a, b), TruncMod(a, b);
            && a == b * q + r
            && -(if b < 0 then -b else b) < r < (if b < 0 then -b else b)
            && (a >= 0 ==> r >= 0) && (a <= 0 ==> r <= 0)
  {
    var m, n := if a < 0 then -a else a, if b < 0 then -b else b;
    assert TruncDiv(a, b) == if (a < 0) == (b < 0) then m / n else -(m / n);
    hide TruncDiv;
    WithSigns(a, b, m / n, m % n);
  }

  lemma WithSigns(a: int, b: int, q: int, r: int)
    requires (if a < 0 then -a else a) == (if b < 0 then -b else b) * q + r
    ensures a - b * (if (a < 0) == (b < 0) then q else -q) == if a < 0 then -r else r
  {
    NegatedProduct(b, q);
  }

  lemma NegatedProduct(b: int, q: int)
    ensures b * -q == -b * q == -(b * q)
  {
  }

  // ---------------------------------------------------------------- binary64 patterns

  predicate IsNaN(w: U64) {
    w % TWO_63 > 0x7FF0_0000_0000_0000
  }

  predicate IsZero(w: U64) {
    w % TWO_63 == 0
  }

  /** The C operator == on two doubles, by their bit patterns. */
  predicate DoubleEqual(a: U64, b: U64) {
    !IsNaN(a) && !IsNaN(b) && (a == b || (IsZero(a) && IsZero(b)))
  }

  // ---------------------------------------------------------------- equality and keys

  predicate ValueEquals(a: Value, b: Value)
  {
    match (a, b)
    case (Str(_, s), Str(_, t)) => s == t
    case (Table(o), Table(p)) => o == p
    case (Fun(c), Fun(d)) => c.gcThis == d.gcThis
    case (Long(x), Long(y)) => x == y
    case (Double(x), Double(y)) => DoubleEqual(x, y)
    case (FullUserdata(_, x), FullUserdata(_, y)) => x == y
    case (LightUserdata(_, x), LightUserdata(_, y)) => x == y
    case (GcUserdata(_, _, x), GcUserdata(_, _, y)) => x == y
    case (Bool(x), Bool(y)) => x == y
    case (Thread(x), Thread(y)) => x == y
    case (Nil, Nil) => true
    case _ => false
  }

  /** A canonical representative of the equality class of a value. */
  datatype KeyId =
    | KNil | KNaN
    | KDouble(bits: U64) | KLong(num: I64) | KStr(text: seq<Byte>) | KTable(table: Obj) | KFun(fun: Obj)
    | KBool(b: bool) | KThread(thread: Obj) | KFull(full: U64) | KLight(light: U64) | KGc(gc: Obj)

  function IdOf(v: Value): KeyId
    requires !v.NotPresent?
  {
    match v
    case Nil => KNil
    case Double(w) => if IsNaN(w) then KNaN else if IsZero(w) then KDouble(0) else KDouble(w)
    case Long(n) => KLong(n)
    case Str(_, s) => KStr(s)
    case Table(o) => KTable(o)
    case Fun(c) => KFun(c.gcThis)
    case Bool(b) => KBool(b)
    case Thread(o) => KThread(o)
    case FullUserdata(_, d) => KFull(d)
    case LightUserdata(_, d) => KLight(d)
    case GcUserdata(_, _, d) => KGc(d)
  }

  /** value_equals is equality of canonical representatives, except that NaN equals nothing. */
  lemma EqualityIsIdentityOfKeys(a: Value, b: Value)
    requires !a.NotPresent? && !b.NotPresent?
    ensures ValueEquals(a, b) <==> IdOf(a) == IdOf(b) && !IdOf(a).KNaN?
  {
  }

  /** The hash of a byte string is a parameter: the configured algorithm is a build option. */
  type Hash = seq<Byte> -> U64

  function LittleEndian(w: nat, len: nat): seq<Byte>
  {
    if len == 0 then [] else [w % 256] + LittleEndian(w / 256, len - 1)
  }

  /** value_hash_code: the bytes each kind of value is hashed by; nil hashes to zero. */
  function HashOf(h: Hash, v: Value): U64
    requires !v.NotPresent?
  {
    match v
    case Str(_, s) => h(s)
    case Long(n) => h(LittleEndian(n % TWO_64, 8))
    case Double(w) => h(LittleEndian(w, 8))
    case Table(o) => h(LittleEndian(o, 8))
    case Fun(c) => h(LittleEndian(c.gcThis, 8))
    case FullUserdata(_, d) => h(LittleEndian(d, 8))
    case LightUserdata(_, d) => h(LittleEndian(d, 8))
    case GcUserdata(_, d, _) => h(LittleEndian(d, 8))
    case Bool(b) => h([if b then 1 else 0])
    case Thread(o) => h(LittleEndian(o, 8))
    case Nil => 0
  }

  /** The number that bytes stand for, the least significant one first. */
  function NumberOf(bytes: seq<Byte>): nat {
    if bytes == [] then 0 else bytes[0] + 256 * NumberOf(bytes[1..])
  }

  /** As many bytes stand for the number they were made from, and no others do. */
  lemma {:induction false} LittleEndianMeaning(w: nat, bytes: seq<Byte>)
    requires NumberOf(bytes) == w
    ensures LittleEndian(w, |bytes|) == bytes
    decreases |bytes|
  {
    if bytes != [] {
      assert w == bytes[0] + 256 * NumberOf(bytes[1..]);
      LittleEndianMeaning(w / 256, bytes[1..]);
    }
  }

  /** Numbers, object identities and data pointers are hashed by their eight bytes, in two's complement and with the
      least significant one first, strings by their own bytes, and booleans by one byte; nil hashes to zero. */
  lemma HashedBytes(h: Hash, v: Value, w: U64, bytes: seq<Byte>)
    requires |bytes| == 8 && NumberOf(bytes) == w
    ensures v.Long? && (v.num - w) % TWO_64 == 0 ==> HashOf(h, v) == h(bytes)
    ensures v == Double(w) || v == Table(w) || v == Thread(w) ==> HashOf(h, v) == h(bytes)
    ensures v.Fun? && v.closure.gcThis == w ==> HashOf(h, v) == h(bytes)
    ensures (v.FullUserdata? || v.LightUserdata? || v.GcUserdata?) && v.data == w ==> HashOf(h, v) == h(bytes)
    ensures v.Str? ==> HashOf(h, v) == h(v.text)
    ensures v.Bool? ==> HashOf(h, v) == h([if v.b then 1 else 0])
    ensures v.Nil? ==> HashOf(h, v) == 0
  {
    hide LittleEndian, NumberOf;
    LittleEndianMeaning(w, bytes);
    if v.Long? && (v.num - w) % TWO_64 == 0 {
      SameWord(v.num, w);
    }
  }

  lemma SameWord(n: I64, w: U64)
    requires (n - w) % TWO_64 == 0
    ensures n % TWO_64 == w
  {
  }

  /** Keys whose equality class has a single hash: all but NaN, the zeros of binary64 and collectable userdata. */
  predicate PlainKey(v: Value) {
    match v
    case NotPresent => false
    case Double(w) => !IsNaN(w) && !IsZero(w)
    case GcUserdata(_, _, _) => false
    case _ => true
  }

  lemma EqualPlainKeysHashAlike(h: Hash, a: Value, b: Value)
    requires PlainKey(a) && !b.NotPresent? && ValueEquals(a, b)
    ensures PlainKey(b) && HashOf(h, a) == HashOf(h, b)
  {
  }

  /** What the hash table really indexes by: it compares hashes first and values second. */
  datatype TKey = TKey(hash: U64, id: KeyId)

  function KeyOf(h: Hash, v: Value): TKey
    requires !v.NotPresent?
  {
    TKey(HashOf(h, v), IdOf(v))
  }

  type TableMap = map<TKey, Value>

  /** The contents after storing a pair; a NaN key is stored where no lookup can find it. */
  function MapSet(m: TableMap, h: Hash, key: Value, value: Value): TableMap
    requires !key.NotPresent?
  {
    if IdOf(key).KNaN? then m else m[KeyOf(h, key) := value]
  }

  function MapGet(m: TableMap, h: Hash, key: Value): Value
    requires !key.NotPresent?
  {
    if IdOf(key).KNaN? || KeyOf(h, key) !in m then NotPresent else m[KeyOf(h, key)]
  }

  // ---------------------------------------------------------------- arithmetic

  datatype ArithOp = Add | Sub | Mul | Div | Mod | Pow

  /** The binary64 operations of the host are parameters of the model. */
  datatype FloatOps = FloatOps(apply: (ArithOp, U64, U64) -> U64, ofLong: I64 -> U64)

  predicate IsNumeric(v: Value) {
    v.Double? || v.Long?
  }

  function ToDouble(fl: FloatOps, v: Value): U64
    requires IsNumeric(v)
  {
    if v.Double? then v.bits else fl.ofLong(v.num)
  }

  /** Division by zero and the one quotient that overflows stop the host process. */
  datatype MathResult = Computed(v: Value) | NonNumeric | HostTrap

  function LongMath(fl: FloatOps, op: ArithOp, a: I64, b: I64): MathResult {
    match op
    case Add => Computed(Long(Wrap(a + b)))
    case Sub => Computed(Long(Wrap(a - b)))
    case Mul => Computed(Long(Wrap(a * b)))
    case Div =>
      if b == 0 || (a == -TWO_63 && b == -1) then HostTrap else Computed(Long(Wrap(TruncDiv(a, b))))
    case Mod =>
      if b == 0 || (a == -TWO_63 && b == -1) then HostTrap else Computed(Long(Wrap(TruncMod(a, b))))
    case Pow => Computed(Double(fl.apply(Pow, fl.ofLong(a), fl.ofLong(b))))
  }

  function Math(fl: FloatOps, op: ArithOp, a: Value, b: Value): MathResult {
    if !IsNumeric(a) || !IsNumeric(b) then NonNumeric
    else if a.Long? && b.Long? then LongMath(fl, op, a.num, b.num)
    else Computed(Double(fl.apply(op, ToDouble(fl, a), ToDouble(fl, b))))
  }

  /** value_is_less: doubles are compared through the signed reading of their bit patterns. */
  predicate IsLess(fl: FloatOps, a: Value, b: Value) {
    && IsNumeric(a) && IsNumeric(b)
    && if a.Long? && b.Long? then a.num < b.num else Signed(ToDouble(fl, a)) < Signed(ToDouble(fl, b))
  }
}
