/** The two byte-string hashes that the virtual machine implements itself. */
module Hashing {
  import opened Arithmetic
  import opened Bits
  import opened Values

  const FNV_OFFSET_BASIS: U64 := 0xCBF2_9CE4_8422_2325
  const FNV_PRIME: U64 := 0x0000_0100_0000_01B3

  /** The multiplicative inverses, modulo two to the 64th, of the two multipliers. */
  const FNV_INVERSE: U64 := 0xCE96_5057_AFF6_957B
  const INVERSE_OF_31: U64 := 0xEF7B_DEF7_BDEF_7BDF

  datatype Algorithm = Fnv | OpenJdk8

  // ---------------------------------------------------------------- one byte

  lemma XorOfWords(s: U64, t: U64)
    ensures 0 <= Xor(s, t) < TWO_64
  {
    Powers();
    XorInRange(s, t, 64);
  }

  function FnvMix(s: U64, b: Byte): (r: U64) {
    XorOfWords(s, b);
    Xor(s, b)
  }

  /** The new hash after one more byte, and the hash before it. */
  function Absorb(alg: Algorithm, s: U64, b: Byte): U64 {
    match alg
    case Fnv => FnvMix(s, b) * FNV_PRIME % TWO_64
    case OpenJdk8 => (31 * s + b) % TWO_64
  }

  function Expel(alg: Algorithm, t: U64, b: Byte): U64 {
    match alg
    case Fnv => FnvMix(t * FNV_INVERSE % TWO_64, b)
    case OpenJdk8 => (t - b) * INVERSE_OF_31 % TWO_64
  }

  lemma Inverses()
    ensures FNV_PRIME * FNV_INVERSE == 887285111055 * TWO_64 + 1
    ensures 31 * INVERSE_OF_31 == 29 * TWO_64 + 1
  {
  }

  /** Multiplying by an invertible number and then by its inverse, modulo two to the 64th. */
  lemma MulInverse(s: int, p: int, q: int, k: int)
    requires p * q == k * TWO_64 + 1
    ensures s * p % TWO_64 * q % TWO_64 == s % TWO_64
  {
    ModTimes(s * p, q, TWO_64);
    assert s * p * q == s + s * k * TWO_64 by {
      assert s * p * q == s * (p * q);
      assert s * (k * TWO_64 + 1) == s * k * TWO_64 + s;
    }
    ModMultiple(s, s * k, TWO_64);
  }

  /** Absorbing a byte is a permutation of the 64-bit states, and Expel is its inverse. */
  lemma AbsorbIsPermutation(alg: Algorithm, s: U64, b: Byte)
    ensures Expel(alg, Absorb(alg, s, b), b) == s
    ensures Absorb(alg, Expel(alg, s, b), b) == s
  {
    match alg
    case Fnv => FnvIsPermutation(s, b);
    case OpenJdk8 =>
      JdkExpelAbsorb(s, b);
      JdkAbsorbExpel(s, b);
  }

  lemma FnvIsPermutation(s: U64, b: Byte)
    ensures Expel(Fnv, Absorb(Fnv, s, b), b) == s
    ensures Absorb(Fnv, Expel(Fnv, s, b), b) == s
  {
    hide Xor;
    Inverses();
    XorOfWords(s, b);
    MulInverse(Xor(s, b), FNV_PRIME, FNV_INVERSE, 887285111055);
    XorTwice(s, b);
    MulInverse(s, FNV_INVERSE, FNV_PRIME, 887285111055);
    XorTwice(s * FNV_INVERSE % TWO_64, b);
  }

  lemma JdkExpelAbsorb(s: U64, b: Byte)
    ensures Expel(OpenJdk8, Absorb(OpenJdk8, s, b), b) == s
  {
    var t := (31 * s + b) % TWO_64;
    ModShift(31 * s + b, 0 - b, TWO_64);
    Commutes(31, s);
    ModOfDifference(t, b, s);
  }

  lemma Commutes(a: int, b: int)
    ensures a * b == b * a
  {
  }

  lemma ModOfDifference(t: U64, b: Byte, s: U64)
    requires (t - b) % TWO_64 == s * 31 % TWO_64
    ensures (t - b) * INVERSE_OF_31 % TWO_64 == s
  {
    Inverses();
    Undone(t - b, s, 31, INVERSE_OF_31, 29);
  }

  lemma Undone(u: int, s: U64, p: int, q: int, k: int)
    requires p * q == k * TWO_64 + 1 && u % TWO_64 == s * p % TWO_64
    ensures u * q % TWO_64 == s
  {
    ModTimes(u, q, TWO_64);
    MulInverse(s, p, q, k);
  }

  lemma JdkAbsorbExpel(t: U64, b: Byte)
    ensures Absorb(OpenJdk8, Expel(OpenJdk8, t, b), b) == t
  {
    Inverses();
    MulInverse(t - b, INVERSE_OF_31, 31, 29);
    var w := (t - b) * INVERSE_OF_31 % TWO_64;
    JdkSum(w, t, b);
  }

  lemma JdkSum(w: U64, t: U64, b: Byte)
    requires w * 31 % TWO_64 == (t - b) % TWO_64
    ensures (31 * w + b) % TWO_64 == t
  {
    ModShift(w * 31, b, TWO_64);
    ModShift(t - b, b, TWO_64);
  }

  /** Different bytes lead to different states. */
  lemma AbsorbSeparates(alg: Algorithm, s: U64, b: Byte, c: Byte)
    requires b != c
    ensures Absorb(alg, s, b) != Absorb(alg, s, c)
  {
    match alg
    case Fnv => FnvSeparates(s, b, c);
    case OpenJdk8 => JdkSeparates(s, b, c);
  }

  lemma FnvSeparates(s: U64, b: Byte, c: Byte)
    requires b != c
    ensures Absorb(Fnv, s, b) != Absorb(Fnv, s, c)
  {
    hide Xor;
    XorSeparates(s, b, c);
    ProductsDiffer(FnvMix(s, b), FnvMix(s, c));
  }

  lemma XorSeparates(s: U64, b: Byte, c: Byte)
    requires b != c
    ensures Xor(s, b) != Xor(s, c)
  {
    hide Xor;
    XorCommutes(s, b);
    XorCommutes(s, c);
    XorTwice(b, s);
    XorTwice(c, s);
  }

  lemma ProductsDiffer(x: U64, y: U64)
    requires x != y
    ensures x * FNV_PRIME % TWO_64 != y * FNV_PRIME % TWO_64
  {
    Inverses();
    MulInverse(x, FNV_PRIME, FNV_INVERSE, 887285111055);
    MulInverse(y, FNV_PRIME, FNV_INVERSE, 887285111055);
  }

  lemma JdkSeparates(s: U64, b: Byte, c: Byte)
    requires b != c
    ensures Absorb(OpenJdk8, s, b) != Absorb(OpenJdk8, s, c)
  {
    SumsDiffer(31 * s, b, c);
  }

  lemma SumsDiffer(u: int, b: Byte, c: Byte)
    requires b != c
    ensures (u + b) % TWO_64 != (u + c) % TWO_64
  {
    ModShift(u + b, -u, TWO_64);
    ModShift(u + c, -u, TWO_64);
  }

  // ---------------------------------------------------------------- byte strings

  /** The state before the first byte. */
  function Seed(alg: Algorithm): U64 {
    if alg.Fnv? then FNV_OFFSET_BASIS else 0
  }

  /** The state after absorbing a byte string. */
  function Fold(alg: Algorithm, s: U64, data: seq<Byte>): U64 {
    if data == [] then s
    else Absorb(alg, Fold(alg, s, data[..|data| - 1]), data[|data| - 1])
  }

  function Unfold(alg: Algorithm, t: U64, data: seq<Byte>): U64
    decreases |data|
  {
    if data == [] then t
    else Unfold(alg, Expel(alg, t, data[|data| - 1]), data[..|data| - 1])
  }

  /** For any fixed data, hashing is a permutation of the 64-bit states. */
  lemma {:induction false} FoldIsPermutation(alg: Algorithm, s: U64, data: seq<Byte>)
    ensures Unfold(alg, Fold(alg, s, data), data) == s
    ensures Fold(alg, Unfold(alg, s, data), data) == s
    decreases |data|
  {
    hide Absorb, Expel;
    if data != [] {
      var front, last := data[..|data| - 1], data[|data| - 1];
      FoldIsPermutation(alg, s, front);
      AbsorbIsPermutation(alg, Fold(alg, s, front), last);
      FoldIsPermutation(alg, Expel(alg, s, last), front);
      AbsorbIsPermutation(alg, s, last);
    }
  }

  lemma {:induction false} FoldInTwo(alg: Algorithm, s: U64, a: seq<Byte>, b: seq<Byte>)
    ensures Fold(alg, s, a + b) == Fold(alg, Fold(alg, s, a), b)
  {
    if b == [] {
      assert a + b == a;
    } else {
      var n := |b| - 1;
      FoldInTwo(alg, s, a, b[..n]);
      assert (a + b)[..|a + b| - 1] == a + b[..n];
    }
  }

  /** Changing exactly one byte always changes the hash. */
  lemma OneByteNeverCollides(alg: Algorithm, s: U64, data: seq<Byte>, i: nat, b: Byte)
    requires i < |data| && data[i] != b
    ensures Fold(alg, s, data) != Fold(alg, s, data[i := b])
  {
    hide Absorb, Expel;
    var other := data[i := b];
    assert data == data[..i] + [data[i]] + data[i + 1..] && other == data[..i] + [b] + data[i + 1..];
    var before := Fold(alg, s, data[..i]);
    FoldOne(alg, s, data[..i], data[i], data[i + 1..]);
    FoldOne(alg, s, data[..i], b, data[i + 1..]);
    AbsorbSeparates(alg, before, data[i], b);
    FoldIsPermutation(alg, Absorb(alg, before, data[i]), data[i + 1..]);
    FoldIsPermutation(alg, Absorb(alg, before, b), data[i + 1..]);
  }

  lemma FoldOne(alg: Algorithm, s: U64, a: seq<Byte>, x: Byte, b: seq<Byte>)
    ensures Fold(alg, s, a + [x] + b) == Fold(alg, Absorb(alg, Fold(alg, s, a), x), b)
  {
    hide Absorb;
    FoldInTwo(alg, s, a + [x], b);
    assert (a + [x])[..|a|] == a;
  }

  function Power(b: nat, n: nat): nat {
    if n == 0 then 1 else b * Power(b, n - 1)
  }

  /** The hash of a concatenation from the hashes of its parts. */
  lemma {:induction false} JdkOfConcatenation(a: seq<Byte>, b: seq<Byte>)
    ensures Fold(OpenJdk8, 0, a + b)
         == (Fold(OpenJdk8, 0, a) * Power(31, |b|) + Fold(OpenJdk8, 0, b)) % TWO_64
  {
    hide Absorb;
    if b == [] {
      assert a + b == a;
    } else {
      var n, last := |b| - 1, b[|b| - 1];
      JdkOfConcatenation(a, b[..n]);
      assert (a + b)[..|a + b| - 1] == a + b[..n];
      JdkStep(Fold(OpenJdk8, 0, a), Power(31, n), Fold(OpenJdk8, 0, b[..n]), last);
    }
  }

  lemma JdkStep(h: U64, p: nat, g: U64, x: Byte)
    ensures Absorb(OpenJdk8, (h * p + g) % TWO_64, x) == (h * (31 * p) + Absorb(OpenJdk8, g, x)) % TWO_64
  {
    TimesThirtyOne(h, p);
    JdkStepSum(h * p, g, x);
  }

  lemma TimesThirtyOne(h: int, p: int)
    ensures h * (31 * p) == 31 * (h * p)
  {
  }

  lemma JdkStepSum(u: int, g: int, x: int)
    ensures (31 * ((u + g) % TWO_64) + x) % TWO_64 == (31 * u + (31 * g + x) % TWO_64) % TWO_64
  {
    ModTimes(u + g, 31, TWO_64);
    ModShift((u + g) % TWO_64 * 31, x, TWO_64);
    ModShift((u + g) * 31, x, TWO_64);
    ModShift(31 * g + x, 31 * u, TWO_64);
  }

  /** The hash of the empty string: the offset basis of the FNV specification, and zero. */
  lemma EmptyHashes()
    ensures Fold(Fnv, Seed(Fnv), []) == 14695981039346656037 && Fold(OpenJdk8, Seed(OpenJdk8), []) == 0
  {
  }

  /** What the method computes for a concatenation: the polynomial law, from its own results for the parts. */
  lemma JdkHashOfConcatenation(a: seq<Byte>, b: seq<Byte>)
    ensures Fold(OpenJdk8, Seed(OpenJdk8), a + b)
         == (Fold(OpenJdk8, Seed(OpenJdk8), a) * Power(31, |b|) + Fold(OpenJdk8, Seed(OpenJdk8), b)) % TWO_64
  {
    hide Fold, Power;
    JdkOfConcatenation(a, b);
  }

  lemma JdkHashOfByte(b: Byte)
    ensures Fold(OpenJdk8, Seed(OpenJdk8), [b]) == b
  {
    assert [b][..0] == [];
  }

  const LETTER_A: seq<Byte> := [97]

  /** The published FNV-1a hash of the string "a". */
  lemma FnvOfLetter()
    ensures Fold(Fnv, Seed(Fnv), LETTER_A) == 0xAF63_DC4C_8601_EC8C
  {
    hide Xor;
    assert LETTER_A[..0] == [];
    assert Pow2(8) == 256;
    XorOfLow(0xCB_F29C_E484_2223, 0x25, 97, 8);
    SmallXor();
    assert FnvMix(FNV_OFFSET_BASIS, 97) == 0xCBF2_9CE4_8422_2344;
    FnvProduct();
  }

  lemma SmallXor()
    ensures Xor(0x25, 97) == 0x44
  {
    assert Xor(1, 3) == 2;
    assert Xor(4, 12) == 8;
    assert Xor(18, 48) == 34;
  }

  lemma FnvProduct()
    ensures 0xCBF2_9CE4_8422_2344 * FNV_PRIME % TWO_64 == 0xAF63_DC4C_8601_EC8C
  {
  }

  // ---------------------------------------------------------------- the loops

  method HashFnv(data: seq<Byte>) returns (hash: U64)
    ensures hash == Fold(Fnv, Seed(Fnv), data)
  {
    hash := Seed(Fnv);
    for i := 0 to |data|
      invariant hash == Fold(Fnv, Seed(Fnv), data[..i])
    {
      hash := FnvMix(hash, data[i]);
      hash := hash * FNV_PRIME % TWO_64;
      assert data[..i + 1][..i] == data[..i];
    }
    assert data[..|data|] == data;
  }

  method HashOpenJdk8(data: seq<Byte>) returns (hash: U64)
    ensures hash == Fold(OpenJdk8, Seed(OpenJdk8), data)
  {
    hash := Seed(OpenJdk8);
    for i := 0 to |data|
      invariant hash == Fold(OpenJdk8, Seed(OpenJdk8), data[..i])
    {
      hash := (31 * hash + data[i]) % TWO_64;
      assert data[..i + 1][..i] == data[..i];
    }
    assert data[..|data|] == data;
  }
}
