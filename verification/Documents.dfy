/** Whole documents: what an assembler writes, constants included, and what the loader makes of it; and what it does not
    accept. */
module Documents {
  import opened Instructions
  import opened Values
  import opened Loader

  /** A constant as the author of a program sees it. */
  datatype Literal = TextLiteral(text: seq<Byte>) | IntegerLiteral(num: I64) | FloatLiteral(value: real)

  datatype Document = Document(constants: seq<Literal>, main: Program)

  /** The bytes of a string of the document format. */
  function Ascii(s: string): seq<Byte> {
    seq(|s|, i requires 0 <= i < |s| => s[i] as int % 256)
  }

  function Typed(tag: string, data: Json): Json {
    JObject([Member("type", JString(Ascii(tag))), Member("data", data)])
  }

  function WriteLiteral(c: Literal): Json {
    match c
    case TextLiteral(text) => Typed("string", JString(text))
    case IntegerLiteral(n) => Typed("integer", JNumber(n as real))
    case FloatLiteral(x) => Typed("float", JNumber(x))
  }

  ghost function WriteDocument(d: Document): Json
    requires Writable(d.main)
  {
    JObject([Member("constants", JArray(seq(|d.constants|, i requires 0 <= i < |d.constants| =>
                                              WriteLiteral(d.constants[i])))),
             Member("mainPrototype", Write(d.main))])
  }

  /** The value a constant is for. */
  function Meant(conv: Conversions, c: Literal, obj: Obj): Value {
    match c
    case TextLiteral(text) => Str(obj, text)
    case IntegerLiteral(n) => Long(n)
    case FloatLiteral(x) => Double(conv.pattern(x))
  }

  lemma Tags()
    ensures Ascii("string") == STRING_TAG && Ascii("integer") == INTEGER_TAG && Ascii("float") == FLOAT_TAG
    ensures STRING_TAG != INTEGER_TAG && STRING_TAG != FLOAT_TAG && INTEGER_TAG != FLOAT_TAG
  {
    assert STRING_TAG[0] != INTEGER_TAG[0] && STRING_TAG[0] != FLOAT_TAG[0] && INTEGER_TAG[0] != FLOAT_TAG[0];
  }

  lemma TypedItems(tag: string, data: Json)
    ensures Item(Typed(tag, data), "type") == Some(JString(Ascii(tag)))
    ensures Item(Typed(tag, data), "data") == Some(data)
  {
    var members := Typed(tag, data).members;
    assert "type"[0] != "data"[0];
    IndexIs(members, "type", 0);
    IndexIs(members, "data", 1);
  }

  /** A constant is accepted exactly when it is a string with a text, or an integer or a float with a number. */
  lemma ConstantIsAccepted(tag: string, data: Json)
    ensures ValidConstant(Typed(tag, data)) <==>
            || (Ascii(tag) == Ascii("string") && data.JString?)
            || (Ascii(tag) in {Ascii("integer"), Ascii("float")} && data.JNumber?)
  {
    hide Ascii, Typed, Item;
    assert Typed(tag, data).JObject? by { TypedIsObject(tag, data); }
    TypedItems(tag, data);
    Tags();
  }

  lemma TypedIsObject(tag: string, data: Json)
    ensures Typed(tag, data).JObject?
  {
  }

  /** Every constant that is written is accepted, and read as the value it is for. */
  lemma ConstantIsRead(conv: Conversions, c: Literal, obj: Obj)
    ensures ValidConstant(WriteLiteral(c)) && ReadConstant(conv, WriteLiteral(c), obj) == Meant(conv, c, obj)
  {
    hide Ascii, Typed, Item;
    Tags();
    match c
    case TextLiteral(text) =>
      ConstantIsAccepted("string", JString(text));
      TypedItems("string", JString(text));
    case IntegerLiteral(n) =>
      ConstantIsAccepted("integer", JNumber(n as real));
      TypedItems("integer", JNumber(n as real));
      IntegerIsKept(conv, n);
    case FloatLiteral(x) =>
      ConstantIsAccepted("float", JNumber(x));
      TypedItems("float", JNumber(x));
  }

  lemma IntegerIsKept(conv: Conversions, n: I64)
    ensures ToInt64(conv, n as real) == n
  {
    var x: int := n;
    assert (-(x as real)).Floor == -x;
  }

  lemma DocumentItems(d: Document)
    requires Writable(d.main)
    ensures var j := WriteDocument(d);
            && HasArray(j, "constants") && |Items(j, "constants")| == |d.constants|
            && (forall i :: 0 <= i < |d.constants| ==> Items(j, "constants")[i] == WriteLiteral(d.constants[i]))
            && Item(j, "mainPrototype") == Some(Write(d.main))
  {
    hide Write, WriteLiteral;
    var members := WriteDocument(d).members;
    assert "constants"[0] != "mainPrototype"[0];
    IndexIs(members, "constants", 0);
    IndexIs(members, "mainPrototype", 1);
  }

  /** Every document that is written is accepted. */
  lemma DocumentIsAccepted(conv: Conversions, d: Document)
    requires Writable(d.main)
    ensures ValidDocument(WriteDocument(d))
  {
    hide Write, WriteLiteral, ValidConstant, ValidPrototype, Item, Items;
    DocumentItems(d);
    WrittenIsRead(conv, d.main);
    forall i | 0 <= i < |d.constants|
      ensures ValidConstant(WriteLiteral(d.constants[i]))
    {
      ConstantIsRead(conv, d.constants[i], 0);
    }
  }

  /** Writing a program with its constants and loading the document: the interpreter gets the program itself, and each
      constant at its index, with the object of a string traced. */
  method LoadWritten(conv: Conversions, objs: nat -> Obj, ghost d: Document, j: Json) returns (r: Loaded)
    requires Writable(d.main) && j == WriteDocument(d)
    ensures Decoded(r.mainPrototype) == d.main
    ensures |r.constants| == |d.constants|
    ensures forall i :: 0 <= i < |d.constants| ==> r.constants[i] == Meant(conv, d.constants[i], objs(i))
    ensures forall i :: 0 <= i < |d.constants| && d.constants[i].IntegerLiteral? ==>
              r.constants[i] == Long(d.constants[i].num)
    ensures |r.objects| == |d.constants| && forall i :: 0 <= i < |d.constants| ==>
              r.objects[i] == if d.constants[i].TextLiteral? then Some(objs(i)) else None
  {
    hide Write, WriteLiteral, ValidConstant, ValidPrototype, Item, Items, ReadConstant, WriteDocument, ValidDocument;
    hide Decoded, Read, Loader.Number;
    DocumentIsAccepted(conv, d);
    DocumentParts(conv, d);
    var loaded := LoadJson(conv, objs, j);
    r := loaded.value;
    forall i | 0 <= i < |d.constants|
      ensures r.constants[i] == Meant(conv, d.constants[i], objs(i))
    {
      ConstantIsRead(conv, d.constants[i], objs(i));
    }
  }

  lemma DocumentParts(conv: Conversions, d: Document)
    requires Writable(d.main)
    ensures var j := WriteDocument(d);
            && ValidDocument(j) && Read(conv, Item(j, "mainPrototype").value) == d.main
            && |Items(j, "constants")| == |d.constants|
            && (forall i :: 0 <= i < |d.constants| ==> Items(j, "constants")[i] == WriteLiteral(d.constants[i]))
  {
    hide Write, WriteLiteral, ValidConstant, ValidPrototype, Item, Items, ReadConstant, WriteDocument, Read;
    DocumentItems(d);
    DocumentIsAccepted(conv, d);
    WrittenIsRead(conv, d.main);
  }

  /** A number with a fraction is cut toward zero; one outside the range of the type is what the host converts it to. */
  lemma FractionsAreCut(conv: Conversions, x: real)
    ensures -9223372036854775808.0 <= x < 9223372036854775808.0 ==>
              && (if x < 0.0 then x <= ToInt64(conv, x) as real <= 0.0 else 0.0 <= ToInt64(conv, x) as real <= x)
              && -1.0 < ToInt64(conv, x) as real - x < 1.0
    ensures -2147483648.0 <= x < 2147483648.0 ==>
              && (if x < 0.0 then x <= ToInt32(conv, x) as real <= 0.0 else 0.0 <= ToInt32(conv, x) as real <= x)
              && -1.0 < ToInt32(conv, x) as real - x < 1.0
    ensures x >= 9223372036854775808.0 || x <= -9223372036854775809.0 ==> ToInt64(conv, x) == conv.toInt64(x)
    ensures x >= 2147483648.0 || x <= -2147483649.0 ==> ToInt32(conv, x) == conv.toInt32(x)
  {
  }

  // ---------------------------------------------------------------- what is refused

  function WordOf(high: Json, low: Json): Json {
    JObject([Member("high", high), Member("low", low)])
  }

  lemma WordOfItems(high: Json, low: Json)
    ensures Item(WordOf(high, low), "high") == Some(high) && Item(WordOf(high, low), "low") == Some(low)
  {
    var members := WordOf(high, low).members;
    assert "high"[0] != "low"[0];
    IndexIs(members, "high", 0);
    IndexIs(members, "low", 1);
  }

  /** A word is accepted exactly when both halves are integers between 0 and 4,294,967,295. */
  lemma WordIsAccepted(high: int, low: int, x: real, j: Json)
    ensures ValidWord(WordOf(JNumber(high as real), JNumber(low as real))) <==>
            0 <= high <= 4_294_967_295 && 0 <= low <= 4_294_967_295
    ensures x.Floor as real != x ==> !ValidWord(WordOf(JNumber(x), j)) && !ValidWord(WordOf(j, JNumber(x)))
    ensures !j.JNumber? ==> !ValidWord(WordOf(JNumber(x), j)) && !ValidWord(WordOf(j, JNumber(x)))
  {
    hide Item;
    WordOfItems(JNumber(high as real), JNumber(low as real));
    WordOfItems(JNumber(x), j);
    WordOfItems(j, JNumber(x));
  }

  /** Nothing is accepted without a file name, three arrays of the right kind and functions that are accepted. */
  lemma AcceptedHasAll(j: Json)
    requires ValidPrototype(j)
    ensures HasString(j, "sourceFile") && HasArray(j, "prototypes") && HasArray(j, "instructions")
    ensures HasArray(j, "lineInfo")
    ensures forall c :: c in Items(j, "prototypes") ==> ValidPrototype(c)
    ensures forall w :: w in Items(j, "instructions") ==> ValidWord(w)
    ensures forall l :: l in Items(j, "lineInfo") ==> l.JNumber?
  {
    hide Item, Items, ValidWord;
  }

  /** Of two files that differ in their version only, the one of version 1 is accepted, if any. */
  lemma OnlyVersionOne(file: File, objs: nat -> Obj)
    ensures Acceptable(file, objs) ==> file.version == 1
    ensures Acceptable(file.(version := 1), objs) <==>
            forall i :: 0 <= i < |file.constants| ==>
              var c := file.constants[i];
              || (c.kind.StringKind? && c.data.StrData?)
              || (c.kind.LongKind? && c.data.LongData?)
              || (c.kind.DoubleKind? && c.data.DoubleData?)
  {
    forall i | 0 <= i < |file.constants|
      ensures Unpacked(file.constants[i], objs(i)).Some? <==>
              var c := file.constants[i];
              || (c.kind.StringKind? && c.data.StrData?)
              || (c.kind.LongKind? && c.data.LongData?)
              || (c.kind.DoubleKind? && c.data.DoubleData?)
    {
    }
  }
}
