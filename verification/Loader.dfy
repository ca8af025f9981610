/** The loader: from a JSON document over 32-bit halves of instruction words, by way of the message that is
    packed and unpacked in between, to the prototypes that the interpreter runs. */
module Loader {
  import opened Arithmetic
  import opened Bits
  import opened Instructions
  import opened Values

  // ---------------------------------------------------------------- documents

  /** A parsed document. Strings are the bytes before the terminating zero. */
  datatype Json =
    | JNull
    | JBool(b: bool)
    | JNumber(num: real)
    | JString(text: seq<Byte>)
    | JArray(items: seq<Json>)
    | JObject(members: seq<Member>)

  datatype Member = Member(name: string, value: Json)

  function IndexOf(members: seq<Member>, name: string): (i: nat)
    ensures i <= |members| && (i < |members| ==> members[i].name == name)
  {
    if members == [] then 0
    else if members[0].name == name then 0
    else 1 + IndexOf(members[1..], name)
  }

  /** The first member of an object with a name; None is the null pointer. */
  function Item(j: Json, name: string): (r: Option<Json>)
    ensures r.Some? ==> j.JObject? && IndexOf(j.members, name) < |j.members|
                        && r.value == j.members[IndexOf(j.members, name)].value
  {
    if j.JObject? && IndexOf(j.members, name) < |j.members|
    then Some(j.members[IndexOf(j.members, name)].value)
    else None
  }

  predicate HasNumber(j: Json, name: string) {
    Item(j, name).Some? && Item(j, name).value.JNumber?
  }

  predicate HasArray(j: Json, name: string) {
    Item(j, name).Some? && Item(j, name).value.JArray?
  }

  predicate HasString(j: Json, name: string) {
    Item(j, name).Some? && Item(j, name).value.JString?
  }

  function Number(j: Json, name: string): real
    requires HasNumber(j, name)
  {
    Item(j, name).value.num
  }

  function Items(j: Json, name: string): (r: seq<Json>)
    requires HasArray(j, name)
    ensures forall i :: 0 <= i < |r| ==> r[i] < j
  {
    assert Item(j, name).value == j.members[IndexOf(j.members, name)].value;
    Item(j, name).value.items
  }

  const UINT32_MAX := 0xFFFF_FFFF
  const TWO_32 := 0x1_0000_0000

  predicate IsHalf(x: real) {
    0.0 <= x <= UINT32_MAX as real && x.Floor as real == x
  }

  predicate ValidWord(j: Json) {
    && j.JObject? && HasNumber(j, "high") && HasNumber(j, "low")
    && IsHalf(Number(j, "low")) && IsHalf(Number(j, "high"))
  }

  /** What validatePrototype accepts. */
  predicate ValidPrototype(j: Json)
    decreases j
  {
    && j.JObject? && HasString(j, "sourceFile") && HasArray(j, "prototypes")
    && HasArray(j, "instructions") && HasArray(j, "lineInfo")
    && (forall i :: 0 <= i < |Items(j, "instructions")| ==> ValidWord(Items(j, "instructions")[i]))
    && (forall i :: 0 <= i < |Items(j, "lineInfo")| ==> Items(j, "lineInfo")[i].JNumber?)
    && (forall i :: 0 <= i < |Items(j, "prototypes")| ==> ValidPrototype(Items(j, "prototypes")[i]))
  }

  method ValidateInstructions(instructions: seq<Json>) returns (ok: bool)
    ensures ok <==> forall i :: 0 <= i < |instructions| ==> ValidWord(instructions[i])
  {
    for i := 0 to |instructions|
      invariant forall k :: 0 <= k < i ==> ValidWord(instructions[k])
    {
      var current := instructions[i];
      if !current.JObject? {
        return false;
      }
      if !HasNumber(current, "high") || !HasNumber(current, "low") {
        return false;
      }
      var lowNum, highNum := Number(current, "low"), Number(current, "high");
      if lowNum < 0.0 || lowNum > UINT32_MAX as real || lowNum.Floor as real != lowNum {
        return false;
      }
      if highNum < 0.0 || highNum > UINT32_MAX as real || highNum.Floor as real != highNum {
        return false;
      }
    }
    return true;
  }

  method ValidatePrototype(j: Json) returns (ok: bool)
    ensures ok <==> ValidPrototype(j)
    decreases j
  {
    if !j.JObject? || !HasString(j, "sourceFile") || !HasArray(j, "prototypes")
       || !HasArray(j, "instructions") || !HasArray(j, "lineInfo") {
      return false;
    }
    ok := ValidateInstructions(Items(j, "instructions"));
    if !ok {
      return false;
    }
    var lineInfo := Items(j, "lineInfo");
    for i := 0 to |lineInfo|
      invariant forall k :: 0 <= k < i ==> lineInfo[k].JNumber?
    {
      if !lineInfo[i].JNumber? {
        return false;
      }
    }
    var prototypes := Items(j, "prototypes");
    for i := 0 to |prototypes|
      invariant forall k :: 0 <= k < i ==> ValidPrototype(prototypes[k])
    {
      ok := ValidatePrototype(prototypes[i]);
      if !ok {
        return false;
      }
    }
    return true;
  }

  // ---------------------------------------------------------------- the message

  /** Conversions of doubles to integers that the C language leaves undefined, and the pattern of a double. */
  datatype Conversions = Conversions(toInt32: real -> I32, toInt64: real -> I64, pattern: real -> U64)

  type I32 = x: int | -0x8000_0000 <= x < 0x8000_0000

  function Truncated(x: real): int {
    if x >= 0.0 then x.Floor else -((-x).Floor)
  }

  function ToInt32(conv: Conversions, x: real): I32 {
    var n := Truncated(x);
    if -0x8000_0000 <= n < 0x8000_0000 then n else conv.toInt32(x)
  }

  function ToInt64(conv: Conversions, x: real): I64 {
    var n := Truncated(x);
    if -TWO_63 <= n < TWO_63 then n else conv.toInt64(x)
  }

  datatype Message = Message(instructions: seq<U64>, prototypes: seq<Message>, lineInfo: seq<int>,
                             sourceFile: seq<Byte>)

  /** The instruction word of two halves. */
  function Word(j: Json): U64
    requires ValidWord(j)
  {
    var high, low := Number(j, "high").Floor, Number(j, "low").Floor;
    WordInRange(high, low);
    Or(high * TWO_32, low)
  }

  lemma WordInRange(high: nat, low: nat)
    requires high <= UINT32_MAX && low <= UINT32_MAX
    ensures Or(high * TWO_32, low) == high * TWO_32 + low < TWO_64
  {
    Powers();
    OrOfShifted(high, low, 32);
  }

  /** A message made from a document: word by word, line by line, child by child. */
  ghost predicate Packed(conv: Conversions, j: Json, m: Message)
    requires ValidPrototype(j)
    decreases j
  {
    var words, lines, children := Items(j, "instructions"), Items(j, "lineInfo"), Items(j, "prototypes");
    && |m.instructions| == |words| && (forall i :: 0 <= i < |words| ==> m.instructions[i] == Word(words[i]))
    && |m.lineInfo| == |lines| && (forall i :: 0 <= i < |lines| ==> m.lineInfo[i] == ToInt32(conv, lines[i].num))
    && |m.prototypes| == |children|
    && (forall i :: 0 <= i < |children| ==> Packed(conv, children[i], m.prototypes[i]))
    && m.sourceFile == Item(j, "sourceFile").value.text
  }

  method PackWords(words: seq<Json>) returns (instructions: array<U64>)
    requires forall i :: 0 <= i < |words| ==> ValidWord(words[i])
    ensures fresh(instructions) && instructions.Length == |words|
    ensures forall i :: 0 <= i < |words| ==> instructions[i] == Word(words[i])
  {
    instructions := new U64[|words|](_ => 0);
    for i := 0 to |words|
      invariant forall k :: 0 <= k < i ==> instructions[k] == Word(words[k])
    {
      var low, high := Number(words[i], "low").Floor, Number(words[i], "high").Floor;
      WordInRange(high, low);
      instructions[i] := Or(high * TWO_32, low);
    }
  }

  method PackLines(conv: Conversions, lines: seq<Json>) returns (lineInfo: array<int>)
    requires forall i :: 0 <= i < |lines| ==> lines[i].JNumber?
    ensures fresh(lineInfo) && lineInfo.Length == |lines|
    ensures forall i :: 0 <= i < |lines| ==> lineInfo[i] == ToInt32(conv, lines[i].num)
  {
    lineInfo := new int[|lines|](_ => 0);
    for i := 0 to |lines|
      invariant forall k :: 0 <= k < i ==> lineInfo[k] == ToInt32(conv, lines[k].num)
    {
      lineInfo[i] := ToInt32(conv, lines[i].num);
    }
  }

  /** loadPrototype of the JSON loader: children first, then words, then lines. */
  method PackPrototype(conv: Conversions, j: Json) returns (m: Message)
    requires ValidPrototype(j)
    ensures Packed(conv, j, m)
    decreases j
  {
    hide IsHalf, IndexOf, Or, ValidWord, Word;
    var children := Items(j, "prototypes");
    var prototypes := new Message[|children|](_ => Message([], [], [], []));
    for i := 0 to |children|
      invariant forall k :: 0 <= k < i ==> Packed(conv, children[k], prototypes[k])
    {
      prototypes[i] := PackPrototype(conv, children[i]);
    }
    var instructions := PackWords(Items(j, "instructions"));
    var lineInfo := PackLines(conv, Items(j, "lineInfo"));
    m := Message(instructions[..], prototypes[..], lineInfo[..], Item(j, "sourceFile").value.text);
  }

  // ---------------------------------------------------------------- prototypes

  /** The string value of a file name: one byte longer than the text, with the terminating zero counted, unless
      the text is empty. */
  function NameValue(text: seq<Byte>): seq<Byte> {
    if text == [] then [] else text + [0]
  }

  /** The text a name value shows as a C string. */
  function NameText(name: seq<Byte>): seq<Byte> {
    if name == [] then [] else name[..|name| - 1]
  }

  /** A prototype with exactly what is in a message, at every depth. */
  predicate Copied(m: Message, p: Prototype)
    decreases m
  {
    && p.instructions == m.instructions && p.lineInfo == m.lineInfo && p.sourceFile == NameValue(m.sourceFile)
    && |p.prototypes| == |m.prototypes|
    && forall i :: 0 <= i < |m.prototypes| ==> Copied(m.prototypes[i], p.prototypes[i])
  }

  method CopyOf<T(0)>(source: seq<T>) returns (target: array<T>)
    ensures fresh(target) && target[..] == source
  {
    target := new T[|source|];
    for i := 0 to |source|
      invariant target[..i] == source[..i]
    {
      target[i] := source[i];
    }
  }

  /** loadPrototype of the bytecode module. */
  method CopyPrototype(m: Message) returns (p: Prototype)
    ensures Copied(m, p)
    ensures p.sourceFile == if m.sourceFile == [] then [] else m.sourceFile + [0]
    decreases m
  {
    var prototypes := new Prototype[|m.prototypes|](_ => Prototype([], [], [], []));
    for i := 0 to |m.prototypes|
      invariant forall k :: 0 <= k < i ==> Copied(m.prototypes[k], prototypes[k])
    {
      prototypes[i] := CopyPrototype(m.prototypes[i]);
    }
    var instructions := CopyOf(m.instructions);
    var lineInfo := CopyOf(m.lineInfo);
    var len := |m.sourceFile|;
    if len == 0 {
      len := -1;
    }
    var sourceFilename := (m.sourceFile + [0])[..len + 1];
    p := Prototype(instructions[..], prototypes[..], lineInfo[..], sourceFilename);
  }

  // ---------------------------------------------------------------- what a program says

  /** A program as its author sees it. */
  datatype Program = Program(code: seq<Instruction>, functions: seq<Program>, lines: seq<int>, file: seq<Byte>)

  /** What the interpreter will execute. */
  function Decoded(p: Prototype): Program
    decreases p
  {
    Program(seq(|p.instructions|, i requires 0 <= i < |p.instructions| => Decode(p.instructions[i])),
            seq(|p.prototypes|, i requires 0 <= i < |p.prototypes| => Decoded(p.prototypes[i])),
            p.lineInfo, NameText(p.sourceFile))
  }

  /** The instruction in two halves: opcode, condition and A above, B and C below. */
  function Meaning(high: nat, low: nat): Instruction {
    Instruction((high / 0x100_0000) % 0x100, (high / 0x1_0000) % 0x100, high % 0x1_0000,
                (low / 0x1_0000) % 0x1_0000, low % 0x1_0000)
  }

  /** What a document says. */
  function Read(conv: Conversions, j: Json): Program
    requires ValidPrototype(j)
    decreases j
  {
    var words, lines, children := Items(j, "instructions"), Items(j, "lineInfo"), Items(j, "prototypes");
    Program(seq(|words|, i requires 0 <= i < |words| =>
                  Meaning(Number(words[i], "high").Floor, Number(words[i], "low").Floor)),
            seq(|children|, i requires 0 <= i < |children| => Read(conv, children[i])),
            seq(|lines|, i requires 0 <= i < |lines| => ToInt32(conv, lines[i].num)),
            Item(j, "sourceFile").value.text)
  }

  lemma DecodeHalves(high: nat, low: nat)
    requires high <= UINT32_MAX && low <= UINT32_MAX
    ensures Decode(high * TWO_32 + low) == Meaning(high, low)
  {
    var w := high * TWO_32 + low;
    LowHalf(high, low);
    DivModUnique(w, TWO_32, high, low);
    QuotientOf48(w);
    QuotientOf56(w);
    DivModUnique(high, 0x100_0000, (high / 0x1_0000) / 0x100, high % 0x1_0000 + 0x1_0000 * ((high / 0x1_0000) % 0x100));
  }

  lemma LowHalf(high: nat, low: nat)
    requires low <= UINT32_MAX
    ensures var w := high * TWO_32 + low;
            w % 0x1_0000 == low % 0x1_0000 && (w / 0x1_0000) % 0x1_0000 == (low / 0x1_0000) % 0x1_0000
  {
    var w := high * TWO_32 + low;
    DivModUnique(w, 0x1_0000, high * 0x1_0000 + low / 0x1_0000, low % 0x1_0000);
    DivModUnique(w / 0x1_0000, 0x1_0000, high, low / 0x1_0000);
  }

  /** Packing, copying and decoding an accepted document yields what the document says: the fields of every
      instruction, the shape and order of the tree, the line numbers and the file names, at every depth. */
  lemma {:induction false} LoadedIsRead(conv: Conversions, j: Json, m: Message, p: Prototype)
    requires ValidPrototype(j) && Packed(conv, j, m) && Copied(m, p)
    ensures Decoded(p) == Read(conv, j)
    decreases j
  {
    hide Meaning, Item, Items, ToInt32, Decode, Or, Number;
    var words, children := Items(j, "instructions"), Items(j, "prototypes");
    var d, r := Decoded(p), Read(conv, j);
    forall i | 0 <= i < |words|
      ensures d.code[i] == r.code[i]
    {
      var high, low := Number(words[i], "high").Floor, Number(words[i], "low").Floor;
      WordInRange(high, low);
      DecodeHalves(high, low);
    }
    forall i | 0 <= i < |children|
      ensures d.functions[i] == r.functions[i]
    {
      LoadedIsRead(conv, children[i], m.prototypes[i], p.prototypes[i]);
    }
    assert d.code == r.code && d.functions == r.functions && d.lines == r.lines;
  }

  // ---------------------------------------------------------------- writing a document

  ghost predicate Writable(s: Program)
    decreases s
  {
    && (forall i :: 0 <= i < |s.code| ==> FieldsFit(s.code[i]))
    && (forall i :: 0 <= i < |s.lines| ==> -0x8000_0000 <= s.lines[i] < 0x8000_0000)
    && (forall i :: 0 <= i < |s.functions| ==> Writable(s.functions[i]))
  }

  function WriteWord(ins: Instruction): Json
    requires FieldsFit(ins)
  {
    JObject([Member("high", JNumber((ins.opcode * 0x100_0000 + ins.cond * 0x1_0000 + ins.A) as real)),
             Member("low", JNumber((ins.B * 0x1_0000 + ins.C) as real))])
  }

  /** The document an assembler writes for a program. */
  ghost function Write(s: Program): Json
    requires Writable(s)
    decreases s
  {
    JObject([Member("sourceFile", JString(s.file)),
             Member("prototypes",
                    JArray(seq(|s.functions|, i requires 0 <= i < |s.functions| => Write(s.functions[i])))),
             Member("instructions", JArray(seq(|s.code|, i requires 0 <= i < |s.code| => WriteWord(s.code[i])))),
             Member("lineInfo", JArray(seq(|s.lines|, i requires 0 <= i < |s.lines| => JNumber(s.lines[i] as real))))])
  }

  /** Every program written as a document is accepted, and read back as itself. */
  lemma {:induction false} WrittenIsRead(conv: Conversions, s: Program)
    requires Writable(s)
    ensures ValidPrototype(Write(s)) && Read(conv, Write(s)) == s
    decreases s
  {
    hide WriteWord, ValidWord, Meaning, Number, ToInt32, Item, Items;
    var j := Write(s);
    WrittenItems(s);
    var words, lines, children := Items(j, "instructions"), Items(j, "lineInfo"), Items(j, "prototypes");
    WrittenWords(s.code, words);
    WrittenLines(conv, s.lines, lines);
    forall i | 0 <= i < |s.functions|
      ensures ValidPrototype(children[i]) && Read(conv, children[i]) == s.functions[i]
    {
      WrittenIsRead(conv, s.functions[i]);
    }
    var r := Read(conv, j);
    assert r.code == s.code;
    assert r.functions == s.functions;
    assert r.lines == s.lines;
  }

  lemma WrittenWords(code: seq<Instruction>, words: seq<Json>)
    requires |words| == |code|
    requires forall i :: 0 <= i < |code| ==> FieldsFit(code[i]) && words[i] == WriteWord(code[i])
    ensures forall i :: 0 <= i < |words| ==>
              && ValidWord(words[i])
              && Meaning(Number(words[i], "high").Floor, Number(words[i], "low").Floor) == code[i]
  {
    hide WriteWord, Meaning, Number, Item;
    forall i | 0 <= i < |words|
      ensures ValidWord(words[i])
           && Meaning(Number(words[i], "high").Floor, Number(words[i], "low").Floor) == code[i]
    {
      WordItems(code[i]);
      MeaningOfFields(code[i]);
    }
  }

  lemma WrittenLines(conv: Conversions, lines: seq<int>, items: seq<Json>)
    requires |items| == |lines|
    requires forall i :: 0 <= i < |lines| ==>
               -0x8000_0000 <= lines[i] < 0x8000_0000 && items[i] == JNumber(lines[i] as real)
    ensures forall i :: 0 <= i < |lines| ==> items[i].JNumber? && ToInt32(conv, items[i].num) == lines[i]
  {
  }

  lemma MeaningOfFields(ins: Instruction)
    requires FieldsFit(ins)
    ensures Meaning(ins.opcode * 0x100_0000 + ins.cond * 0x1_0000 + ins.A, ins.B * 0x1_0000 + ins.C) == ins
  {
    HalfParts(ins.opcode, ins.cond, ins.A);
    DivModUnique(ins.B * 0x1_0000 + ins.C, 0x1_0000, ins.B, ins.C);
    DivModUnique(ins.B, 0x1_0000, 0, ins.B);
  }

  lemma HalfParts(top: nat, middle: nat, bottom: nat)
    requires top < 0x100 && middle < 0x100 && bottom < 0x1_0000
    ensures var half := top * 0x100_0000 + middle * 0x1_0000 + bottom;
            && (half / 0x100_0000) % 0x100 == top && (half / 0x1_0000) % 0x100 == middle
            && half % 0x1_0000 == bottom
  {
    var half := top * 0x100_0000 + middle * 0x1_0000 + bottom;
    DivModUnique(half, 0x100_0000, top, middle * 0x1_0000 + bottom);
    DivModUnique(half, 0x1_0000, top * 0x100 + middle, bottom);
    DivModUnique(top * 0x100 + middle, 0x100, top, middle);
    DivModUnique(top, 0x100, 0, top);
  }

  lemma WrittenItems(s: Program)
    requires Writable(s)
    ensures var j := Write(s);
            && HasString(j, "sourceFile") && Item(j, "sourceFile").value.text == s.file
            && HasArray(j, "prototypes") && HasArray(j, "instructions") && HasArray(j, "lineInfo")
            && Items(j, "prototypes") == j.members[1].value.items
            && Items(j, "instructions") == j.members[2].value.items
            && Items(j, "lineInfo") == j.members[3].value.items
  {
    var members := Write(s).members;
    var names := ["sourceFile", "prototypes", "instructions", "lineInfo"];
    assert names[0] != names[1] && names[0] != names[2] && names[0] != names[3];
    assert names[1][0] == 'p' && names[2][0] == 'i' && names[3][0] == 'l';
    IndexIs(members, "sourceFile", 0);
    IndexIs(members, "prototypes", 1);
    IndexIs(members, "instructions", 2);
    IndexIs(members, "lineInfo", 3);
  }

  lemma IndexIs(members: seq<Member>, name: string, i: nat)
    requires i < |members| && members[i].name == name && forall k :: 0 <= k < i ==> members[k].name != name
    ensures IndexOf(members, name) == i
  {
    if i > 0 {
      IndexIs(members[1..], name, i - 1);
    }
  }

  lemma WordItems(ins: Instruction)
    requires FieldsFit(ins)
    ensures ValidWord(WriteWord(ins))
    ensures Number(WriteWord(ins), "high") == (ins.opcode * 0x100_0000 + ins.cond * 0x1_0000 + ins.A) as real
    ensures Number(WriteWord(ins), "low") == (ins.B * 0x1_0000 + ins.C) as real
  {
    var members := WriteWord(ins).members;
    assert "high"[0] == 'h' && "low"[0] == 'l';
    IndexIs(members, "high", 0);
    IndexIs(members, "low", 1);
  }

  // ---------------------------------------------------------------- constants and whole files

  const RELEASE_NUM := 1

  /** "string", "integer" and "float", as bytes. */
  const STRING_TAG: seq<Byte> := [115, 116, 114, 105, 110, 103]
  const INTEGER_TAG: seq<Byte> := [105, 110, 116, 101, 103, 101, 114]
  const FLOAT_TAG: seq<Byte> := [102, 108, 111, 97, 116]

  datatype Kind = UnknownKind | StringKind | DoubleKind | LongKind
  datatype Data = NoData | StrData(text: seq<Byte>) | LongData(num: I64) | DoubleData(bits: U64)
  datatype Constant = Constant(kind: Kind, data: Data)
  datatype File = File(version: int, constants: seq<Constant>, mainPrototype: Option<Message>)

  datatype Loaded = Loaded(constants: seq<Value>, objects: seq<Option<Obj>>, mainPrototype: Prototype)

  /** Loading a file without a main prototype reads through a null pointer. */
  datatype LoadResult = Success(file: Loaded) | Refused | NullRead

  predicate ValidConstant(j: Json) {
    && j.JObject? && HasString(j, "type")
    && var tag := Item(j, "type").value.text;
       if tag == STRING_TAG then HasString(j, "data")
       else (tag == INTEGER_TAG || tag == FLOAT_TAG) && HasNumber(j, "data")
  }

  /** What the JSON loader accepts. */
  predicate ValidDocument(j: Json) {
    && j.JObject? && HasArray(j, "constants")
    && (forall i :: 0 <= i < |Items(j, "constants")| ==> ValidConstant(Items(j, "constants")[i]))
    && Item(j, "mainPrototype").Some? && ValidPrototype(Item(j, "mainPrototype").value)
  }

  /** The constant a document means; a string lives in the object that the allocator hands out. */
  function ReadConstant(conv: Conversions, j: Json, obj: Obj): Value
    requires ValidConstant(j)
  {
    var tag := Item(j, "type").value.text;
    if tag == STRING_TAG then Str(obj, Item(j, "data").value.text)
    else if tag == INTEGER_TAG then Long(ToInt64(conv, Number(j, "data")))
    else Double(conv.pattern(Number(j, "data")))
  }

  method PackConstant(conv: Conversions, j: Json) returns (c: Constant)
    requires ValidConstant(j)
    ensures forall obj :: Unpacked(c, obj) == Some(ReadConstant(conv, j, obj))
  {
    var tag := Item(j, "type").value.text;
    if tag == STRING_TAG {
      c := Constant(StringKind, StrData(Item(j, "data").value.text));
    } else if tag == INTEGER_TAG {
      c := Constant(LongKind, LongData(ToInt64(conv, Number(j, "data"))));
    } else {
      c := Constant(DoubleKind, DoubleData(conv.pattern(Number(j, "data"))));
    }
  }

  /** The value of a constant whose data is of its kind. */
  function Unpacked(c: Constant, obj: Obj): Option<Value> {
    match (c.kind, c.data)
    case (StringKind, StrData(text)) => Some(Str(obj, text))
    case (LongKind, LongData(n)) => Some(Long(n))
    case (DoubleKind, DoubleData(bits)) => Some(Double(bits))
    case _ => None
  }

  /** The version is the one released and every constant has data of its kind. */
  ghost predicate Acceptable(file: File, objs: nat -> Obj) {
    && file.version == RELEASE_NUM
    && forall i :: 0 <= i < |file.constants| ==> Unpacked(file.constants[i], objs(i)).Some?
  }

  /** Constants and their traced objects, slot by slot. */
  ghost predicate ConstantsLoaded(file: File, objs: nat -> Obj, constants: seq<Value>, objects: seq<Option<Obj>>) {
    && |constants| == |objects| == |file.constants|
    && (forall i :: 0 <= i < |constants| ==> Unpacked(file.constants[i], objs(i)) == Some(constants[i]))
    && (forall i :: 0 <= i < |constants| ==> objects[i] == ObjectPtr(constants[i]))
  }

  /** bytecode_load: refused unless acceptable; only then is the main prototype looked at. */
  method LoadBytecode(file: File, objs: nat -> Obj) returns (r: LoadResult)
    ensures r.Refused? <==> !Acceptable(file, objs)
    ensures r.NullRead? <==> Acceptable(file, objs) && file.mainPrototype.None?
    ensures r.Success? ==>
              && ConstantsLoaded(file, objs, r.file.constants, r.file.objects)
              && Copied(file.mainPrototype.value, r.file.mainPrototype)
  {
    if file.version != RELEASE_NUM {
      return Refused;
    }
    var constants := new Value[|file.constants|](_ => NotPresent);
    var constantsObject := new Option<Obj>[|file.constants|](_ => None);
    for i := 0 to |file.constants|
      invariant forall k :: 0 <= k < i ==> Unpacked(file.constants[k], objs(k)) == Some(constants[k])
      invariant forall k :: 0 <= k < i ==> constantsObject[k] == ObjectPtr(constants[k])
    {
      var val := Unpacked(file.constants[i], objs(i));
      if val.None? {
        return Refused;
      }
      constantsObject[i] := ObjectPtr(val.value);
      constants[i] := val.value;
    }
    if file.mainPrototype.None? {
      return NullRead;
    }
    var mainPrototype := CopyPrototype(file.mainPrototype.value);
    return Success(Loaded(constants[..], constantsObject[..], mainPrototype));
  }

  method ValidateConstants(constants: seq<Json>) returns (ok: bool)
    ensures ok <==> forall i :: 0 <= i < |constants| ==> ValidConstant(constants[i])
  {
    for i := 0 to |constants|
      invariant forall k :: 0 <= k < i ==> ValidConstant(constants[k])
    {
      var current := constants[i];
      if !current.JObject? || !HasString(current, "type") {
        return false;
      }
      var tag := Item(current, "type").value.text;
      if tag == STRING_TAG {
        if !HasString(current, "data") {
          return false;
        }
      } else if tag == INTEGER_TAG || tag == FLOAT_TAG {
        if !HasNumber(current, "data") {
          return false;
        }
      } else {
        return false;
      }
    }
    return true;
  }

  /** The JSON loader: accepts exactly the valid documents, and what it loads is what the document says. */
  method LoadJson(conv: Conversions, objs: nat -> Obj, j: Json) returns (r: Option<Loaded>)
    ensures r.Some? <==> ValidDocument(j)
    ensures r.Some? ==>
              && Decoded(r.value.mainPrototype) == Read(conv, Item(j, "mainPrototype").value)
              && |r.value.constants| == |Items(j, "constants")|
              && forall i :: 0 <= i < |r.value.constants| ==>
                   r.value.constants[i] == ReadConstant(conv, Items(j, "constants")[i], objs(i))
    ensures r.Some? ==>
              && |r.value.objects| == |r.value.constants|
              && forall i :: 0 <= i < |r.value.objects| ==> r.value.objects[i] == ObjectPtr(r.value.constants[i])
  {
    hide ValidPrototype, Read, Decoded, Packed, Copied, ReadConstant, Unpacked, ValidConstant;
    if !j.JObject? || !HasArray(j, "constants") {
      return None;
    }
    var items := Items(j, "constants");
    var ok := ValidateConstants(items);
    if !ok || Item(j, "mainPrototype").None? {
      return None;
    }
    var mainPrototype := Item(j, "mainPrototype").value;
    ok := ValidatePrototype(mainPrototype);
    if !ok {
      return None;
    }
    var constants := new Constant[|items|](_ => Constant(UnknownKind, NoData));
    for i := 0 to |items|
      invariant forall k, obj :: 0 <= k < i ==> Unpacked(constants[k], obj) == Some(ReadConstant(conv, items[k], obj))
    {
      constants[i] := PackConstant(conv, items[i]);
    }
    var message := PackPrototype(conv, mainPrototype);
    var result := LoadBytecode(File(1, constants[..], Some(message)), objs);
    assert result.Success?;
    LoadedIsRead(conv, mainPrototype, message, result.file.mainPrototype);
    r := Some(result.file);
  }
}
