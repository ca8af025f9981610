/** The benchmark's payload and its factorial function, from the document to the result. */
module LoadedFactorial {
  import opened Values
  import opened Instructions
  import opened Machine
  import opened Factorial
  import opened Benchmark
  import Loader

  /** Words that decode to the factorial instructions are the factorial words. */
  lemma DecodedWords(words: seq<U64>, zero: nat, one: nat)
    requires zero < 0x1_0000 && one < 0x1_0000 && |words| == CODE_LEN
    requires forall i :: 0 <= i < CODE_LEN ==> Decode(words[i]) == Code(zero, one)[i]
    ensures words == Words(zero, one)
  {
    hide Decode, Encode, Code;
    forall i | 0 <= i < CODE_LEN
      ensures words[i] == Words(zero, one)[i]
    {
      EncodeDecode(words[i]);
    }
  }

  /** The document of the benchmark: a function in a function of the main program computes factorials. */
  ghost predicate SaysFactorial(conv: Loader.Conversions, j: Loader.Json, zero: nat, one: nat) {
    && zero < 0x1_0000 && one < 0x1_0000 && Loader.ValidDocument(j)
    && (var program := Loader.Read(conv, Loader.Item(j, "mainPrototype").value);
        |program.functions| > 0 && |program.functions[0].functions| > 0
        && program.functions[0].functions[0].code == Code(zero, one))
    && (var items := Loader.Items(j, "constants");
        && zero < |items| && Loader.ReadConstant(conv, items[zero], 0) == Long(0)
        && one < |items| && Loader.ReadConstant(conv, items[one], 0) == Long(1))
  }

  /** What LoadJson promises of a document and the file it loads. */
  ghost predicate LoadedFrom(conv: Loader.Conversions, objs: nat -> Obj, j: Loader.Json, file: Loader.Loaded)
    requires Loader.ValidDocument(j)
  {
    && Loader.Decoded(file.mainPrototype) == Loader.Read(conv, Loader.Item(j, "mainPrototype").value)
    && |file.constants| == |Loader.Items(j, "constants")|
    && forall i :: 0 <= i < |file.constants| ==>
         file.constants[i] == Loader.ReadConstant(conv, Loader.Items(j, "constants")[i], objs(i))
  }

  lemma LoadedConstant(conv: Loader.Conversions, j: Loader.Json, o: Obj, n: I64)
    requires Loader.ValidConstant(j) && Loader.ReadConstant(conv, j, 0) == Long(n)
    ensures Loader.ReadConstant(conv, j, o) == Long(n)
  {
  }

  /** The inner function of a loaded benchmark document is the factorial function. */
  lemma LoadedIsFactorial(conv: Loader.Conversions, objs: nat -> Obj, j: Loader.Json, file: Loader.Loaded,
                          c: Closure, zero: nat, one: nat)
    requires SaysFactorial(conv, j, zero, one) && LoadedFrom(conv, objs, j, file)
    requires |file.mainPrototype.prototypes| > 0 && |file.mainPrototype.prototypes[0].prototypes| > 0
    requires c.body == Bytecode(file.mainPrototype.prototypes[0].prototypes[0], file.constants)
    ensures IsFactorial(c, zero, one)
  {
    hide Words, Code, Decode, Loader.Read, Loader.ReadConstant, Loader.ValidConstant, Loader.ValidPrototype;
    var p := c.body.prototype;
    assert Loader.Decoded(file.mainPrototype).functions[0] == Loader.Decoded(file.mainPrototype.prototypes[0]);
    assert Loader.Decoded(file.mainPrototype.prototypes[0]).functions[0] == Loader.Decoded(p);
    assert |Code(zero, one)| == CODE_LEN by { CodeLength(zero, one); }
    forall i | 0 <= i < CODE_LEN
      ensures Decode(p.instructions[i]) == Code(zero, one)[i]
    {
      assert Loader.Decoded(p).code[i] == Decode(p.instructions[i]);
    }
    DecodedWords(p.instructions, zero, one);
    var items := Loader.Items(j, "constants");
    LoadedConstant(conv, items[zero], objs(zero), 0);
    LoadedConstant(conv, items[one], objs(one), 1);
  }

  lemma CodeLength(zero: nat, one: nat)
    ensures |Code(zero, one)| == CODE_LEN
  {
  }

  /** From document to result: a document that says factorial, loaded, and its inner function called on m with
      room for m more frames, leaves the factorial of m in 64-bit arithmetic; without room it does not return. */
  lemma DocumentComputesFactorial(conv: Loader.Conversions, objs: nat -> Obj, j: Loader.Json, file: Loader.Loaded,
                                  zero: nat, one: nat, host: Host, s: State, n: nat, m: Arg)
    requires SaysFactorial(conv, j, zero, one) && LoadedFrom(conv, objs, j, file)
    requires |file.mainPrototype.prototypes| > 0 && |file.mainPrototype.prototypes[0].prototypes| > 0
    requires WF(s) && s.frames != [] && !s.locked && n >= Steps(m) && Top(s).stack == [Long(m)]
    requires Top(s).closure.body == Bytecode(file.mainPrototype.prototypes[0].prototypes[0], file.constants)
    ensures var r := Exec(host, s, n);
            && (r.out.Returned? <==> |s.frames| + m <= s.limit)
            && (r.out.Returned? ==> r.out.count == 1 && Top(r.s).stack == [Long(Wrap(Fact(m)))])
  {
    hide SaysFactorial, LoadedFrom;
    LoadedIsFactorial(conv, objs, j, file, Top(s).closure, zero, one);
    FactorialCorrect(host, s, n, zero, one, m);
  }

  // ---------------------------------------------------------------- the payload

  /** The document of the benchmark: the function of the main program is the payload, the function in it computes
      factorials, and the constants are those of the setting. */
  ghost predicate SaysPayload(conv: Loader.Conversions, objs: nat -> Obj, j: Loader.Json, e: Setting) {
    && PoolFits(e.k) && SaysFactorial(conv, j, e.k.zero, e.k.one) && e.name.Str?
    && Loader.Read(conv, Loader.Item(j, "mainPrototype").value).functions[0].code == Payload(e.k)
    && var items := Loader.Items(j, "constants");
       && Says(conv, items, e.k.start, Long(0)) && Says(conv, items, e.k.max, Long(e.max))
       && Says(conv, items, e.k.arg, Long(e.arg))
       && e.k.name < |items| && Loader.ReadConstant(conv, items[e.k.name], objs(e.k.name)) == e.name
  }

  ghost predicate Says(conv: Loader.Conversions, items: seq<Loader.Json>, i: nat, v: Value)
    requires forall k :: 0 <= k < |items| ==> Loader.ValidConstant(items[k])
  {
    v.Long? && i < |items| && Loader.ReadConstant(conv, items[i], 0) == v
  }

  lemma LoadedWord(conv: Loader.Conversions, objs: nat -> Obj, j: Loader.Json, file: Loader.Loaded, i: nat, v: Value)
    requires Loader.ValidDocument(j) && LoadedFrom(conv, objs, j, file)
    requires Says(conv, Loader.Items(j, "constants"), i, v)
    ensures i < |file.constants| && file.constants[i] == v
  {
    hide Loader.ReadConstant, Loader.ValidConstant, Loader.Read, Loader.ValidPrototype;
    LoadedConstant(conv, Loader.Items(j, "constants")[i], objs(i), v.num);
  }

  lemma LoadedConstants(conv: Loader.Conversions, objs: nat -> Obj, j: Loader.Json, file: Loader.Loaded, e: Setting)
    requires SaysPayload(conv, objs, j, e) && LoadedFrom(conv, objs, j, file)
    ensures Constants(file.constants, e)
  {
    hide Loader.ReadConstant, Loader.ValidConstant, Loader.Read, Loader.ValidPrototype, Payload, Code;
    LoadedWord(conv, objs, j, file, e.k.start, Long(0));
    LoadedWord(conv, objs, j, file, e.k.max, Long(e.max));
    LoadedWord(conv, objs, j, file, e.k.one, Long(1));
    LoadedWord(conv, objs, j, file, e.k.arg, Long(e.arg));
    LoadedWord(conv, objs, j, file, e.k.zero, Long(0));
  }

  /** The function of a loaded benchmark document is the payload. */
  lemma LoadedIsPayload(conv: Loader.Conversions, objs: nat -> Obj, j: Loader.Json, file: Loader.Loaded, c: Closure,
                        e: Setting)
    requires SaysPayload(conv, objs, j, e) && LoadedFrom(conv, objs, j, file)
    requires |file.mainPrototype.prototypes| > 0 && |file.mainPrototype.prototypes[0].prototypes| > 0
    requires c.body == Bytecode(file.mainPrototype.prototypes[0], file.constants) && c.env == Table(e.o)
    ensures IsPayload(c, e)
  {
    hide Words, Code, Payload, PayloadWords, Constants, Decode, Loader.Read, Loader.ReadConstant;
    hide Loader.ValidConstant, Loader.ValidPrototype;
    var p := c.body.prototype;
    LoadedIsFactorial(conv, objs, j, file, c.(body := Bytecode(p.prototypes[0], file.constants)), e.k.zero, e.k.one);
    LoadedConstants(conv, objs, j, file, e);
    assert Loader.Decoded(file.mainPrototype).functions[0] == Loader.Decoded(p);
    forall i | 0 <= i < PAYLOAD_LEN
      ensures Decode(p.instructions[i]) == Payload(e.k)[i]
    {
      assert Loader.Decoded(p).code[i] == Decode(p.instructions[i]);
    }
    DecodedPayload(p.instructions, e.k);
  }

  lemma DecodedPayload(words: seq<U64>, k: Pool)
    requires PoolFits(k) && |words| == PAYLOAD_LEN
    requires forall i :: 0 <= i < PAYLOAD_LEN ==> Decode(words[i]) == Payload(k)[i]
    ensures words == PayloadWords(k)
  {
    hide Decode, Encode, Payload;
    forall i | 0 <= i < PAYLOAD_LEN
      ensures words[i] == PayloadWords(k)[i]
    {
      EncodeDecode(words[i]);
    }
  }

  /** From document to result: the function of a document that says the payload, loaded and run with an environment
      that leads to the native function, returns exactly when the factorial has room and the limit is not the largest
      integer, and its rounds are what has happened to the heap. */
  lemma DocumentComputesPayload(conv: Loader.Conversions, objs: nat -> Obj, j: Loader.Json, file: Loader.Loaded,
                                e: Setting, host: Host, s: State, n: nat, p: Printer)
    requires SaysPayload(conv, objs, j, e) && LoadedFrom(conv, objs, j, file)
    requires |file.mainPrototype.prototypes| > 0 && |file.mainPrototype.prototypes[0].prototypes| > 0
    requires WF(s) && s.frames != [] && !s.locked && Top(s).stack == []
    requires Top(s).closure.body == Bytecode(file.mainPrototype.prototypes[0], file.constants)
    requires Top(s).closure.env == Table(e.o)
    requires p.room <= e.arg || |s.frames| + 1 + p.room <= s.limit
    requires p.ok(s.heap) && Prints(host, e, p) && n >= 6 + (e.max + 1) * RoundSteps(e, p)
    ensures var r := Exec(host, s, n);
            && (r.out.Returned? <==> |s.frames| + 1 + e.arg <= s.limit && e.max < LAST_LIMIT)
            && (r.out.Returned? ==> r.out.count == 0 && r.s.heap == Printed(p, e, Allocated(s.heap, 1), 0, e.max + 1))
  {
    hide SaysPayload, LoadedFrom, IsPayload, Prints, Exec;
    LoadedIsPayload(conv, objs, j, file, Top(s).closure, e);
    PayloadCorrect(host, s, n, e, p);
  }
}
