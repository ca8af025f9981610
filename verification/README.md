# FluffyVM: a verified model of the virtual machine

FluffyVM is a register and stack virtual machine, written in C, for a Lua-like language. This project models
its core in Dafny and proves what the design promises about it: whole programs computing what they should, an
invariant of every state of every run, a hash table that is a map, a coroutine protocol that is safe under any
interleaving, and exact conditions where the code does less than its documentation says.

`dafny verify dfyconfig.toml` checks the whole project.

## How the files fit together

| file | content |
|---|---|
| `Arithmetic.dfy`, `Bits.dfy` | division, and the bitwise operators of C on integers |
| `Values.dfy` | tagged values, equality, key identity, hashing, arithmetic, ordering |
| `Instructions.dfy`, `InstructionLaws.dfy`, `OpcodeLaws.dfy` | the 64-bit instruction word, the conditional-execution guard, what instructions do to each other's effects, and what each does to numbers and slots |
| `LuaStack.dfy` | the C-API stack operations on sequences, and their laws |
| `Machine.dfy` | the bytecode machine as functions on values: frames, calls, native code, errors, protected calls |
| `MachineLaws.dfy`, `CallLaws.dfy`, `ProtectedCalls.dfy` | step-budget independence, what calls do to stacks, their refusals and overflows, what protected calls and errors leave |
| `Factorial.dfy`, `Benchmark.dfy`, `PrintLog.dfy` | the recursive factorial function of the benchmark, the counted loop around it, and a print function that keeps a log, proved correct |
| `Stacks.dfy`, `CallStates.dfy`, `Executor.dfy`, `Interpreter.dfy` | the same machine in place: classes over arrays, proved against `Machine` |
| `ChainedTable.dfy`, `TableLaws.dfy`, `TableOrder.dfy` | the hash table as buckets, the map it stands for, runs, growth, iteration, the order of entries |
| `NullLinks.dfy`, `NullRuns.dfy` | exactly which stores, resizes and runs read through a null link |
| `HashTables.dfy` | the hash table in place: linked pairs, memoised string hashes, proved against the two above |
| `Coroutines.dfy` | nest stacks, fibers and threads as a transition system |
| `Foreach.dfy` | the parallel for-each as a transition system |
| `Calendar.dfy`, `Hashing.dfy`, `Binary64.dfy` | calendar arithmetic, byte hashes, the order of doubles |
| `Loader.dfy`, `Documents.dfy`, `LoadedFactorial.dfy` | JSON document to decoded program, and the benchmark from its document on |

**Runs.** A run of the machine is given a number of steps and returns the steps left over. Running with `k`
steps yields the state after `k` steps, so a contract that holds for every budget holds in every reachable
state of every run; `MachineLaws.MoreExec` shows that a run that ends does not depend on its budget. Native C
functions are trees of the modelled operations - stack operations, calls, throws and protected calls - that may look
at every reply, so a statement about all native code is a statement about all such trees.

**What a stop means.** A failed assertion, `abort`, a hardware trap, a lock taken twice by one thread, and an
access that C leaves undefined are outcomes of the model, not preconditions. The one such access that is not an end
of the run is the null link that a hash table reads when it appends to a chain: the methods report it, exactly, and go
on with the link that the next line of the code writes.

**Parameters.** Native functions, binary64 arithmetic, the configured hash of byte strings, out-of-range
conversions of doubles to integers and the objects handed out by the allocator are parameters.

## Model

| member | source | states |
|---|---|---|
| Values.EqualityIsIdentityOfKeys | src/value.c:638-696 | two values are equal exactly when they have the same canonical identity and are not NaN |
| Values.EqualPlainKeysHashAlike | src/value.c:248-300 | keys other than NaN, the zeros of binary64 and collectable userdata hash alike whenever they are equal |
| Values.DivisionTruncates | src/value.c:801-830 | integer quotient and remainder add up to the dividend; the remainder is smaller than the divisor and has the sign of the dividend (which instruction stores which: `OpcodeLaws.DivisionInstructions`) |
| Values.HashedBytes | src/value.c:248-300 | which bytes of a value are hashed: eight in two's complement, the least significant first, for numbers, identities and data pointers, the text of a string, one for a boolean; nil hashes to zero |
| Instructions.DecodeEncode | src/interpreter.c:137-145 | decoding a packed instruction gives back opcode, condition and the three operands |
| Instructions.EncodeDecode | src/interpreter.c:137-145 | every 64-bit word is the packing of what it decodes to |
| Instructions.GuardMeaning | src/interpreter.c:253-259 | an instruction is skipped exactly when the low nibble of its condition byte is not empty and shares no bit with the flags |
| Instructions.ConditionCodes | src/interpreter.c:253-259 | which of the seven condition codes do what they are named for: EQ, LT and LE; NE and GT never skip, GE runs on equal only |
| InstructionLaws.CompareThenGuard | src/interpreter.c:378-393 | after a comparison, what is conditional on EQ, LT or LE runs exactly when the operands are equal, the first is less, or either; GE runs when they are equal; no other flag changes |
| InstructionLaws.StoreThenLoad | src/interpreter.c:425-542 | a table load behind a table store yields the stored value for the same table and key, and otherwise what it would have yielded before; tables are maps here, so with line 88 of src/hashtable.c read as pair->gc_this |
| InstructionLaws.PushThenPop | src/interpreter.c:420-450 | a push and the pop behind it move a register and leave the stack as it was |
| InstructionLaws.ReturnDeliversRegisters | src/interpreter.c:543-548 | a return counts all its registers and hands them over in order, cut or filled with nil to the number the caller wants; on a stack without room the pushes that do not fit are dropped in silence, and the caller gets as many slots from the top of the full stack instead |
| OpcodeLaws.OpcodeNumbers | src/opcodes.h:8-28 | the opcodes in the order of their numbers |
| OpcodeLaws.FieldsInWord | src/interpreter.c:137-145 | where the fields are in a word |
| OpcodeLaws.RegisterIsRead | src/interpreter.c:50-66 | the three special indices, nil for an empty register, and no register elsewhere |
| OpcodeLaws.RegisterIsWritten | src/interpreter.c:35-48 | a write is seen by the read behind it and by no other; one reserved index swallows it |
| OpcodeLaws.DivisionInstructions | src/interpreter.c:343-360 | DIV stores the quotient of two integers and MOD their remainder, the one q and r with a = b q + r, r smaller than b and of the sign of a; a zero divisor and the overflowing quotient stop the host |
| OpcodeLaws.DivisionTraps | src/value.c:801-830 | and then registers, stack, flags and heap are as they were |
| OpcodeLaws.IntegerInstructions | src/interpreter.c:316-342 | ADD, SUB and MUL store the one 64-bit integer that is the exact result modulo 2^64 |
| OpcodeLaws.DoubleInstructions | src/value.c:782-844 | with a double on either side, and always for POW, the operation of the host is applied to both operands as doubles, the first on the left |
| OpcodeLaws.NumbersOnly | src/value.c:782-786 | operands that are not numbers are an error, and no others |
| OpcodeLaws.Comparison | src/interpreter.c:378-393 | behind a comparison of two registers EQ, LT and LE mean what they say, of integers the relations of integers; only the flags change |
| OpcodeLaws.Jumps | src/interpreter.c:370-400 | a jump goes on behind the instruction A further down or up, and is an error exactly when there is no such instruction |
| OpcodeLaws.Loads | src/interpreter.c:313-316 | what MOV, and likewise GET_CONSTANT, STACK_GETTOP and LOAD_PROTOTYPE, put into their register |
| OpcodeLaws.TablesOnly | src/interpreter.c:425-542 | a load from what is not a table is an error; a store into it does nothing |
| OpcodeLaws.BadRegistersAbort | src/interpreter.c:35-66 | an index without a register fails an assertion, whichever instruction reads or writes it |
| OpcodeLaws.NothingElseChanges | src/interpreter.c:312-557 | every instruction but the call and the return changes one register at most, the top of the stack on a push or pop, the flags on a comparison, the program counter on a jump, one table on a store, and nothing else |
| LuaStack.RotatedAt | src/util/util.c:192-205 | rotation by any n, negative or beyond the length, takes the element at i to (i + n) modulo the length |
| LuaStack.RotatedUnique | src/util/util.c:192-205 | where the elements land determines the rotation |
| LuaStack.RotatedTwice | src/util/util.c:192-205 | rotations add up |
| LuaStack.RotatedUndoes | src/util/util.c:192-205 | rotating by n and then by -n is the identity, and no rotation gains or loses a value |
| LuaStack.RotateMoves | src/api_layer/lua54.c:568-587 | lua_rotate for every n: the slots below the index stay, and each of the m slots from it on goes n places up, modulo m |
| LuaStack.CopyWritesOne | src/api_layer/lua54.c:128-136 | lua_copy writes one slot into another, looks at the destination first, and changes no other slot |
| LuaStack.PushValueCopies | src/api_layer/lua54.c:194-200 | a copy of the slot on top; a full stack is an error before a bad index is |
| LuaStack.PopUndoesPushes | src/api_layer/lua54.c:138-148 | lua_pop takes off what was pushed; a count beyond the stack empties it before the error |
| LuaStack.CheckStackIsRoom | src/api_layer/lua54.c:92-103 | lua_checkstack says yes exactly when so many pushes succeed |
| LuaStack.AbsIndexNamesTheSlot | src/api_layer/lua54.c:105-125 | lua_absindex answers with the positive index of the slot, or with an error exactly outside the stack |
| LuaStack.PseudoIsMask | src/api_layer/lua54.h:57-59 | an index is pseudo exactly when it is positive and has the bit of the mask; stack indices do not |
| LuaStack.NegativeIndex | src/api_layer/lua54.c:105-125 | a negative index names the slot that the positive index from the other end names |
| LuaStack.RemoveDeletes | src/api_layer/lua54.c:150-153 | lua_remove, built from a rotation and a pop, deletes one slot and shifts those above it down; a bad index raises an error |
| LuaStack.ReplaceMovesTop | src/api_layer/lua54.c:354-357 | lua_replace moves the top value into a slot without shifting and pops it |
| LuaStack.ApiKeepsLive | src/api_layer/lua54.c:92-153 | every stack operation leaves at most 256 slots, all of them present, also when it raises an error |
| LuaStack.XMoveConserves | src/api_layer/lua54.c:615-638 | lua_xmove keeps every value exactly when the destination has room for all of them; the code checks for one slot only |
| LuaStack.MovedInOrder | src/api_layer/lua54.c:635-636 | the values arrive in their order, as many as there is room for |
| Machine.SimpleStepKeepsFrame | src/interpreter.c:312-557 | no instruction but the call spoils the frame invariant: stack live and bounded, program counter within the instructions |
| Machine.Exec | src/interpreter.c:238-580 | in every state of every run, under any native code made of the modelled operations: all frames are well formed, frames below the running one are untouched unless a full call stack popped one, errors go to the handler of the start, and a normal return restores depth, lock and handler |
| Machine.Loop | src/interpreter.c:250-563 | the same for the fetch loop from any program counter on |
| Machine.CallStep | src/interpreter.c:451-532 | the same for the call instruction, with its argument and result counts and its errors |
| Machine.InterpreterCall | src/interpreter.c:147-208 | the same for a call from native code |
| Machine.RunNative | src/interpreter.c:239-240 | the same for any native function made of stack operations, calls, throws and protected calls, whatever the replies make it do next |
| Machine.LuaCallStep | src/api_layer/lua54.c:52-81 | the same for lua_call |
| Machine.XpCallStep | src/interpreter.c:210-236 | the same for a protected call, out of which no error comes (what it leaves: `ProtectedCalls.ProtectedCallLeaves`) |
| Machine.FiberBody | src/coroutine.c:222-238 | the body of a coroutine's fiber ends with its handler cleared, and with its first frame popped when the function returned |
| Machine.UnwindStopsAtCaller | src/interpreter.c:223-227 | unwinding to a frame that is still on the call stack ends at that very frame and never pops an empty stack |
| MachineLaws.MoreExec | src/interpreter.c:238-580 | a run that ends within its step budget ends in the same state after the same number of steps on any larger budget |
| MachineLaws.AdjustedMeaning | src/interpreter.c:511-524 | the copy loop for results delivers the callee's top values, cut or filled with nil to the number wanted |
| MachineLaws.CallInstructionEffect | src/interpreter.c:451-532 | the callee starts with exactly the arguments in order; the caller's stack becomes its prefix without them plus the adjusted results; too many results raise an error with the callee's frame gone; the caller's frame is otherwise untouched |
| MachineLaws.LuaCallEffect | src/api_layer/lua54.c:52-81 | lua_call replaces the function and its arguments by exactly the adjusted results and keeps everything below, for every stack, argument count and result count, provided there is room for the results above the function |
| MachineLaws.ProtectedCallRestores | src/interpreter.c:210-236 | a protected call returns true exactly when its body returned; when it returns false the jump went to its own, still active buffer; both exits restore the frames below the caller's, the depth and the handler |
| MachineLaws.OverflowIsNotCaught | src/coroutine.c:118-120 | the lock that an overflowing prolog leaves held stops every protected call above it; with no error function, a protected call whose body threw returns exactly when the lock is free and deadlocks exactly when it is held |
| MachineLaws.ThrowingErrorFunctionLoops | src/interpreter.c:218-231 | an error function that throws is started again and again, because its own buffer is still installed |
| MachineLaws.CoroutineErrorsAreCaught | src/coroutine.c:222-238 | while a coroutine's function runs there is a handler in every state, and an error ends the coroutine in its error exit |
| ProtectedCalls.ProtectedCallLeaves | src/interpreter.c:210-236 | what a protected call leaves, slot by slot: when the body returned, everything is as it left it but for the handler; when it threw, with the lock free and no error function, the caller's frame, those below and the heap are as the throw left them, and the frames above are gone; with an error function, as its last run left them; the answer is true in the first case and false in the others |
| ProtectedCalls.ErrorAtOnceKeepsFrames | src/interpreter.c:218-231 | an error that the body raises at once leaves the caller's stack, registers and all frames as they were |
| ProtectedCalls.AnswerTells | src/interpreter.c:210-236 | native code is told which of the two happened |
| ProtectedCalls.ErrorIsThrown | src/api_layer/lua54.c:183-192 | lua_error throws the value on top of the stack and changes no frame |
| ProtectedCalls.FiberBodyLeaves | src/coroutine.c:222-238 | a coroutine's function that returned loses its frame and nothing else changes; one that threw leaves every frame where it was |
| CallLaws.CallIsRefused | src/interpreter.c:451-485 | too few arguments, then nil, then what is not a function, each with its error and the caller as it was |
| CallLaws.LuaCallIsRefused | src/api_layer/lua54.c:52-63 | negative counts and a stack without the function |
| CallLaws.CallOverflows | src/coroutine.c:104-122 | on a full call stack a call pops the frame of its caller, keeps the lock and throws; with the lock held it waits for itself |
| CallLaws.NativeCallOverflows | src/coroutine.c:104-122 | the same for a call from native code |
| CallLaws.NativeCallEffect | src/interpreter.c:147-208 | for every number of arguments that the stack has, they leave the caller's stack, the callee starts with exactly them, and the adjusted results go on top of the rest |
| CallLaws.CalleeIsFresh | src/coroutine.c:104-184 | a callee starts with its arguments only, empty registers, no flag, at its first instruction, under a new identity |
| CallLaws.StackOperation | src/api_layer/lua54.c:92-153 | a native stack operation: its error goes to the handler with the stack it left, and its reply decides how the code goes on |
| CallLaws.CodeStartsAndEnds | src/interpreter.c:250-253 | every activation starts at the first instruction, and code that runs past its last one returns no value |
| Factorial.FactorialReturns | assembler/start.lua:109-134 | for every n below 2^63 with n free frames the recursive program returns n! in 64-bit arithmetic after 12n + 6 instructions, with frames, depth and handler as before and n objects allocated, and touches no table |
| Factorial.FactorialOverflows | assembler/start.lua:109-134 | with fewer free frames it does not return |
| Factorial.FactorialCorrect | assembler/start.lua:109-134 | it returns, and then n!, exactly when depth + n stays within the call-stack size |
| Benchmark.Round | assembler/start.lua:95-105 | one round of the benchmark's loop from any counter: the factorial is computed and dropped, the native function has its effect for the counter, the counter goes up by one, wrapped, and the loop goes on exactly while it is at most the limit |
| Benchmark.Rounds | assembler/start.lua:95-107 | from any counter on, the loop makes one round for each number up to the limit, which is not the largest integer, and returns |
| Benchmark.PayloadReturns | assembler/start.lua:73-107 | run with room for the factorials and the native function, and a limit below 2^63 - 1, the payload returns no value after 6 instructions of its own and one round for each number from 0 to the limit, its frame, those below and the handler as before; the heap is what the effects of the native function for 0, 1 and so on up to the limit, and the allocations between them, make of it |
| Benchmark.PrintsInOrder | assembler/start.lua:95-105 | which calls the native function gets, in which order: after 11 instructions, one factorial and i whole rounds it is about to start, one frame above the payload, with the number i alone on its stack, for every i up to the limit |
| Benchmark.PayloadNeverEnds | assembler/start.lua:103-105 | with the limit 2^63 - 1 the counter wraps and no budget of steps suffices |
| Benchmark.PayloadOverflows | assembler/start.lua:95-97 | without that room the call stack overflows in the first round |
| Benchmark.PayloadCorrect | assembler/start.lua:73-107 | it returns exactly when depth + 1 + n stays within the call-stack size, n being the number whose factorial it computes, and the limit is not 2^63 - 1 |
| Benchmark.ReaderPrints | assembler/start.lua:99-102 | what is assumed of the native function there is met by one that reads its argument and returns |
| PrintLog.LoggerPrints | assembler/start.lua:99-102 | it is also met by one that calls a bytecode closure, which stores the argument in the environment table under the number of the call |
| PrintLog.PayloadIsLogged | assembler/start.lua:73-107 | run with that one, the payload leaves exactly the numbers from 0 to the limit in the table, each under its own number, the count of calls one above the limit, and nothing new under any other integer: these calls, in this order, and no other |
| Stacks.Stack.Push | src/stack.c:97-106 | appends, or refuses exactly when full; cleared slots stay cleared |
| Stacks.Stack.Pop | src/stack.c:80-95 | drops the last element and clears its slot, or refuses exactly when empty |
| Stacks.Stack.Peek | src/stack.c:108-114 | the last element, or none |
| CallStates.CallState.GetRegister | src/interpreter.c:50-66 | special registers, nil for empty ones, failure outside the file |
| CallStates.CallState.SetRegister | src/interpreter.c:35-48 | stores the value and its traced object; ignores one reserved index; failure elsewhere outside the file |
| CallStates.CallState.Push | src/interpreter.c:106-117 | appends to the live slots and keeps the object array in step, or refuses exactly when full |
| CallStates.CallState.Pop | src/interpreter.c:68-92 | the last live slot, cleared in both arrays, or none |
| CallStates.CallState.Peek | src/interpreter.c:582-593 | the slot at an index, or none outside the live slots |
| CallStates.CallState.AbsIndex | src/api_layer/lua54.c:105-125 | agrees with the sequence model |
| CallStates.CallState.GetValueAtStackIndex | src/api_layer/lua54.c:30-45 | agrees with the sequence model, including pseudo-indices |
| CallStates.CallState.LuaPop | src/api_layer/lua54.c:138-148 | the pop loop agrees with dropping a suffix, and empties the stack before it raises underflow |
| CallStates.CallState.LuaCopy | src/api_layer/lua54.c:128-136 | agrees with overwriting one slot |
| CallStates.CallState.LuaRotate | src/api_layer/lua54.c:568-587 | the nested in-place loops agree with the sequence model (slot by slot: `LuaStack.RotateMoves`) |
| CallStates.CallState.RotateSlotsInPlace | src/util/util.c:192-205 | moving every element up by one, as often as C's truncated remainder says, is rotation by n |
| CallStates.CallState.LuaRemove | src/api_layer/lua54.c:150-153 | agrees with the sequence model |
| CallStates.CallState.LuaReplace | src/api_layer/lua54.c:354-357 | agrees with the sequence model |
| CallStates.CallState.LuaPushValue | src/api_layer/lua54.c:194-200 | agrees with the sequence model |
| CallStates.CallState.XMove | src/api_layer/lua54.c:615-638 | which errors it raises, the refusals of a running and of a dead destination before the others, and on success exactly which slots leave one stack and arrive on the other |
| CallStates.CallState.PushResultsOnto | src/interpreter.c:515-524 | the result loop leaves the caller's stack with the adjusted results, or full |
| Executor.Execute | src/interpreter.c:312-557 | each instruction but the call, in place, does what the specification of that opcode says, heap included (in terms of numbers and slots: `OpcodeLaws`) |
| Interpreter.Coroutine.FunctionProlog | src/coroutine.c:104-184 | a fresh frame on top; on a full call stack it pops a frame it did not push and leaves the lock held |
| Interpreter.Coroutine.InternalFunctionEpilog | src/coroutine.c:77-83 | pops a frame and makes the one below current |
| Interpreter.Coroutine.Loop | src/interpreter.c:250-563 | the in-place fetch loop agrees with the specified loop in outcome, steps and state |
| Interpreter.Coroutine.Call | src/interpreter.c:451-532 | the call instruction in place agrees with the specification |
| Interpreter.Coroutine.InterpreterCall | src/interpreter.c:147-208 | agrees with the specification |
| Interpreter.Coroutine.CallFromNative | src/api_layer/lua54.c:52-81 | lua_call in place agrees with the specification |
| Interpreter.Coroutine.ProtectedCall | src/interpreter.c:210-236 | the protected call in place agrees with the specification, whose effect on every slot is `ProtectedCalls.ProtectedCallLeaves`, and the very frame objects of entry are current again |
| Interpreter.Coroutine.Repair | src/interpreter.c:223-230 | the unwinding loop agrees with the specification, pops no slot of the caller and ends at its frame object |
| Interpreter.Coroutine.Exec | src/interpreter.c:238-580 | agrees with the specification, for bytecode and native functions |
| Interpreter.Coroutine.RunFiber | src/coroutine.c:222-238 | agrees with the specification |
| ChainedTable.PowerOfTwoTest | src/hashtable.c:177-180 | n & (n - 1) is zero exactly for powers of two |
| ChainedTable.MaskIsRemainder | src/hashtable.c:138 | masking a hash with capacity - 1 is the remainder by the capacity |
| ChainedTable.SetEntryIsPlaced | src/hashtable.c:132-174 | after a store every entry is still in the bucket its hash selects, and no bucket has a key twice |
| ChainedTable.PlacedIsDistinct | src/hashtable.c:132-174 | no key is in the table twice |
| ChainedTable.SetEntryRefines | src/hashtable.c:132-174 | with line 88 read as pair->gc_this: overwriting the first match or appending is setting the key in the map, and adds at most one entry |
| ChainedTable.LookupRefines | src/hashtable.c:272-308 | a lookup returns what the map holds, or not-present |
| ChainedTable.RehashRefines | src/hashtable.c:191-208 | with line 88 read as pair->gc_this: rehashing into any power of two leaves the map as it was and stores nothing more |
| TableOrder.StoreChangesOnePlace | src/hashtable.c:132-174 | a store replaces the first match, key and all, where it is, or goes behind all entries of its bucket; no other place changes |
| TableOrder.RehashKeepsOrder | src/hashtable.c:191-208 | every bucket of a rehashed table holds the entries that belong there, in the order in which the old table had them |
| TableLaws.NewTableIsEmpty | src/hashtable.c:216-248 | a new table exists exactly for a capacity that is a power of two, and is the empty map |
| TableLaws.TableSetRefines | src/hashtable.c:250-269 | with line 88 read as pair->gc_this: a refused store changes nothing; any other sets the key in the map, whether or not the table doubles |
| TableLaws.LookupAfterRun | src/hashtable.c:250-308 | with line 88 read as pair->gc_this: after any sequence of stores, with any doublings, a lookup returns the value last stored under an equal key of equal hash |
| TableLaws.GetReturnsLastExactly | src/hashtable.c:250-308 | with line 88 read as pair->gc_this: it returns the value last stored under an equal key, after all sequences, exactly for keys whose equals all hash alike |
| TableLaws.SingleHashExactly | src/value.c:248-300 | which keys those are: all but the zeros of binary64, unless their patterns collide, and collectable userdata, unless the hash is constant on words |
| TableLaws.GrowthBounds | src/hashtable.c:256-265 | the capacity stays a power of two and is the initial one or bounded by twice the stores over the load factor; there are never more entries than stores |
| TableLaws.ThresholdStays | src/hashtable.c:256-265 | once the stores are below a threshold of at least one, they stay below it for good |
| TableLaws.DefaultFactorFills | src/hashtable.c:256 | the threshold divides by 100 but the default load factor is 0.75: such a table doubles on a store exactly when it has no more than 400/3 buckets for each store, this one included |
| TableLaws.DefaultFactorRun | src/hashtable.c:216-269 | from a new table of any size on, it doubles on every store until it has more than 400/3 buckets for each; after eleven stores it always has |
| TableLaws.IterationExactly | src/hashtable.c:355-392 | every step of hashtable_next goes to the next stored key exactly when no NaN key is stored before the last place and no bucket holds two equal keys |
| TableLaws.PlainTablesAreTraversable | src/hashtable.c:355-392 | tables with plain keys meet that condition |
| TableLaws.IterationIsComplete | src/hashtable.c:355-392 | on such a table repeated next visits every stored key exactly once, in bucket-then-chain order, and then returns not-present |
| TableLaws.ZerosLoop | src/hashtable.c:355-392 | plus and minus zero stored in one bucket send the iteration round in a circle |
| TableLaws.NaNStopsIteration | src/hashtable.c:355-392 | a NaN stored first ends the iteration in front of the key behind it |
| NullLinks.RehashReadsNullExactly | src/hashtable.c:87-90 | a resize reads through a null link, as line 88 is written, exactly when two stored entries share a bucket at the new capacity |
| NullLinks.SetReadsNullExactly | src/hashtable.c:132-174 | a store does exactly when the resize of a full table does, or when the key's bucket in the table about to be written is not empty and holds no match |
| NullLinks.RunReadsNullExactly | src/hashtable.c:250-269 | a run of stores does exactly when some prefix of it leaves the table so that the next store does |
| NullLinks.FreeRunsExactly | src/hashtable.c:250-269 | a run on a new table never does exactly when no bucket ever holds two pairs |
| NullLinks.NewIsSingle | src/hashtable.c:216-248 | a new table has no bucket with two pairs, so that the previous row is about all runs from new tables |
| NullLinks.TwoKeysReadNull | src/hashtable.c:87-90 | two integer keys are enough, under any hash |
| NullRuns.RunClashes | src/hashtable.c:250-269 | a run on a new table never reads through a null link exactly when no accepted key has, at the capacity of its store, the bucket of an earlier one that it does not overwrite; that capacity is a function of the load factor, the initial capacity and the number of stores |
| NullRuns.RunSize | src/hashtable.c:256-265 | that function is the capacity of every run |
| NullRuns.LookupAsWritten | src/hashtable.c:87-308 | the code as written, line 88 included: a run of stores on a new table is defined exactly when its keys do not clash in that way, and a lookup then returns the value last stored under an equal key of equal hash |
| HashTables.HashCodes.HashCode | src/value.c:248-263 | remembering the hash of a string never changes a hash |
| HashTables.HashCodes.Equals | src/value.c:638-666 | comparing strings by length, hash and bytes is comparing them by bytes |
| HashTables.Walk | src/hashtable.c:140-160 | the chain walk ends at the first match with the pair before it, or at the end with the last pair |
| HashTables.BucketArray.SetEntry | src/hashtable.c:132-174 | set_entry on linked pairs does to the buckets what the sequence model does, and reports the read of a null link exactly when it appends behind a pair |
| HashTables.HashTable.New | src/hashtable.c:216-248 | agrees with the model; no table for a bad capacity |
| HashTables.HashTable.Resize | src/hashtable.c:176-214 | the rehash loops over linked pairs produce the rehashed buckets, in fresh memory, and report the read of a null link exactly when the model has one; a bad capacity changes nothing |
| HashTables.HashTable.Set | src/hashtable.c:250-269 | agrees with the model, result, whole state and the read of a null link |
| HashTables.HashTable.Get | src/hashtable.c:272-308 | agrees with the model and changes nothing but remembered hashes |
| HashTables.HashTable.Next | src/hashtable.c:355-392 | agrees with the model and changes nothing but remembered hashes |
| Coroutines.StepKeeps | src/coroutine.c:186-302 | every step of every thread but coroutine_new on a full nest stack keeps the protocol invariant |
| Coroutines.Safety | src/coroutine.c:257-302 | in every state of every run a nest stack has at most 64 entries: the running coroutines of its thread and, outside the idle phase, the one that is being created, resumed or left; of the running ones the main coroutine is at the bottom and nowhere else, none is there twice or on two stacks, and a fiber runs exactly when it is among them |
| Coroutines.RawStack | src/coroutine.c:257-302 | a nest stack is exactly the stack of running coroutines in the idle phase, and in any other has exactly one entry more |
| Coroutines.ProperExactly | src/coroutine.c:257-302 | every entry but the top one runs and is there once; the top one does so exactly in the idle phase, so that during a creation, before the exchange of a resume, before its refusal and behind a switch back it is a duplicate or does not run |
| Coroutines.ImproperEntries | src/coroutine.c:257-282 | both occur: a thread that resumes its own main coroutine has it twice on its stack, and a coroutine that is resumed is on the stack before it runs |
| Coroutines.FiberLife | src/fiber.c:33-114 | the only changes of a fiber's state, and the steps that make them |
| Coroutines.ResumeExactly | src/coroutine.c:257-282 | an uninterrupted resume is refused, with nothing changed, on a full nest stack and for a fiber that is not suspended, and otherwise runs the fiber on top of the nest stack |
| Coroutines.YieldExactly | src/coroutine.c:284-302 | a yield suspends the running coroutine exactly when it is not the main one and yielding is allowed, and gives back the nest stack from before the resume; otherwise it changes nothing |
| Coroutines.YieldingIsSwitched | src/coroutine.c:304-322 | a yield after yielding was disallowed changes nothing, and one after it was allowed switches; no other coroutine is touched |
| Coroutines.FinishExactly | src/fiber.c:33-47 | when the body returns, the fiber is dead and the nest stack is the one from before the resume |
| Coroutines.DeadForever | src/fiber.c:33-47 | DEAD is permanent |
| Coroutines.RefusalTouchesNothing | src/coroutine.c:257-278 | no step of a refused resume changes a fiber or a stack of running coroutines |
| Coroutines.RefusedResumesChangeNoStack | src/coroutine.c:257-278 | however many resumes of a thread are refused, and whatever other threads do meanwhile, its nest stack ends as it was |
| Coroutines.NewKeepsExactly | src/coroutine.c:211-216 | coroutine_new keeps the protocol exactly when the nest stack has room; without room it pops the running coroutine |
| Coroutines.NestCanBeFilled | src/config.h:16 | nest stacks of every depth up to 64 are reachable, so that case does occur |
| Coroutines.AbortsExactly | src/coroutine.c:264-274 | the process aborts exactly when a resume that read SUSPENDED is then refused |
| Coroutines.OneThreadNeverAborts | src/coroutine.c:264-274 | with one thread that never happens |
| Coroutines.ResumeRace | src/fiber.c:73-79 | with two threads resuming one coroutine it does |
| Foreach.Outcome | src/util/functional/foreach.c:10-51 | for any number of threads and any interleaving: every supplied item is consumed exactly once, FAILED exactly when a consumer refused one, OK only when the supply was exhausted, and at most threads - 1 items are fetched after the first stop |
| Foreach.RefusalIsLast | src/util/functional/foreach.c:28-33 | in every state of every run a consumer call that refused an item is the last of its thread, so that there are never more refusals than threads; a thread consumes its items in the order of the supply |
| Foreach.LeavesExactly | src/util/functional/foreach.c:28-41 | a thread leaves its loop exactly at the end of the supply, after a refusal, or when it finds behind an accepted item that another has stopped |
| Foreach.OneThreadIsSequential | src/util/functional/foreach.c:55-64 | with one thread it is the sequential loop: the items in order up to the first refused one and not beyond, FAILED exactly when there was one |
| Foreach.AllThreadsEnd | src/util/functional/foreach.c:26-39 | with a finite supply no interleaving is longer than three steps an item and two a thread, and one that cannot go on has ended every thread |
| Calendar.Ranges | src/util/util.c:28-31 | the ranges annotated for year of era, day of year and day of era hold for valid dates from March of year 0 on |
| Calendar.DaysFromEpochExactly | src/util/util.c:26-33 | truncating division makes the result the Gregorian day count exactly from March of year 0 on, and before that in leap years counted from March |
| Calendar.SameNumberTwice | src/util/util.c:26-33 | 0000-02-29 and 0000-03-01 get the same number |
| Calendar.DayCountOfDateAt | src/util/util.c:26-33 | that day count numbers the dates from 1970-01-01 on, by the rules of the calendar, with 0, 1, 2 and so on |
| Calendar.DaysFromEpochCounts | src/util/util.c:26-33 | the date n days after 1970-01-01 maps to n |
| Calendar.DaysFromEpochOfNext | src/util/util.c:26-33 | a valid date and its successor get successive numbers |
| Calendar.DaysFromEpochIsMonotone | src/util/util.c:26-33 | order of dates is order of numbers, hence the mapping is injective |
| Calendar.MonthsAreNormalised | src/util/util.c:38-47 | any month, negative or beyond 11, is brought into a year by whole years |
| Calendar.TimegmIsPosix | src/util/util.c:37-51 | util_timegm is the Seconds Since the Epoch formula of POSIX.1-2017, section 4.16, for all times whose months bring them to 1970 or later |
| Hashing.HashFnv | src/hashing.c:22-30 | the loop computes the fold of the bytes |
| Hashing.HashOpenJdk8 | src/hashing.c:32-39 | the loop computes the fold of the bytes |
| Hashing.EmptyHashes | src/hashing.c:23-33 | the two hashes of the empty string |
| Hashing.FnvOfLetter | src/hashing.c:22-30 | the FNV-1a hash of "a" is the published one |
| Hashing.JdkHashOfConcatenation | src/hashing.c:32-39 | the polynomial law for the method's own results |
| Hashing.FoldIsPermutation | src/hashing.c:22-39 | for fixed data, each hash is a permutation of the 64-bit states, with its inverse given |
| Hashing.OneByteNeverCollides | src/hashing.c:22-39 | inputs that differ in exactly one byte never collide |
| Hashing.JdkOfConcatenation | src/hashing.c:32-39 | the hash of a concatenation is the first hash times a power of 31 plus the second, modulo 2^64 |
| Binary64.ScaledIsMonotone | src/value.c:876-889 | larger patterns without sign are larger numbers, subnormals included |
| Binary64.OrderWithAPositive | src/value.c:876-889 | with a clear sign bit on either side the pattern order is the numeric order, but for minus zero against plus zero |
| Binary64.OrderOfNegatives | src/value.c:876-889 | with both sign bits set it is exactly reversed |
| Binary64.LessExactly | src/value.c:876-889 | exactly when the comparison of two doubles that are not NaN is the numeric one |
| Binary64.LessOfNumbers | src/value.c:876-889 | integers are compared as integers, an integer next to a double as the double it converts to, and nothing else is less |
| Binary64.NegativesReversed | src/value.c:876-889 | the machine finds -1 less than -2 |
| Loader.ValidatePrototype | src/loader/bytecode/json.c:28-109 | accepts exactly the documents whose fields, words and lines have the right types and ranges at every depth |
| Loader.PackPrototype | src/loader/bytecode/json.c:137-204 | the message has every word, line, child and file name of the document, in order |
| Loader.CopyPrototype | src/bytecode.c:119-190 | the prototype tree has exactly what is in the message, at every depth; a file name that is not empty is a value of one byte more, with a zero at its end |
| Loader.WordInRange | src/loader/bytecode/json.c:185 | shifting one half up and or-ing in the other is adding them, within 64 bits |
| Loader.DecodeHalves | src/interpreter.c:137-145 | the fields of a packed word come from the right halves |
| Loader.LoadedIsRead | src/bytecode.c:119-190 | packing, copying and decoding an accepted document yields what the document says, at every depth, file names read up to the zero at their end |
| Loader.WrittenIsRead | src/loader/bytecode/json.c:28-204 | every program written as a document is accepted and read back as itself |
| Loader.LoadBytecode | src/bytecode.c:229-331 | refuses a wrong version and any constant whose data is not of its kind, and no other file; of those it accepts, one without a main prototype ends in a null read, and any other is loaded; constants and their traced objects agree |
| Loader.LoadJson | src/loader/bytecode/json.c:206-394 | accepts exactly the valid documents, and loads what they say; objects are traced slot by slot (what documents say: `Documents.LoadWritten`) |
| Documents.LoadWritten | src/loader/bytecode/json.c:206-394 | writing a program with its constants as a document and loading it: the interpreter gets the program, and at each index the 64-bit integer, the text or the pattern of the number that was written |
| Documents.ConstantIsAccepted | src/loader/bytecode/json.c:231-262 | a constant is accepted exactly when it is a string with a text, or an integer or a float with a number |
| Documents.FractionsAreCut | src/loader/bytecode/json.c:320-327 | a number for an integer constant is cut toward zero, within the range of the type |
| Documents.WordIsAccepted | src/loader/bytecode/json.c:28-109 | a word is accepted exactly when both halves are integers between 0 and 2^32 - 1 |
| Documents.OnlyVersionOne | src/bytecode.c:246-300 | only version 1, and only constants whose data is of their kind |
| LoadedFactorial.LoadedIsFactorial | assembler/start.lua:109-134 | a loaded document that says the factorial program is the factorial program |
| LoadedFactorial.DocumentComputesFactorial | assembler/start.lua:109-134 | from document to result: its inner function leaves n! exactly when there is room for n more frames |
| LoadedFactorial.LoadedIsPayload | assembler/start.lua:73-135 | a loaded document that says the benchmark's payload is the payload |
| LoadedFactorial.DocumentComputesPayload | assembler/start.lua:73-135 | from document to result: its function returns exactly under the conditions of PayloadCorrect, and its rounds are what has happened to the heap |

## Where the code and its documentation disagree

The model follows the code.

- `assembler/opcodes.txt` gives 65,280 registers and says that writes to the read-only registers fail silently.
  The code has 256 registers and fails an assertion on any other index, but for the one index it ignores.
- The condition mask is meant to be the high nibble; without parentheses the expression takes the low one. Of the
  condition codes, NE and GT never skip and GE runs on equal only (`Instructions.ConditionCodes`).
- On a full call stack the prolog pops the caller's frame and keeps the lock
  (`Interpreter.Coroutine.FunctionProlog`, `MachineLaws.OverflowIsNotCaught`).
- The load factor is compared as a percentage and defaults to a fraction (`TableLaws.DefaultFactorFills`,
  `TableLaws.DefaultFactorRun`).
- Line 88 of `src/hashtable.c` writes the collector's copy of a link and takes it from `pair->next`, which is null in a
  new pair, where `pair` itself is meant. Everything about hash tables here reads it as `pair->gc_this`, and
  `NullLinks` and `NullRuns` say exactly when the code as written reads through the null link: at the first append
  behind a pair. `NullRuns.LookupAsWritten` is about the code as it stands.
- `days_from_epoch` was adapted with truncating division, which is off by one day in most years before year 0
  (`Calendar.DaysFromEpochExactly`, `Calendar.SameNumberTwice`).
- Doubles are compared through their bit patterns, which reverses negative ones (`Binary64.LessExactly`,
  `Binary64.NegativesReversed`).

Choices where C leaves the value open: signed 64-bit overflow wraps; the program counter of a frame starts at 0;
the increment of a skipped instruction, whose initialiser the jump passes over, is 1, like that of every opcode.

## Left out

- Interpreter.Coroutine.Loop: agreement with the specification covers the outcome in every case, but not the state in which the process stops.
- Machine.Exec: the budget of steps makes every statement one about finite prefixes of runs; that a run does not end is stated as running out of every budget. Yielding in the middle of a run is modelled in the coroutine protocol only, not in the interpreter.
- Machine.RunNative: native functions yield and resume in the coroutine protocol only, and table operations of the API are modelled as tables, not as native operations; the bytecode's own table instructions are in the machine.
- Benchmark.PayloadReturns: assumes of the native function that it returns after a fixed number of steps with an effect that depends on the heap and its argument only; an effect outside the heap, such as output, shows only in the calls (`Benchmark.PrintsInOrder`).
- InstructionLaws.StoreThenLoad: the tables of the machine are maps, so a run of the machine does not show the read of a null link; which stores make it is stated for the table alone, in `NullLinks` and `NullRuns`.
- MachineLaws.LuaCallEffect: assumes room for one more call frame and a free lock, because without them the prolog raises the overflow described above.
- LuaStack.ApiKeepsLive: strings, numbers and tables that the API pushes are values here; conversions and type queries are not modelled.
- TableLaws.GrowthBounds: the load factor is a real number and the capacity is unbounded; rounding of doubles and overflow of the 32-bit capacity are not modelled.
- HashTables.BucketArray.SetEntry: after a reported read of a null link the state is the one with the link of line 89; what a processor does with the read itself is not modelled, and neither are the collector's copies of links, keys and values.
- Coroutines.Safety: a compare-and-exchange and its context switch are one step, and runs with a coroutine_new on a full nest stack are excluded because the protocol breaks there (`Coroutines.NewKeepsExactly`).
- Coroutines.NewKeepsExactly: states the lost nest entry only; on a full nest stack coroutine_new also runs the prolog on the executing coroutine and leaves a frame for the new function on that coroutine's call stack (src/coroutine.c:105, 211-216), which the protocol model does not have.
- Foreach.Outcome: the consumer's verdict is a property of the item, and the supplier is a finite list that stays exhausted; starting and joining threads cannot fail.
- Calendar.DaysFromEpochExactly: integers are unbounded, so overflow of 32-bit days for years beyond about five million is not modelled.
- Loader.LoadJson: parsing of JSON text, case folding of member names and the packing and unpacking of the message are library code, taken as exact, so that a document may hold integers beyond 2^53 that the doubles of the library would round; error messages are not modelled.
- Loader.CopyPrototype: loops fill arrays in place, but the finished prototype is a value, so sharing between prototypes is not captured.
- hashtable_remove and hashtable_get2: the first drops the rest of a chain and the second inverts its comparison, so no map law holds; the table API uses neither.
- Collector internals, roots and finalizers, and running out of memory.
- The contents of formatted error messages, stack traces and debug information.
- value_tostring, value_todouble, regular expressions, hexadecimal and stream utilities, and double arithmetic beyond its order.
- XXH64, the default hash: a parameter.
- Thread start-up, VM initialisation and cleanup, thread-local keys, read-write locks, and the stack switch itself.
- The blocking queue, the string cache and the reference counter.
