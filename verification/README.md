# Verified core of the f32c software environment

A Dafny model of the parts of the f32c repository whose behaviour is hardest to
see from the code: the BASIC interpreter core, the lock-free atomics, the
intrusive queues, the boot and load protocols, and binary time. The imperative
routines are methods with their loops, arrays or linked memory, proved equal to a
specification; the theorems are about the specifications, for all inputs, all
runs or all reachable states.

`dafny verify dfyconfig.toml` checks everything.

## Layout

| file | models |
|---|---|
| Words.dfy | 32-bit words, wrap-around, bitwise or |
| Arith.dfy | integer/real operators with overflow promotion (`assist.c`) |
| Eval.dfy, EvalTree.dfy | the precedence machine `eval` (`bas3.c`) and the grammar it reads |
| Operators.dfy | what comparisons and logical operators mean |
| Symbols.dfy, SymbolTable.dfy, ChainClear.dfy | hash chains, `getnm`, `new_entry`, `add_entry`, `drop_val`, `ch_clear` |
| Locals.dfy, LocalCommands.dfy, Calls.dfy, FrameList.dfy | LOCAL, calls and returns, the frame list, `drop_fns` |
| Interpreter.dfy | table, frame list and save blocks together: a machine that runs calls on linked memory |
| Arrays.dfy, MatMul.dfy | `dim_one`, `getarray`, `matmuli` |
| Lines.dfy | `insert`, `ins_line`, the line number scan, reading a file |
| Atomics.dfy | LL/SC loops of `mips/atomic.h` as interleaved steps |
| Queues.dfy | STAILQ, LIST and TAILQ on raw link cells |
| HexLoader.dfy, SrecRx.dfy | the two S-record machines |
| Upload.dfy | the binary upload protocol, ROM and serial loader |
| BinTime.dfy | `bintime` arithmetic and conversions |

## How to read the model

- `long` is 32 bits wide (src/include/mips/_limits.h:74); reals are exact.
- `error()` and `longjmp` end an operation with an error outcome; use of freed
  memory is its own outcome, `Fault`.
- Linked structures live in explicit memory: maps from addresses to records.
  A fresh record is an address the allocator is assumed to hand out.
- The serial line is a sequence of characters or bytes; memory is a map.
- Values that come from code outside the model arrive as parameters: the value
  of a variable or function in an expression, evaluated subscripts, the result
  of `mtestalloc`, the real power function.
- In a few modules the word arithmetic is passed to the step functions as a
  function value (`Algebra`, `Shifter`, `Target`), so that the theorems about
  control flow hold for any arithmetic; the final theorems use the real one.

## Findings

- A return after two LOCALs of one name within the same block of seven saves
  relinks a freed entry; two LOCALs further apart are safe
  (`Calls.ReturnFaultsExactly`, `Calls.LocalTwiceFaults`).
- `srec_rx` writes an empty file when the addresses run over 0x7fffffff, because
  its address is a signed register (`SrecRx.RoundTripExactly`).
- The approximate comparison ignores signs: 5 is approximately equal to -5
  (`Operators.NearIs`, `Operators.NearWrongExactly`, `Operators.OppositeSigns`).
- A timespec or timeval with a non-zero fraction always comes back from binary
  time one unit smaller, because the scale factor is rounded down and so is the
  way back (`BinTime.DecimalRoundTrip`).
- `bintime_add` of a time to itself gains a second when the fraction carries
  (`BinTime.Bintime.Add`).
- The boot checksum finds every single changed byte but not every pair
  (`Upload.OneByteDetected`, `Upload.PairMissedExactly`, `Upload.ShortPairMissed`).
- With a signed `char` the ROM read-back checksum can differ from the write
  checksum (`Upload.SignedReadBackExactly`).

## Model

| member | source | states |
|---|---|---|
| Arith.IsOverBits | src/lang/basic/bas.h:261-262 | the bit expression of `IS_OVER` on raw words depends on the three sign bits only, in the way the integer model states |
| Arith.IsOverExact | src/lang/basic/bas.h:261-262 | the overflow test fires exactly when the sum does not fit 32 bits, and is symmetric in its operands |
| Arith.ShiftAdd | src/lang/basic/assist.c:477-502 | the shift-and-add loop reports overflow exactly when the product of the magnitudes reaches 2^31 and else returns the product, with every register an unsigned 32-bit word that never wraps |
| Arith.MmultPly | src/lang/basic/assist.c:453-502 | for all 32-bit operands, the most negative included: overflow exactly when the absolute product reaches 2^31, else the exact product |
| Arith.TruncatedDivision | src/lang/basic/assist.c:223-236 | C division truncates: quotient and remainder recombine, the remainder is smaller than the divisor and, unless zero, has the sign of the dividend; the quotient fits except for the most negative value by -1 |
| Arith.Ads | src/lang/basic/assist.c:253-283 | the result is the exact sum or difference, an integer exactly when it fits and, for a difference, the subtrahend is neither 0 nor the most negative value, else a real |
| Arith.Mdm | src/lang/basic/assist.c:193-240 | the routine equals the table of times, divide, integer divide and MOD; the zero-divisor error and the undefined quotient arise exactly where stated |
| Arith.ProductLaw | src/lang/basic/assist.c:202-222 | a product has the exact value and stays an integer exactly when its size is below 2^31 |
| Arith.DivisionLaw | src/lang/basic/assist.c:223-239 | integer divide and MOD belong together: quotient times divisor plus remainder is the dividend, the remainder is smaller than the divisor with the sign of the dividend, and `/` is that quotient exactly when the remainder is zero |
| Arith.RealDivisionLaw | src/lang/basic/assist.c:163-191 | MOD of reals is the dividend less a whole multiple of the divisor, smaller than it, with the sign of the dividend; integer divide of reals is plain division |
| Arith.Ex | src/lang/basic/assist.c:139-161 | the power loop yields an integer if and only if p >= 0, 0 <= q < 31 and p^q < 2^31, and then exactly p^q; a negative base is an error, everything else goes to the real power |
| Arith.NegateRes | src/lang/basic/assist.c:397-411 | the result is minus the number, an integer exactly for an integer other than 0 and the most negative value |
| Arith.Conv | src/lang/basic/assist.c:73-92 | conversion of a real refuses exactly the values above 2147483647 or below -2147483648 and otherwise rounds half up: the floor of the value plus one half |
| Arith.OperatorExact | src/lang/basic/assist.c:193-283 | each of + - * / on any mix of integer and real operands yields the exact number, the zero-divisor error exactly for a zero divisor, or the one undefined case |
| Arith.PromotionExact | src/lang/basic/assist.c:193-283 | for every expression tree over 32-bit integers with + - * / and unary minus, a value, integer or real, is the exact rational value, and a zero-divisor error means the exact value does not exist |
| Arith.PromotionTotal | src/lang/basic/assist.c:193-283 | every such expression without a division of the most negative value by -1 yields its exact value or the zero-divisor error, nothing else |
| Eval.MBin | src/lang/basic/assist.c:125-137 | the conversion to one type and the operator dispatch equal the operator table for every operator and mix of integers and reals |
| Eval.ComOp | src/lang/basic/assist.c:318-328 | the comparison routine with `cmp`, `aprx` and the operator chain of `compare` (src/lang/basic/bas9.c:72-110) equals the comparison table |
| Operators.NearIs | src/lang/basic/assist.c:287-317 | what the approximate comparison computes, for all reals: the sizes differ by at most one part in 10^9 of the second, or one operand is zero and the other at most 10^-9 in size; signs are ignored |
| Operators.NearWrongExactly | src/lang/basic/assist.c:287-317 | it differs from closeness of the numbers exactly for operands of opposite sign whose sizes agree |
| Operators.OppositeSigns | src/lang/basic/assist.c:287-317 | the failing inputs: every number is approximately equal to its negative |
| Eval.AndOr | src/lang/basic/assist.c:341-370 | the word expressions of the five logical operators, such as (~i) | (i & j) for IMP, equal the bit-by-bit rule |
| Eval.WordRules | src/lang/basic/assist.c:341-370 | for all words each C expression of `andor` is its bit rule |
| Eval.FAndOr | src/lang/basic/assist.c:330-339 | reals enter the logical operators as 0 or -1 |
| Eval.RisingBounds | src/lang/basic/bas3.c:112-327 | a stack whose precedences rise strictly has at most five entries, so the six slots suffice |
| Eval.UnwindReduce | src/lang/basic/bas3.c:276-294 | popping a stack entry with the operator it holds keeps the value the whole expression will have |
| Eval.UnwindPush | src/lang/basic/bas3.c:276-298 | pushing an operator of higher precedence keeps the value the whole expression will have |
| Eval.ReadOperand | src/lang/basic/bas3.c:128-236 | the loop over NOT and minus prefixes followed by an operand equals the recursive operand specification, with its errors |
| Eval.Reduce | src/lang/basic/bas3.c:276-294 | the reduction loop on the `restab` array leaves a strictly rising stack and the same pending meaning |
| Eval.PushSlot | src/lang/basic/bas3.c:295-298 | an operator that binds tighter than the top always finds a free slot and keeps precedences strictly rising |
| Eval.EvalMachine | src/lang/basic/bas3.c:112-327 | for every token text and every operator table the six-slot array machine returns what precedence climbing returns: value and remaining text, or the same error |
| EvalTree.MachineMeetsTree | src/lang/basic/bas3.c:112-327 | the text spelled by any well-formed tree (left-associative, precedences 5 to 1, NOT NOT cancelling) evaluates to the meaning of the tree and stops where the tree ends |
| EvalTree.ExpressionTree | src/lang/basic/bas3.c:112-327 | whenever the machine returns a value, the text it consumed spells a well-formed tree of that meaning |
| EvalTree.MachineIffTree | src/lang/basic/bas3.c:112-327 | both directions at once: the machine reads value v and stops at a rest if and only if some well-formed tree spells the consumed text and means v |
| EvalTree.TighterIs | src/lang/basic/bas3.c:238-273 | the machine orders operators as `^` over `* / MOD` and integer divide over `+ -` over comparisons over logic, and allows a sign after the first, fourth and fifth kind only |
| EvalTree.Grouping | src/lang/basic/bas3.c:112-327 | for all values and operators, a p b q c is a p (b q c) if q binds tighter than p, by cases on the operators, else (a p b) q c |
| EvalTree.MinusAfter | src/lang/basic/bas3.c:128-136 | for all values and operators, a op - b applies op to a and minus b after `^`, comparisons and logic, and is a syntax error after the others |
| EvalTree.Prefixes | src/lang/basic/bas3.c:128-236 | NOT and minus signs apply from the operand outwards, and two NOTs cancel |
| EvalTree.ReadPrefix | src/lang/basic/bas3.c:128-150 | how a run of NOTs and a minus sign is reduced to at most two pending unary operators |
| EvalTree.ScannedPrefix | src/lang/basic/bas3.c:128-150 | conversely, every accepted prefix has the shape NOT^n, optional minus, NOT^m |
| EvalTree.ErasedMeaning | src/lang/basic/bas3.c:112-327 | on every tree over integers with + - * /, brackets and minus signs, the machine's operators compute what they compute on the expression without brackets |
| EvalTree.EveryExpression | src/lang/basic/bas3.c:112-327 | every arithmetic expression is the expression of such a well-formed tree |
| EvalTree.EndToEnd | src/lang/basic/bas3.c:112-327 | the token text of every arithmetic tree, grouped by precedence, associativity and brackets, evaluates to the exact rational value of that grouping, or to the zero-divisor error exactly when there is none |
| Operators.ComparesNumbers | src/lang/basic/assist.c:318-328 | each comparison of integers, reals or a mix yields -1 or 0 by the relation of the two numbers; the approximate one by agreement of their sizes |
| Operators.Trichotomy | src/lang/basic/assist.c:318-328 | exactly one of less, equal and greater holds of two values |
| Operators.LogicBits | src/lang/basic/assist.c:341-370 | AND, OR, XOR, IMP and EQV act on each of the 32 bits as conjunction, disjunction, inequality, implication and equivalence |
| Operators.LogicOnTruth | src/lang/basic/assist.c:330-369 | on the results of comparisons the logical operators are Boolean logic |
| Operators.LogicOnReals | src/lang/basic/assist.c:330-339 | with a real operand each operand counts as whether it is non-zero |
| Operators.NotFlips | src/lang/basic/assist.c:415-424 | NOT of an integer flips each of the 32 bits |
| Operators.NotNot | src/lang/basic/assist.c:415-424 | NOT NOT is the identity on integers and the truth value of a real |
| Operators.TableCompares | src/lang/basic/assist.c:125-137 | the comparison entries of the jump table compare numbers |
| Operators.TableLogic | src/lang/basic/assist.c:125-137 | the logic entries act on bits of integers and on truth values of reals |
| Operators.TablePower | src/lang/basic/assist.c:125-137 | the power entry gives exact integer powers where they fit, one for exponent zero, zero for base zero, and the error exactly for a negative base |
| Operators.TableDivides | src/lang/basic/assist.c:125-137 | the integer divide and MOD entries obey the division law |
| Operators.TableUnary | src/lang/basic/assist.c:397-424 | the unary entries negate numbers and flip bits |
| Atomics.ExecuteOk | src/include/mips/atomic.h:38-177 | one instruction of any of the eight routines keeps the per-processor invariant between its program counter, registers and link bit |
| Atomics.UnlinkOk | rtl/cpu/f32c_core.vhd:1073-1083 | a store by another processor clears the link bit and keeps the invariant of everyone else, whatever the new memory word |
| Atomics.StepValid | src/include/mips/atomic.h:38-177 | every step of every processor keeps the system invariant, which includes the history of calls, effects and returns |
| Atomics.RunValid | src/include/mips/atomic.h:38-177 | the invariant holds after every interleaving of steps of any number of processors |
| Atomics.EveryRunLinearizable | src/include/mips/atomic.h:38-177 | in every run each completed call has exactly one effect between call and return, the effects in order are a legal serial run with the answers actually returned, and memory is its final value, so no update is lost |
| Atomics.FailureMeansInterference | src/include/mips/atomic.h:38-177 | a store-conditional fails if and only if some other store-conditional committed since the matching load-linked |
| Atomics.LockFree | src/include/mips/atomic.h:38-177 | among n processors no schedule has more than 18 n execution steps in a row without a store-conditional committing, unless new calls arrive: someone always makes progress |
| Atomics.EffectsAre | src/include/mips/atomic.h:38-177 | what each operation leaves and returns, in plain arithmetic modulo 2^32 |
| Atomics.BitEffects | src/include/mips/atomic.h:38-66 | set and clear, bit by bit: old or given, old and not given |
| Atomics.AddUndone | src/include/mips/atomic.h:69-97 | subtracting what was added restores the word |
| Atomics.CounterExact | src/include/mips/atomic.h:69-177 | in every run of any number of processors that only add v, memory has grown by v once for every addition that took effect |
| Symbols.FindIff | src/lang/basic/bas2.c:110-139 | the chain walk finds an entry if and only if it is in the chain with that key |
| Symbols.HashOf | src/lang/basic/bas2.c:46-78 | the accumulating loop gives the sum of the characters modulo 37, for any type and kind |
| Symbols.HashAppend | src/lang/basic/bas2.c:46-78 | the hash is additive over the characters |
| Symbols.AddFrontOk | src/lang/basic/bas1.c:956-965 | `add_entry` binds its key and no other, keys stay unique and entries stay in their bucket |
| Symbols.AddBackOk | src/lang/basic/bas2.c:80-103 | `new_entry` binds its key and no other, keys stay unique and entries stay in their bucket |
| Symbols.DropOk | src/lang/basic/bas2.c:424-442 | `drop_val` unbinds exactly its own entry, wherever it is in the chain |
| SymbolTable.HashTable.GetNm | src/lang/basic/bas2.c:110-139 | the pointer walk returns the bound entry or none, and the last entry visited |
| SymbolTable.HashTable.NewEntry | src/lang/basic/bas2.c:80-103 | links a fresh entry behind the last one visited, or as the head of an empty chain: the table is the old one with the entry at the end of its chain |
| SymbolTable.HashTable.AddEntry | src/lang/basic/bas1.c:956-965 | the entry becomes the head of its chain, linked to the old head, and nothing else changes |
| SymbolTable.HashTable.DropVal | src/lang/basic/bas2.c:424-442 | the unlinking walk removes the entry from its chain if it is there, frees it then if asked to, and changes nothing otherwise |
| SymbolTable.HashTable.GetName | src/lang/basic/bas2.c:154-235 | `getname` for a variable: the bound entry, or a new one appended to its chain |
| SymbolTable.HashTable.GetNameFn | src/lang/basic/bas2.c:154-235 | `getname` where a function may be meant: a function of that name and of the right sort first, then the variable, then a new variable |
| SymbolTable.OpRefinesMap | src/lang/basic/bas2.c:80-139 | define, unbind and rebind on the chains are the operations of a finite map keyed by name, type and kind |
| SymbolTable.RunRefinesMap | src/lang/basic/bas2.c:80-235 | after every sequence of operations every lookup answers as a run on the finite map alone does, keys are unique and every entry is in the bucket of its hash |
| ChainClear.Divide | src/lang/basic/bas1.c:935-951 | one chain is divided through two tail pointers into the entries to keep and those to free, each in the old order, touching no link outside the chain |
| ChainClear.OnlyConserves | src/lang/basic/bas1.c:935-951 | the two parts together are the chain as a multiset: every entry goes to exactly one of them |
| ChainClear.OnlySnoc | src/lang/basic/bas1.c:935-951 | each part keeps the order of the chain |
| ChainClear.FreeChain | src/lang/basic/bas1.c:856-868 | `clear_htab` frees exactly the entries of a chain, reading no entry after it was freed |
| ChainClear.ChClear | src/lang/basic/bas1.c:926-954 | the whole table: kept chains in order, all other entries of the table freed once, everything else untouched, and the table valid again |
| ChainClear.KeptLookup | src/lang/basic/bas1.c:926-954 | afterwards a name is bound to the same entry as before if that entry was kept, and unbound otherwise |
| Locals.RecoverBlockOk | src/lang/basic/bas3.c:976-981 | undoing a block without repeated names, oldest save first, binds each name again to what it shadowed and leaves the others alone |
| Locals.TwiceFaults | src/lang/basic/bas3.c:976-981 | a block that holds two saves of one name makes recovery use a freed entry |
| Locals.RecoverExactly | src/lang/basic/bas3.c:956-986 | recovery uses freed memory if and only if some block of seven saves holds a name twice; otherwise every localised name is bound to the very entry its first LOCAL shadowed, or unbound, and other names are unchanged |
| Locals.RecoverKeeps | src/lang/basic/bas3.c:956-986 | recovery frees only entries that LOCAL installed and changes no value |
| Locals.LocalStartsZero | src/lang/basic/bas2.c:738-775 | what a local starts as: a new entry of that name, zero in every element, with the shape and size of the entry it shadows, or as declared; all other entries keep their values |
| Locals.AssignSets | src/lang/basic/bas2.c:154-235 | an assignment binds the name, to its entry if it had one, and stores the value; every other entry and binding is as it was |
| LocalCommands.BLocal | src/lang/basic/bas2.c:667-736 | LOCAL on the linked table: walk, new entry with given or default dimensions, or duplicate, push and unlink, or the syntax error for dimensions of a bound array, produce exactly the specified state and save record |
| LocalCommands.RecoverVars | src/lang/basic/bas3.c:956-986 | the two recovery loops on the linked table produce exactly the specified state, never touching a freed entry when no block holds a name twice |
| Calls.StepOk | src/lang/basic/bas3.c:731-808 | every statement, calls of any nesting included, keeps the invariant of table, saves and frames, and leaves alone what belongs to outer activations |
| Calls.ExecOk | src/lang/basic/bas3.c:731-808 | the same for every sequence of statements |
| Calls.InvokeOk | src/lang/basic/bas3.c:731-808 | a call that returns keeps the invariant; `ncall` equals the live frames of each function and never exceeds 100 |
| Calls.ReturnBindings | src/lang/basic/bas3.c:776-808 | after a return the frame list is the one before the call, localised names are bound to what their first LOCAL shadowed, others as the body left them |
| Calls.ReturnEntries | src/lang/basic/bas3.c:838-862 | a return restores the parameter values, keeps every entry that existed before the call and changes no other value |
| Calls.ReturnKeepsBindings | src/lang/basic/bas1.c:870-898 | a name bound before the call, localised in it or not, is bound to the same entry after it |
| Calls.CallRestores | src/lang/basic/bas3.c:731-808 | the return theorem for every body, at any nesting: the localised name gets the entry and value it had at its first LOCAL, or its absence; parameters, frames and call counts are as before the call; other names are as the body left them |
| Calls.ReturnFaultsExactly | src/lang/basic/bas3.c:956-986 | a return uses freed memory if and only if the body ran two LOCALs of one name within the same group of seven |
| Calls.LocalTwiceFaults | src/lang/basic/bas2.c:667-736 | the smallest failing input: LOCAL of one name twice in a row, from every good state |
| Calls.CarefulNeverFaults | src/lang/basic/bas3.c:731-808 | a run whose activations never repeat a name within seven never uses freed memory, however deep its calls nest |
| Calls.OkIsClean | src/lang/basic/bas3.c:731-808 | conversely a run that ends well had no activation, at any nesting, that repeats a name within seven |
| Calls.StartGood | src/lang/basic/bas3.c:731-808 | the fresh interpreter satisfies the invariant, so the theorems hold of every reachable state |
| Calls.ArgumentsSeen | src/lang/basic/bas3.c:717-769 | the body of a call sees its arguments in the parameters, every other entry as before, and its frame on top with no name localised |
| Calls.CallLimit | src/lang/basic/bas3.c:736-739 | the hundred and first live activation of a function is refused with error 44 |
| Calls.LoopUndone | src/lang/basic/bas3.c:736-747 | a loop frame goes as it came, and only from the top |
| Interpreter.Machine.LocalStmt | src/lang/basic/bas2.c:667-736 | LOCAL on linked table, frame list and save blocks together: the frame search, its errors, the table change and the save in the last block or a new one give exactly the specified state |
| Interpreter.StoreParams | src/lang/basic/bas3.c:838-862 | the loops that put values into parameters, before and after the body |
| Interpreter.Machine.Begin | src/lang/basic/bas3.c:700-769 | the start of a call: parameter values saved, the arguments stored in the parameters, a frame pushed unless 100 activations live |
| Interpreter.Machine.Return | src/lang/basic/bas3.c:776-808 | the end of a call: frame search, parameters back, frame list cut, localised names recovered, giving exactly the specified state without touching freed memory |
| Interpreter.Machine.CallFn | src/lang/basic/bas3.c:658-808 | a whole call with all calls its body makes runs on memory as the specification says, or ends with its error |
| Interpreter.Machine.Execute | src/lang/basic/bas3.c:658-808 | every careful run, at any nesting, ends with memory in the state the specification gives, or with its error; so the return theorems hold of the linked memory |
| Interpreter.RecordIs | src/lang/basic/bas2.c:716-733 | adding a save changes the record of the innermost activation only, wherever it lies below open loops |
| Interpreter.LiveIsCount | src/lang/basic/bas3.c:736-769 | the activations counted along the linked frames are those of the abstract stack |
| FrameList.Stack.Push | src/lang/basic/bas3.c:736-769 | a frame is linked at the end; a call past 100 live activations is refused and changes nothing; counters equal live activations |
| FrameList.Stack.Innermost | src/lang/basic/bas3.c:776-780 | the backward walk finds the innermost activation, with only loops above it, or there is none |
| FrameList.Stack.ClrStack | src/lang/basic/bas1.c:870-898 | the walk over the cut-off frames lowers each counter by the activations among them |
| FrameList.Stack.CutFrom | src/lang/basic/bas3.c:802-806 | a return truncates the linked list to the frames below the activation, with counters and both end pointers right |
| FrameList.Stack.Unlink | src/lang/basic/bas3.c:881-888 | unlinking one record keeps the list joined both ways, at either end and when it is the only one |
| FrameList.Stack.DropFns | src/lang/basic/bas3.c:864-898 | `drop_fns` leaves exactly the frames that are not activations, in order and joined both ways, and every call counter at zero |
| FrameList.LoopsLive | src/lang/basic/bas3.c:864-898 | no activation is left among those frames |
| FrameList.LoopsMembers | src/lang/basic/bas3.c:864-898 | exactly the frames that are not activations remain |
| FrameList.LoopsAppend | src/lang/basic/bas3.c:864-898 | and they keep their order |
| Arrays.IndexOfTuple | src/lang/basic/bas2.c:314-342 | in-range tuples go to places below the product of the dimensions, and the tuple is found again from the place |
| Arrays.TupleOfIndex | src/lang/basic/bas2.c:314-342 | every place below the product is the place of an in-range tuple |
| Arrays.GetArray | src/lang/basic/bas2.c:314-342 | the subscript loop over the reversed dimensions gives the byte offset of the tuple, or error 17 exactly when a subscript it reads is out of range, else 16 for a wrong count or a missing bracket; no index or offset leaves 32 bits |
| Arrays.AccessExactly | src/lang/basic/bas2.c:314-342 | an access succeeds if and only if the brackets close and the subscripts are a tuple within range; all others are rejected |
| Arrays.AccessErrors | src/lang/basic/bas2.c:314-342 | error 17 exactly when a subscript that is read is out of range of its dimension, else 16 for a wrong count or a missing bracket |
| Arrays.Stride | src/lang/basic/bas2.c:314-342 | one step in a subscript moves by the number of elements in the dimensions after it |
| Arrays.Neighbours | src/lang/basic/bas2.c:314-342 | the first element is at offset 0 and neighbours are 8, 4 or 8 bytes apart |
| Arrays.AccessSeparate | src/lang/basic/bas2.c:314-342 | accesses lie inside the data area, before the stored dimensions, and different tuples never overlap |
| Arrays.AccessOnto | src/lang/basic/bas2.c:314-342 | every element of the data area is reached by some tuple, in either base |
| Arrays.ReadDims | src/lang/basic/bas2.c:386-403 | the dimension loop fills the buffer, multiplies with overflow detection, and refuses exactly a non-positive dimension or a product above the limit |
| Arrays.DimOne | src/lang/basic/bas2.c:371-422 | a declaration succeeds exactly for 1 to 64 positive dimensions, product at most 200000000, a closing bracket and enough memory; errors 16 and 17 exactly as stated; afterwards exactly the subscripts from the base to the numbers given can be accessed; the size in bytes fits 32 bits |
| Arrays.DeclaredRange | src/lang/basic/bas2.c:314-422 | after a declaration the tuples that work are those from the base to the given number in every dimension |
| MatMul.Dot | src/lang/basic/bas3.c:1903-1921 | the inner loop with its strides succeeds exactly when every product and partial sum is accepted, and then returns the exact sum |
| MatMul.MatMulI | src/lang/basic/bas3.c:1882-1929 | with success every cell i*db2+j holds the exact inner product; it fails exactly at the first cell with a product or partial sum out of range, cells before it done and later ones untouched; no pointer leaves its buffer |
| MatMul.Walkable | src/lang/basic/bas3.c:1882-1929 | row and column walks stay inside the buffers |
| MatMul.TimesIdentity | src/lang/basic/bas3.c:1882-1929 | multiplying by the identity matrix gives the matrix |
| MatMul.SumLinear | src/lang/basic/bas3.c:1882-1929 | the inner product is linear in the first matrix |
| Lines.LineNumber | src/lang/basic/bas1.c:187-193 | the digit scan returns the number, at most 65529 and below the continuation mark, and fails exactly for larger values |
| Lines.DecimalValue | src/lang/basic/bas1.c:187-193 | digits are decimal, the highest first |
| Lines.Store.Search | src/lang/basic/bas1.c:393-408 | the walk stops at the first numbered line not below the wanted one, passing over continuation lines |
| Lines.Store.Insert | src/lang/basic/bas1.c:383-410 | insert, replace and delete on the linked list give exactly the specified sequence of lines, and remember the inserted record |
| Lines.Store.InsLine | src/lang/basic/bas1.c:412-438 | a record is linked behind the given one, or at the front, and all others keep their place |
| Lines.OthersKept | src/lang/basic/bas1.c:383-438 | every other line, numbered or continuation, keeps its content and its order among the others |
| Lines.OwnersKept | src/lang/basic/bas1.c:383-438 | entering or replacing a line leaves every continuation line with the line it continues; deleting a line hands its continuation lines to the line before it |
| Lines.EnteredIs | src/lang/basic/bas1.c:383-438 | entering a line updates or deletes exactly one key of the map from numbers to texts, and numbers stay strictly ascending |
| Lines.EditsRefineMap | src/lang/basic/bas1.c:383-438 | after any run of edits the numbers ascend and each number maps to its last edit |
| Lines.Store.ReadLine | src/lang/basic/bas8.c:1650-1667 | one line of a file, split into number and text: insert or delete, continue the line put in last, skip an empty line, or refuse a continuation with nothing to continue; the linked store follows the specification in each case |
| Lines.ReadFile | src/lang/basic/bas8.c:1616-1685 | the loop over the lines of a file, into any program, loading or returning from the editor, equals the specification, refusals included |
| Lines.ReadAllIs | src/lang/basic/bas8.c:1616-1685 | reading any file into any program keeps the numbers ascending, and each number maps to the last line of the file with it, or to what it was |
| Lines.ListingReadBack | src/lang/basic/bas8.c:1616-1685 | reading the lines of a program's listing into an empty store gives the program back, continuation lines included |
| Queues.Cells.TailqInit | src/include/sys/queue.h:595-599 | makes an empty queue whose last cell is the head's own |
| Queues.Cells.TailqInsertHead | src/include/sys/queue.h:626-637 | the queue becomes [elm] + s; other memory is untouched |
| Queues.Cells.TailqInsertTail | src/include/sys/queue.h:639-647 | the queue becomes s + [elm]; other memory is untouched |
| Queues.Cells.TailqInsertAfter | src/include/sys/queue.h:601-614 | elm lands directly behind the given element |
| Queues.Cells.TailqInsertBefore | src/include/sys/queue.h:616-624 | elm lands directly before the given element, without the head at hand |
| Queues.Cells.TailqRemove | src/include/sys/queue.h:657-673 | removes exactly that element, at either end or in the middle |
| Queues.Cells.TailqConcat | src/include/sys/queue.h:540-549 | the first queue becomes s1 + s2 and the second empty: no element lost or doubled, also when either is empty |
| Queues.Cells.TailqSwap | src/include/sys/queue.h:675-690 | the two queues exchange their sequences, also when one or both are empty |
| Queues.Cells.TailqLast | src/include/sys/queue.h:649-651 | the double dereference through the head-layout cast is the last element, or null when empty |
| Queues.Cells.TailqPrev | src/include/sys/queue.h:654-655 | the cast finds the element before, or null at the front |
| Queues.Cells.TailqForeachReverse | src/include/sys/queue.h:575-578 | visits the reversed sequence |
| Queues.Cells.StailqInsertHead | src/include/sys/queue.h:300-304 | the queue becomes [elm] + s |
| Queues.Cells.StailqInsertTail | src/include/sys/queue.h:306-310 | the queue becomes s + [elm] |
| Queues.Cells.StailqInsertAfter | src/include/sys/queue.h:294-298 | elm lands directly behind the given element |
| Queues.Cells.StailqRemove | src/include/sys/queue.h:318-342 | removes exactly that element, with the walk to its predecessor and the tail repaired |
| Queues.Cells.StailqConcat | src/include/sys/queue.h:257-263 | the first queue becomes s1 + s2 and the second empty |
| Queues.Cells.StailqSwap | src/include/sys/queue.h:344-355 | the two queues exchange their sequences |
| Queues.Cells.StailqLast | src/include/sys/queue.h:312-316 | the last element, or null when empty |
| Queues.Cells.ListInsertHead | src/include/sys/queue.h:449-456 | the list becomes [elm] + s |
| Queues.Cells.ListInsertAfter | src/include/sys/queue.h:432-439 | elm lands directly behind the given element |
| Queues.Cells.ListInsertBefore | src/include/sys/queue.h:441-447 | elm lands directly before the given element |
| Queues.Cells.ListRemove | src/include/sys/queue.h:463-474 | removes exactly that element without the head at hand |
| Queues.Cells.ListSwap | src/include/sys/queue.h:476-484 | the two lists exchange their sequences |
| Queues.Cells.ListPrev | src/include/sys/queue.h:459-461 | the element before, or null at the front |
| HexLoader.SioBoot | src/boot/sio/loader.c:104-228 | the character loop with its variables equals the step function on every input, valid or not |
| HexLoader.LoadsRecords | src/boot/sio/loader.c:104-228 | for every sequence of well-formed S0 to S3 records, upper or lower case and any line end, and a termination digit: memory is the records' writes in order and the jump goes to the entry address |
| HexLoader.RecordBytes | src/boot/sio/loader.c:104-228 | what one record does: data written at its address, checksum byte dropped, header bytes dropped, entry address kept or set |
| HexLoader.Untouched | src/boot/sio/loader.c:104-228 | a cell no data record covers is as it was |
| HexLoader.LastRecordWins | src/boot/sio/loader.c:104-228 | a covered cell holds the byte of the last record that covers it |
| HexLoader.EntryIsFirst | src/boot/sio/loader.c:104-228 | the entry address is that of the first data record with a non-zero address |
| HexLoader.DataLands | src/boot/sio/loader.c:104-228 | byte i of a record goes to its address plus i, around the address space |
| HexLoader.AddressIs | src/boot/sio/loader.c:104-228 | the address field is big-endian, in two, three or four bytes |
| HexLoader.HandsOver | src/boot/sio/loader.c:104-228 | between records everything but an S is skipped, and the character 255 hands over to the binary loader |
| SrecRx.Receive | src/examples/cmd/cli.c:1115-1221 | the receiver loop equals the step function on every input |
| SrecRx.WriteFile | src/examples/cmd/cli.c:1152-1163 | the 64 KiB write loop produces exactly the specified bytes, or would read past the buffer |
| SrecRx.CompleteRecord | src/examples/cmd/cli.c:1184-1214 | a complete record is accepted if and only if its last byte is the ones' complement of the low byte of the sum of the others, that is, if all its bytes add up to 255 modulo 256; otherwise the receiver gives up at that line |
| SrecRx.SingleByteChangeAborts | src/examples/cmd/cli.c:1184-1221 | changing any one byte after the count of a correct record, in address, data or checksum, makes the receiver give up whatever follows |
| SrecRx.ChangedRecordAborts | src/examples/cmd/cli.c:1115-1222 | the same in a whole session: after any lines, one changed byte in a record ends in giving up at the number of that record, whatever follows, so no file is written |
| SrecRx.RecordBytes | src/examples/cmd/cli.c:1184-1214 | a correct record puts its data into the buffer at its address and advances the address by the data length |
| SrecRx.ReadLine | src/examples/cmd/cli.c:1115-1214 | the same for a whole line, with either line end |
| SrecRx.HeaderNames | src/examples/cmd/cli.c:1132-1135 | a header record sets the file name: its text, ended by a zero |
| SrecRx.FieldsAre | src/examples/cmd/cli.c:1184-1204 | the address field is big-endian, in two, three or four bytes |
| SrecRx.SpelledByte | src/examples/cmd/cli.c:1184-1192 | a byte is spelled high digit first in upper case |
| SrecRx.DecodeFrom | src/examples/cmd/cli.c:1115-1222 | decoding any contiguous image that does not wrap around the buffer, for every split into records, address width, placing of header and count records and every termination address up to the end of the image: the file is the buffer from that address to the end of the image, or empty when that range runs over the signed limit |
| SrecRx.DecodeSuffix | src/examples/cmd/cli.c:1115-1222 | a termination address inside the image writes exactly the rest of the image |
| SrecRx.RoundTrip | src/examples/cmd/cli.c:1115-1222 | the case of the base in the termination record: exactly the image, or nothing when it runs over the signed limit |
| SrecRx.RoundTripExactly | src/examples/cmd/cli.c:1115-1222 | the round trip holds if and only if the address range does not run over the signed limit |
| SrecRx.TopByteLost | src/examples/cmd/cli.c:1115-1222 | a failing input: one byte at address 0x7fffffff is lost |
| Upload.CrcBijective | src/boot/sio/binboot.c:104-113 | for every suffix of a block the rotate-and-add checksum is a bijection of the running value, with an explicit two-sided inverse |
| Upload.OneByteDetected | src/boot/sio/binboot.c:104-113 | two blocks of equal length that differ in exactly one byte have different checksums |
| Upload.PairMissedExactly | src/boot/sio/binboot.c:104-113 | two changed bytes of a block of any length go unnoticed if and only if the step at the second of them brings the running values together again |
| Upload.ShortCrc | src/boot/sio/binboot.c:104-113 | the checksum of a block of at most 24 bytes is the sum of its bytes, each weighing twice as much as the next |
| Upload.ShortCollide | src/boot/sio/binboot.c:104-113 | two such blocks collide if and only if these sums agree |
| Upload.ShortPairMissed | src/boot/sio/binboot.c:104-113 | in such a block two changed bytes go unnoticed if and only if the first change, doubled once per place up to the second, is minus the second |
| Upload.FarPairDetected | src/boot/sio/binboot.c:104-113 | in such a block two changes eight or more bytes apart are always noticed |
| Upload.TwoBytesMissed | src/boot/sio/binboot.c:104-113 | neighbouring changes go unnoticed if and only if the second is minus twice the first |
| Upload.CollidingBlocks | src/boot/sio/binboot.c:104-113 | the smallest such pair of blocks |
| Upload.ReplyDecodes | src/boot/sio/binboot.c:87-97 | the four reply bytes, sent back as a base address, set the base to that crc, whatever it was |
| Upload.FourBytes | src/boot/sio/binboot.c:87-90 | four operand bytes, the highest first, replace the base |
| Upload.RegisterCommands | src/boot/sio/binboot.c:87-103 | opcodes 0x80, 0x81, 0x90 and 0x91 on the registers |
| Upload.WriteCommand | src/boot/sio/binboot.c:104-113 | opcode 0xa0 stores a block at the base with its checksum |
| Upload.BlockLands | src/boot/sio/binboot.c:104-113 | byte i of a block goes to its base plus i, around the address space |
| Upload.ReadCommand | src/boot/rom/loader.c:161-170 | opcode 0xa1 of the ROM loader sends the block |
| Upload.OtherCommands | src/boot/rom/loader.c:171-184 | 0xb1 jumps, 0xb0 sets the line speed; at any other opcode the serial loader leaves and the ROM loader goes on |
| Upload.PowerOn | src/boot/rom/loader.c:123-133 | straight after power-on a jump goes to 0, a write-block stores nothing and the crc is 0 |
| Upload.ReceiveBase | src/boot/rom/loader.c:134-137 | the loop of set-base over as many bytes as arrive |
| Upload.SendCrc | src/boot/rom/loader.c:138-144 | the loop that sends the crc, highest byte first |
| Upload.ReceiveBlock | src/boot/rom/loader.c:151-160 | the write-block loop: bytes stored in order, wrapping at the end of the address space, with the checksum of exactly these bytes |
| Upload.SendBlock | src/boot/rom/loader.c:161-170 | the read-block loop: the bytes of memory in order and the checksum through plain `char`, signed or not |
| Upload.LoadBinary | src/boot/rom/loader.c:123-186 | the command loop of either loader equals the specification on every input, truncated and unknown commands included |
| Upload.RunAll | src/boot/rom/loader.c:123-186 | a session of legal commands is read back command by command and does what they mean |
| Upload.UploadSession | src/boot/sio/binboot.c:84-157 | for every session that ends in a jump: the target is the last base, each memory cell holds the byte of the last block covering it, all others are unchanged |
| Upload.ReadAfterWrite | src/boot/rom/loader.c:151-170 | a read-block straight after a write-block sends exactly the bytes written and leaves memory alone |
| Upload.CrcAfterWrite | src/boot/sio/binboot.c:91-113 | a read-crc after a write-block sends four bytes that decode to the checksum of that block |
| Upload.SignedReadBackExactly | src/boot/rom/loader.c:151-170 | with a signed `char` the checksums of writing and reading back agree if and only if no byte has its top bit set, or the rotated running values before the last such byte differ by 256 |
| Upload.CharCrcSame | src/boot/rom/loader.c:161-170 | with an unsigned `char`, or no byte with its top bit set, they agree; the exact condition is `Upload.SignedReadBackExactly` |
| Upload.SignedReadBackDiffers | src/boot/rom/loader.c:161-170 | an instance of the exact condition: with a single such byte they always differ |
| BinTime.Bintime.AddX | src/include/sys/time.h:58-67 | adding a fraction is exact on sec * 2^64 + frac, modulo the range of the seconds |
| BinTime.Bintime.Add | src/include/sys/time.h:69-79 | addition is exact modulo the range of the seconds, except that a time with a carry added to itself gains one second too many; both cases stated |
| BinTime.Bintime.Sub | src/include/sys/time.h:81-91 | subtraction is exact modulo the range of the seconds, also of a time from itself |
| BinTime.Bintime.Mul | src/include/sys/time.h:93-103 | multiplication through two 32-bit halves is exact modulo the range of the seconds |
| BinTime.WrapExact | src/include/sys/time.h:69-103 | within the range of the seconds nothing is lost |
| BinTime.SubUndoesAdd | src/include/sys/time.h:69-91 | subtracting what was added restores the value, even across a wrap |
| BinTime.AddThenSub | src/include/sys/time.h:69-91 | the same on the fields of two separate times |
| BinTime.Decimal.FromBintime | src/include/sys/time.h:126-132 | conversion to timespec or timeval yields a normalised fraction |
| BinTime.Decimal.ToBintime | src/include/sys/time.h:134-141 | conversion from a normalised timespec or timeval does not overflow the fraction |
| BinTime.PerUnitRoundedDown | src/include/sys/time.h:134-158 | the scale factors are the ticks per second divided by the units per second, rounded down |
| BinTime.DecimalRoundTrip | src/include/sys/time.h:126-158 | through binary time and back, zero stays zero and every other fraction loses exactly one unit, never more and never gaining |
| BinTime.ThereAndBack | src/include/sys/time.h:126-158 | the same on the structures, with the seconds unchanged |
| BinTime.BinaryRoundTrip | src/include/sys/time.h:126-158 | a binary fraction never gains through a decimal one and loses less than two units |

## Left out

- `Arith.Mdm`: the most negative value divided by -1 (and MOD -1) is an outcome of its own, not a number, because C leaves it undefined.
- `Arith.PromotionExact`: real arithmetic is exact; rounding of `double` is not modelled.
- `HexLoader.LoadsRecords`: record types 4 to 6 and malformed lines are covered by `HexLoader.SioBoot` as steps, but nothing is claimed about their effect on memory.
- `SrecRx.DecodeFrom`: images that wrap around the one-megabyte buffer, a termination address behind the image and truncated lines are outside; failing file writes and header names that overrun the 256-byte buffer are not modelled.
- `Calls.CallRestores`: DEF inside an activation, ERASE of a local, `clear()` while activations live and error traps are outside; statements are assignment, LOCAL, loop frames and calls. String parameters are cells like numbers.
- `ChainClear.ChClear`: of `clear()` only the hash table part; the frame stack, strings and DATA pointers it also resets are not modelled.
- `LocalCommands.BLocal`: dimensions arrive as `dim_one` accepted them, its errors are those of `Arrays.DimOne`.
- `Interpreter.Machine.Return`: the result value of a function (`fnval`, `fnsval`) and its conversion are not carried.
- `Interpreter.Machine.CallFn`: the same; a call is a statement without a value here.
- `FrameList.Stack.ClrStack`: counts activations only; recovery of their names is in `Interpreter.Machine.Return`, release of strings is not modelled.
- `Lines.ReadFile`: lines arrive split into number and text; character handling, tabs and the length limit are not modelled.
- `FrameList.Stack.DropFns`: the release of saved entries and of function strings inside the loop is not part of this method.
- `BinTime.Bintime.Add`: seconds wrap in two's complement where C leaves signed overflow undefined.
- `MatMul.MatMulI`: flat buffers only; how `.` derives its shape from the stored dimensions is not modelled.
- SLIST, and the debugging hooks of the queue macros: they would only repeat the shapes of STAILQ and LIST.
- The keyword table and crunching of `compile` beyond the line number; string evaluation; FOR, GOSUB and WHILE commands; file and terminal commands.
- `libm` functions, and the real power behind `^`, which is a parameter.
- The subtraction branch of `bmat`, which tests a difference with the overflow test of a sum.
- Device polling, LEDs, baud rate hardware, cache flushes and the jump itself.
- Concurrency is at the level of instructions of the eight routines on one shared word; other memory traffic of the processors is not modelled.
