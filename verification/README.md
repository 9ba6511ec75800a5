# A verified model of the QRVMC example VM, mocked host, codecs and loader

QRVMC is an ABI between virtual machines and their hosts. This project models the parts of its repository that have
state, arithmetic or a protocol of their own, and proves what they keep on every input and over every run. `dafny
verify dfyconfig.toml` checks all of it.

**The example VM** (`Instructions`, `ExampleVm`, `ExampleVmLaws`, `ExampleVmMemory`, `StackAnalysis`,
`ExampleVmExpressions`, `ExampleVmPrograms`, `ExampleVmImp`). `ExampleVmImp` has the VM as it is written: a stack and
a memory updated in place, one method per instruction with side effects, and a loop over the code. It is proved to
compute the outcome of a transition function, `ExampleVm.Execute`, on which the laws are proved. The host is any
behaviour over any state: it may answer anything to a call and report any gas. The laws are exact conservation of gas,
discipline in the use of the host, the invariant of the memory, and the soundness of the instruction metrics table as
a static analysis: since the VM has no jumps, the table alone predicts the stack's height at each instruction of every
run. `ExampleVmExpressions` and `ExampleVmPrograms` say what the instructions mean together, with a semantics of their
own: the code of any expression, of the kind that the repository's own VM programs are written in, evaluates it, and
so do the programs that return it, revert with it, stop, store it, or pass it to a callee and return the reply.

**Call trees** (`CallTree`, `CallTreePrograms`). A host whose `call` runs the VM on the callee's code. The recursion
is given a bound on the number of levels; `TreeHostUnfolds` shows that the bound cannot be observed, because the VM's
check of the depth comes first. Over every tree, gas pays exactly for all the instructions of all its frames together
and for what failing frames forfeit; depths stay within the limit, and static mode is inherited and leaves the storage
alone.

**The mocked host** (`StorageStatus`, `MockedHost`, `RecordedCalls`). The clause tree that classifies a write is the
classification by four checks that its comment describes. What EIP-2200 charges by these statuses telescopes over any
interleaving of writes, and its refund counter stays non-negative exactly from the states that owe no refund. The
recorded calls are modelled with the buffers they point into: reallocation of the vector of inputs destroys every
buffer, so that the capacity it reserves is what keeps the pointers of the record alive.

**Words, hex and whitespace** (`Bits`, `Words`, `Hex`, `FilterIterators`). The 512-bit words with their loads,
word-wise comparisons and hash; the hex codec with its decoding loop as one body shared by all its instantiations; the
filtering iterator that it reads white-spaced input through.

**The loader** (`CStrings`, `LoaderNames`, `Loading`). The in-place tokenizer and name mangling over null-terminated
arrays, and the life cycle of a module and its VM: a log of the calls made to the system, to the module and to the VM,
each answered as the environment pleases, and an automaton of what is held after them.

Two properties fail, and the model follows the code:

- `access_account` is documented to answer warm for precompiled contracts and for accounts accessed before
  (include/qrvmc/mocked_host.hpp:501-512), but only the first 200 accesses are recorded. `AccessReportExact` says for
  which histories and accounts the answer is as documented, and `AccessReportFails` gives one that is answered cold.
- `call` keeps a copy of its message's input (include/qrvmc/mocked_host.hpp:427-452), but the first call after
  `recorded_calls` was cleared destroys the earlier copies before it reads that input. `CallRecorder.Call` says exactly
  when the input is read alive: unless the record is empty and the non-empty input is one of those copies.
  `ReplayAfterClearing` gives such a call: a recorded input passed on again after the record was cleared. Without
  such a call, `RecordAll` shows that every input is read alive over any sequence of calls, clears and copies.

For a function that only computes a value, the table names the lemma or method that states its property.

## Model

| member | source | states |
|---|---|---|
| Words.Load64beValue | include/qrvmc/qrvmc.hpp:110-116 | the shifts and ors of eight bytes load the number that they denote in big-endian order |
| Words.Load64leValue | include/qrvmc/qrvmc.hpp:118-124 | the little-endian load is the number of the reversed bytes |
| Words.EqualIsEquality | include/qrvmc/qrvmc.hpp:204-214 | equality by eight little-endian loads is equality of all 64 bytes |
| Words.LexIsNumeric | include/qrvmc/qrvmc.hpp:223-233 | for equally long byte strings, the byte-lexicographic order is the order of the numbers |
| Words.Less | include/qrvmc/qrvmc.hpp:222-233 | the loop over big-endian loads decides both orders of the 512-bit words, in both directions |
| Words.FromUint64Value | include/qrvmc/qrvmc.hpp:77-97 | the converting constructor makes a word that denotes the integer |
| Words.StepInjective | include/qrvmc/qrvmc.hpp:140-149 | each FNV step is injective modulo 2^64 in either argument |
| Words.StepAbsorbs | include/qrvmc/qrvmc.hpp:145-149 | a step combines the word by exclusive or before it multiplies |
| Bits.XorBits | include/qrvmc/qrvmc.hpp:148 | exclusive or, bit by bit |
| Bits.OrBits | include/qrvmc/qrvmc.hpp:110-124 | or, bit by bit |
| Words.HashNested | include/qrvmc/qrvmc.hpp:937-958 | the hash folds the eight words first to last from the offset basis |
| Words.HashOfZero | test/unittests/cpp_test.cpp:132-136 | the hash of zero is 0xa8c7f832281a39c5 |
| Words.HashSeparates | include/qrvmc/qrvmc.hpp:937-958 | two keys that differ in exactly one of their eight words never collide |
| Words.HashOfIntegersInjective | include/qrvmc/qrvmc.hpp:937-958 | hashing the words made of 64-bit integers is injective in the integers |
| Results.MakeResult | include/qrvmc/helpers.h:129-164 | a copy of the output with a release function and the given status and gas; for no output the same without it; FAILURE for a null pointer and OUT_OF_MEMORY when malloc fails, with every other field zero |
| ExampleVm.ToUint32 | examples/example_vm/example_vm.cpp:159-164 | the shifts and ors give the number of the last four bytes |
| ExampleVmLaws.GasConserved | examples/example_vm/example_vm.cpp:198-211 | for any host: a SUCCESS or REVERT run's gas is what it returns, one unit per instruction, and what each call was granted and did not give back; gas returned is between 0 and the message's; any other status returns 0; negative gas runs nothing |
| ExampleVmLaws.HostDiscipline | examples/example_vm/example_vm.cpp:287-311 | a run reaches the host's state only through recorded host methods, in order; it uses only its recipient's storage, writes nothing in static mode, and its calls are one level deeper within the limit, in the same mode and valueless if that is static, on its own behalf |
| ExampleVmLaws.CallLawful | examples/example_vm/example_vm.cpp:408-475 | a CALL uses the host at most once, as permitted, and pays the granted gas minus the clamped return, whatever the host reports |
| ExampleVmLaws.ExecLawful | examples/example_vm/example_vm.cpp:213-508 | so does every instruction, and one that ends the frame returns the frame's gas or none by its status |
| ExampleVmMemory.MemoryInvariant | examples/example_vm/example_vm.cpp:102-138 | from any point of a run to its end the memory never shrinks, its size is the largest end of any region expanded, and every byte beyond it is zero |
| ExampleVmMemory.ReachedTracks | examples/example_vm/example_vm.cpp:206-509 | the same invariant after every number of instructions of every run |
| ExampleVmMemory.StoredWrites | examples/example_vm/example_vm.cpp:125-137 | a store succeeds exactly when its region fits, and then writes the value there and nothing elsewhere |
| ExampleVmMemory.CallStoreSucceeds | examples/example_vm/example_vm.cpp:466-470 | the store whose return value CALL ignores never fails and never grows the memory |
| ExampleVmMemory.MsizeValue | examples/example_vm/example_vm.cpp:313-319 | wherever a run reaches MSIZE it pushes the largest end of any region expanded so far |
| ExampleVmMemory.AddIsModular | examples/example_vm/example_vm.cpp:221-235 | ADD computes the sum of the 512-bit operands modulo 2^32 |
| ExampleVmMemory.ImmediateValue | examples/example_vm/example_vm.cpp:385-396 | PUSH pushes the number of its immediate bytes, those beyond the end of the code counting as zeros |
| ExampleVmMemory.InputWordBytes | examples/example_vm/example_vm.cpp:251-258 | each byte of the word CALLDATALOAD pushes: that of the input if it is there, else zero |
| ExampleVmMemory.StaticFlag | examples/example_vm/example_vm.cpp:306 | a message is static exactly when the lowest bit of its flags is set |
| ExampleVmMemory.ToUint512Value | examples/example_vm/example_vm.cpp:140-149 | the word made of a 32-bit integer denotes it, and the truncation gives it back |
| ExampleVmMemory.ToUint32Value | examples/example_vm/example_vm.cpp:159-164 | the truncation is the word's number modulo 2^32 |
| ExampleVmExpressions.CodeEvaluates | examples/example_vm/example_vm.cpp:221-406 | for any host: the postfix code of any expression of PUSH1 to PUSH64, ADD, DUP1, ADDRESS, CALLDATALOAD, NUMBER, SLOAD and MSIZE, anywhere in any code, leaves its value on top of the stack and the memory as it was, for one unit of gas per instruction |
| ExampleVmPrograms.ReturnsValue | examples/example_vm/example_vm.cpp:274-507 | mstore(at, e) return(from, size), or revert, for any offsets and size: the region of a memory that is zero but for e's 64 bytes, with SUCCESS or REVERT and exactly the gas left over; FAILURE when a region is not within 1024 bytes; OUT_OF_GAS with less gas |
| ExampleVmPrograms.Stops | examples/example_vm/example_vm.cpp:218-219 | an expression, STOP and any code after it ends with SUCCESS, no output and exactly the gas left over |
| ExampleVmPrograms.StoresValue | examples/example_vm/example_vm.cpp:299-311 | with enough gas, the program that stores an expression under the key of another sets exactly that slot of its recipient to that value, or fails and sets nothing in static mode; with less it ends in OUT_OF_GAS |
| ExampleVmExpressions.CodeStarves | examples/example_vm/example_vm.cpp:206-211 | with less gas than one unit for each of its instructions, the code of an expression ends in OUT_OF_GAS, whatever the host |
| ExampleVmPrograms.PassesAndReturns | examples/example_vm/example_vm.cpp:408-475 | mstore(at, e) mstore(flagAt, call(gas, callee, value, i, n, o, m)) return(from, size) on any host: the callee receives the value, the granted gas, the next depth, the mode and the region (i, n) of the memory with e's bytes; the program returns its region of that memory with the output, as far as it and (o, m) go, and then the flag written to it, with exactly the gas left over |
| ExampleVmPrograms.CallRefused | examples/example_vm/example_vm.cpp:417-456 | the same program ends in CALL_DEPTH_EXCEEDED, STATIC_MODE_VIOLATION or FAILURE, in this order, without calling the host |
| ExampleVmPrograms.FlagWordValue | examples/example_vm/example_vm.cpp:464 | the word pushed for a call denotes 1 or 0 |
| CallTreePrograms.CallComposes | examples/example_vm/example_vm.cpp:408-475 | over a call tree, the caller of a program that returns or reverts with an expression's value gets exactly that program's result on what it passes |
| CallTreePrograms.ReturnResultParts | examples/example_vm/example_vm.cpp:477-507 | that result by status, gas and each byte of output, when memory and gas suffice; otherwise OUT_OF_GAS or FAILURE with no gas and no output |
| CallTreePrograms.FlagTells | examples/example_vm/example_vm.cpp:464-470 | a caller that returns the flag of its call returns a word that denotes 1 when the callee ended in SUCCESS and 0 otherwise |
| CallTreePrograms.StoresInTree | examples/example_vm/example_vm.cpp:287-311 | over a call tree, a program that stores an expression under a key leaves exactly that in its recipient's storage |
| CallTreePrograms.Counts | examples/example_vm/example_vm.cpp:221-311 | sstore(key, add(sload(key), 1)) adds one to the stored number modulo 2^32 |
| StackAnalysis.TableCoversVm | lib/instructions/instruction_metrics.c:36-293 | the table defines every instruction the VM implements, and takes no more items than it requires |
| StackAnalysis.ExecAgrees | examples/example_vm/example_vm.cpp:206-508 | an instruction is passed only with the table's required height, changing it by the table's change within the limit; a stack error is the one that the table predicts, and a predicted one happens unless CALL is refused earlier for its depth or mode |
| StackAnalysis.HeightsAreStatic | lib/instructions/instruction_metrics.c:36-293 | after any number of instructions of any run, the pcs are a prefix of the static decoding, the stack's height is the sum of the table's changes, and every instruction passed had its required height and kept the limit |
| StackAnalysis.VisitsDecoding | examples/example_vm/example_vm.cpp:206-396 | the pcs a run charges for are a prefix of a decoding that depends on the code alone |
| StackAnalysis.RunExplained | examples/example_vm/example_vm.cpp:206-511 | from any point of a run: a stack error happens only where and as the analysis says, and a run that arrives there ends there |
| StackAnalysis.AnalysisSound | lib/instructions/instruction_metrics.c:36-293 | code that the table accepts never ends in a stack underflow or overflow, for any host, message and gas; code that it rejects is never run past the instruction it names |
| StackAnalysis.RejectionRight | lib/instructions/instruction_metrics.c:36-293 | a rejected instruction is in the decoding, those before it go on and may pass by the table, and it may not: its required height is not met or the limit of 1024 is exceeded |
| CallTree.ServesAgree | examples/example_vm/example_vm.cpp:417-419 | serving a call is the same with any two bounds above the levels that the depth check leaves |
| CallTree.TreeHostUnfolds | examples/example_vm/example_vm.cpp:408-475 | every call that a frame makes is itself a whole call tree: the recursion terminates because of the depth check, and its bound is unobservable |
| CallTree.TreeGrows | examples/example_vm/example_vm.cpp:408-475 | over a whole call tree: no frame exceeds depth 1024 unless the root does; the root's gas minus its gas left is the number of instructions charged in all frames plus what the failing frames forfeit, so at least that number, and exactly it when every frame ends in SUCCESS or REVERT; a static root makes every frame static, every call valueless and the storage unchanged; only recipients of the tree's frames have their storage changed |
| ExampleVmImp.Stack.Push | examples/example_vm/example_vm.cpp:90-99 | the contents get the value on top, or stay the same and false is returned at 1024 items |
| ExampleVmImp.Stack.Pop | examples/example_vm/example_vm.cpp:80-88 | the contents lose their top, which is returned, or false is returned when there is none |
| ExampleVmImp.Memory.Expand | examples/example_vm/example_vm.cpp:113-123 | the region is admitted exactly when it fits 1024 bytes, without wrap-around, and the size then covers it |
| ExampleVmImp.Memory.Store | examples/example_vm/example_vm.cpp:125-137 | the in-place copy computes the specified store |
| ExampleVmImp.AllBytesZero | examples/example_vm/example_vm.cpp:174-181 | the loop decides whether the word is zero |
| ExampleVmImp.CallDataLoad | examples/example_vm/example_vm.cpp:245-263 | the offset is replaced by the 64 input bytes from it on, zero-padded on the right |
| ExampleVmImp.StoreWord | examples/example_vm/example_vm.cpp:274-285 | MSTORE on the stack and the memory in place computes the specified store or failure |
| ExampleVmImp.CallOperands | examples/example_vm/example_vm.cpp:410-456 | CALL refuses with the specified status in the specified order, or takes its seven operands and expands both regions |
| ExampleVmImp.MakeCall | examples/example_vm/example_vm.cpp:408-475 | CALL in place computes the specified transition: gas, stack, memory and the host's state |
| ExampleVmImp.PushImmediate | examples/example_vm/example_vm.cpp:385-396 | PUSH in place pushes the specified immediate |
| ExampleVmImp.Return | examples/example_vm/example_vm.cpp:477-507 | RETURN and REVERT give the specified result with the memory region as output |
| ExampleVmImp.Instruction | examples/example_vm/example_vm.cpp:213-508 | each instruction in place computes the specified transition or result |
| ExampleVmImp.Execute | examples/example_vm/example_vm.cpp:185-512 | the whole loop returns the result and leaves the host's state that the transition function defines |
| StorageStatus.ClauseTree | include/qrvmc/mocked_host.hpp:235-359 | the clause tree with the word-wise operators is the classification by four checks, for all original, current and new values; its assertions hold and its default case is unreachable |
| StorageStatus.ImpossibleChecksums | docs/QRVM_Storage_Change_Status.md:190-321 | the combinations of checks that the documentation calls impossible are |
| StorageStatus.StatusCarriesCost | docs/QRVM_Storage_Change_Status.md:6-187 | the gas and refund columns of each status are what the specification's clauses charge and refund |
| StorageStatus.NetCostOfWrite | include/qrvmc/mocked_host.hpp:231-362 | gas minus refund of a write is SLOAD_GAS plus the change of a potential of the slot |
| MockedHost.Host.SetStorage | include/qrvmc/mocked_host.hpp:220-363 | only the slot's current value changes; the status is that of the change, ADDED for a missing slot and a non-zero value and ASSIGNED for zero; the access is recorded |
| MockedHost.WriteExactly | include/qrvmc/mocked_host.hpp:225-231 | the accounts after a write, by every key: a missing account and slot are created with the value zero before, and nothing but the slot's current value changes of any other |
| MockedHost.Host.GetStorage | include/qrvmc/mocked_host.hpp:205-218 | the slot's current value, zero when the account or the slot is missing; no account is created |
| MockedHost.Host.AccessAccount | include/qrvmc/mocked_host.hpp:513-528 | warm exactly for the numbers 1 to 9 and for the addresses recorded of all the accesses before, whichever methods made them |
| MockedHost.Host.SetBalance | include/qrvmc/mocked_host.hpp:65-71 | the account's balance becomes the word that denotes the number, and nothing else changes |
| MockedHost.CostTelescopes | include/qrvmc/mocked_host.hpp:231-362 | for any sequence of writes to any slots, what those to one slot cost is SLOAD_GAS each plus the change of a potential of its original and current values |
| MockedHost.RestoringCostsAccessOnly | include/qrvmc/mocked_host.hpp:231-362 | writes that leave a clean slot with its original value cost exactly SLOAD_GAS each, however they went |
| MockedHost.RefundsCoverCleared | include/qrvmc/mocked_host.hpp:265-361 | the counter grows at least by SSTORE_CLEARS_SCHEDULE for every slot cleared more than at the start |
| MockedHost.RefundsNonNegative | include/qrvmc/mocked_host.hpp:265-361 | the counter stays non-negative after every sequence of writes if and only if no slot starts cleared with a non-zero original value, or clearing refunds nothing |
| MockedHost.NewHostNeverNegative | include/qrvmc/mocked_host.hpp:265-361 | the counter of a host created without accounts is never negative |
| MockedHost.AccessReportExact | include/qrvmc/mocked_host.hpp:501-528 | the answer after any history is the documented one if and only if the account is precompiled or its first access, if any, is not later than the 200th of all |
| MockedHost.AccessReportFails | include/qrvmc/mocked_host.hpp:501-528 | a history after which an accessed account that is not precompiled is answered cold |
| RecordedCalls.CallRecorder.Call | include/qrvmc/mocked_host.hpp:425-453 | the message's input is read alive if and only if the record is not empty, the input is empty, or it is none of the store's buffers, which the first call destroys; then up to 100 calls are recorded with the bytes passed at the time, in live buffers of the store that no later call destroys or changes; no pointer into the caller's buffer is kept |
| RecordedCalls.RecordAll | include/qrvmc/mocked_host.hpp:88-119 | over any sequence of calls with the user's messages or recorded ones, full clears and copies of the host, every input is read alive, and every recorded message has a live buffer of the store with the bytes passed when it was recorded, for all calls since the last clear up to 100 |
| RecordedCalls.Act | include/qrvmc/mocked_host.hpp:425-453 | each such action keeps that, and adds, keeps or drops exactly the bytes it should |
| RecordedCalls.ReplayAfterClearing | include/qrvmc/mocked_host.hpp:429-451 | a recorded input, or any part of it, passed on again after clearing the record, is read from a destroyed buffer |
| RecordedCalls.CallRecorder.Copy | include/qrvmc/mocked_host.hpp:80-119 | the copy records the same contents in its own buffers only, with the capacity to record on; pointers to other buffers are left alone |
| RecordedCalls.CallRecorder.RepointCalls | include/qrvmc/mocked_host.hpp:104-118 | the nested loops replace each pointer into the source's store by that to the same position of the copy's, and no other |
| RecordedCalls.CallRecorder.ClearRecordedCalls | include/qrvmc/mocked_host.hpp:429-434 | clearing the record keeps the invariant for the next call |
| FilterIterators.FilterIterator.constructor | include/qrvmc/filter_iterator.hpp:66-71 | the iterator starts with the whole filtered range remaining |
| FilterIterators.FilterIterator.Increment | include/qrvmc/filter_iterator.hpp:81-87 | what remained was the cached element and then what remains; every base position up to the current one was read once, in order |
| FilterIterators.Drain | include/qrvmc/filter_iterator.hpp:56-101 | a full pass yields exactly the order-preserving filter of the range and reads each position once |
| FilterIterators.FilterSound | include/qrvmc/filter_iterator.hpp:23-31 | the filter retains exactly elements that satisfy the predicate and all of them |
| FilterIterators.IsSpaceExactly | include/qrvmc/filter_iterator.hpp:10-15 | the wrapping subtraction accepts exactly the six white space characters |
| Hex.HexOf | include/qrvmc/hex.hpp:28-36 | the loop computes the encoding byte by byte |
| Hex.NextChar | include/qrvmc/hex.hpp:66-83 | one turn of the decoding loop keeps its invariant against the specification, or the decoding fails with the output so far |
| Hex.FromHex | include/qrvmc/hex.hpp:140-147 | succeeds exactly on hex strings, with the bytes that their digit pairs denote; on others writes those of the leading digits |
| Hex.FromHexInto | include/qrvmc/hex.hpp:55-86 | writes at most half the input's length, within the array and nothing outside, also on failing inputs |
| Hex.FromSpacedHex | include/qrvmc/hex.hpp:178-197 | decodes the input with the white space removed |
| Hex.ValidateHex | include/qrvmc/hex.hpp:88-101 | true exactly when decoding succeeds |
| Hex.FromHexTyped | include/qrvmc/hex.hpp:149-176 | succeeds exactly when untyped decoding gives at most n bytes, and gives these with zeros on the left |
| Hex.FromPrefixedHex | include/qrvmc/hex.hpp:103-133 | succeeds on the empty string and on the prefix with an even number of digits for at most n bytes, without a second prefix, and gives the bytes with zeros on the left |
| Hex.DecodeEncode | include/qrvmc/hex.hpp:28-36 | decoding inverts encoding of all byte strings, with and without "0x" |
| Hex.EncodeDecode | include/qrvmc/hex.hpp:135-147 | exactly the even-length digit strings after at most one "0x" are accepted; re-encoding gives the lower-cased digits; the output is half their length |
| Hex.DigitsExactly | include/qrvmc/hex.hpp:40-52 | the digits are exactly the characters 0-9, a-f and A-F |
| Hex.DigitValues | include/qrvmc/hex.hpp:40-52 | the values of the digits are their positions, in either case |
| Hex.PairsValue | include/qrvmc/hex.hpp:64-86 | the decoded bytes denote the number that the digits denote |
| Hex.DecodeIgnoresCase | include/qrvmc/hex.hpp:135-147 | every string that is the encoding of some bytes but for the case of its digits decodes to them, with and without "0x" |
| Hex.TypedDecodeEncode | include/qrvmc/hex.hpp:103-176 | the typed and the prefixed decoding invert encoding of up to n bytes, for any prefix, up to zeros on the left |
| CStrings.StrCpySx | lib/loader/loader.c:57-79 | copies the string exactly when it fits with its null, else leaves the empty string; nothing beyond the destination's size changes |
| CStrings.GetToken | lib/loader/loader.c:274-295 | cuts the string at its first delimiter in place: the token is where the string was and the rest where the pointer slides to; nothing else changes |
| LoaderNames.NameStart | lib/loader/loader.c:159-167 | the search finds the name after the last slash |
| LoaderNames.TrimExtensions | lib/loader/loader.c:178-181 | the prefixed name is cut at the first dot of the base name |
| LoaderNames.ReplaceDashes | lib/loader/loader.c:183-186 | the loop replaces every dash of the base name and nothing else |
| LoaderNames.CreateFunctionName | lib/loader/loader.c:153-186 | the buffer holds the prefix and the file name after the last slash, less one "lib", up to its first dot, with '_' for '-'; nothing overflows or is truncated |
| LoaderNames.BaseNameClean | lib/loader/loader.c:159-186 | no slash, dot or dash is left in the base name |
| LoaderNames.SymbolOf | lib/loader/loader.c:153-186 | for any directory, name and extensions: the symbol is "qrvmc_create_" and the name with '_' for '-'; one "lib" before the name makes no difference, and only one is dropped |
| LoaderNames.SettingsAreParts | lib/loader/loader.c:327-363 | the loop sees the comma-separated parts, with one trailing empty part dropped, each cut at its first '=' |
| LoaderNames.ParseWritten | include/qrvmc/loader.h:129-141 | parsing a written path and list of options, each with or without "=" if its value is empty, gives back the path and exactly that list, in order; only an empty name alone at the end is not told |
| Loading.WrittenConfigured | include/qrvmc/loader.h:122-148 | a configuration written from a path and options that is loaded opens that path and gives the VM exactly those options in order, all on success and else up to the first that it rejects |
| Loading.NextOption | lib/loader/loader.c:336-340 | the two cuts in place give the option's name and value and leave the other options |
| Loading.Loader.LoadInternal | lib/loader/loader.c:112-207 | the calls made to the system are exactly those of the outcome: the mangled symbol before the generic one, and a module without either closed; a success leaves no error message |
| Loading.Loader.FindCreateFn | lib/loader/loader.c:153-192 | the first look-up is of "qrvmc_create_" and the base name, and only if it finds nothing there is a second one, of "qrvmc_create" |
| Loading.Loader.LoadAndCreateInternal | lib/loader/loader.c:224-266 | a VM is returned exactly on SUCCESS, with this ABI version and its module open; otherwise the VM is destroyed and the module closed, in this order and once |
| Loading.Loader.ApplyOptions | lib/loader/loader.c:327-363 | set_option sees the settings in order up to the first that the VM rejects, whose result gives INVALID_OPTION_NAME or INVALID_OPTION_VALUE; a VM without set_option rejects any |
| Loading.Loader.LoadAndConfigure | lib/loader/loader.c:297-379 | a VM is returned exactly on SUCCESS, when it is held with its module; on every other path nothing is held at the end and nothing was used after it was given back; the path opened and the settings tried are those of the configuration; each error has its one cause |

## Left out

- Gas costs of the metrics table: the VM charges one unit per instruction, so only the stack columns are modelled.
- Message kind, create2 salt and the release function of a call's result: the VM does not look at the first two and calls the last one without effect on its own state.
- Code of 2^64 bytes or nearly so, on which the program counter of type size_t could wrap around: pc is unbounded.
- Verbosity and the options of the example VM: printing and strtol.
- Account state besides storage in call trees: value transfer and the rollback of failing calls, which the repository leaves to its clients; so a failing frame's storage writes stay in the model too.
- The result that MockedHost::call returns and its optional storage: copied from a field that only the user sets; its recording of the recipient's access: `Host.RecordAccountAccess` has it.
- The mocked host's remaining getters, its logs and block hashes and the access status of storage slots: plain field accesses.
- One class for the mocked host: the accounts (`MockedHost.Host`) and the recorded calls (`RecordedCalls.CallRecorder`) are two, since they share no field.
- RecordedCalls.CallRecorder.Call: covers users who clear recorded_calls as a whole, not those who remove some entries or put in their own, and what is read from a destroyed buffer, or recorded of it, is left open.
- Moving a mocked host: it takes over the buffers with the record.
- MockedHost.RefundsNonNegative: requires a schedule in which SLOAD_GAS does not exceed the other costs and clearing refunds nothing negative, as in both published ones (`PublishedSchedulesReasonable`).
- ExampleVmPrograms.PassesAndReturns: covers runs with enough gas to reach the call; the earlier part is that of the programs without calls.
- ExampleVmExpressions.CodeEvaluates: covers expressions that fit the stack, as do the results about programs; on others the analysis of the table predicts the overflow.
- size_t of less than 64 bits, to which the hash would be truncated.
- Words.Less: the comparisons of addresses (include/qrvmc/qrvmc.hpp:154-202) have the same bodies; the other three comparisons are negations or swaps of this one.
- Characters are code points: a negative char, which isspace and the hex digits reject as well, has none.
- Hex.NextChar: the template over iterators is modelled by its turn of the loop, and by a loop for each kind of input and output that the repository instantiates.
- Linking of real modules, the Windows path separator and the text of error messages: opening, looking up, creating and setting options are answers of the environment, and of the message only whether it is set.
- The error_code pointer being null: the code is always returned.
- qrvmc_last_error_msg, qrvmc_load and qrvmc_load_and_create: one line each around what is modelled.
- The example host, the precompiles VM, the tooling library, the command line tools and vmtester.
