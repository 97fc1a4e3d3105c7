# A verified model of ztour

ztour hooks functions of a running x86-64 program. Creating a hook copies the first
instructions of the target to a page nearby, relocates them, and puts two jumps behind
them; installing it overwrites the target's first bytes with a jump to that page;
uninstalling it puts the saved bytes back and waits until no detour is active. This project
models the 64-bit library and proves what it does, in four parts.

**The machine and the code transformation.** `X86` is a small x86-64: a decoder and a step
function for the instructions that function heads, trampolines and the counter stub consist
of (push, pop, nop, `sub rsp`, RIP-relative load, store, store-immediate and `lea`,
`jmp [rip+d]`, short and near `jmp`, `mov r64, imm64`, `lock inc/dec [rax]`, pushfq, popfq).
`Encodings` reads the decoder the other way: each instruction's bytes, and nothing else that decodes.
What an ALU instruction does to RFLAGS is a parameter, so the theorems hold for every flag
behaviour. `Relocation` models `relocate_code`: when it succeeds, what the moved code means,
and that moving code on, or back, is as if it had never been moved. `Trampolines` proves by
simulation that running the relocated head is running the original one. `Encoders` and
`CounterStubs` execute the emitted jumps and the counter stub.

**The life of hooks.** `HookModel` gives the effect of every call as a function on a world of
memory, free pages and hooks; `HookRuns` proves for every run of calls, including calls that
throw, that the memory is the memory without hooks overlaid by exactly the installed patches;
`HookOverlaps` shows that this holds for hooks that patch different bytes and for no others.
`HookBehaviour` says what it means for the running program, and `HookStacks` what happens when
a hooked function is hooked again; `HookExamples` has processes in which these situations
occur. `HookOutcomes` says exactly when each call succeeds, and what each exception means.
`HookObjects` has the classes of the library (`Inner`, `HookInst`, the registry), whose methods
are proved to have those effects. `Pages` is the search for a page near the target and the page
itself, and `PageDistances` lists the distances at which it looks.

**Concurrency.** `Gates` is `AtomicCallGate`, the threads that call the hooked function
(recursively if they like) and an uninstalling thread, as a system of atomic steps under any
scheduler. Between taking the patched jump and `on_enter_call`, between decrementing the counter
and notifying, and from there to the return from the detour, a thread is at program points of
its own. `GateRuns` shows that recursion to any depth and a sleeping uninstall do happen.

**Pattern scanning.** `Scans` compares the scan that hops with `memchr` to the naive one;
`Patterns` models the hex printer and the pattern reader, and `PatternSpellings` says which
strings are read as which pattern.

`dafny verify dfyconfig.toml` checks the project.

## Where the code and its documentation differ

The model follows the code.

- `README.md:55` of ztour calls hook removal "guaranteed-safe", so that a module can be unloaded
  after it. `Gates.UninstallSafeExactlyWhen` says when it is: if and only if no thread was anywhere
  in the hook when the bytes were restored; waiting for the counter does not make up for one.
  In the hook means from the patched jump to the return from the detour, the guard's destructor and
  what comes after it included. `Gates.SafeExactlyWhenEverybodyIsOut` gives the condition at the
  instant the counter is seen zero, and `Gates.SafeExactlyWhenNobodyJumped` when no thread holds a
  guard afterwards. `Gates.ReturnedWhileInsideDetour`, `Gates.ReturnedBeforeNotification` and
  `Gates.ReturnedBeforeReturning` are runs that reach the three windows.
- `README.md:57` promises relocation of RIP-relative instructions. The cases for relative
  immediates (`src/relocation.cpp:59-71`) have no `break` and always end in a throw:
  `Relocation.BranchesAreNeverMoved`, and in general `Relocation.SucceedsExactlyWhen`.
- `src/memory.h:17` says that the page is as close to the address as possible. Distances
  beyond 100 pages are not all probed: `Pages.SkipsPage101`, and exactly when the page is a
  nearest one, `Pages.FindsNearestExactlyWhenProbed`.
- `signed_pattern_scan_region` can report one match that is not inside the region
  (`src/memory.cpp:368`): `Scans.ReportsMatchAcrossTheEnd`, and exactly when, `Scans.AllInsideExactlyWhen`.
- Hooks on the same bytes do not uninstall independently: `HookOverlaps.TwoHooksOnOneFunction`.
  The run theorems ask that hooks patch different bytes, and `HookOverlaps.OverlayKeptExactlyWhenApart`
  shows that nothing less will do.
- `change_target_func` resolves the hook's detour again, which changes it when a jump stands there
  (`HookExamples.DetourMoves`) or another hook has been installed there
  (`HookExamples.HookedDetourHappens`); exactly when, `HookBehaviour.DetourStaysExactlyWhen`.

## Model

| member | source | states |
|---|---|---|
| Words.ReadsBackWhatWasWritten | src/encoder.h:8-14 | the bytes of an object representation determine the value they were taken from |
| Words.LowestByteFirst | src/encoder.h:8-14 | the lowest byte of the value stands first |
| Relocation.RelocateImmediate | src/relocation.cpp:59-71 | the switch without breaks always throws: a displacement that does not fit 8 bits is reported for the widest size, up to the width, that it does not fit; otherwise the last throw |
| Relocation.OneErrorForImmediate | src/relocation.cpp:59-71 | that leaves exactly one error for every width and displacement |
| Relocation.RelocateOperands | src/relocation.cpp:32-74 | the loop over the operands rewrites the displacement of a RIP-relative one, or throws, and throws for a relative immediate |
| Relocation.RelocateCode | src/relocation.cpp:12-80 | the decode loop relocates the whole head as the recursive specification does, errors included |
| Relocation.SucceedsExactlyWhen | src/relocation.cpp:23-74 | relocation to another address succeeds if and only if all code decodes, no relative branch occurs and every new displacement fits 32 bits |
| Relocation.MovableExactlyWhen | src/relocation.cpp:37-47 | an instruction is in reach of its new place if and only if some 32-bit displacement leads to the old target |
| Relocation.ThrowsExactlyWhen | src/relocation.cpp:12-74 | each exception is thrown if and only if all instructions before some point can be moved and the one there does not decode, has its operand out of reach, with that displacement reported, or is a relative branch |
| Relocation.BranchesAreNeverMoved | src/relocation.cpp:59-71 | code that holds a relative branch anywhere is not relocated, to no other address |
| Relocation.ShortJumpIsNeverMoved | src/relocation.cpp:59-71 | a function that starts with a short jump over nothing, moved by one byte, throws at the default case |
| Relocation.KeepsMeaning | src/relocation.cpp:31-76 | same instructions at the same offsets with the same absolute operand addresses, and only displacement bytes differ |
| Relocation.MovesOn | src/relocation.cpp:37-51 | relocating relocated code equals relocating the original there directly, result or error |
| Relocation.MovesBack | src/relocation.cpp:37-51 | relocating there and back gives the original bytes |
| Relocation.ExactUnlessOverflow | src/relocation.cpp:39-42 | the new displacement is the difference of the two `int64_t` if and only if that difference does not overflow, as below 2^63 |
| Encoders.Encoder.AddRaw | src/encoder.h:8-14 | appends the little-endian bytes of the value |
| Encoders.Encoder.EncodePureJmp | src/encoder.cpp:21-31 | appends the indirect jump and the address behind it |
| Encoders.Encoder.EncodeRelJmp | src/encoder.cpp:33-45 | throws exactly when the distance does not fit 32 bits, and then appends nothing |
| Encoders.Encoder.EncodeIncDecAtomicCounter | src/encoder.cpp:47-79 | throws exactly on a null counter; otherwise appends the stub |
| Encoders.PureJmpJumps | src/encoder.cpp:21-24 | executed from any state, the emitted jump reaches its address and changes only RIP |
| Encoders.RelJmpJumps | src/encoder.cpp:33-45 | executed where it was encoded for, the relative jump reaches its target and changes only RIP |
| Encoders.RelJmpExactlyWhen | src/encoder.cpp:33-45 | a relative jump can be encoded if and only if some 32-bit distance leads to its target |
| Encoders.ResolvesEncodedJump | src/memory.cpp:237-251 | resolving a pointer to an encoded relative jump gives the jump's target |
| CounterStubs.StubDecodes | src/encoder.cpp:51-76 | the stub's bytes decode to the six intended instructions |
| CounterStubs.StubCounts | src/encoder.cpp:47-79 | executed, the stub adds or takes one modulo 2^64 and restores registers, flags and all other memory |
| Trampolines.MovedInstructionSimulates | src/relocation.cpp:36-53 | a moved instruction has the effect of the original on registers, flags and memory |
| Trampolines.HeadSimulates | src/hook_inst_inner.cpp:43-47 | the relocated head runs in lock step with the original head |
| Trampolines.CallOriginalSimulates | src/hook_inst_inner.cpp:43-53 | relocated head and jump back leave where the original head leaves, in the same state |
| Trampolines.PatchedFunctionEntersDetour | src/hook_inst_inner.cpp:55-62 | patch and entrance trampoline reach the detour in two instructions |
| Pages.Process.TryBothSides | src/memory.cpp:159-175 | one distance gets the page below, else the page above, without wrapping around |
| Pages.Process.AllocPageNear | src/memory.cpp:147-187 | the page of the first successful probe, page-aligned, or a throw exactly when no probe below 1 GB succeeds; no other page is taken; every request to the system is page-aligned |
| Pages.ProbesAreAligned | src/memory.cpp:153-176 | both addresses of every probe are multiples of the page size |
| Pages.StepIsMultiple | src/memory.cpp:178-182 | every step is a whole number of pages, so the assertion on it never fails |
| Pages.FindsNearestExactlyWhenProbed | src/memory.cpp:158-183 | the page found is a nearest one if and only if the nearest distance is probed; ties go below |
| Pages.FindsNearestWithinHundredPages | src/memory.cpp:177-182 | a nearest free page at most 100 pages away is found |
| Pages.SkipsPage101 | src/memory.cpp:177-182 | with only the page 101 pages above the base free, the search throws |
| PageDistances.ProbedExactlyWhen | src/memory.cpp:156-183 | the distances probed are those below 1,000,000,000 bytes that are every page up to 100, every second up to 300, every fourth up to 700, and so on, from 12700 on every hundredth |
| PageDistances.SearchFindsExactly | src/memory.cpp:147-187 | the search succeeds if and only if a usable page lies at such a distance, and returns the nearest of those, ties going below |
| PageDistances.LonePageExactlyWhen | src/memory.cpp:147-187 | a lone free page is found if and only if it lies at such a distance |
| Pages.FoundIsNear | src/memory.cpp:156-176 | a page that was found is usable and less than 1 GB from the target's page |
| Pages.NearIsReachable | src/encoder.cpp:33-45 | from the target, a relative jump to the first 256 bytes of such a page can be encoded |
| Pages.MemPage.WriteBytes | src/mem_page.cpp:24-32 | writes behind what was written, or throws exactly when the bytes do not fit |
| HookModel.PatchLengthIsLeast | src/hook_inst_inner.cpp:33-38 | the patch ends at the least instruction boundary not below five, within 5 to 19, and the copy decodes to the very instructions that stand at the same offsets in the live function |
| HookOutcomes.PatchLengthExactlyWhen | src/hook_inst_inner.cpp:33-38 | a patch length is found if and only if that many bytes, at least five, are whole instructions the last of which starts before the fifth byte |
| HookOutcomes.BuildOutcome | src/hook_inst_inner.cpp:8-53 | a hook can be built if and only if it has a name, a detour and, unless it has no target, a page and a head that can stand there; each exception has its cause |
| HookOutcomes.BuiltIs | src/hook_inst_inner.cpp:15-66 | what is built: both pointers resolved, the head's own bytes, and both trampolines in the page |
| HookOutcomes.CreateOutcome | src/hook_inst.cpp:54-66 | creating succeeds if and only if the hook can be built and its name is new; which exception otherwise, and what it leaves unchanged |
| HookOutcomes.RetargetOutcome | src/hook_inst.cpp:34-40 | retargeting throws if and only if the hook is installed or cannot be built, and then changes no hook and no byte |
| HookOutcomes.InstallOutcome | src/hook_inst_inner.cpp:71-101 | install throws if and only if the hook is installed or has no target, and then changes nothing; else exactly the patch is written |
| HookOutcomes.UninstallOutcome | src/hook_inst_inner.cpp:103-122 | uninstall throws if and only if the hook is not installed, and then changes nothing; else exactly the saved bytes are written |
| HookOutcomes.SecondTimeThrows | src/hook_inst_inner.cpp:74-78 | the same in every world that a run of calls reaches |
| HookOutcomes.PatchIsJumpAndNops | src/hook_inst_inner.cpp:80-94 | the patch is one relative jump to the entrance jump and then only nops |
| HookRuns.SetOneThrows | src/hook_inst_inner.cpp:71-83 | in every reachable world install throws only for a missing target, never for the distance |
| HookRuns.NeverOutOfReach | src/hook_inst_inner.cpp:80-89 | over every run whose pages come from the search, no call throws for the distance or for a patch that is too small |
| HookRuns.BuildKeepsInv | src/hook_inst_inner.cpp:8-67 | building a hook in a page from the allocator disturbs no other hook and yields a sound one |
| HookRuns.PerformKeepsInv | src/hook_inst.cpp:26-66 | every call, throwing or not, keeps the overlay invariant |
| HookRuns.AllocatedPageIsAdmissible | src/hook_inst_inner.cpp:29 | a page from the search is as the run theorems ask, for a new hook and for change_target_func: nothing is left to ask but that the target is code that no other hook patches |
| HookRuns.OverlayIsUnique | src/hook_inst_inner.cpp:85-114 | base memory and installed hooks determine every byte of the memory |
| HookRuns.MemoryIsOverlaid | src/hook_inst_inner.cpp:71-122 | after any run the code memory is the initial one overlaid by exactly the installed patches, and names are distinct |
| HookRuns.SetAllResult | src/ztour.cpp:7-29 | install_all throws exactly at the first uninstalled hook without target, with exactly the earlier ones installed; else all are set; the count is the number of hooks changed |
| HookRuns.UninstallingAllRestores | src/ztour.cpp:27-29 | after any run, uninstalling all never throws and restores the initial code byte for byte |
| HookOverlaps.OverlayKeptExactlyWhenApart | src/hook_inst_inner.cpp:71-122 | all runs of installing and uninstalling calls keep the overlay if and only if no two hooks patch a common byte |
| HookOverlaps.OverlapLosesPatch | src/hook_inst_inner.cpp:103-112 | of two hooks, the second of which starts inside the patch of the first: after installing both and uninstalling the first, the second counts as installed and its jump is gone |
| HookOverlaps.TwoHooksOnOneFunction | src/hook_inst.cpp:54-66 | a run that creates two hooks on one function, in pages from the search, and ends with one installed and its patch gone |
| HookExamples.TwoHooksHappen | src/hook_inst.cpp:54-66 | the same as a concrete run, from a process without hooks and with two free pages |
| HookBehaviour.HookedCallEntersDetour | src/hook_inst_inner.cpp:55-99 | if no installed hook changes the entrance jump, a call of an installed hook's target is at the detour two instructions later with only RIP changed |
| HookBehaviour.CallEntersDetourExactlyWhen | src/hook_inst_inner.cpp:55-99 | it is there if and only if no installed hook changes the entrance jump, or the hook on it has its entrance at the detour |
| HookBehaviour.StackedCallEntersTopDetour | src/hook_inst_inner.cpp:55-99 | with hooks stacked to any height, a call of the lowest target enters the detour of the topmost, one instruction later for each |
| HookBehaviour.StackedOriginalIsLowerDetour | src/hook_inst_inner.cpp:43-53 | call_original of a stacked hook is the detour of the hook below it |
| HookBehaviour.HookedTargetResolves | src/memory.cpp:237-251 | in every reachable world resolving an installed hook's target gives its entrance trampoline |
| HookBehaviour.CallOriginalIsTheOriginal | src/hook_inst_inner.cpp:43-66 | call_original behaves as the target does in the program without patches, if nobody patches the hook's copy of the head and the head touches no patched byte; hooks may be stacked on it |
| HookBehaviour.CallOriginalOfPushes | src/hook_inst_inner.cpp:43-66 | for functions that start with pushes it is enough that the stack is apart from hooked code |
| HookBehaviour.DetourStaysExactlyWhen | src/hook_inst.cpp:38-39 | change_target_func leaves the detour alone if and only if no relative jump, or one to itself, stands there at that moment |
| HookBehaviour.HookedDetourIsReplaced | src/hook_inst_inner.cpp:15-16 | if another hook has been installed on the detour, change_target_func replaces it by that hook's entrance, which is another address |
| HookExamples.DetourMoves | src/hook_inst.cpp:38-39 | a run of two calls after which the detour has moved on along a chain of jumps |
| HookExamples.HookedDetourHappens | src/hook_inst.cpp:38-39 | a run after which change_target_func replaces the detour by another hook's entrance |
| HookStacks.StackingIsAdmissible | src/hook_inst_inner.cpp:15-47 | a second hook on a hooked function can be created whenever a page is found; it saves the six bytes of the first hook's entrance jump and is as the run theorems ask |
| HookStacks.SecondHookTakesOver | src/hook_inst.cpp:54-66 | created and installed, it gets every call in three instructions, and its call_original is the first detour |
| HookExamples.StackingHappens | src/hook_inst_inner.cpp:15-29 | a concrete run after which the conditions for a second hook on the installed first one hold |
| HookObjects.Inner.PatchLength | src/hook_inst_inner.cpp:33-37 | the loop over the live target finds the specified patch length, or throws on bytes that do not decode |
| HookObjects.Inner.WriteCode | src/hook_inst_inner.cpp:47-61 | the three writes succeed and leave both trampolines in the page |
| HookObjects.Inner.Make | src/hook_inst_inner.cpp:8-67 | the constructor builds the specified hook and memory and sets the output pointer, or throws leaving both alone |
| HookObjects.Inner.Install | src/hook_inst_inner.cpp:71-101 | patches the target and marks the hook, or throws without a change |
| HookObjects.Inner.Uninstall | src/hook_inst_inner.cpp:103-122 | restores the saved bytes and unmarks the hook, or throws without a change |
| HookObjects.HookInst.ChangeTargetFunc | src/hook_inst.cpp:34-40 | throws while installed; otherwise replaces the inner hook, in a page from the search, or keeps it if building throws |
| HookObjects.Registry.ChangeTarget | src/hook_inst.cpp:34-40 | retargeting one hook of the registry has the specified effect and touches no other hook |
| HookObjects.Registry.Create | src/hook_inst.cpp:54-66 | a taken name throws only after the hook was built, and the output pointer is set even then; otherwise the hook is appended |
| HookObjects.Registry.SetAllHooksInstalled | src/ztour.cpp:7-21 | the loop over the registry has exactly the specified effect, exception and count |
| HookObjects.Registry.FindHookInst | src/ztour.cpp:31-37 | returns a hook of that name, or null exactly when there is none |
| Gates.Reachable | src/atomic_call_gate.h:14-33 | in every reachable state the counter is the number of live guards, never underflows, and no wakeup is lost |
| GateRuns.CanAlwaysEnter | src/atomic_call_gate.h:14-16 | at any moment of any run in which the hook is installed, a running thread can call it and enter, whatever guards it has |
| GateRuns.CanAlwaysLeave | src/atomic_call_gate.h:18-24 | at any moment a running thread can give up a guard that is not the last one, and goes on |
| GateRuns.EveryDepthIsReached | include/ztour/hook_inst.h:64-73 | every combination of call depths of all threads is reached by some run |
| GateRuns.RecursionAtEveryDepth | include/ztour/hook_inst.h:64-73 | some run leads a thread into any number of nested calls, and on out of all of them |
| GateRuns.UninstallSleepsAndReturns | src/atomic_call_gate.h:27-33 | from every combination of depths uninstall can fall asleep, is woken by the last thread that leaves, and returns with nobody in the hook |
| GateRuns.SpuriousWakeupIsHarmless | src/atomic_call_gate.h:27-33 | a spurious wakeup while calls are active leads back to sleep |
| GateRuns.ThreadStandsExactlyWhen | src/atomic_call_gate.h:18-24 | a thread cannot move if and only if it is out of a hook that is not installed, or waits for a held mutex |
| Gates.NeverStuck | src/atomic_call_gate.h:18-33 | in every reachable state in which uninstall is under way something can happen, without spurious wakeups |
| Gates.UninstallTerminates | src/hook_inst_inner.cpp:115-121 | from every such state, every schedule has a bounded number of steps, spurious wakeups apart, before uninstall has returned |
| Gates.HeldGuardBlocks | src/atomic_call_gate.h:27-33 | while a guard is not given up, be it the uninstalling thread's own, uninstall does not return |
| Gates.UninstallReturns | src/hook_inst_inner.cpp:115-119 | with no guard live or on its way, every schedule lets uninstall return within a bounded number of steps, spurious wakeups included |
| Gates.UninstallSafety | src/hook_inst_inner.cpp:103-122 | uninstall returns only after an instant with counter zero, and later guards belong to threads that had already jumped, one each |
| Gates.UninstallSafeExactlyWhen | src/hook_inst_inner.cpp:103-122 | from the moment the bytes are restored, every schedule lets uninstall return with no thread between the patched jump and its return from the detour if and only if none was there at that moment |
| Gates.SafeExactlyWhenEverybodyIsOut | include/ztour/hook_inst.h:64-73 | from the instant the counter is seen zero, the same: no thread in the hook on return if and only if none at that instant, be it before on_enter_call, inside on_exit_call or behind it on the way out of the detour |
| Gates.SafeExactlyWhenNobodyJumped | include/ztour/hook_inst.h:64-73 | no thread holds a guard after that instant if and only if no thread had taken the jump without entering the gate |
| Gates.ReturnedWhileInsideDetour | src/hook_inst_inner.cpp:115-121 | a run in which uninstall has returned and a thread holds a guard |
| Gates.ReturnedBeforeNotification | src/atomic_call_gate.h:18-24 | a run in which uninstall has returned and a thread has yet to lock the gate's mutex |
| Gates.ReturnedBeforeReturning | include/ztour/hook_inst.h:64-73 | a run in which uninstall has returned and a thread has yet to return from the detour |
| Scans.Memchr | src/memory.cpp:368 | finds the first of the bytes that is the one looked for |
| Scans.ScanRegion | src/memory.cpp:348-395 | empty, a throw for wildcards only, or exactly the naive matches followed by the match across the end |
| Scans.ScanForByte | src/memory.cpp:364-392 | hopping from candidate to candidate finds all that the naive scan finds |
| Scans.ScanFindsAll | src/memory.cpp:348-395 | the results increase strictly, are matches, include every match inside, and only the last may be outside |
| Scans.AllInsideExactlyWhen | src/memory.cpp:367-384 | all results lie inside the region if and only if it is not so that the pattern's first byte is absent from the last place for it and the next place after that, still inside, starts a match |
| Scans.ReportsMatchAcrossTheEnd | src/memory.cpp:367-384 | a region and memory for which the one result is not inside the region |
| Patterns.BytesToStr | src/base.cpp:3-11 | the loop prints two upper-case digits per byte with one blank between |
| Patterns.PrintedShape | src/base.cpp:3-11 | three characters a byte: its two upper-case digits, and a blank if another byte follows |
| Patterns.ParsePatternStr | src/memory.cpp:326-346 | the loop reads the words of the string, each a wildcard or a byte, and throws at the first that is neither |
| Patterns.PrintedIsParsed | src/memory.cpp:326-346 | reading what was printed gives the bytes back, for every byte sequence |
| PatternSpellings.SpelledIsParsed | src/memory.cpp:326-346 | every spelling of a pattern, one or two question marks or hex digits of either case a byte, with any white space, is read as the pattern |
| PatternSpellings.TokenExactlyWhen | src/memory.cpp:331-342 | a word is read as a wildcard if and only if it is one of the two, else as a byte if and only if it is a numeral for at most 0xFF |
| PatternSpellings.ThrowsExactlyForBadWords | src/memory.cpp:334-342 | reading throws if and only if some word of the string is neither |
| Patterns.ScanningForPrintedBytes | src/memory.cpp:326-395 | scanning for printed bytes finds exactly their occurrences, and at most one across the end |
| PatternSpellings.ScanningForSpelledPattern | src/memory.cpp:326-395 | scanning for a spelled pattern finds exactly the places where its bytes stand, wildcards standing for anything, and at most one across the end |

## Left out

- Zydis: its source is not part of this model; instructions outside the ones listed count as undecodable, operands based on EIP do not occur, and neither does a RIP-relative displacement of another size than 32 bits, so that throw is never reached.
- MovesOn: the subtraction of two `int64_t` is taken to wrap around; C++ leaves its overflow undefined, and below 2^63 it does not happen (`Relocation.ExactUnlessOverflow`).
- A corrected `relocate_code` that would move relative branches: the code has none.
- CallOriginalIsTheOriginal: covers heads that touch no patched byte and nothing of the copy as they run, and copies that nobody patches; code that later jumps back into its own patched head is excluded by its preconditions.
- CallEntersDetourExactlyWhen: a hook whose target is an address inside another hook's trampoline, close enough before the entrance jump for its patch to run into it, is excluded; hooks on the entrance jump itself are covered.
- Reachable: the counter is an unbounded integer, because 2^64 live guards do not fit into memory; the steps are interleaved atomically, without weak memory ordering.
- AtomicCallGate as an object: its methods are interleaved, so it is modelled by the shared state and the steps of `Gates`; several uninstallers are serialised by `access_mutex` and appear as one after the other; an uninstall that is called from inside the detour is a guard that is never given up (`Gates.HeldGuardBlocks`).
- Uninstall: the method of `HookObjects.Inner` does not wait for the gate; waiting is in `Gates`.
- `change_target_func` while a call is active: it destroys the gate that the call uses.
- Threads that execute inside the bytes being patched, torn writes and the instruction cache.
- OS calls: a page is mapped exactly where it was asked for or not at all, `overwrite_executable_mem` always writes all bytes, protection changes have no effect on contents, and the contents that a fresh page brings are not modelled.
- Page sizes above 2^30, at which the reach of a relative jump could not be guaranteed.
- AllocPageNear: the rounding that Windows does to its allocation granularity is not modelled.
- Make: a null output pointer is not modelled; null is excluded by its type, and the null page is never free.
- Freeing pages: a page taken by a constructor that throws, or by a hook that was given another target, stays taken.
- ParsePatternStr: `unsigned long` has 64 bits, as on Linux.
- `pattern_scan_module_multi` and `pattern_scan_module` add an offset to the results of the regions and count them.
- Module enumeration, debug logging, return address and stack base macros, calling conventions and the 32-bit branches.
