# ADBI in Dafny

ADBI attaches to running ARM and ARM64 programs with ptrace, patches jumps to handlers into
their code, and takes everything out again. This project models the parts of it where the
reasoning is hard, and proves what they are meant to guarantee.

| file | what it models |
|---|---|
| `Mutex.dfy` | the futex lock of injected code, as steps of any number of threads |
| `Inferior.dfy` | memory of a traced process, and the word-wise writer on top of ptrace |
| `Tracepoints.dfy`, `Installer.dfy` | tracepoints, the jump table, installation, rollback, removal and fork |
| `GapScan.dfy`, `Placement.dfy` | the search for free memory within reach of a branch, and whether trampolines can go to what it finds |
| `Branches.dfy`, `Bits.dfy` | branch encoders and decoders, gathering and scattering bits under a mask |
| `Bookkeeping.dfy`, `Events.dfy`, `Tracer.dfy` | processes, threads and their reference counts, driven by wait notifications |
| `Segments.dfy`, `Tree.dfy`, `Lookup.dfy` | the rescan of memory maps, search and iteration in linked trees, the segment of an address |
| `Payload.dfy`, `PayloadBuffer.dfy` | the wire format of server and client |
| `Leb.dfy`, `Dwarf.dfy` | LEB128, and the machine that turns DWARF expressions into C |
| `Deforder.dfy` | the order of generated type definitions |
| `Decimal.dfy` | division by ten and decimal printing |
| `Numbers.dfy`, `Basics.dfy` | arithmetic and types that several of them use |

`dafny verify dfyconfig.toml` checks the whole project.

## How the code is modelled

State that the source changes in place is a class whose methods are specified by functions of
the old state (`Server`, `Segment`, `Process`, `Thread`, `Scanner`, `Machine`, `Buffer`,
`Order`), and the theorems are about those functions. The lock is a transition system: each
atomic operation, the plain store and each futex call is one step, and any thread may go next.
Records of processes and threads are in maps from their addresses, so that using a freed
record is something the model can express: it sets a flag, as does a failing assertion, and
the theorems say that the flag is never set.

What the program cannot control is a parameter or a nondeterministic choice: which thread
runs, which ptrace request fails, where the kernel maps memory, which notification comes next,
in which order a set or a tree is traversed.

A process is consistent (`Installer.Process.Consistent`) when its segments are disjoint, their
tracepoints have instructions and trampolines apart from each other, and its jump table holds
exactly the fallbacks of all of them. Every operation on a segment, and fork, takes consistent
processes to consistent ones. Instructions that could not be written back are accounted for
(`Installer.Process.Accounted`): each has a ptrace request of its own that failed since the
removal began, or memory around it is not mapped, or the thread is dead. "With an excuse" below
means that.

A process is settled (`Installer.Process.Settled`) for a set of tracepoints when their branches
or breakpoints and their trampolines are in memory, and each segment has its trampolines in a
mapped room of its own.

Some things the source says of itself turned out not to hold, and are kept as the code has
them:

- The comment at the head of `idk/include/mutex.h` says that a release without waiters makes no
  system call. `ReleaseCallsKernelIff` gives the exact condition, and
  `ReleaseWithoutWaitersMayCallKernel` a run in which the comment is wrong. (The comments on lock
  and unlock are also swapped.)
- `tree_iter_prev` is right exactly for nodes without a left child (`IterPrev`).
- Two threads of one process that are removed while referenced break the process table;
  `ThreadPutKeepsIff` is the exact condition, `SecondFreeFails` and `TwoRemovedThreads` the
  consequence.
- `div10l` is exact up to 2^64 - 7, and decimal printing with it (`Div10lExactIff`,
  `PrintsNumeralIff`, `WriteDec`).
- The decoder of 32-bit Thumb branches does not invert the encoder over the whole range of the
  encoder (`DecoderInvertsEncoderIff`).
- `DW_OP_plus` and `DW_OP_minus` write sums and differences of pointers that C does not have
  (and `DW_OP_minus` the wrong way round), `DW_OP_const1u` and its like always raise an exception,
  and `DW_OP_addr` reads 32 bits on every machine. `StepAgreesIff` says exactly where the machine
  does what the standard says; `ArithmeticDiffers`, `ConstantDiffers` and `AddressDiffers` have
  an expression for each exception.
- `segment_equal` does not compare access rights, nor offsets of memory without a file:
  `TracksMappingIff` says exactly when a tracked segment is what the kernel reports, and
  `RightsAreNotUpdated` has a segment that is not.
- The search for free memory does not know of trampolines that are already there (rescans leave
  them out), and the mapping replaces what it finds. `MapOffer` says exactly which trampolines
  survive, and `ScanOffersTrampolines` is a run in which another segment's do not.
- The search need not end: the upward cursor extends gaps by the wrong addresses, so that it can
  leap over the end of the address space when a segment takes up nearly all of it
  (`ScanMayNotEnd`). `GapScan.RoomToScan` describes the layouts for which `Scan` terminates:
  the segment is further than its span and a branch from the end of the address space; and it
  is further than its span and two branches from the beginning, or the segments that the upward
  cursor can enter end further than its span and a branch from the end. Segments elsewhere, like
  the vectors page of ARM processes, are of no account.
- `payload_check` reads outside of its buffer for some inputs; `CheckStraysIff` says for which,
  and `StrayInput` is one.
- `trampoline_stolen` is set and never reset, so a segment that once used stolen memory protects
  later trampolines instead of unmapping them: trampolines are given back exactly if the call
  succeeds and the segment never used stolen memory (`Detach`, `Gone`), and
  `StolenOnceIsNeverFreed` is a run in which a gap stays mapped.

The event loop never has two removed threads of a process that are still referenced
(`Events.RunKeepsRest`). `process_stabilize` can: it keeps a reference to each unstable thread
while those threads run (`process/process.c:311-379`), and puts them one by one afterwards; if
all threads of the process died meanwhile, the second put fails. `TwoRemovedThreads` is such a
run of the record operations, from empty tables.

## Model

| member | source | states |
|---|---|---|
| Mutex.ReachableIsSafe | idk/include/mutex.h:150-163 | in every reachable state at most one thread holds the lock, the word is 0, 1 or 2 and is 0 exactly when nobody holds it, and a sleeping thread has a wake-up coming |
| Mutex.RunIsSafe | idk/include/mutex.h:150-163 | every run from a safe state ends in a safe state |
| Mutex.StepKeepsMutualExclusion | idk/include/mutex.h:150-163 | each atomic step keeps the mutual exclusion part |
| Mutex.StepKeepsWakeups | idk/include/mutex.h:150-163 | each atomic step keeps the promise to the sleepers |
| Mutex.RunRefinesLock | idk/include/mutex.h:150-163 | every run, seen through acquisitions and releases, is a behaviour of an abstract lock with one owner |
| Mutex.StepIsPaidFor | idk/include/mutex.h:157-163 | every step but a new call or a spurious wake-up lowers a potential |
| Mutex.RunIsBounded | idk/include/mutex.h:157-163 | no livelock: the number of steps of a run is bounded by its calls and spurious wake-ups |
| Mutex.StuckIsInitial | idk/include/mutex.h:150-163 | no deadlock: where nobody can move, nobody holds, waits or sleeps |
| Mutex.ReleaseCallsKernelIff | idk/include/mutex.h:3-6 | a release calls the kernel exactly if some thread swapped in a 2 since the lock was last free |
| Mutex.ReleaseWithoutWaitersMayCallKernel | idk/include/mutex.h:3-6 | a reachable release without waiters that calls the kernel |
| Inferior.Thread.MemWrite | procutil/mem.c:140-178 | for every alignment and size, exactly the returned number of leading bytes is copied and no other byte changes; the number is the one at which the first failing word stops the transfer |
| Inferior.Thread.WriteShift | procutil/mem.c:83-110 | the loop over words is a byte copy up to the first word that fails |
| Inferior.Thread.WriteShiftWord | procutil/mem.c:44-75 | one word: the selected bytes are copied, or nothing is |
| Inferior.Thread.WriteMaskedWord | procutil/mem.c:23-37 | one word is read, merged under the mask and written back, or nothing changes |
| Inferior.MaskedIsCopy | procutil/mem.c:23-75 | writing a merged word is a copy of the selected bytes, for every word size |
| Inferior.Thread.MemRead | procutil/mem.c:186-199 | what is read is a prefix of the mapped memory that was asked for |
| Tracepoints.RestoreCleans | tracepoint/tracepoint.c:114-117 | writing back an original instruction removes one tracepoint from those that may differ, even if instructions overlap |
| Tracepoints.TableAdds | tracepoint/tracepoint.c:290-386 | tracepoints at untraced addresses, with trampolines in a place free of instructions and other trampolines, extend a spread set and an exact table to a spread set and an exact table |
| Tracepoints.TableRemoves | tracepoint/tracepoint.c:76-121 | taking out one segment's tracepoints and their keys leaves the table exact for the others |
| Tracepoints.ExactAfterCleanup | tracepoint/tracepoint.c:76-121 | a removal keeps the table exact |
| Tracepoints.ExactIsUnique | tracepoint/tracepoint.c:388-414 | the recorded tracepoints determine the table |
| Tracepoints.RolledBack | tracepoint/tracepoint.c:383-386 | removing the keys of a partial installation gives back the table before it, though some tracepoints have no trampoline yet |
| Tracepoints.RolledBackIff | tracepoint/tracepoint.c:383-386 | and exactly if the table before has no jump at a key of the tracepoints, which for those without a trampoline lie at offsets |
| Installer.Process.ReadInsn | arch/arm/patch.c:65-111 | the instruction read is what memory has, with a 32-bit Thumb instruction recognised by its first half |
| Installer.Process.PatchInsn | arch/arm/patch.c:35-52 | the instruction is written, or exactly a part of it, and then a request failed meanwhile, memory around it is not mapped, or the thread is dead |
| Installer.Process.TracepointCreate | tracepoint/tracepoint.c:16-49 | a tracepoint records the original instruction at its address |
| Installer.Process.InstallTracepoint | tracepoint/tracepoint.c:331-380 | one round adds exactly the fallbacks of one tracepoint; memory changes by a prefix of the branch or breakpoint at the instruction, the whole of it unless there is an excuse, and then by a prefix of the trampoline's code, the whole of it if the round succeeds |
| Installer.Process.HitReachesTrampoline | tracepoint/tracepoint.c:337-346 | in a consistent process, what memory has at a traced instruction that is in memory is a branch whose architectural target is its trampoline (if that is aligned as the instruction set demands), or a breakpoint with a table entry for the trampoline, and the trampoline is in memory; which tracepoints are in memory is what Init, Detach, Gone and Fork keep |
| Installer.Segment.CreateTracepoints | tracepoint/tracepoint.c:296-316 | all originals are read before anything is patched, and the trampolines are laid out without overlap |
| Installer.Segment.InstallAll | tracepoint/tracepoint.c:329-380 | wherever the loop stops, the table has the fallbacks of those done and memory differs in traced instructions and trampolines only; if it gets to the end, every trampoline is in memory and every instruction is replaced or has an excuse since the loop began |
| Installer.Segment.Init | tracepoint/tracepoint.c:290-386 | takes a consistent process to a consistent one with exactly the new tracepoints recorded; after a success memory differs in them and the trampolines only, whose room was free or unused, and they are in place; after a rollback the table is as before, and all memory but unused memory and instructions with an excuse since the rollback began; tracepoints of other segments that were in memory still are, if instructions overlap neither each other nor rooms of trampolines, and the new ones are, too, if no request fails |
| Installer.Segment.Rollback | tracepoint/tracepoint.c:383-386 | wherever the installation got to, the table is as before it, and so is memory outside the trampolines but for instructions of the created tracepoints with an excuse since the rollback began |
| Installer.Segment.Cleanup | tracepoint/tracepoint.c:76-121 | in whatever order the tree yields them, all keys of the tracepoints leave the table and every byte outside the trampolines is restored, except in instructions of theirs with an excuse since the removal began |
| Installer.Segment.PopAll | tracepoint/tracepoint.c:97-119 | the loop of the removal, for any order of tree_pop |
| Installer.Segment.Detach | tracepoint/tracepoint.c:130-132 | keeps the process consistent, and restores the originals in any memory that the program has had since, up to instructions with an excuse; the addresses of the trampolines leave memory exactly if freeing them succeeded and the segment never used stolen memory; tracepoints of other segments stay in memory |
| Installer.Segment.Gone | tracepoint/tracepoint.c:136-138 | keeps the process consistent without the segment's tracepoints, changes memory at most by unmapping its trampolines, and unmaps them under exactly the same condition; tracepoints of other segments stay in memory |
| Installer.Segment.Reset | tracepoint/tracepoint.c:125-127 | keeps the process consistent without the segment's tracepoints, and does not touch its memory |
| Installer.Segment.InitThenDetach | tracepoint/tracepoint.c:130-132 | installing and detaching, with or without rollback, leaves table and records as they were, and all memory but unused memory and instructions with an excuse since the removal began; if no request fails, the words around the targets are mapped and the thread lives, there are none; the room of the trampolines is unmapped afterwards exactly if freeing it succeeded and the segment never used stolen memory |
| Installer.Segment.StolenOnceIsNeverFreed | tracepoint/tracepoint.c:59-64 | tracepoints are installed in stolen memory and detached, and then installed in a gap and detached: the gap, which was free before, stays mapped even if the freeing succeeded |
| Installer.Process.Fork | process/segment.c:310-316 | the child is consistent, with its parent's table and copies of the segments, in any order of segments and tracepoints; if its memory is a copy, too, it has the tracepoints in memory that the parent has |
| Installer.Process.ForkTracepoints | tracepoint/tracepoint.c:399-413 | the loop over one segment's tracepoints copies exactly their entries of the parent's table |
| Installer.Process.DiscardJumps | tracepoint/tracepoint.c:100-113 | exactly the keys of one tracepoint leave the table |
| Placement.MapOffer | tracepoint/tracepoint.c:264-280 | mapping trampolines at an offer keeps all accessible memory that the scan knows of; of the other trampolines that were in memory, exactly those stay that have nothing but zeros at the place (so all of them, if the place avoids them) |
| Placement.PageBelowIsAvailable | tracepoint/tracepoint.c:185-201 | a free page just below the segment is a place for a page of trampolines |
| Placement.OfferNeedsNoBreakpoint | tracepoint/tracepoint.c:337-346 | with trampolines in an offer, traced instructions are branches |
| Placement.ScanOffersTrampolines | process/segment.c:258-261 | a run that fails: the scan for a segment first offers the page of the trampolines that have been installed for the segment below it, and after the mapping those are zeros |
| Placement.PageBelowIsDue | tracepoint/tracepoint.c:167-249 | in its layout the two cursors pass the segments on either side before they come to that page |
| GapScan.Scanner.Scan | tracepoint/tracepoint.c:167-249 | the two-sided scan terminates on every layout for which addresses that wrap around are out of reach; each downward offer is page-aligned, free and reachable from every tracepoint; on giving up, all free reachable memory below was offered; the first offer is the one that is due |
| GapScan.Scanner.DownLoop | tracepoint/tracepoint.c:181-214 | the downward cursor moves on every turn and keeps the invariant, and an offer that is due is the next to be made |
| GapScan.Scanner.UpLoop | tracepoint/tracepoint.c:215-246 | the upward cursor moves on every turn, and keeps due what is due |
| GapScan.Scanner.DownRound | tracepoint/tracepoint.c:182-213 | one round offers the largest gap at the cursor that is asked for and within reach, or an unused segment that is within reach, or nothing and passes |
| GapScan.ScanMayNotEnd | tracepoint/tracepoint.c:180-248 | in a layout with a segment of nearly the whole address space, a scan whose offers are all refused goes on forever |
| GapScan.ReachDownward | arch/arm64/include/arch.h:172-193 | a check from the highest tracepoint covers all tracepoints and all addresses up to the lowest |
| Branches.EncodedJumpReachesDestination | arch/arm/include/arch.h:132-180 | for every aligned jump in range, the emitted A1, T2, T4 or A64 instruction is a branch whose architectural target is the destination |
| Branches.DecoderInvertsEncoderIff | arch/arm/template.c:231-249 | decoding the emitted branch gives the destination back, for T4 exactly if the displacement lies in [-2^23, 2^23) |
| Branches.ImmediateTargets | arch/arm64/template.c:243-267 | the imm26, imm19 and imm14 targets are pc plus the sign-extended field, modulo 2^64 |
| Branches.Thumb2RoundTrip | arch/arm/include/arch.h:154-163 | the scattered fields of a T4 branch are those of the displacement |
| Bits.ScatterGather | util/bitops.h:48-85 | scatter(gather(v, m), m) is v & m |
| Bits.GatherScatter | util/bitops.h:48-85 | gather(scatter(x, m), m) is x for x below 2^popcount(m) |
| Bits.GetBitsByMask | util/bitops.h:61-71 | the loop gathers |
| Bits.SetBitsByMask | util/bitops.h:74-85 | the loop ends within the word exactly if val is below 2^popcount(mask), and then it scatters |
| Bits.BitsCount | util/bitops.h:34-40 | clearing the lowest bit until none is left counts the bits |
| Bits.PatchMovesField | arch/arm/template.c:94-101 | the source field arrives in the destination field, and all other bits are kept |
| Bookkeeping.RunKeepsCounts | process/list.c:11-75 | over every run of get, put, dup, create and del in which callers put what they hold and free in order, each count is table membership plus thread records plus holders, and nothing is freed while referenced, freed twice or used after |
| Bookkeeping.StepKeepsCounts | process/list.c:11-75 | each operation keeps the counts exact |
| Bookkeeping.StepLeavesExactly | process/thread.c:82-96 | a process leaves the table exactly when its last thread record is freed |
| Bookkeeping.ThreadPutKeepsIff | process/thread.c:82-96 | putting a thread keeps the counts exactly if its process still has threads in the table or no other record |
| Bookkeeping.OneRemovedCanBeFreed | process/list.c:71-75 | with at most one removed but referenced thread in a process, freeing is in order |
| Bookkeeping.OneRemovedIsLegal | process/list.c:50-75 | so putting what is held and removing what is in the table is in order, when at most one thread of a process is removed at the time |
| Bookkeeping.TidyRunKeepsCounts | process/list.c:50-75 | over every run of such operations the counts stay exact, and at each step a process leaves the table exactly with its last thread record |
| Bookkeeping.SecondFreeFails | process/thread.c:82-96 | with two, the second free takes the process out of the table again |
| Bookkeeping.TwoRemovedThreads | process/thread.c:82-96 | a legal run from empty tables, with exact counts, to a state in which that happens |
| Bookkeeping.ThreadPutKeeps | process/list.c:50-58 | thread_put in order keeps the counts |
| Bookkeeping.ProcessPutKeeps | process/list.c:18-26 | process_put keeps the counts |
| Bookkeeping.ThreadDelKeeps | process/list.c:71-75 | thread_del keeps the counts |
| Bookkeeping.ThreadCreateKeeps | process/thread.c:56-82 | thread_create keeps the counts, the caller holding one reference |
| Bookkeeping.ProcessCreateKeeps | process/process.c:22-39 | process_create keeps the counts, the caller holding one reference |
| Events.RunKeepsRest | procutil/wait.c:222-248 | after every sequence of notifications nothing is held and the counts are exact |
| Events.EventKeepsRest | procutil/wait.c:81-196 | each stop, clone, exec, exit or death during a continue takes records at rest to records at rest |
| Events.RestCounts | adbiserver.c:46-59 | between events every thread has the table's reference only, and every process has threads, the table's reference and one for each of them |
| Events.CloneNotificationsCommute | procutil/wait.c:25-79 | the two notifications of a clone or fork give equal records in either order |
| Events.CreateIsFresh | procutil/wait.c:25-50 | a clone adds one thread under the child's pid, and one process exactly if the child's is not traced |
| Events.CloneParentKeeps | procutil/wait.c:63-79 | the parent's notification keeps the counts, whether or not the child is known |
| Events.CloneChildKeeps | procutil/wait.c:52-61 | the child's notification keeps the counts |
| Events.ExitOthersKeeps | process/thread.c:158-168 | at an exec, in any order of iteration, all visited threads but the caller leave the table, and the counts stay exact |
| Events.ExecLeavesCaller | process/thread.c:158-168 | an exec leaves the process with the calling thread only |
| Tracer.Server.WaitMain | procutil/wait.c:222-248 | one batch handles the first 128 notifications at most, says whether none is left, and leaves records at rest |
| Tracer.Server.ExecThread | process/thread.c:151-188 | the loop over the other threads, then the caller continues |
| Tracer.Server.AddChild | procutil/wait.c:25-50 | the records that a clone adds |
| Tracer.Server.ParentCloned | procutil/wait.c:63-79 | the handler of the parent's notification |
| Tracer.Server.FreeThread | process/thread.c:82-96 | the record goes, and the process with the last one |
| Segments.Process.Rescan | process/segment.c:239-307 | a rescan of an unchanging map takes two passes if a tracked segment changed and one otherwise; then exactly what is reported is tracked (artificial segments only as they were), and segments that are equal keep their record, injection and tracepoints |
| Segments.Process.Pass | process/segment.c:271-305 | one pass of marking, scanning and sweeping |
| Segments.TracksReported | process/segment.c:241-268 | with no tracked segment at an artificial address, the tracked segments are the reported ones that are not artificial |
| Segments.TracksMappingIff | process/segment.c:213-233 | after a rescan a tracked segment is what is reported, exactly unless it was tracked before with other access rights or, without a file, another offset |
| Segments.RightsAreNotUpdated | process/segment.c:213-233 | such a segment |
| Segments.RescanIsIdempotent | process/segment.c:239-307 | scanning the same map again changes nothing |
| Segments.TranslationsInvert | process/segment.c:97-110 | address and file offset are translated back and forth without loss, in machine words |
| Segments.TranslationFailsIff | process/segment.c:97-105 | the translation fails exactly for offsets of no byte of the segment |
| Tree.GetNode | lib/asdd/include/tree.h:97-108 | the node with the key, or null if there is none |
| Tree.GetCloseNode | lib/asdd/include/tree.h:111-131 | the node where a search ends |
| Tree.GetNodeLe | lib/asdd/include/tree.h:133-147 | the node with the greatest key not above the query |
| Tree.IterStart | lib/asdd/include/tree.h:218-220 | the first node in order |
| Tree.IterNext | lib/asdd/include/tree.h:229-240 | the next node in order, found through parent links |
| Tree.IterPrev | lib/asdd/include/tree.h:244-255 | the previous node in order exactly if there is no left child |
| Tree.Walk | lib/asdd/include/tree.h:257-258 | iteration visits all nodes once, in ascending order |
| Lookup.SegmentGet | process/segment.c:53-63 | for disjoint segments, the same as a search through all of them |
| Payload.CheckAcceptsIff | communication/payload.c:146-217 | of all buffers below 4 GB, exactly those made of well-formed elements up to one terminator are accepted |
| Payload.CheckStraysIff | communication/payload.c:146-217 | the check reads outside of a buffer below 4 GB exactly if it gets to an element whose name is longer than what is left, or to a string without data or with sizes whose sum wraps around |
| Payload.StrayInput | communication/payload.c:146-217 | nine bytes for which it does |
| Payload.SerializedAccepted | communication/payload.c:69-107 | a payload that was built passes the check |
| Payload.FindIsFirst | communication/payload.c:224-238 | payload_find finds the first field with the name |
| Payload.GetIsLookup | communication/payload.c:240-269 | reading by name and type gives the data of the first field with the name, if it has the type |
| Payload.PacksTheSame | adbiclient/adbi/packet.py:79-91 | the client packs the bytes that the server builds |
| Payload.UnpackInverts | adbiclient/adbi/packet.py:127-159 | the client unpacks the list that was packed |
| Payload.TypedData | adbiclient/adbi/packet.py:62-77 | the data of a value, read as its type, give the value back |
| PayloadBuffer.Build | communication/payload.c:69-107 | putting fields one by one and a terminator builds their payload, and the check accepts it |
| PayloadBuffer.Buffer.Append | communication/payload.c:48-67 | bytes are appended, whatever growth that takes |
| PayloadBuffer.Buffer.AddElement | communication/payload.c:69-85 | an element is appended, with sizes truncated to their fields |
| PayloadBuffer.CheckPayload | communication/payload.c:197-217 | the loop of the check |
| PayloadBuffer.FindPayload | communication/payload.c:224-238 | the loop of the search |
| PayloadBuffer.UnpackFrom | adbiclient/adbi/packet.py:127-159 | the loop of the client |
| Leb.RoundTrip | idk/common/leb128.py:6-55 | every number decodes to itself, whatever follows it, and takes its own bytes only |
| Leb.EncodingIsShortest | idk/common/leb128.py:31-50 | no shorter data decode to the same number, and unsigned data decode to no negative one |
| Leb.FailsIff | idk/common/leb128.py:13-20 | decoding fails exactly for data without a last byte |
| Leb.DecodeLoop | idk/common/leb128.py:13-28 | the loop decodes, and leaves the stream after the number |
| Leb.EncodeLoop | idk/common/leb128.py:31-50 | the loop encodes, and refuses unsigned negative numbers |
| Dwarf.CfaRuleIsRegisterPlusOffset | idk/cachebuilder/cfi.py:42-48 | the compiled rule is consumed exactly and is the address of that register plus that offset |
| Dwarf.StepAgreesIff | idk/dwexpr/machine.py:51-344 | on a stack of expressions that C accepts, one operation does what the standard's machine on numbers does, exactly unless it adds or subtracts two values, reads a constant of fixed size, reads an address that is wider than 32 bits, or is not described |
| Dwarf.RunAgrees | idk/dwexpr/machine.py:51-344 | for code whose operations are none of those, C accepts the expression, and it has the value that the standard's machine computes, as a location or a content; the machine fails exactly where that does |
| Dwarf.ArithmeticDiffers | idk/dwexpr/machine.py:258-270 | lit1, lit2 and minus or plus: the standard has a value, C rejects the expression |
| Dwarf.ConstantDiffers | idk/dwexpr/machine.py:121-136 | const1u 5: the standard has 5, the machine fails |
| Dwarf.AddressDiffers | idk/dwexpr/machine.py:115-119 | an address of eight bytes: the standard has a location, the machine fails |
| Dwarf.MinusIsReversed | idk/dwexpr/machine.py:258-263 | read as a subtraction of numbers, the expression has the opposite sign |
| Dwarf.RunCovers | idk/dwexpr/machine.py:106-344 | a result that refers to the frame base or the frame address says so |
| Dwarf.Machine.Evaluated | idk/dwexpr/machine.py:326-344 | the loop over opcodes |
| Dwarf.Machine.ExecuteStackOp | idk/dwexpr/machine.py:58-104 | the stack operations, by pops and pushes |
| Dwarf.Machine.ExecuteOperandOp | idk/dwexpr/machine.py:115-251 | the operations with operands |
| Deforder.DefinitionOrder | idk/cachereader/datatype/datatype.py:161-206 | for every acyclic graph and every iteration order: exactly the types that x needs are defined, each once, after its hard requirements and after its soft ones are declared or defined |
| Deforder.Order.ProcessType | idk/cachereader/datatype/datatype.py:178-203 | one call extends the order by what one type needs |
| Deforder.RankExists | idk/cachereader/datatype/datatype.py:178-203 | without cycles there is a rank that every recursive call lowers |
| Deforder.KnotIsNeverDefined | idk/cachereader/datatype/datatype.py:201-203 | for a type in a cycle there is no order at all |
| Decimal.Div10Exact | idk/include/division.h:119-121 | div10 is division by ten for every 32-bit number |
| Decimal.Div10lExactIff | idk/include/division.h:139-172 | div10l is division by ten exactly for numbers up to 2^64 - 7 |
| Decimal.PrintsNumeralIff | inj/adbi/print.c:70-85 | the characters are the numeral of the number exactly up to 2^64 - 7 |
| Decimal.NumeralUnique | inj/adbi/print.c:70-85 | a number has one numeral |
| Decimal.WriteDigits | inj/adbi/print.c:72-79 | the loop stays in its buffer, five bytes of which are never used |
| Decimal.WriteDec | inj/adbi/print.c:70-85 | the output is the numeral exactly up to 2^64 - 7 |
| Decimal.WriteSignedDec | inj/adbi/print.c:87-115 | the output is the sign and the numeral of the magnitude of every signed 64-bit number |

## Left out

- Bodies of trampolines and the template tables: their sources are not part of this model, so the installer has them as unspecified functions (`select`, `code`).
- mem_verify: the re-read after a write of memory changes nothing and is not modelled.
- Load-linked and store-conditional loops inside the atomic operations of the lock: each atomic operation is one step, and memory is sequentially consistent.
- Installer.Segment.Init: takes targets as aligned and distinct, in the segment, not in a trampoline, none with a return to address 0 (the table has 0 for "no jump"), and no jump key below the size of the trampolines that are created, because tracepoints without a trampoline have offsets in place of addresses (`RolledBackIff` is exact about the rollback).
- Installer.Segment.Init: takes the place of the trampolines from a parameter that stands for the search and mmap, and that the search meets exactly where `OfferIsAvailableIff` says so; `MapOffer` is about the other places.
- Installer.Segment.MapTrampolines, Installer.Segment.TrampolineFree: calls of mmap, munmap and mprotect in the traced process are single steps that succeed or fail.
- GapScan.Scanner.Scan: offers of the upward cursor are modelled for termination only, because extending an upward gap tests `addr - aboff` where `addr + aboff` is meant, so that what it offers can be mapped memory.
- GapScan.Scanner.Scan: takes layouts with `RoomToScan`; whether the scan ends on another one depends on the whole path of the upward cursor, and `ScanMayNotEnd` is one on which it does not.
- GapScan.Scanner.Scan: the source reads the caller's answer before there is one if the first thing that a cursor meets is a segment that it passes; the model takes it as a refusal.
- tree_get_node_range and tree_iter_prev on a node with a left child descend the wrong side; the second is covered as a negative result.
- Insertion, removal and balancing of trees: tables are finite maps, except where search and iteration are the point.
- Branches: not the T3 target of conditional branches and the 32-bit kinds of the ARM64 encoder, which do not match the encodings and are never selected.
- thread_trap, the stabilization of a process and signal dumps: a stop is continued or parked.
- Events.EventKeepsRest: takes the kernel's word that a new thread is in a traced process or is the first of one whose parent is traced; the code dereferences null otherwise.
- Events.CloneNotificationsCommute: takes both notifications without the thread dying while it is continued, since a death ends its records in either order; and is about the records: in one order the child is continued with the SIGSTOP it stopped for, which the records do not show.
- process_attach and the MEMD request: the failure exit of the first and a kept reference in the second break the counts.
- process_detach, process_stop and process_kill: they add only further runs of the same operations.
- Injections, their dependency counts and notifications to new threads.
- Segments.Process.Rescan: the kernel's map does not change between passes, and the set of artificial addresses is fixed.
- Payload: numbers are written in little-endian order, as on the machines the server runs on; size_t has 64 bits.
- Dwarf: expression values are unbounded integers, not machine words; the text of the C expressions is a tree; operations of the standard that the machine does not implement have no meaning here.
- Decimal.WriteSignedDec: negating the least signed 64-bit number overflows, which C leaves undefined; the model takes its magnitude, which wrap-around gives.
- get_bits_by_mask: the first turn of its loop shifts by the word size, and is taken to contribute nothing.
- div and divl: their products are truncated and their shifts exceed the word, so that they are no divisions.
- select_temporary_reg, get_msb, bits and sign_extend: they would only add easy members.
- Sockets, signals, procfs, ELF files, the command shell and the sqlite cache.
