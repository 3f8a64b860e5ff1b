# libriscv, modelled in Dafny

libriscv is a RISC-V sandbox: it decodes guest code into a cache of small entries, dispatches
whole basic blocks from that cache, lets native code replace parts of it while other threads
execute it, and gives every guest a paged, forkable memory with its own heap and mmap area.
This project models the parts of it that are fast because they are not simple, and proves that
each of them does what its simple counterpart does.

| file | models | against |
|---|---|---|
| `Isa.dfy`, `Program.dfy` | instruction lengths, classes, bytecodes, threaded rewriting, the block cutter | what each instruction class does to pc |
| `DecoderCache.dfy` | the two walks that fill the decoder cache | distances and counts defined on the code alone |
| `Machine.dfy`, `Handlers.dfy`, `Dispatch.dfy` | block dispatch, its fallbacks and ways out | one instruction at a time (`simulate_precise`) |
| `Differences.dfy` | segments on which the two part | a run of each |
| `LivePatch.dfy` | claiming addresses in a copy of the cache | the distance to the nearest stop, for any set of stops |
| `LivePatchProtocol.dfy` | publishing the copy and patching entries while threads execute them | the guest's own instruction sequence |
| `Registry.dfy` | the shared segment registry and its locks | one complete segment per key, no cycle of waiting threads |
| `ArenaList.dfy`, `Arena.dfy` | the heap allocator (slab, linked chunks, recycle list, pointer map) | a map of live regions and the set of free bytes |
| `Paging.dfy`, `MemoryRuns.dfy` | page table, read and write cache, lazily created pages, page limit | a plain array of bytes with permissions |
| `Forks.dfy` | forks that loan pages, copy-on-write | the master's bytes overlaid with the fork's own writes |
| `Memmove.dfy` | `native_memmove` over fragmented and overlapping pages | a snapshot of the source bytes |
| `Mmap.dfy`, `MmapRuns.dfy` | the mmap pointer and its free list, and any sequence of mmap and munmap calls | a partition of the area into mapped and free bytes |
| `Fp16.dfy` | binary16 conversions | round to nearest even on exact values (sections 4.3.1 and 5.4.2 of IEEE 754-2019) |

What an instruction computes is a parameter (`Machine.Sem`) shared by both sides of the dispatch
theorem; the theorem is about pc, the decoder position and the instruction counter, including what
handlers can see of them. Instruction lengths follow section 1.5 of the RISC-V Unprivileged ISA
V20191213. Exceptions are results: `ok == false`, `None`, or an exit of the dispatcher. Addresses are
unbounded; 8-, 16-, 32- and 64-bit fields that can truncate are truncated explicitly.

## Properties that do not hold as stated, and exactly when they do

- At any machine, block dispatch does with the next instruction what `simulate_precise` does if and
  only if a condition on that instruction holds (`Handlers.FaithfulExactlyWhen`). A run along which
  it holds ends as `simulate_precise` does (`Dispatch.Simulate`); all runs do, if and only if it holds
  of every instruction of the code at every machine (`Dispatch.PreciseExactlyWhen`). The condition,
  and inputs where it fails:
  - ECALL: the host does not tell a counter from the next one.
  - Another SYSTEM instruction: the same, and it does not reach the limit, stop or move pc, after
    which the dispatcher leaves pc on the instruction. One that returns to the next instruction
    therefore differs at the limit (`Handlers.SystemIsUnfaithful`); reading instret there differs in
    value and pc (`Differences.RunReadCounter`).
  - C.EBREAK, and the 32-bit encodings that `decode` leaves to the host: the host leaves pc, counter
    and limit alone, and does not depend on pc or counter. No block is cut at these
    (`Isa.CutterFollowsClass`), so a host that stops the machine does not stop the dispatcher
    (`Differences.RunBreak`, `Differences.RunCallHost`).
  - A register jump: it does not reach its target by dropping the lowest bit, and a compressed one
    does not link the register it jumps to (`Differences.RunCallLink`).
  - An instruction without a handler: it raises in `simulate_precise` too, and leaves the same state.
    Those are the last of a segment that does not end a block, those without a bytecode, and direct
    transfers that are misaligned or leave the segment, taken or not (`Isa.UndecodedExactlyWhen`,
    `Differences.RunBranchOut`). One of which rewriting leaves no bit is executed, and counted twice
    (`Differences.StoreAtTheEnd`).
- A claim leaves every block distance right if and only if every instruction of the block before
  the claimed one has a handler (`LivePatch.ClaimKeepsDistances`); `LivePatch.ClaimCanBreakDistances`
  gives a three-instruction segment where it does not.
- Live patching is invisible to the guest if and only if no claimed entry has a handler that is
  looked up on first use and stored in the entry (`LivePatchProtocol.InvisibleExactlyWhen`). Such a
  handler can be stored after the entry was overwritten, and the next thread to read the entry then
  follows neither the patch nor the instruction (`LivePatchProtocol.TornEntry`, and
  `LivePatchProtocol.PatchNop` for a two-instruction segment).
- With a slab slot available, `malloc` returns 0 if and only if no free run is long enough or one
  begins at address 0, which only an arena with base 0 has. A `realloc` that finds its new region
  there reports a failure and leaves both regions live (`ArenaHeap.Arena.Malloc`,
  `ArenaHeap.Arena.Realloc`).
- `fixup_size` rounds to a multiple of 16 except within 15 bytes of the largest size, which it
  leaves as it is (`ArenaHeap.FixupSize`).
- The arena's documentation says that the allocation counter counts successful calls
  (lib/libriscv/native_heap.hpp:129); the code increments it on failures too, and the model follows
  the code.

## Model

| member | source | states |
|---|---|---|
| Isa.CutterFollowsClass | lib/libriscv/decoder_cache.cpp:118-141 | the block cutter ends a block at an encoding if and only if that encoding may move pc or call a handler of the host that may, with exactly two exceptions: the compressed EBREAK 0x9002, and the 32-bit encodings that decode does not know |
| Isa.BreakIsNotCut | lib/libriscv/decoder_cache.cpp:127-137 | at 0x9002 the host may move pc and no block is cut |
| Isa.CustomIsNotCut | lib/libriscv/decode_bytecodes.cpp:524-525 | at an encoding unknown to decode the host may move pc, no block is cut, and the entry goes to the general handler, wherever it is in the segment |
| Isa.CallsHost | lib/libriscv/instr_decoding.inc:733-737 | 0x5B is one of them, on 32- and 64-bit machines of every configuration |
| Isa.ComputedHandlers | lib/libriscv/decode_bytecodes.cpp:18-526 | the handler chosen for any encoding advances or transfers as the encoding's class and length demand |
| Isa.RewriteKeepsFlow | lib/libriscv/threaded_rewriter.cpp:14-578 | rewriting a bytecode keeps what its handler does to pc, keeps unchecked targets inside the segment, and makes forward branches go forward |
| Isa.BytecodeImplementsClass | lib/libriscv/decoder_cache.cpp:395-401 | every bytecode that decoding leaves valid implements the class of its instruction, with its targets inside the segment |
| Isa.UndecodedExactlyWhen | lib/libriscv/threaded_rewriter.cpp:112-129 | an instruction is left without a handler if and only if it has no bytecode or is a direct transfer whose target is misaligned or, with the room demanded of it, outside the segment |
| Isa.ClearedClass | lib/libriscv/threaded_rewriter.cpp:14-578 | an instruction whose rewritten operands are all zero is no system instruction, and has a handler unless its own bits are zero |
| Program.Segment.Parse | lib/libriscv/safe_instr_loader.hpp:24-33 | the slot table of any segment is what the decoder makes of the word at every position, with the zero-extended read at its end, and is one that all later stages accept |
| DecoderCache.SweepVisitsStarts | lib/libriscv/decoder_cache.cpp:199-285 | the block walk visits exactly the slots that the decoding walk takes for instruction starts |
| DecoderCache.FieldsFit | lib/libriscv/decoder_cache.hpp:18-23 | with compressed instructions, every distance is at most 254 slots and every count between 1 and 255, so neither 8-bit field truncates |
| DecoderCache.DecodeExecuteRange | lib/libriscv/decoder_cache.cpp:346-435 | every instruction start gets its decoded bytecode and bits, every slot in the middle of an instruction stays empty |
| DecoderCache.FillEntries | lib/libriscv/decoder_cache.cpp:150-175 | every recorded entry gets its distance to the last one and the number of instructions left, others are untouched, and it throws exactly for a distance over 255 |
| DecoderCache.TestEnd | lib/libriscv/decoder_cache.cpp:223-273 | the four tests of the walk end a block exactly where the definition on the code does, with that definition's final bytecode |
| DecoderCache.WalkBlock | lib/libriscv/decoder_cache.cpp:202-276 | one inner walk records one whole block and never more than the 256 entries of its array |
| DecoderCache.RealizeFastsim | lib/libriscv/decoder_cache.cpp:178-285 | after the second walk every entry holds exactly the distance, count and final bytecode that the code defines; the throw is unreachable |
| DecoderCache.RealizeFastsimWide | lib/libriscv/decoder_cache.cpp:286-329 | the same without compressed instructions, by the backward walk with its 16-bit distances |
| DecoderCache.RealizedIsLinked | lib/libriscv/decoder_cache.cpp:178-285 | in a realized cache an entry either ends its block or is one instruction and its own length further from the end than the next one, and has lost its handler only at the end of the segment |
| DecoderCache.GenerateDecoderCache | lib/libriscv/decoder_cache.cpp:540-550 | a generated cache links every instruction to its block end and ends in an empty sentinel |
| Machine.SimulatePrecise | lib/libriscv/cpu.cpp:306-343 | the loop computes the reference run: one instruction at a time until the limit or an exception |
| Machine.StepsArePreciseRun | lib/libriscv/cpu.cpp:306-343 | a machine reached by k reference steps is where the precise loop ends when its limit is the counter reached |
| Machine.StepIgnoresLimit | lib/libriscv/instruction_counter.hpp:50-62 | the limit decides when a run ends and nothing else |
| Handlers.HandlerExactlyWhen | lib/libriscv/bytecode_impl.cpp:987-996 | for every class, the handler of an instruction leads where simulate_precise leads if the condition of its class holds, and on a running machine only then |
| Handlers.FaithfulExactlyWhen | lib/libriscv/cpu_dispatch.cpp:145-309 | the same for any machine and any entry, with or without a handler: same machine, or exceptions that leave the same state |
| Handlers.UnhandledIsStep | lib/libriscv/cpu.cpp:345-381 | an instruction that simulate_undecoded executes is one step of simulate_precise |
| Handlers.SystemIsUnfaithful | lib/libriscv/cpu_dispatch.cpp:155-159 | a SYSTEM instruction that returns to the next one, for some counter and state, makes a difference at the limit |
| Dispatch.ChainedIsReady | lib/libriscv/cpu_dispatch.cpp:28-75 | in a generated cache every handler may rely on what it assumes: its class, its target slot, a distance of zero at transfers |
| Dispatch.ExecuteStraight | lib/libriscv/bytecode_impl.cpp:323-330 | a handler that touches neither pc nor counter does one instruction; AUIPC reads the pc rebuilt from the block distance |
| Dispatch.RunStraight | lib/libriscv/cpu_dispatch.cpp:28-36 | going from entry to entry is that many single instructions, with pc equal to the address of the entry plus its block bytes throughout |
| Dispatch.FinishBranch | lib/libriscv/cpu_dispatch.cpp:62-68 | taken and untaken branches go where the single instruction goes; a jump that skips the overflow check while exhausted goes forward |
| Dispatch.FinishForwardBranch | lib/libriscv/bytecode_impl.cpp:193-206 | the same for the branches that never check, which go strictly forward |
| Dispatch.FinishJump | lib/libriscv/bytecode_impl.cpp:169-177 | direct jumps go and link where the single instruction does |
| Dispatch.FinishIndirect | lib/libriscv/bytecode_impl.cpp:762-783 | register jumps go to their target without its lowest bit; a misaligned one raises with the return address already stored and pc not |
| Dispatch.FinishSystem | lib/libriscv/cpu_dispatch.cpp:145-244 | system calls, system instructions and STOP: the next block, a checked jump or the end is the single instruction |
| Dispatch.FinishCall | lib/libriscv/cpu_dispatch.cpp:145-244 | the handler finds the counter with its own instruction in it; an exception leaves the state and the stored pc of the instruction; a SYSTEM instruction that moved pc or exhausted the counter goes on from the pc the host left, four bytes short |
| Dispatch.SimulateUndecoded | lib/libriscv/cpu.cpp:345-381 | the fallback is a number of steps of simulate_precise through entries without a handler, at least one unless it raises, and overshoots the limit by none of its own |
| Dispatch.ExecuteCleared | lib/libriscv/cpu_dispatch.cpp:293-307 | an instruction of the sweep without bits is counted twice and then goes on like the fallback |
| Dispatch.ExecuteInvalid | lib/libriscv/cpu_dispatch.cpp:293-309 | an entry without a handler raises at once, with the pc of the decoder position and its state untouched, unless its bits are zero; then it falls back |
| Dispatch.RunBlock | lib/libriscv/cpu_dispatch.cpp:114-118 | one block, entered with its whole distance and count added at once, ends where single instructions do |
| Dispatch.Simulate | lib/libriscv/cpu_dispatch.cpp:78-319 | every run inside one segment ends, and is k single instructions of the dispatcher: finished, exhausted or left in state, pc and counter and within its budget; at an exception in the state and, where the code stores it, the pc of the raising instruction. If the dispatcher is faithful along the run, the same holds of k steps of simulate_precise |
| Dispatch.FaithfulExit | lib/libriscv/cpu.cpp:306-343 | every way out of a run along which the dispatcher is faithful is one of simulate_precise, and an exception at an entry without a handler is an exception there too |
| Dispatch.PreciseExactlyWhen | lib/libriscv/cpu.cpp:306-343 | after every number of instructions, from every machine and whatever handlers find stored, the dispatcher is where simulate_precise is, and raises where it raises with the same state, if and only if every instruction of the code is faithful |
| Dispatch.SameAsPrecise | lib/libriscv/cpu.cpp:306-343 | a finished or exhausted run is the precise run with the same counter, the counters tell how many instructions were executed, and the counter is below the limit plus the instructions of the segment plus what handlers added |
| Dispatch.RunSegment | lib/libriscv/cpu_dispatch.cpp:78-319 | the same from code bytes: parse, decode, realize, dispatch |
| Differences.CounterReadDiffers | lib/libriscv/machine.cpp:428-432 | reading instret (0xC0202573) parts the dispatcher from simulate_precise, whatever cache is generated |
| Differences.RunReadCounter | lib/libriscv/cpu_dispatch.cpp:145-162 | run with a limit of one instruction, the dispatcher reads 1 and leaves pc on the instruction, simulate_precise reads 0 and leaves it behind |
| Differences.BreakDiffers | lib/libriscv/rvc_instr.cpp:587-590 | a C.EBREAK (0x9002) whose handler stops the machine parts the two, whatever cache is generated |
| Differences.RunBreak | lib/libriscv/rvc_instr.cpp:587-590 | run, simulate_precise stops behind it and the dispatcher executes the next instruction and leaves the segment |
| Differences.CallHostDiffers | lib/libriscv/instr_decoding.inc:733-737 | the same for an encoding with opcode 0x5B, for which the host supplies the handler |
| Differences.RunCallHost | lib/libriscv/bytecode_impl.cpp:987-996 | a run of both on it |
| Differences.CallLinkDiffers | lib/libriscv/rvc_instr.cpp:548-552 | c.jalr ra (0x9082): simulate_precise has overwritten the register before it jumps through it |
| Differences.RunCallLink | lib/libriscv/rvc_instr.cpp:548-552 | run, the dispatcher jumps where ra pointed and simulate_precise to the next instruction |
| Differences.BranchOutDiffers | lib/libriscv/threaded_rewriter.cpp:122-129 | beq x0, x1, 64 (0x04100063) in a segment of six bytes parts the two, whatever cache is generated |
| Differences.RunBranchOut | lib/libriscv/threaded_rewriter.cpp:122-129 | run without the branch being taken, the dispatcher raises at it and simulate_precise goes on behind it |
| Differences.StoreAtTheEnd | lib/libriscv/decoder_cache.cpp:253-259 | sw x0, 0(x0) as the last instruction of a segment is an entry without a handler and without bits; the dispatcher counts it twice |
| LivePatch.ChainedIsAimed | lib/libriscv/decoder_cache.cpp:178-330 | a generated cache's distances all end at the nearest block end |
| LivePatch.FindBlockBegin | lib/libriscv/livepatch.hpp:55-87 | the backward walk over distances stops at the beginning of the block, stepping over entries in the middle of instructions |
| LivePatch.MakeBlockEnding | lib/libriscv/livepatch.hpp:44-128 | exactly the entries of the block before the claimed one are retargeted to it; none of the three throws is reached and no field truncates |
| LivePatch.ClaimKeepsDistances | lib/libriscv/livepatch.hpp:103-116 | after a claim every distance ends at its nearest stop if and only if all instructions before the claimed one in its block have handlers (always, without compressed instructions) |
| LivePatch.ClaimCanBreakDistances | lib/libriscv/livepatch.hpp:107-112 | in a generated cache of C.ADDIW to x0, C.NOP, C.JR ra, claiming the second instruction leaves the distance of the first one wrong |
| LivePatch.ClaimInUndecoded | lib/libriscv/livepatch.hpp:44-128 | the same from the bytes of that code through decoding, copying and claiming |
| LivePatch.GeneratedIsNarrow | lib/libriscv/decoder_cache.hpp:18-23 | generated caches leave room in their fields for what a claim writes |
| LivePatch.PatchedDecoderCache.constructor | lib/libriscv/livepatch.hpp:138-152 | the copy equals the original and aims at its block ends |
| LivePatch.PatchedDecoderCache.Claim | lib/libriscv/livepatch.hpp:156-161 | one claim adds one stop, retargets its block and leaves every other entry as it was |
| LivePatch.PatchedDecoderCache.ClaimAll | lib/libriscv/livepatch.hpp:156-161 | after any claims in any order every distance ends at the nearest following block end or claimed address, and unclaimed entries keep bytecode, handler and instruction |
| LivePatchProtocol.BuildCopy | lib/libriscv/livepatch.hpp:138-161 | copying and claiming gives a copy that the protocol may publish |
| LivePatchProtocol.PatchIsReady | lib/libriscv/bytecode_impl.cpp:932-947 | a thread that reads LIVEPATCH is in the original cache, the copy has been published, and the copy's entry ends a block |
| LivePatchProtocol.SwitchOk | lib/libriscv/bytecode_impl.cpp:936-949 | following a patch re-establishes pc for the copy and leaves the guest where it was |
| LivePatchProtocol.StepOk | lib/libriscv/livepatch.hpp:166-180 | unless a claimed entry stores its handler index, every step of the patcher or of any thread keeps the invariant and moves each guest by whole instructions of its code |
| LivePatchProtocol.PatchingIsInvisible | lib/libriscv/livepatch.hpp:166-180 | unless a claimed entry stores its handler index: on every interleaving no thread uses an unpublished copy, pc is exact in either cache, each guest has executed a prefix of its own instruction sequence, and exceptions are the unpatched ones |
| LivePatchProtocol.TornEntry | lib/libriscv/rv64i.cpp:42-49 | an interleaving in which a handler index is stored into an overwritten entry and the next thread strays |
| LivePatchProtocol.InvisibleExactlyWhen | lib/libriscv/decoder_cache.hpp:50-53 | live patching is invisible on all interleavings if and only if no claimed entry has a handler that is looked up and stored |
| LivePatchProtocol.PatchNop | lib/libriscv/livepatch.hpp:138-180 | from the bytes of C.NOP, C.JR ra to a cache and a patched copy on which patching shows, for any handler index but 0 |
| Registry.StepOk | lib/libriscv/decoder_cache.cpp:63-113 | every step of any thread keeps the registry invariant |
| Registry.SharedSegment | lib/libriscv/decoder_cache.cpp:648-679 | in every reachable state all machines that have a segment for a key have the same complete object, which is the registry's, and nobody is generating another |
| Registry.LeavesUnheld | lib/libriscv/decoder_cache.cpp:84-102 | a segment leaves the registry only when no machine's slot refers to it |
| Registry.NoLockCycle | lib/libriscv/decoder_cache.cpp:675-678 | no reachable state has a cycle of threads waiting for each other's locks |
| Registry.NoDeadlock | lib/libriscv/decoder_cache.cpp:801-823 | while any thread is inside an operation, some such thread can take a step |
| ArenaHeap.FixupSize | lib/libriscv/native_heap.hpp:166-174 | a size is rounded up to a positive multiple of 16 at most 16 bytes away without passing 64 bits; sizes within 15 bytes of the top are left as they are |
| ArenaHeap.Arena.constructor | lib/libriscv/native_heap.hpp:444-450 | a new arena is one free chunk that spans [base, end) |
| ArenaHeap.Arena.NewChunk | lib/libriscv/native_heap.hpp:205-218 | a slot comes off the recycle list or the top, leaving one fewer, and is refused exactly when there is neither |
| ArenaHeap.Arena.SplitNext | lib/libriscv/native_heap.hpp:266-280 | one chunk becomes two in the list, or nothing changes for an exact fit or a missing slot |
| ArenaHeap.Arena.MergeNext | lib/libriscv/native_heap.hpp:254-264 | a chunk takes over its neighbour, whose slot is recycled |
| ArenaHeap.Arena.FindFree | lib/libriscv/native_heap.hpp:238-248 | the first free chunk that is large enough, in address order |
| ArenaHeap.Arena.Malloc | lib/libriscv/native_heap.hpp:325-339 | the lowest free run of the fixed-up size becomes live; unless it throws for want of a slot, 0 is returned if and only if there is no such run or one at address 0; the list stays acyclic, tiled, coalesced and mapped |
| ArenaHeap.Arena.SeqAllocAligned | lib/libriscv/native_heap.hpp:341-386 | the lowest free run that does not straddle a page becomes live, complete over all placements; it throws if and only if the size is over a page or fewer slots are left than that place needs, one for a free byte before it and one for a free byte behind it |
| ArenaHeap.Arena.PlaceInPage | lib/libriscv/native_heap.hpp:362-375 | the test admits a chunk if and only if some non-straddling placement in it exists, and then gives the lowest |
| ArenaHeap.Arena.InternalFree | lib/libriscv/native_heap.hpp:306-319 | the region leaves the live map and its bytes coalesce with free neighbours on both sides |
| ArenaHeap.Arena.Free | lib/libriscv/native_heap.hpp:428-438 | 0 if and only if the pointer was live, and then exactly that region is gone; otherwise nothing changes |
| ArenaHeap.Arena.SubsumeNext | lib/libriscv/native_heap.hpp:282-304 | growing into the next chunk takes exactly the bytes needed, recycling the chunk when nothing is left of it |
| ArenaHeap.Arena.Realloc | lib/libriscv/native_heap.hpp:388-415 | keeps; grows in place exactly when the bytes behind are free; moves to bytes that were free, with the exact old length to copy and the old pointer gone; or fails with all regions as they were (address 0 aside, see above) |
| ArenaHeap.Arena.Size | lib/libriscv/native_heap.hpp:417-426 | the length of a live region, 0 for any other pointer |
| ArenaHeap.Arena.BytesFree | lib/libriscv/native_heap.hpp:468-478 | the walk sums the free chunks |
| ArenaHeap.Arena.BytesUsed | lib/libriscv/native_heap.hpp:480-490 | the walk sums the used chunks |
| ArenaHeap.Arena.BytesAreConserved | lib/libriscv/native_heap.hpp:468-490 | free and used bytes always add up to the size of the arena |
| ArenaList.RunInOneCell | lib/libriscv/native_heap.hpp:313-318 | because neighbours are coalesced, any run of free bytes lies in one chunk |
| ArenaList.FreeMeansNotLive | lib/libriscv/native_heap.hpp:205-319 | a byte is free if and only if it is in the arena and in no live region |
| Mmap.MMapCache.Find | lib/libriscv/mmap_cache.hpp:28-50 | first fit: exactly the bytes of the result leave the free list, and an empty result means no line is large enough |
| Mmap.MMapCache.Carve | lib/libriscv/mmap_cache.hpp:55-79 | succeeds if and only if one line contains the range without wrap, and then exactly that range leaves the list |
| Mmap.MMapCache.Invalidate | lib/libriscv/mmap_cache.hpp:81-95 | the lines that survive are, in order, those neither in nor around the range, and whatever is behind a line equal to it; in a tidy list no line in or around the range survives |
| Mmap.InvalidateNothing | lib/libriscv/mmap_cache.hpp:81-95 | a list with no line in or around the range is left as it is |
| Mmap.NothingAfter | lib/libriscv/mmap_cache.hpp:89-91 | in a tidy list, stopping at an equal line leaves out no other line |
| Mmap.MMapCache.Insert | lib/libriscv/mmap_cache.hpp:97-108 | exactly the bytes of the range join the list, for any list and range; a list stays tidy if no line overlaps the range |
| Mmap.MmapArea.Allocate | lib/libriscv/memory_mmap.cpp:7-13 | the rounded range behind the pointer, none of it mapped before, becomes mapped |
| Mmap.MmapArea.Relax | lib/libriscv/memory_mmap.cpp:15-24 | the pointer moves back exactly when the range is the last one |
| Mmap.MmapArea.Unmap | lib/libriscv/memory_mmap.cpp:26-42 | the range is no longer mapped, and mapped and free bytes partition the area again |
| Mmap.MmapArea.Reserve | lib/libriscv/mmap_cache.hpp:28-50 | a found range was free and becomes mapped; the partition is kept |
| Mmap.MmapArea.ReserveAt | lib/libriscv/mmap_cache.hpp:55-79 | the same for an exact range |
| Mmap.MmapArea.Claim | lib/libriscv/linux/syscalls_mman.cpp:131-137 | a range beyond the pointer becomes mapped and what it skips becomes free |
| MmapRuns.MapAnywhere | lib/libriscv/linux/syscalls_mman.cpp:145-165 | mmap without an address hands out free bytes, from the free list or the end, and fails only for nothing or for want of room at the end |
| MmapRuns.MapExactly | lib/libriscv/linux/syscalls_mman.cpp:117-143 | mmap with MAP_FIXED_NOREPLACE hands out exactly the bytes asked for, all of them free, and never refuses whole pages beyond the end |
| MmapRuns.RunCalls | lib/libriscv/linux/syscalls_mman.cpp:11-165 | over any sequence of calls every answer is right for the bytes mapped at that time, and mapped bytes and free list partition the area |
| MmapRuns.NeverTwice | lib/libriscv/linux/syscalls_mman.cpp:11-165 | a byte handed out by two calls of a run was unmapped by a call between them |
| MmapRuns.Conserved | lib/libriscv/memory_mmap.cpp:26-42 | mapped bytes and the sizes of the free lines add up to the area: no byte is lost |
| Paging.Memory.CachedReadablePage | lib/libriscv/memory_inline_pages.hpp:4-21 | a hit or a lookup gives the data that the table names, if and only if the page is readable |
| Paging.Memory.CachedWritablePage | lib/libriscv/memory_inline_pages.hpp:23-34 | succeeds if and only if the page can be written to and is there or the limit has room; then it is owned and writable, and no byte of memory has changed |
| Paging.Memory.OwnedPagesBelow | lib/libriscv/memory_inline_pages.hpp:106-118 | below if and only if scans may be skipped or the count is; skipped scans and owned pages together stay bounded by the limit |
| Paging.Memory.PageFault | lib/libriscv/memory.cpp:155-165 | a new page in a buffer of its own, refused if and only if the handler finds no room |
| Paging.Memory.MakeWritable | lib/libriscv/page.hpp:131-145 | a loaned page is copied into a buffer of its own with the same bytes |
| Paging.Memory.CreateWritablePageno | lib/libriscv/memory_rw.cpp:29-52 | succeeds if and only if the page may be written to and is there or there is room; then exactly that page was written to, and no byte has changed except those of a page created uninitialised |
| Paging.Memory.Read | lib/libriscv/memory_inline.hpp:22-49 | the bytes of an access inside one page, if and only if the page is readable; nothing changes |
| Paging.Memory.Write | lib/libriscv/memory_inline.hpp:123-140 | succeeds under exactly the same condition; then exactly those bytes change, and otherwise none |
| Paging.Memory.StoreChunk | lib/libriscv/memory_helpers_paging.hpp:15-19 | the same; a page that is overwritten as a whole may be created uninitialised, and none of its old content shows |
| Paging.Memory.Memcpy | lib/libriscv/memory_helpers_paging.hpp:26-47 | stores all bytes, or those before the first page that cannot be written to when it gets there; exactly the pages of the stored bytes have been written to |
| Paging.Memory.Memset | lib/libriscv/memory_helpers_paging.hpp:3-23 | the same with one value |
| Paging.Memory.MemcpyOut | lib/libriscv/memory_helpers_paging.hpp:49-73 | the bytes at the source, if and only if all of its pages are readable |
| Paging.Memory.FreePages | lib/libriscv/memory_rw.cpp:122-154 | by either walk exactly the pages of the range go, and read as zeroes |
| Paging.Memory.InstallSharedPage | lib/libriscv/memory_rw.cpp:390-414 | refuses exactly to replace an owned page, and otherwise shows the shared bytes, writable or not, as long as no writable buffer sits at two page numbers |
| MemoryRuns.RunOps | lib/libriscv/memory_rw.cpp:29-52 | any sequence of reads, writes, copies, fills, frees and shared pages is one on a plain array of bytes with a permission for each page: same values, same bytes, same exceptions, and a permitted store is refused only for a page that is not there with the limit reached |
| MemoryRuns.RunPageOps | lib/libriscv/memory_inline_pages.hpp:96-118 | over any sequence of faults and frees, owned pages exceed the limit by at most 1024 |
| Forks.Fork | lib/libriscv/memory.cpp:728-789 | a fork owns nothing, uses its master's buffers as loans, and shows its master's bytes except on pages marked dont_fork |
| Forks.OneOwner | lib/libriscv/page.hpp:132-145 | each buffer has at most one owner, and no other machine uses a fork's own buffers |
| Forks.RunAll | lib/libriscv/memory_rw.cpp:29-52 | over any schedule of reads, writes, copies, fills and frees by any forks, the master keeps its bytes, and each fork goes through exactly what it would on an array of bytes of its own |
| Forks.LivesOverlaid | lib/libriscv/memory_rw.cpp:29-52 | on such a run every byte is what the machine's own operations left over what was there before |
| Forks.ForkAndRun | lib/libriscv/memory.cpp:728-789 | the same from the fork on, for any number of forks, and the bytes of each are its master's overlaid with its own |
| Memmove.CopyBytes | lib/libriscv/memory_helpers_paging.hpp:40 | copying forwards inside one buffer is as good as from a snapshot when it copies downwards |
| Memmove.GatherBuffers | lib/libriscv/memory_helpers_paging.hpp:553-596 | the buffers captured are those of every page of the range, in at most cnt stretches that are contiguous in the host; it succeeds if and only if all pages are readable and there are no more stretches |
| Memmove.CopyStep | lib/libriscv/native_libc.cpp:49-52 | one chunk, from one source page or across two adjacent ones, into a page that is created, copied or overwritten leaves the bytes still to be copied where they were captured |
| Memmove.MoveForwards | lib/libriscv/native_libc.cpp:45-53 | for a destination below the source: the original source bytes arrive and nothing else changes |
| Memmove.MoveBackwards | lib/libriscv/native_libc.cpp:56-73 | the same for the other direction, by words or bytes from the end |
| Memmove.NativeMemmove | lib/libriscv/native_libc.cpp:30-75 | for every overlap, alignment, page split and adjacency in the host, a normal return leaves the original source bytes at the destination and all others unchanged; an exception means an oversized length, a page that cannot be read or written to, or more than 256 stretches |
| Fp16.FromF64Rounds | lib/libriscv/fp16.hpp:84-132 | every finite double becomes the nearest half, ties to even, through subnormals and overflow; infinities stay infinite and NaNs become the quiet NaN, signs kept |
| Fp16.FromF32Rounds | lib/libriscv/fp16.hpp:41-76 | the same for floats |
| Fp16.NarrowingAgrees | lib/libriscv/fp16.hpp:41-132 | narrowing a float and narrowing the double of exactly its value give the same half |
| Fp16.ExactDouble | lib/libriscv/fp16.hpp:134-138 | every finite float is exactly some double, and infinities and NaNs have theirs |
| Fp16.NearestIsUnique | lib/libriscv/fp16.hpp:9-10 | nearest-even determines the half |
| Fp16.Renormalise | lib/libriscv/fp16.hpp:28-30 | the shifting loop finds the hidden bit, with its 32-bit exponent |
| Fp16.ToF32 | lib/libriscv/fp16.hpp:14-39 | widening keeps sign and exact value, infinities, and NaN payloads |
| Fp16.NarrowingInvertsWidening | lib/libriscv/fp16.hpp:14-132 | narrowing takes every half but NaN back to itself, from floats and from doubles |
| Fp16.NarrowingNaN | lib/libriscv/fp16.hpp:49-54 | a NaN comes back as the quiet NaN of its sign |

## Left out

- Isa.RewriteKeepsFlow: of the operands that threaded rewriting produces, only whether they are all zero is modelled; an entry keeps the original instruction bits.
- DecoderCache.DecodeExecuteRange: entries keep the original instruction bits, for the same reason.
- Machine.SimulatePrecise: runs inside one segment that does not become stale; handlers cannot read the limit, set it to nothing but zero, and only add to the counter.
- Dispatch.Simulate: the counter at an exception and which exception it is are not stated; an instruction that raises is taken to have changed nothing but a link register; the all-zero word is taken to be illegal, and pc does not wrap; behind the last instruction of a segment the dispatcher raises and simulate_precise looks for another segment, and here both just end.
- Dispatch.PreciseExactlyWhen: handlers may find any pc and counter stored, not only those the dispatcher has stored last.
- Dispatch.RunSegment: the same limits as Dispatch.Simulate.
- Dispatch.SimulateUndecoded: the test for guest code that was rewritten is left out.
- Dispatch.FinishIndirect: targets do not wrap.
- Dispatch.SameAsPrecise: for runs that end as simulate_precise does, and a positive limit, because a limit of zero is how a stopped machine looks.
- LivePatch.PatchedDecoderCache.ClaimAll: for segments whose instructions all decode, since otherwise the distances can be wrong (LivePatch.ClaimKeepsDistances); the counts, which the code calls inexact, are not stated.
- LivePatchProtocol.PatchingIsInvisible: memory is sequentially consistent; counters are not compared and handlers do not read them; native code is taken to execute whole instructions of the guest; threads that leave by the SYSTEM detour or the segment end are not followed further.
- LivePatchProtocol.SwitchOk: LIVEPATCH entries with handlers 1 and 2, which turn returns into STOP, are not modelled; a thread that reads a nonzero handler counts as astray.
- ArenaHeap.Arena.SeqAllocAligned: after a throw for want of a slot two free chunks may be neighbours, so only the rest of the structure is promised; the flat form, which is malloc, is not repeated.
- Mmap.MmapArea.Allocate: addresses do not wrap.
- MmapRuns.RunCalls: calls with MAP_FIXED, with a file or for mremap are left out, and munmap of bytes that are not mapped does nothing; in the code it puts them into the free list as they are.
- Mmap.MmapArea.Unmap: only mapped, page-aligned ranges are unmapped, and addresses do not wrap; the free list of other ranges is what MMapCache.Insert and MMapCache.Invalidate say.
- Paging.Memory.Memset: stores chunks through the same walk as memcpy.
- Paging.Memory.FreePages: address and length do not wrap.
- Paging.Memory.InstallSharedPage: a writable buffer at two page numbers is left out, since a write to one page would show in the other.
- MemoryRuns.RunPageOps: pages become owned only through the fault handler; each loaned page that is copied instead adds one to the bound.
- Forks.RunAll: the master is not written to after the fork, and forks install no shared pages; its pages would be shared live.
- Memmove.NativeMemmove: addresses do not wrap, and the instruction penalty is left out.
- Registry.SharedSegment: exceptions, machines that do not share segments and unequal arena sizes are left out; two codes with one key share a segment.
- Instruction semantics, floating point and vectors: a parameter of the dispatch theorem.
- 128-bit machines with the C-extension: their `decode` knows no compressed instruction (lib/libriscv/rv128i.cpp:6), the model's does.
- Stale segments, breakpoints and guests that rewrite their own code: the segment is fixed.
- Binary translation and asmjit: native code appears only as an assumption of the live-patch protocol.
- set_page_attr, memdiscard, memory traps, the flat and N-bit arenas, rodata images, minimal forks: they have other memory semantics.
- Arena.transfer, high_watermark, set_max_chunks and the unknown-pointer callbacks: copies and settings that would only add easy members; the default callbacks are modelled.
- ELF loading, system calls, signals, serialization, the C API, the debugger and the command line: input, output and plumbing.
