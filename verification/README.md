# Systems coursework, verified

A Dafny model of the stateful cores of a collection of systems coursework projects, with proofs of
what each of them is for:

- the segregated-list memory allocator: a word heap with boundary tags, 20 intrusive free lists, best
  fit, splitting, coalescing, and a realloc that can grow into either neighbour
  (`HeapLayout`, `FreeLists`, `HeapFrames`, `Allocator`);
- the five-stage pipelined RV32I processor against one-instruction-at-a-time execution
  (`Datapath`, `SingleCycle`, `WordBits`, `Instructions`, `Pipeline`, `PipelineRefinement`, `Timing`,
  `Processors`);
- Prim's and Dijkstra's algorithms with a lazily cleaned priority queue, and topological sorting
  (`Graphs`, `SpanningTrees`, `Prim`, `Dijkstra`, `TopologicalSort`);
- the left-leaning red-black tree and the B-tree, both with deletion on the way down
  (`RedBlackTrees`, `RedBlackNodes`, `RBTree`; `SortedSequences`, `BTrees`, `BTreeRemoval`,
  `BTreeOperations`, `BTreeSlots`, `BTreeNodes`, `BTreeArrays`, `BTreeInsertion`, `BTreeDeletion`, `BTree`);
- the Fibonacci heap (`FibonacciForests`, `SiblingRings`, `FibonacciHeap`) and the open-addressing
  hash table with linear and triangular probing (`Probing`, `HashTable`);
- the LRU cache tag store (`LruSets`, `DirtyLines`, `Division`, `CacheAddresses`, `CacheBase`);
- the MiniOS message queue and bitmap scheduler (`MessageQueue`, `OsLists`, `ReadyBits`, `Scheduler`).

Code that updates things in place is modelled by classes and methods on arrays and linked nodes.
Each such method is proved to compute a function of the old state, or a property of the new one,
and the lemmas are about those functions: a tree in the heap, for example, is described by a ghost
layout and a tree value, the methods on nodes compute the value functions, and balance, order and
key sets are proved of the values.

## Conventions

- Addresses are byte offsets into one heap region, and NULL is 0. A request is assumed not to wrap
  when rounded: `size + 15 < 2^32` for malloc, and `size + 24 <= 2^32` for realloc, which rounds
  twice. `HeapLayout.AlignedRequestExact` and `HeapLayout.SecondRoundingExact` show that these are
  the exact conditions. The region is at most 2^31 bytes, the largest remainder that the best-fit
  loop can compare.
- Between the calls of the allocator a program writes into the payloads it holds. `Store` in
  `Allocator` stands for that: it keeps the invariant and every other payload, so the guarantees hold
  for histories in which blocks are used.
- Machine words of the processors are integers below 2^32 with explicit wrap-around. Control
  transfer instructions are those of section 2.5 of the RISC-V Unprivileged ISA.
- Edge weights are reals, keys are integers, and `T()` is the integer 0.
- Cache sizes enter through quotients and remainders; `CacheAddresses.ShiftsAndMasks` proves that
  these are what the shifts and masks of the code compute for powers of two.

## Findings

- The pipelined processor takes the target of `jalr` from the ALU, where bit 30 of the word selects
  subtraction. Both processors agree on a legal `jalr` exactly when that bit is clear
  (`Datapath.JalrTargetExact`; `Datapath.JalrTargetDiffers` is a word on which they differ).
- The single-cycle processor writes its registers half a cycle before it latches the next PC. A
  `jalr` whose base and destination register coincide therefore jumps relative to its own link
  address (`SingleCycle.CycleExact` gives the exact condition, and `SingleCycle.OwnLinkShows` a case).
  On the programs that both processors otherwise treat alike, this is the only way in which they
  differ (`Processors.ProcessorsAgreeExactly`).
- Branches with function codes 010 and 011 leave the comparison of an earlier instruction in force.
  The next PC is a function of the word and the architectural state exactly for all other words and
  for such branches to the next word (`SingleCycle.ArchitecturalExactly`;
  `SingleCycle.LatchedBranchShows` is a branch that goes both ways).
- Insertion into a B-tree compares the key with one slot of a leaf only, which may be a dead one
  behind the last key (`BTrees.InsertSucceeds` gives the exact condition for every key). A new key
  that this slot happens to hold is refused: the blank value (`BTreeOperations.BlankIsLost`), or a key
  that was removed before (`BTreeSlots.RemovedKeyIsLost`), but never any other
  (`BTreeObjects.BTree.Insert`). A key that is there already goes in again when it is the middle key of
  a full leaf or stands in an inner node (`BTreeOperations.PresentKeyExactly` gives the exact
  condition, and `BTreeSlots.MiddleKeyTwice` a family of cases).
- What both processors execute is not RV32I everywhere. `lbu` and `lhu` add their offset without its
  sign (`Instructions.UnsignedLoadExactly`, with `Instructions.UnsignedLoadShows` as a case); byte and
  halfword accesses reach the low end of the word whatever the address
  (`Instructions.LoadLaneExactly`, `Instructions.StoreLaneExactly`); `jalr` keeps the lowest bit of its
  target (`Instructions.JumpRegisterExactly`); `lui` works for some words only
  (`Instructions.LuiExactly`), and `auipc` for none (`Instructions.AuipcNever`).
- The hazard unit stalls whenever the destination of a load stands in a source field of the next word,
  whether that word reads the field or not. The cycles of a run are counted accordingly
  (`Timing.RetiresExactly`).
- A write-back that brings a line into a cache leaves it clean, so that what was written back is not
  written on when the line leaves (`DirtyLines.WriteBackMarksExactly`).
- Write-backs enter a set as most recent when they fill, but do not become most recent on a hit. On
  traces without them more ways never cost a hit (`LruSets.HitsAreMonotone`). On all traces, going
  from a to b ways keeps every hit exactly when a is 1 or a equals b (`LruSets.HitsKeptExactly`;
  `LruSets.WriteBackBreaksInclusion` builds a trace that loses a hit for every other a and b).
- The comment above `mm_realloc` says that it is implemented simply in terms of malloc and free; the
  code, which the model follows, first tries to grow into the neighbours.
- A victim at address 0 cannot be told from the absence of a victim, since both are reported as 0:
  `Caches.CacheBase.Access` says exactly when 0 is reported, and `Caches.VictimAtZero` is a case.

## Model

| member | source | states |
|---|---|---|
| `SegregatedAllocator.Allocator.constructor` | malloclab/mm.c:58-59 | before mm_init no byte has been obtained and the region that can be obtained is fixed |
| `SegregatedAllocator.Allocator.Sbrk` | malloclab/mm.c:78-79 | the break moves by the given amount over unchanged memory, or the call fails exactly when the region is too small and then changes nothing |
| `SegregatedAllocator.Allocator.Init` | malloclab/mm.c:226-241 | succeeds exactly when 16 bytes can be had, and then the heap is the prologue and the epilogue with 20 empty lists: the invariant of all later operations holds with no block |
| `SegregatedAllocator.Allocator.GetMsbPos` | malloclab/mm.c:67-73 | the shifting loop computes the capped position of the highest set bit |
| `FreeLists.MsbPosIsFloorLog` | malloclab/mm.c:67-73 | the position is the integer logarithm: 2^p <= size < 2^(p+1) below the cap, and only 2^19 <= size at it |
| `FreeLists.MsbPosMonotone` | malloclab/mm.c:67-73 | a larger block never belongs to an earlier list, which is why a search may start at the class of the request |
| `HeapLayout.Pack` | malloclab/mm.c:37-43 | size and flag survive being packed into one word, for every multiple of 8 |
| `HeapLayout.AlignedRequestExact` | malloclab/mm.c:25-25 | rounding a request up does not wrap exactly when size + 15 is below 2^32, and then it gives a multiple of 8 with room for the overhead and less than 16 bytes more than asked |
| `HeapLayout.SecondRoundingExact` | malloclab/mm.c:290-324 | realloc rounds a request twice; the second rounding wraps for the last requests only, exactly when size + 24 exceeds 2^32 |
| `HeapLayout.PreviousTag` | malloclab/mm.c:49-49 | the footer word before a block leads back to its predecessor, or for the first block to the prologue, whose flag says allocated |
| `HeapLayout.NextTag` | malloclab/mm.c:48-48 | the size in a header leads to the header of the following block, or to the epilogue word |
| `HeapLayout.Predecessor` | malloclab/mm.c:45-49 | every block but the first has exactly adjoining neighbours: some block ends where it begins |
| `HeapLayout.TilingIsWalkable` | malloclab/mm.c:48-48 | following headers from any block arrives at the epilogue at the break, so the blocks tile the heap |
| `HeapFrames.LiveBlocksDisjoint` | malloclab/mm.c:248-266 | all blocks handed out are 8-aligned, inside the heap and share no byte with each other, tags included |
| `HeapLayout.FreeFollowsFromLive` | malloclab/mm.c:87-121 | a coalesced heap is determined by its live blocks and the break: two of them with the same live blocks up to the same address have the same free blocks. So what free and realloc leave free follows from what their contracts say of the live blocks |
| `SegregatedAllocator.Allocator.Insert` | malloclab/mm.c:189-202 | the block comes first in the list of its class, the other lists, all tags and all live payloads stay |
| `SegregatedAllocator.Allocator.Delete` | malloclab/mm.c:204-222 | in all four cases of its neighbours, exactly this block leaves the list of its class, and all tags and live payloads stay |
| `FreeLists.PushOk` | malloclab/mm.c:189-202 | the link words written by a push keep 20 null-terminated doubly linked lists that hold each free block once, in its class |
| `FreeLists.UnlinkOk` | malloclab/mm.c:204-222 | so do the link words written by an unlinking, for a list element at any position |
| `SegregatedAllocator.Allocator.FindFit` | malloclab/mm.c:139-159 | the search over size classes finds a block of smallest adequate size among all free blocks of the heap, the first of that size in its list, and NULL means that no free block is large enough |
| `SegregatedAllocator.Allocator.FindBest` | malloclab/mm.c:143-154 | the inner loop finds the first block of smallest adequate size in one class, or nothing exactly when none is adequate |
| `SegregatedAllocator.Allocator.Place` | malloclab/mm.c:163-187 | the given free block is cut at exactly one place: the block handed out has the requested size, or the whole size when at most 16 bytes would be left, and stands at the front for a request of more than 100 bytes and at the back for a smaller one; no other live block or payload changes |
| `SegregatedAllocator.Allocator.SplitOff` | malloclab/mm.c:171-185 | of a block with room to spare exactly the requested size becomes live, at its front or its back, and the rest is free and filed again |
| `HeapFrames.SplitBooks` | malloclab/mm.c:171-185 | cutting a free block keeps free blocks apart and changes the free set and the live set by exactly the two parts |
| `SegregatedAllocator.Allocator.MergePrev` | malloclab/mm.c:92-100 | joining with a free predecessor: one free block over both, in its new class, all live payloads kept |
| `SegregatedAllocator.Allocator.MergeNext` | malloclab/mm.c:101-109 | joining with a free successor |
| `SegregatedAllocator.Allocator.MergeBoth` | malloclab/mm.c:110-119 | joining with free neighbours on both sides |
| `SegregatedAllocator.Allocator.Coalesce` | malloclab/mm.c:87-121 | the result is one free block that begins at the free predecessor if there is one and ends behind the free successor if there is one, and nowhere else; no two free blocks are adjacent afterwards, and live blocks and payloads stay |
| `HeapFrames.MergeLeavesNoPair` | malloclab/mm.c:92-119 | after a join at most the joined block can border on a free one |
| `SegregatedAllocator.Allocator.ExtendHeap` | malloclab/mm.c:75-85 | the heap grows by exactly the rounded number of words over the old epilogue; the result is a free block up to the new break that begins at the old break, or at the free block that ended there; or nothing changes, exactly when the region is exhausted |
| `HeapFrames.GrowOk` | malloclab/mm.c:80-83 | the three tag words written at the break extend the tiling by one free block |
| `SegregatedAllocator.Allocator.Malloc` | malloclab/mm.c:248-266 | NULL, with nothing changed, exactly for size 0 or when no free block fits and the heap cannot grow. Otherwise one new block, disjoint from all live ones, cut by the rule of place from the first best fit if any block fits, and else from the end of a heap grown by the larger of a chunk and the request; all live payloads are kept |
| `SegregatedAllocator.Allocator.Free` | malloclab/mm.c:271-277 | exactly this block stops being live, every other payload is kept, and the heap is coalesced again |
| `SegregatedAllocator.Allocator.Memmove` | malloclab/mm.c:316-327 | overlapping or not, every cell of the destination ends up with what the matching source cell held before, and nothing outside the destination changes, although the cells are copied one at a time in place |
| `SegregatedAllocator.Allocator.AbsorbNext` | malloclab/mm.c:298-305 | a block takes over its free successor in place: its size grows by exactly that of the successor, which is the only free block to go, and every payload is kept, its own included |
| `SegregatedAllocator.Allocator.SlideDown` | malloclab/mm.c:307-320 | a block moves down into its free predecessor, with the successor only when the predecessor is not enough: size, address and remaining free blocks are exact, the old payload is found whole at the new address although the ranges overlap, and nothing else changes |
| `SegregatedAllocator.Allocator.DropNeighbours` | malloclab/mm.c:308-314 | the deletions before a slide take out exactly the neighbours that the new block will cover, and the size to build is the sum of exactly those |
| `SegregatedAllocator.Allocator.FinishSlide` | malloclab/mm.c:315-319 | the move and the retagging that end a slide restore the invariant |
| `SegregatedAllocator.Allocator.MoveToFresh` | malloclab/mm.c:324-329 | a fresh block, as malloc serves it, receives the whole old payload before the old block is freed, and NULL is returned exactly when malloc fails, with everything unchanged |
| `SegregatedAllocator.Allocator.RegrowElsewhere` | malloclab/mm.c:307-329 | when block and successor are too small: down into the predecessor, with the exact resulting blocks, exactly when that makes enough room, else a block that malloc serves, or NULL and nothing changed |
| `SegregatedAllocator.Allocator.Regrow` | malloclab/mm.c:287-329 | all branches of realloc for a rounded request: nothing changes when the block is large enough; else the block with its whole successor, the block moved to its predecessor with or without the successor, or a block that malloc serves. The branch follows from the neighbours, and each gives the exact live and free blocks |
| `SegregatedAllocator.Allocator.Realloc` | malloclab/mm.c:282-330 | a block that is large enough is returned with heap and lists untouched; in every branch the old payload is found whole at the result, the new block has exactly the size of the branch and is disjoint from all others, and no other payload changes; NULL exactly for an empty request or when a fresh block was needed and malloc fails, which leaves everything as it was |
| `HeapFrames.SlideOk` | malloclab/mm.c:315-319 | moving a payload into an overlapping lower block and writing two tags keeps lists, tags and all other payloads |
| `Datapath.ControlTable` | CPU-cache/WonhoLee_Lab2/src/modules/control/control.v:22-41 | which signals exclude each other in the decoding table: what hazards and forwarding rely on. What the words then do is stated by the lemmas of Instructions |
| `Datapath.ZeroWordIsBubble` | CPU-cache/WonhoLee_Lab2/src/modules/memory/ifid_reg.v:29-43 | the zero word that a flush leaves behind decodes to an instruction that does nothing |
| `Datapath.JalrTargetExact` | CPU-cache/WonhoLee_Lab2/src/modules/control/alu_control.v:60-70 | for a legal jalr the ALU result used as target by the pipelined CPU is the sum used by the single-cycle one exactly when bit 30 of the word is clear |
| `Datapath.JalrTargetDiffers` | CPU-cache/WonhoLee_Lab2/src/modules/control/alu_control.v:60-70 | a legal jalr whose offset is 1024 and whose ALU target lies 1024 below the base instead of above |
| `Instructions.FieldsExactly` | CPU-cache/WonhoLee_Lab1/src/simple_cpu.v:65-73 | a word has given opcode, register, function and funct7 fields exactly when it is put together from them |
| `WordBits.ZipBit` | CPU-cache/WonhoLee_Lab2/src/modules/operation/alu.v:25-27 | xor, or and and act on every bit |
| `WordBits.ShiftedLeftBit` | CPU-cache/WonhoLee_Lab2/src/modules/operation/alu.v:34-34 | bit i after a left shift by n is bit i - n, or clear |
| `WordBits.ShiftedRightBit` | CPU-cache/WonhoLee_Lab2/src/modules/operation/alu.v:35-36 | bit i after a right shift by n is bit i + n, and above that clear or the sign |
| `WordBits.BitsDetermine` | CPU-cache/WonhoLee_Lab2/src/modules/operation/alu.v:21-41 | a word is determined by its 32 bits |
| `Instructions.ResultDetermined` | CPU-cache/WonhoLee_Lab2/src/modules/operation/alu.v:21-41 | for each function code at most one word has the arithmetic value or the bits that the ISA asks for |
| `Instructions.AluComputes` | CPU-cache/WonhoLee_Lab2/src/modules/operation/alu.v:21-41 | the operation selected for a function code computes it: sum and difference modulo 2^32, signed and unsigned comparison, and bit by bit the shifts and the logical operations |
| `Instructions.RegisterWord` | CPU-cache/WonhoLee_Lab2/src/modules/control/control.v:24-24 | a register-register word puts the result of its function on x[rs1] and x[rs2] into x[rd], or 0 where bit 30 names no function; it goes to the next word and leaves memory and all other registers |
| `Instructions.ImmediateWord` | CPU-cache/WonhoLee_Lab2/src/modules/control/control.v:29-29 | likewise with the sign-extended upper 12 bits of the word as second operand |
| `Instructions.LoadWord` | CPU-cache/WonhoLee_Lab2/src/modules/memory/data_memory.v:42-66 | a load puts the byte, halfword or word at x[rs1] plus its offset, extended as its function code says, into x[rd]; the unused codes 3, 6 and 7 included |
| `Instructions.StoreWord` | CPU-cache/WonhoLee_Lab2/src/modules/memory/data_memory.v:26-39 | a store changes one memory word, in its low byte, its low half or all of it, or clears it for the unused code 3, and no register |
| `Instructions.BranchWord` | CPU-cache/WonhoLee_Lab2/src/modules/control/control.v:32-32 | a branch goes to pc plus its offset exactly when its comparison of x[rs1] and x[rs2] holds, and otherwise to the next word; nothing else changes |
| `Instructions.JumpWord` | CPU-cache/WonhoLee_Lab2/src/modules/control/control.v:33-33 | jal goes to pc plus its offset and links pc + 4 in x[rd] |
| `Instructions.JumpRegisterWord` | CPU-cache/WonhoLee_Lab2/src/modules/control/control.v:34-34 | jalr goes to x[rs1] plus its offset and links pc + 4 in x[rd] |
| `Instructions.OtherWord` | CPU-cache/WonhoLee_Lab2/src/modules/control/control.v:37-37 | a word with any opcode outside the table only moves on |
| `Instructions.JumpRegisterExactly` | CPU-cache/WonhoLee_Lab1/src/simple_cpu.v:188-252 | the target of jalr is that of the ISA, which clears its lowest bit, exactly when base plus offset is even |
| `Instructions.UnsignedLoadExactly` | CPU-cache/WonhoLee_Lab2/src/modules/operation/immediate_generator.v:20-20 | lbu and lhu take their offset without its sign: it is that of the ISA for every base exactly when the sign is clear |
| `Instructions.UnsignedLoadShows` | CPU-cache/WonhoLee_Lab2/src/modules/operation/immediate_generator.v:20-20 | lbu x1, -1(x2) adds 4095 |
| `Instructions.LoadLaneExactly` | CPU-cache/WonhoLee_Lab2/src/modules/memory/data_memory.v:42-66 | byte and halfword loads read what stands at their address, in every memory, exactly when it is a multiple of 4 |
| `Instructions.StoreLaneExactly` | CPU-cache/WonhoLee_Lab2/src/modules/memory/data_memory.v:32-37 | byte and halfword stores write to their address exactly when it is a multiple of 4 |
| `Instructions.LuiWord` | CPU-cache/WonhoLee_Lab2/src/modules/control/control.v:35-36 | lui and auipc are executed as the ALU operation that their immediate bits happen to name, on the register that they happen to name |
| `Instructions.LuiExactly` | CPU-cache/WonhoLee_Lab2/src/modules/control/control.v:35-35 | lui loads its immediate in every state exactly when those bits name x0 and add, xor or or |
| `Instructions.AuipcNever` | CPU-cache/WonhoLee_Lab2/src/modules/control/control.v:36-36 | no auipc word adds the pc: for each there is a state in which the result is wrong |
| `SingleCycle.HeldIsInvisible` | CPU-cache/WonhoLee_Lab2/src/modules/control/alu_control.v:39-98 | the comparison left over from an earlier word shows only for branches with the two unassigned function codes |
| `SingleCycle.ArchitecturalExactly` | CPU-cache/WonhoLee_Lab2/src/modules/control/alu_control.v:39-98 | the next PC is a function of the word, the PC and the registers exactly when the word is no branch with one of the two unassigned function codes, or its target is the next word anyway |
| `SingleCycle.LatchedBranchShows` | CPU-cache/WonhoLee_Lab2/src/modules/control/alu_control.v:39-56 | a branch word with function code 010 that goes to two different addresses from the same registers, depending on the comparison before it |
| `SingleCycle.CycleExact` | CPU-cache/WonhoLee_Lab1/src/simple_cpu.v:188-252 | one clock cycle of the single-cycle CPU executes one instruction unless the word is a jalr that overwrites its own base register with another value, and then it does not |
| `SingleCycle.OwnLinkShows` | CPU-cache/WonhoLee_Lab1/src/simple_cpu.v:30-33 | jalr x1, 0(x1) at address 0 with 8 in x1: the instruction goes to 8, the clocked machine to 4 |
| `SingleCycle.CyclesAreSteps` | CPU-cache/WonhoLee_Lab1/src/simple_cpu.v:30-33 | as long as no such jalr occurs, k cycles execute k instructions |
| `SingleCycle.SingleCycleCpu.constructor` | CPU-cache/WonhoLee_Lab1/src/simple_cpu.v:30-45 | the machine starts at address 0 |
| `SingleCycle.SingleCycleCpu.Clock` | CPU-cache/WonhoLee_Lab1/src/simple_cpu.v:30-33 | the falling edge writes registers and memory, and the rising edge latches the next PC computed from what was written |
| `Pipeline.IfIdReg.Posedge` | CPU-cache/WonhoLee_Lab2/src/modules/memory/ifid_reg.v:29-43 | cleared on a flush, held on a stall, loaded otherwise |
| `Pipeline.IdExReg.Posedge` | CPU-cache/WonhoLee_Lab2/src/modules/memory/idex_reg.v:73-104 | the control fields become a bubble on a flush or a stall, the data fields are loaded |
| `Pipeline.RegisterFile.Negedge` | CPU-cache/WonhoLee_Lab2/src/modules/memory/register_file.v:22-28 | the enabled write takes place at the falling edge, and register 0 is set to zero again |
| `Pipeline.PipelinedCpu.constructor` | CPU-cache/WonhoLee_Lab2/src/simple_cpu.v:98-103 | the machine starts with address 0 and only bubbles |
| `Pipeline.PipelinedCpu.Clock` | CPU-cache/WonhoLee_Lab2/src/simple_cpu.v:98-403 | a falling and a rising edge take all registers of the object to the next state of the pipeline function |
| `PipelineRefinement.ForwardedIsArchitectural` | CPU-cache/WonhoLee_Lab2/src/modules/control/forwarding.v:20-33 | in every state that refines the sequential machine, the selected operand of an instruction in EX is the architectural value of its register just before it |
| `PipelineRefinement.ExWiresMatch` | CPU-cache/WonhoLee_Lab2/src/simple_cpu.v:244-321 | store operand, ALU result and branch outcome of the instruction in EX are those of the sequential machine just before it |
| `PipelineRefinement.ExDecides` | CPU-cache/WonhoLee_Lab2/src/modules/control/hazard.v:22-38 | a redirect or its absence in EX is the sequential machine's choice of the next address, and a bubble never causes one |
| `PipelineRefinement.WbStep` | CPU-cache/WonhoLee_Lab2/src/modules/memory/memwb_reg.v:42-50 | what reaches write-back is what the sequential machine writes, and the register file follows its register file |
| `PipelineRefinement.MemStep` | CPU-cache/WonhoLee_Lab2/src/modules/memory/exmem_reg.v:54-67 | what reaches MEM is the ALU result and store value of the sequential machine |
| `PipelineRefinement.StoresMatch` | CPU-cache/WonhoLee_Lab2/src/modules/memory/data_memory.v:23-67 | the data memory after each falling edge is that of the sequential machine |
| `PipelineRefinement.ExStep` | CPU-cache/WonhoLee_Lab2/src/modules/memory/idex_reg.v:73-104 | what reaches EX is the next instruction of the sequential machine or a bubble, with operands that are current or will be forwarded; a load in MEM is never the source of a forward |
| `PipelineRefinement.FrontStep` | CPU-cache/WonhoLee_Lab2/src/modules/memory/ifid_reg.v:29-43 | the front end fetches along the fall-through path from the last decided address, through flushes and stalls |
| `PipelineRefinement.StartRefines` | CPU-cache/WonhoLee_Lab2/src/simple_cpu.v:98-103 | the all-bubble start refines the sequential start |
| `PipelineRefinement.AdvanceRefines` | CPU-cache/WonhoLee_Lab2/src/simple_cpu.v:98-403 | one cycle keeps the refinement, the sequential machine advancing exactly when an instruction retires |
| `PipelineRefinement.RunRefines` | CPU-cache/WonhoLee_Lab2/src/simple_cpu.v:98-403 | every run of the pipeline refines the sequential run of as many instructions as have retired |
| `PipelineRefinement.PipelineIsSequential` | CPU-cache/WonhoLee_Lab2/src/simple_cpu.v:98-403 | the log of retired addresses and register writes equals that of one-at-a-time execution, and so do the registers and the data memory, after any number of cycles, for every program whose executed instructions are ones on which the two processors agree |
| `PipelineRefinement.ExIsOnPath` | CPU-cache/WonhoLee_Lab2/src/modules/control/forwarding.v:20-33 | in every reachable state a real instruction in EX is on the sequential path and its forwarded operands are architectural |
| `PipelineRefinement.CycleAccounting` | CPU-cache/WonhoLee_Lab2/src/modules/control/hazard.v:22-38 | the number of cycles is retired instructions plus those in flight plus stalls plus twice the redirects; Timing.CostsExact says which stalls and redirects occur |
| `PipelineRefinement.NoTwoStalls` | CPU-cache/WonhoLee_Lab2/src/modules/control/hazard.v:28-32 | a stall is followed by a cycle that neither stalls nor redirects |
| `PipelineRefinement.Progress` | CPU-cache/WonhoLee_Lab2/src/modules/memory/idex_reg.v:73-104 | after any number of cycles, an instruction is in EX within two more |
| `PipelineRefinement.RetiresInTime` | CPU-cache/WonhoLee_Lab2/src/modules/control/hazard.v:22-38 | execution always progresses: n cycles retire at least a third of n - 8 instructions, and k instructions have retired after 3k + 6 cycles |
| `Timing.HazardExactly` | CPU-cache/WonhoLee_Lab2/src/modules/control/hazard.v:22-38 | the hazard unit redirects exactly for a jump or a branch whose condition holds, and stalls exactly for a load whose destination stands in one of the two source fields of the word that follows it, read or not |
| `Timing.CostsExact` | CPU-cache/WonhoLee_Lab2/src/modules/control/hazard.v:22-38 | after any number of cycles, stalls and redirects are those of the instructions past EX, counted on the sequential run alone |
| `Timing.LeftExExactly` | CPU-cache/WonhoLee_Lab2/src/modules/control/hazard.v:22-38 | instruction k leaves EX in a cycle given by the stalls and redirects before it |
| `Timing.RetiresExactly` | CPU-cache/WonhoLee_Lab2/src/simple_cpu.v:98-403 | instruction k has retired after n cycles exactly when n is at least 5 + k, plus one for every earlier load whose destination the next word names, plus two for every earlier jump or taken branch |
| `Processors.ClockPipeline` | CPU-cache/WonhoLee_Lab2/src/riscv_tb.v:33-37 | the pipelined object, clocked n times, is in the state that n cycles of the pipeline function give |
| `Processors.ClockSingleCycle` | CPU-cache/WonhoLee_Lab1/src/riscv_tb.v:28-30 | likewise the single-cycle object |
| `Processors.ProcessorsAgreeExactly` | CPU-cache/WonhoLee_Lab2/src/simple_cpu.v:98-403 | after any number of cycles the pipelined processor has retired exactly what the clocked single-cycle one executes in as many cycles as instructions have retired, if and only if no instruction before the last one is a jalr that overwrites its own base register with another value |
| `Processors.Diverges` | CPU-cache/WonhoLee_Lab1/src/simple_cpu.v:30-33 | behind the first such jalr the clocked single-cycle design stands at another address |
| `Processors.SameMachines` | CPU-cache/WonhoLee_Lab2/src/simple_cpu.v:98-403 | without such a jalr the two processors hold the same registers, and the same memory up to the store that the pipeline has made but not retired |
| `Graphs.Graph.constructor` | data-structure/07-graph/include/graph.hpp:44-57 | each adjacency list holds exactly the pushed arcs in the order of the edge list, and the lists together represent the edges, directed or in both directions |
| `Graphs.PushedCount` | data-structure/07-graph/include/graph.hpp:52-56 | an arc is in the list of a vertex as often as the edge list holds its edge, plus, if undirected, as often as it holds the reversed one |
| `Graphs.PushedEdge` | data-structure/07-graph/include/graph.hpp:52-56 | pushing one more edge represents the longer edge list |
| `Graphs.ExtractTop` | data-structure/07-graph/include/prim_minimum_spanning_tree.hpp:26-27 | top and pop take a greatest tuple out of the queue, and only that |
| `SpanningTrees.ConnectsMeansWalks` | data-structure/07-graph/include/prim_minimum_spanning_tree.hpp:39-40 | connectivity by cuts, as used in the proofs, is connectivity by walks |
| `SpanningTrees.Exchange` | data-structure/07-graph/include/prim_minimum_spanning_tree.hpp:24-38 | an edge out of a connected part can replace some later tree edge across the same cut, and the tree still connects |
| `Prim.PromiseKept` | data-structure/07-graph/include/prim_minimum_spanning_tree.hpp:24-38 | extending by a lightest edge out of the visited vertices keeps the tree part of some minimum spanning tree |
| `Prim.TopIsLightest` | data-structure/07-graph/include/prim_minimum_spanning_tree.hpp:25-30 | the first queue entry with an unvisited vertex carries a lightest edge out of the visited vertices, in spite of stale entries and of visited vertices that were relaxed |
| `Prim.Joins` | data-structure/07-graph/include/prim_minimum_spanning_tree.hpp:28-31 | visiting that vertex keeps the whole loop invariant |
| `Prim.NothingLeft` | data-structure/07-graph/include/prim_minimum_spanning_tree.hpp:39-41 | with an empty queue the number of edges tells whether the graph is connected |
| `Prim.RelaxArcs` | data-structure/07-graph/include/prim_minimum_spanning_tree.hpp:32-37 | the inner loop restores that every edge out of the visited vertices is matched by an entry at least as good |
| `Prim.PrimMinimumSpanningTree` | data-structure/07-graph/include/prim_minimum_spanning_tree.hpp:15-42 | a spanning tree of minimum total weight exactly when the graph is connected, nothing otherwise, for every undirected weighted multigraph and every start |
| `Dijkstra.TopIsNearest` | data-structure/07-graph/include/dijkstra_shortest_paths.hpp:33-38 | the first entry with an unvisited vertex carries that vertex's true distance |
| `Dijkstra.PathOut` | data-structure/07-graph/include/dijkstra_shortest_paths.hpp:32-45 | every path that leaves the settled vertices is at least as long as the best queue entry |
| `Dijkstra.ChainIsPath` | data-structure/07-graph/include/dijkstra_shortest_paths.hpp:37-37 | following predecessors back spells out a path whose weight is the reported distance |
| `Dijkstra.NothingLeft` | data-structure/07-graph/include/dijkstra_shortest_paths.hpp:32-47 | with an empty queue the vertices without an answer are unreachable |
| `Dijkstra.RelaxArcs` | data-structure/07-graph/include/dijkstra_shortest_paths.hpp:39-44 | the inner loop restores that every arc out of the settled vertices is matched by an entry at least as good |
| `Dijkstra.NoAnswers` | data-structure/07-graph/include/dijkstra_shortest_paths.hpp:29-30 | every vertex has an entry, which is empty at first |
| `Dijkstra.DijkstraShortestPath` | data-structure/07-graph/include/dijkstra_shortest_paths.hpp:19-48 | with non-negative weights: an answer exactly for the reachable vertices, with the true shortest distance and a predecessor chain that realises it |
| `TopologicalSorting.CountIncoming` | data-structure/07-graph/include/topological_sort.hpp:15-17 | the counters start as the numbers of incoming arcs, parallel arcs counted separately |
| `TopologicalSorting.FirstReady` | data-structure/07-graph/include/topological_sort.hpp:18-20 | the queue starts with exactly the vertices that nothing leads to |
| `TopologicalSorting.ArcDone` | data-structure/07-graph/include/topological_sort.hpp:25-30 | a counter is above zero when it is decremented |
| `TopologicalSorting.BecomesReady` | data-structure/07-graph/include/topological_sort.hpp:28-29 | a vertex enters the queue once, when its last arc is done |
| `TopologicalSorting.BlockedFromCycle` | data-structure/07-graph/include/topological_sort.hpp:21-31 | what is left over when the queue is empty is reachable from a cycle |
| `TopologicalSorting.ListedNotFromCycle` | data-structure/07-graph/include/topological_sort.hpp:21-31 | what is listed is not reachable from a cycle |
| `TopologicalSorting.CompleteIffAcyclic` | data-structure/07-graph/include/topological_sort.hpp:32-32 | all n vertices are listed exactly when the graph has no cycle |
| `TopologicalSorting.TopologicalSort` | data-structure/07-graph/include/topological_sort.hpp:9-33 | lists without repetition exactly the vertices not reachable from a cycle, each after all its predecessors |
| `RedBlackTrees.FixUpBalance` | data-structure/03-rbtree/include/rbtree.hpp:280-286 | repairs every node whose subtrees are proper and of equal black height, without changing the black height |
| `RedBlackTrees.MoveRedLeftShape` | data-structure/03-rbtree/include/rbtree.hpp:310-319 | makes the left child or one of its children red, at equal black heights |
| `RedBlackTrees.MoveRedRightShape` | data-structure/03-rbtree/include/rbtree.hpp:289-297 | makes the right child or one of its children red, at equal black heights; the key may move down to the right |
| `RedBlackTrees.InsertFixBalance` | data-structure/03-rbtree/include/rbtree.hpp:257-259 | the three tests after an insertion repair what the insertion can have broken |
| `RedBlackTrees.InsertBalance` | data-structure/03-rbtree/include/rbtree.hpp:251-262 | insertion keeps the black height; only a red node can come back with a red left child |
| `RedBlackTrees.InsertKeys` | data-structure/03-rbtree/include/rbtree.hpp:251-262 | exactly the given key is added, and the order is kept |
| `RedBlackTrees.ContainsIsMembership` | data-structure/03-rbtree/include/rbtree.hpp:367-374 | the search tells membership |
| `RedBlackTrees.LeftmostIsLeast` | data-structure/03-rbtree/include/rbtree.hpp:351-356 | the leftmost key is the least |
| `RedBlackTrees.RightmostIsGreatest` | data-structure/03-rbtree/include/rbtree.hpp:359-364 | the rightmost key is the greatest |
| `RedBlackTrees.RemoveMinBalance` | data-structure/03-rbtree/include/rbtree.hpp:322-328 | removing the least key keeps the black height and the shape, entered from a black root as well |
| `RedBlackTrees.RemoveMinKeys` | data-structure/03-rbtree/include/rbtree.hpp:322-328 | exactly the least key leaves |
| `RedBlackTrees.RemoveMaxBalance` | data-structure/03-rbtree/include/rbtree.hpp:300-307 | removing the greatest key keeps the black height and the shape, also where the node leans right on the way |
| `RedBlackTrees.RemoveMaxKeys` | data-structure/03-rbtree/include/rbtree.hpp:300-307 | exactly the greatest key leaves |
| `RedBlackTrees.EntersLeft` | data-structure/03-rbtree/include/rbtree.hpp:333-336 | the left child that removal goes on to can lose a key |
| `RedBlackTrees.EntersRight` | data-structure/03-rbtree/include/rbtree.hpp:337-346 | so can the right child, whether the key sits at the node or below it |
| `RedBlackTrees.RemoveBalance` | data-structure/03-rbtree/include/rbtree.hpp:331-348 | removing a present key keeps the black height and the shape |
| `RedBlackTrees.RemoveKeys` | data-structure/03-rbtree/include/rbtree.hpp:331-348 | exactly the given key leaves, and the order is kept |
| `RedBlackTrees.ApplyKeepsTree` | data-structure/03-rbtree/include/rbtree.hpp:103-142 | each of the four operations of the tree object keeps an ordered red-black tree and changes the key set by exactly one key |
| `RedBlackTrees.HeightIsLogarithmic` | data-structure/03-rbtree/include/rbtree.hpp:103-142 | the height is at most 2 log2(n + 1) |
| `RedBlackTrees.HistoryHeight` | data-structure/03-rbtree/include/rbtree.hpp:103-142 | after every history of insertions and removals of present keys the height is logarithmic in the expected number of keys |
| `RedBlackNodes.RotateRight` | data-structure/03-rbtree/include/rbtree.hpp:226-236 | relinks the nodes into the rotated tree, the same nodes and no others |
| `RedBlackNodes.RotateLeft` | data-structure/03-rbtree/include/rbtree.hpp:238-248 | relinks the nodes into the rotated tree |
| `RedBlackNodes.FlipColor` | data-structure/03-rbtree/include/rbtree.hpp:215-224 | inverts the colours of the node and of the children it has, and nothing else |
| `RedBlackNodes.FixUp` | data-structure/03-rbtree/include/rbtree.hpp:279-286 | computes the repaired tree in place |
| `RedBlackNodes.MoveRedLeft` | data-structure/03-rbtree/include/rbtree.hpp:309-319 | computes the restructured tree in place |
| `RedBlackNodes.MoveRedRight` | data-structure/03-rbtree/include/rbtree.hpp:288-297 | computes the restructured tree in place |
| `RedBlackNodes.Insert` | data-structure/03-rbtree/include/rbtree.hpp:250-262 | the nodes afterwards store the tree with the key inserted; only new nodes are added |
| `RedBlackNodes.RemoveMin` | data-structure/03-rbtree/include/rbtree.hpp:321-328 | the nodes afterwards store the tree without its least key; no node is added |
| `RedBlackNodes.RemoveMax` | data-structure/03-rbtree/include/rbtree.hpp:299-307 | the nodes afterwards store the tree without its greatest key |
| `RedBlackNodes.Remove` | data-structure/03-rbtree/include/rbtree.hpp:330-348 | the nodes afterwards store the tree without the key |
| `RedBlackNodes.Contains` | data-structure/03-rbtree/include/rbtree.hpp:366-374 | walks the nodes as the search walks the tree |
| `RedBlackNodes.LeftmostKey` | data-structure/03-rbtree/include/rbtree.hpp:350-356 | reads the leftmost key off the nodes |
| `RedBlackNodes.RightmostKey` | data-structure/03-rbtree/include/rbtree.hpp:358-364 | reads the rightmost key off the nodes |
| `RBTrees.RBTree.constructor` | data-structure/03-rbtree/include/rbtree.hpp:103-105 | a new tree has no root |
| `RBTrees.RBTree.Insert` | data-structure/03-rbtree/include/rbtree.hpp:103-118 | the object stays an ordered red-black tree with black root, holding one key more, or as many if it was there |
| `RBTrees.RBTree.Remove` | data-structure/03-rbtree/include/rbtree.hpp:136-142 | for a present key: the object stays one, without exactly that key |
| `RBTrees.RBTree.RemoveMin` | data-structure/03-rbtree/include/rbtree.hpp:128-134 | ... without exactly its least key |
| `RBTrees.RBTree.RemoveMax` | data-structure/03-rbtree/include/rbtree.hpp:120-126 | ... without exactly its greatest key |
| `RBTrees.RBTree.Contains` | data-structure/03-rbtree/include/rbtree.hpp:160-166 | membership, in the empty tree too |
| `RBTrees.RBTree.LeftmostKey` | data-structure/03-rbtree/include/rbtree.hpp:144-150 | the least key, or nothing exactly for the empty tree |
| `RBTrees.RBTree.RightmostKey` | data-structure/03-rbtree/include/rbtree.hpp:152-158 | the greatest key, or nothing exactly for the empty tree |
| `Probing.GetNextPos` | data-structure/05-hashtable/include/hash_table.hpp:154-169 | both probings stay inside the table |
| `Probing.DistinctPositions` | data-structure/05-hashtable/include/hash_table.hpp:154-169 | in a table whose size is a power of two, no position repeats within one round, linear or triangular |
| `Probing.EveryPositionReached` | data-structure/05-hashtable/include/hash_table.hpp:154-169 | one round looks at every slot |
| `HashTables.StopsSomewhere` | data-structure/05-hashtable/include/hash_table.hpp:97-99 | in a table with an empty slot, looking for a key stops within one round |
| `HashTables.StopsInTime` | data-structure/05-hashtable/include/hash_table.hpp:97-99 | so the bound on the number of steps never ends a search early |
| `HashTables.FoundWhereLooked` | data-structure/05-hashtable/include/hash_table.hpp:81-88 | a key sits in one slot only, and the search for it ends there |
| `HashTables.FillKeepsPlaced` | data-structure/05-hashtable/include/hash_table.hpp:100-104 | filling the slot where the search for a new key ended keeps all keys findable |
| `HashTables.LookupIsMembership` | data-structure/05-hashtable/include/hash_table.hpp:84-88 | the slot where the search ends tells whether the key is there, and its value |
| `HashTables.FirstPutWins` | data-structure/05-hashtable/include/hash_table.hpp:91-111 | what a history of puts leaves is each key's first value |
| `HashTables.HashTable.constructor` | data-structure/05-hashtable/include/hash_table.hpp:40-44 | a new table is empty, with its initial number of slots |
| `HashTables.HashTable.GetPos` | data-structure/05-hashtable/include/hash_table.hpp:69-73 | the first position of a key |
| `HashTables.HashTable.Get` | data-structure/05-hashtable/include/hash_table.hpp:75-89 | the key's first value and the number of positions at which the search for it ends, or -1 exactly for a key that was never put |
| `HashTables.HashTable.Put` | data-structure/05-hashtable/include/hash_table.hpp:91-111 | a new key is put into the slot where looking for it ends and the number of positions looked at returned; an old one leaves every slot as it is and gives -1. Afterwards at most half of the slots are in use: the table has doubled exactly when more would have been, and then holds the pairs as re-inserted in slot order |
| `HashTables.HashTable.EnlargeTable` | data-structure/05-hashtable/include/hash_table.hpp:51-67 | twice the slots and the same contents: every pair is put again where looking for it ends, in the order of the old slots, and none of these puts doubles the table |
| `HashTables.RehashedOnce` | data-structure/05-hashtable/include/hash_table.hpp:63-64 | re-insertion in slot order determines the doubled table slot by slot |
| `FibonacciForests.MeldGood` | data-structure/06-fibonacciheap/include/fheap.hpp:234-251 | two heap-ordered trees of degree k with 2^k nodes make one of degree k + 1 with 2^(k+1) |
| `FibonacciForests.MeldKeeps` | data-structure/06-fibonacciheap/include/fheap.hpp:234-251 | melding keeps the nodes, the keys and their number |
| `FibonacciForests.DegreeBound` | data-structure/06-fibonacciheap/include/fheap.hpp:190-231 | a root's degree is at most the logarithm of the heap's size |
| `FibonacciForests.DegreeIndexes` | data-structure/06-fibonacciheap/include/fheap.hpp:196-197 | every degree that occurs is a valid index of the consolidation array |
| `FibonacciForests.KeysAtLeast` | data-structure/06-fibonacciheap/include/fheap.hpp:127-133 | a bound for the roots bounds all keys |
| `SiblingRings.Rotate` | data-structure/06-fibonacciheap/include/fheap.hpp:203-209 | a ring of roots may be read from any of its nodes |
| `SiblingRings.LinkLeftOf` | data-structure/06-fibonacciheap/include/fheap.hpp:152-157 | a node is linked into a ring |
| `SiblingRings.SpliceChildren` | data-structure/06-fibonacciheap/include/fheap.hpp:170-178 | the ring of children takes the place of the extracted node in the root ring |
| `SiblingRings.Detach` | data-structure/06-fibonacciheap/include/fheap.hpp:237-240 | a root leaves the root ring for a ring of its own |
| `SiblingRings.Attach` | data-structure/06-fibonacciheap/include/fheap.hpp:241-250 | it joins the ring of the other root's children, whose degree grows by one |
| `SiblingRings.HangBelow` | data-structure/06-fibonacciheap/include/fheap.hpp:234-251 | together: afterwards the nodes store the forest with one root below the other |
| `FibonacciHeaps.FibonacciHeap.constructor` | data-structure/06-fibonacciheap/include/fheap.hpp:121-125 | a new heap is empty |
| `FibonacciHeaps.FibonacciHeap.Insert` | data-structure/06-fibonacciheap/include/fheap.hpp:135-141 | exactly the given key is added, with a new node as a root left of the minimum, and the minimum pointer moves to it exactly when its key is less |
| `FibonacciHeaps.FibonacciHeap.InsertNode` | data-structure/06-fibonacciheap/include/fheap.hpp:143-160 | the node joins the root ring left of the minimum, and the minimum pointer moves to it exactly when its key is less |
| `FibonacciHeaps.FibonacciHeap.GetMin` | data-structure/06-fibonacciheap/include/fheap.hpp:127-133 | a least key of the whole heap, or nothing exactly when it is empty |
| `FibonacciHeaps.FibonacciHeap.DropFirst` | data-structure/06-fibonacciheap/include/fheap.hpp:168-183 | the children of the minimum take its place |
| `FibonacciHeaps.FibonacciHeap.CollectRoots` | data-structure/06-fibonacciheap/include/fheap.hpp:198-209 | the roots in ring order, and the least of them |
| `FibonacciHeaps.FibonacciHeap.FileRoot` | data-structure/06-fibonacciheap/include/fheap.hpp:210-229 | one more root is filed under its degree, melding as long as a root of equal degree is filed; no index leaves the array |
| `FibonacciHeaps.FibonacciHeap.MergePair` | data-structure/06-fibonacciheap/include/fheap.hpp:218-226 | one meld: the array, the minimum and the forest stay in step |
| `FibonacciHeaps.FibonacciHeap.Merge` | data-structure/06-fibonacciheap/include/fheap.hpp:233-251 | the forest afterwards has one root less, with the same nodes and keys |
| `FibonacciHeaps.FibonacciHeap.Consolidate` | data-structure/06-fibonacciheap/include/fheap.hpp:189-231 | all root degrees differ afterwards, the minimum pointer is at a least root, and no node or key is lost |
| `FibonacciHeaps.FibonacciHeap.ExtractMin` | data-structure/06-fibonacciheap/include/fheap.hpp:162-187 | returns a least key, removes exactly the node that held it, leaves different root degrees; nothing exactly for the empty heap |
| `CacheAddresses.RebuildsBlock` | CPU-cache/WonhoLee_Lab4/cache_base/cache_base.cc:92-94 | tag and index of an address rebuild the address of its line |
| `CacheAddresses.RebuiltParts` | CPU-cache/WonhoLee_Lab4/cache_base/cache_base.cc:126-126 | a rebuilt victim address has the victim's tag and index |
| `CacheAddresses.RebuiltZero` | CPU-cache/WonhoLee_Lab4/cache_base/cache_base.cc:126-126 | a rebuilt address is 0 exactly for tag 0 in set 0 |
| `CacheAddresses.ShiftsAndMasks` | CPU-cache/WonhoLee_Lab4/cache_base/cache_base.cc:92-126 | for power-of-two sizes, the right shifts, the mask, and the shifted and or-ed parts of the code are the quotients, the remainder and the sum of the model |
| `LruSets.StackMembers` | CPU-cache/WonhoLee_Lab4/cache_base/cache_base.cc:95-139 | which lines a set holds after an access |
| `LruSets.StackFacts` | CPU-cache/WonhoLee_Lab4/cache_base/cache_base.cc:95-139 | a set never holds a line twice nor more lines than it has ways |
| `LruSets.InclusionStep` | CPU-cache/WonhoLee_Lab4/cache_base/cache_base.cc:84-147 | with at least as many ways, a set goes on holding the lines of a smaller one, at every access but a write-back |
| `LruSets.HitsAreMonotone` | CPU-cache/WonhoLee_Lab4/cache_base/cache_base.cc:84-147 | more ways never turn a hit into a miss, on every trace without write-backs |
| `LruSets.WriteBackBreaksInclusion` | CPU-cache/WonhoLee_Lab4/cache_base/cache_base.cc:99-103 | with write-back fills they can, for any two associativities 1 < a < b: a trace with a hit in a ways that is a miss in b |
| `LruSets.HitsKeptExactly` | CPU-cache/WonhoLee_Lab4/cache_base/cache_base.cc:84-147 | over all traces, write-backs included, going from a to b ways keeps every hit exactly when a is 1 or the number does not change |
| `DirtyLines.DirtySinceFill` | CPU-cache/WonhoLee_Lab4/cache_base/cache_base.cc:96-139 | a line that a set holds is dirty exactly when, since the fill that brought it in, that fill included, some request for it was a write, or a write-back that hit |
| `DirtyLines.DirtyNext` | CPU-cache/WonhoLee_Lab4/cache_base/cache_base.cc:96-139 | which lines are dirty after one more request follows from which were before it, the request, and the line evicted |
| `DirtyLines.WriteBackMarksExactly` | CPU-cache/WonhoLee_Lab4/cache_base/cache_base.cc:96-139 | a write-back leaves its line dirty exactly when the line was there already: one that fills leaves it clean |
| `Caches.TagsMembers` | CPU-cache/WonhoLee_Lab4/cache_base/cache_base.cc:24-27 | the recency list holds exactly the valid ways, each once |
| `Caches.HitStep` | CPU-cache/WonhoLee_Lab4/cache_base/cache_base.cc:96-108 | a hit makes its way the most recent one, unless it is a write-back |
| `Caches.FillFree` | CPU-cache/WonhoLee_Lab4/cache_base/cache_base.cc:118-121 | a miss with an invalid way uses that way |
| `Caches.FillEvict` | CPU-cache/WonhoLee_Lab4/cache_base/cache_base.cc:122-136 | a miss with all ways valid refills the least recent way |
| `Caches.CacheSet.constructor` | CPU-cache/WonhoLee_Lab4/cache_base/cache_base.cc:24-27 | a new set holds nothing |
| `Caches.CacheSet.Find` | CPU-cache/WonhoLee_Lab4/cache_base/cache_base.cc:95-111 | the loop finds the way that holds the tag, or else an invalid way if there is one |
| `Caches.CacheSet.Use` | CPU-cache/WonhoLee_Lab4/cache_base/cache_base.cc:97-107 | recency and dirty bit after a hit |
| `Caches.CacheSet.Fill` | CPU-cache/WonhoLee_Lab4/cache_base/cache_base.cc:113-139 | the line comes in, at the cost of the least recent one exactly when the set is full |
| `Caches.CacheSet.Access` | CPU-cache/WonhoLee_Lab4/cache_base/cache_base.cc:95-140 | an access moves the set along the LRU reference stack; it evicts, and what it evicts is dirty, exactly as that stack says |
| `Caches.CacheBase.constructor` | CPU-cache/WonhoLee_Lab4/cache_base/cache_base.cc:43-67 | all sets are empty, all counters zero, and the sets are new objects of the cache alone |
| `Caches.CacheBase.Count` | CPU-cache/WonhoLee_Lab4/cache_base/cache_base.cc:142-145 | the counters move for a hit of a lookup or a fill that is no write-back |
| `Caches.CacheBase.AccessSet` | CPU-cache/WonhoLee_Lab4/cache_base/cache_base.cc:94-140 | one set moves along its LRU stack and its dirty lines with it, every other set stays as it is, and both agree with the requests of the whole trace |
| `Caches.CacheBase.Access` | CPU-cache/WonhoLee_Lab4/cache_base/cache_base.cc:84-147 | on every trace the result is a hit exactly when the LRU stack of the address's own requests so far holds its tag; the set's lines and its dirty lines afterwards are exact; on an eviction the victim address is the block address of an earlier fill, reported as dirty and written back exactly when the requests since that fill marked it; it is 0 exactly without an eviction or for the block at 0; the counters move under the source's conditions |
| `Caches.HeldWasBroughtIn` | CPU-cache/WonhoLee_Lab4/cache_base/cache_base.cc:126-138 | whatever tag a set holds after a run was brought in by an earlier fill of that set |
| `Caches.VictimFacts` | CPU-cache/WonhoLee_Lab4/cache_base/cache_base.cc:126-131 | the address rebuilt from a held tag and its set is the block address of an earlier fill |
| `Caches.VictimAtZero` | CPU-cache/WonhoLee_Lab4/cache_base/cache_base.cc:91-131 | a concrete case: a fill of address 0 followed by one that evicts it reports victim 0, as a call without an eviction does |
| `Caches.MoreWaysHoldMore` | CPU-cache/WonhoLee_Lab4/cache_base/cache_base.cc:84-147 | at equal sets and line size a cache with more ways hits whenever one with fewer does, on every trace without write-backs |
| `SortedSequences.GetIndex` | data-structure/04-btree/include/btree.hpp:161-165 | the first position whose key is not smaller |
| `SortedSequences.WithFacts` | data-structure/04-btree/include/btree.hpp:131-144 | an insertion keeps a sequence sorted and adds exactly the key |
| `SortedSequences.WithoutFacts` | data-structure/04-btree/include/btree.hpp:251-273 | a removal keeps a sequence sorted and takes out exactly the key |
| `BTrees.HalvesFacts` | data-structure/04-btree/include/btree.hpp:208-230 | the halves of a full node are proper nodes and, with the middle key, hold its keys in order |
| `BTrees.SplitFacts` | data-structure/04-btree/include/btree.hpp:208-230 | a split keeps depth, key counts and the in-order sequence |
| `BTrees.PreparedFacts` | data-structure/04-btree/include/btree.hpp:141-142 | the child that insertion enters is not full |
| `BTrees.InsertShape` | data-structure/04-btree/include/btree.hpp:131-144 | insertion keeps uniform depth and the bounds on key counts |
| `BTrees.InsertOrder` | data-structure/04-btree/include/btree.hpp:131-144 | the in-order sequence gains exactly the key when the result is true, and nothing otherwise |
| `BTrees.InsertSucceeds` | data-structure/04-btree/include/btree.hpp:127-145 | any key, present or not, is refused exactly when the slot at its position in the leaf holds it, which may be a dead slot behind the last key; split nodes on the way do not change that |
| `BTrees.RefusesNew` | data-structure/04-btree/include/btree.hpp:135-135 | a new key is refused exactly when it belongs behind all keys of its leaf and the dead slot there holds it, or when the leaf is full, the key is the blank value, and it comes to stand behind a half |
| `BTrees.RefusesPresent` | data-structure/04-btree/include/btree.hpp:131-144 | a key of the leaf is refused unless it is the middle key of a full leaf |
| `BTreeRemoval.BorrowRightOrder` | data-structure/04-btree/include/btree.hpp:292-310 | borrowing from the right keeps the in-order sequence |
| `BTreeRemoval.BorrowLeftOrder` | data-structure/04-btree/include/btree.hpp:313-329 | borrowing from the left keeps it |
| `BTreeRemoval.MergeOrder` | data-structure/04-btree/include/btree.hpp:332-356 | merging keeps it |
| `BTreeRemoval.BorrowRightShape` | data-structure/04-btree/include/btree.hpp:292-310 | borrowing from the right keeps the shape, and the child then has B keys |
| `BTreeRemoval.BorrowLeftShape` | data-structure/04-btree/include/btree.hpp:313-329 | borrowing from the left keeps the shape, and the child then has B keys |
| `BTreeRemoval.MergeShape` | data-structure/04-btree/include/btree.hpp:332-356 | merging two children of B - 1 keys keeps the shape and gives 2B - 1 keys |
| `BTreeRemoval.RelievedFacts` | data-structure/04-btree/include/btree.hpp:260-263 | the child that removal enters has at least B keys, whichever of borrowing and merging took place, and the search still leads to it |
| `BTreeRemoval.RightmostIsLast` | data-structure/04-btree/include/btree.hpp:359-364 | the rightmost key is the last in order |
| `BTreeRemoval.EntersKid` | data-structure/04-btree/include/btree.hpp:264-270 | the key to be removed from the child, the given one or its predecessor, is in the child |
| `BTreeRemoval.RemoveShape` | data-structure/04-btree/include/btree.hpp:251-273 | removal keeps uniform depth and the bounds on key counts |
| `BTreeRemoval.RemoveOrder` | data-structure/04-btree/include/btree.hpp:251-273 | exactly the given key leaves the in-order sequence |
| `BTreeOperations.InsertRootFacts` | data-structure/04-btree/include/btree.hpp:80-98 | insertion of any key at the root: it goes in exactly when the leaf found for it in the old tree does not refuse it, the in-order sequence gains it and nothing else, and the tree stays a B-tree unless a key that was there went in again |
| `BTreeOperations.PresentKeyExactly` | data-structure/04-btree/include/btree.hpp:131-144 | a key of the tree goes in a second time exactly when it is the middle key of a full leaf, or stands in an inner node while the slot behind the keys of the leaf found does not hold it; the tree then holds it twice |
| `BTreeOperations.RemoveRootFacts` | data-structure/04-btree/include/btree.hpp:233-248 | removal at the root keeps a B-tree, at most one level lower, without exactly the key |
| `BTreeOperations.BlankIsLost` | data-structure/04-btree/include/btree.hpp:135-135 | a concrete loss: after 5 has been inserted and removed, the blank value T() does not go in |
| `BTreeSlots.InsertRootSlots` | data-structure/04-btree/include/btree.hpp:80-98 | insertion brings no value but the key and the blank one into any key slot, live or dead |
| `BTreeSlots.RemoveRootSlots` | data-structure/04-btree/include/btree.hpp:232-248 | removal brings no value but the blank one into any key slot, through all borrowing and merging |
| `BTreeSlots.FreshKeyGoesIn` | data-structure/04-btree/include/btree.hpp:135-135 | so only a value that some slot holds, or the blank one, can be refused |
| `BTreeSlots.FullLeafSplits` | data-structure/04-btree/include/btree.hpp:215-215 | the clearing loop of a split leaves one slot: splitting 1, 3, 5 leaves 5 in a dead slot of the left leaf |
| `BTreeSlots.RemovedKeyIsLost` | data-structure/04-btree/include/btree.hpp:292-310 | a history of insertions and removals after which a key that was removed is refused, because borrowing left a copy of it in a dead slot |
| `BTreeSlots.MiddleKeyTwice` | data-structure/04-btree/include/btree.hpp:127-145 | inserting the middle key of a full root leaf again makes the tree hold it twice, unless it is the blank value |
| `BTreeArrays.MoveRange` | data-structure/04-btree/include/btree.hpp:136-136 | a range of array slots is moved, overlapping or not |
| `BTreeArrays.ShiftDown` | data-structure/04-btree/include/btree.hpp:341-341 | the loop that closes a gap |
| `BTreeArrays.ShiftUp` | data-structure/04-btree/include/btree.hpp:225-226 | the loop that opens one |
| `BTreeInsertion.SplitNode` | data-structure/04-btree/include/btree.hpp:212-224 | the upper half of a full node moves to a new node, keys and edges, and both store the halves |
| `BTreeInsertion.SplitChild` | data-structure/04-btree/include/btree.hpp:208-230 | the nodes afterwards store the split tree, with one new node |
| `BTreeInsertion.Prepare` | data-structure/04-btree/include/btree.hpp:132-141 | a full child on the way is split in place, and the search goes to the right half |
| `BTreeInsertion.InsertInLeaf` | data-structure/04-btree/include/btree.hpp:134-138 | the keys behind the position move up, or nothing changes when the slot already holds the key |
| `BTreeInsertion.Insert` | data-structure/04-btree/include/btree.hpp:131-144 | the nodes afterwards store the tree that insertion computes; only new nodes are added |
| `BTreeDeletion.BorrowFromRight` | data-structure/04-btree/include/btree.hpp:292-310 | keys and edges move in place to the tree after borrowing |
| `BTreeDeletion.BorrowFromLeft` | data-structure/04-btree/include/btree.hpp:313-329 | keys and edges move in place to the tree after borrowing |
| `BTreeDeletion.MergeChildren` | data-structure/04-btree/include/btree.hpp:332-356 | keys and edges move in place to the tree after merging; one node is dropped |
| `BTreeDeletion.TryBorrow` | data-structure/04-btree/include/btree.hpp:282-289 | borrows exactly when a sibling can spare a key, from the right one first |
| `BTreeDeletion.Relieve` | data-structure/04-btree/include/btree.hpp:260-263 | the node as removal leaves it before descending |
| `BTreeDeletion.FindRightmostKey` | data-structure/04-btree/include/btree.hpp:359-364 | reads the rightmost key off the nodes |
| `BTreeDeletion.RemoveFromLeaf` | data-structure/04-btree/include/btree.hpp:253-258 | the keys behind the removed one move down and the freed slot is cleared |
| `BTreeDeletion.ReplaceKey` | data-structure/04-btree/include/btree.hpp:264-267 | a key at the node gives way to its predecessor |
| `BTreeDeletion.Remove` | data-structure/04-btree/include/btree.hpp:251-273 | the nodes afterwards store the tree that removal computes; no node is added |
| `BTreeNodes.BNode.constructor` | data-structure/04-btree/include/btree.hpp:36-40 | a new node is an empty leaf with blank slots and no edges |
| `BTreeObjects.BTree.constructor` | data-structure/04-btree/include/btree.hpp:17-19 | a new tree has no root |
| `BTreeObjects.BTree.Insert` | data-structure/04-btree/include/btree.hpp:80-98 | for a key that is not in the tree or is refused: the object stays a B-tree in the heap, and its nodes hold the tree of the insertion function; its keys in order gain exactly the key unless it is refused, and over every history a key that was never offered before and is not blank goes in |
| `BTreeObjects.BTree.Remove` | data-structure/04-btree/include/btree.hpp:232-248 | for a present key: the object stays a B-tree, its nodes hold the tree of the removal function and its keys in order lose exactly the key; false exactly for a tree without a root |
| `BTreeObjects.BTree.Raise` | data-structure/04-btree/include/btree.hpp:87-95 | a full root is split below a new one |
| `BTreeObjects.BTree.Lower` | data-structure/04-btree/include/btree.hpp:239-245 | an emptied internal root gives way to its only child |
| `MessageQueues.InitInv` | MiniOS/eOS_student/core/comm.c:11-20 | a new queue has all slots free |
| `MessageQueues.StepInv` | MiniOS/eOS_student/core/comm.c:22-52 | every atomic step of sender and receiver, semaphore operations with their waiting and waking and single byte copies included, keeps the invariant |
| `MessageQueues.RunInv` | MiniOS/eOS_student/core/comm.c:22-52 | so does every interleaving |
| `MessageQueues.TrySendInv` | MiniOS/eOS_student/core/comm.c:22-25 | a send, at its first attempt or after a wake-up, keeps the invariant |
| `MessageQueues.AcquirePutInv` | MiniOS/eOS_student/core/sync.c:17-74 | a sender gets past the semaphore exactly when a slot is free, joins the wait queue, still running, exactly when none is and it asked to wait, and the message counts as sent only in the first case |
| `MessageQueues.AcquireGetInv` | MiniOS/eOS_student/core/sync.c:17-74 | a receiver gets past the semaphore exactly when a slot is filled, and joins the wait queue exactly when none is and it asked to |
| `MessageQueues.SuspendSenderInv` | MiniOS/eOS_student/core/sync.c:60-63 | the window in which interrupts are enabled between joining the wait queue and suspending loses no wake-up: a sender that a release takes out in it comes back from its suspension to test the count |
| `MessageQueues.SuspendReceiverInv` | MiniOS/eOS_student/core/sync.c:60-63 | likewise for the receiver |
| `MessageQueues.ReleaseGetInv` | MiniOS/eOS_student/core/sync.c:76-89 | a release adds one to the filled slots and takes the receiver out of the wait queue, whether it is suspended already or not |
| `MessageQueues.ReleasePutInv` | MiniOS/eOS_student/core/sync.c:76-89 | giving a slot back adds one to the free slots and takes the sender out of the wait queue, with its message intact |
| `MessageQueues.SendExactly` | MiniOS/eOS_student/core/comm.c:22-36 | a call of send with a free slot sends exactly its own message; without one it waits with exactly that message when asked to, and else changes nothing; a woken sender goes on with the message of its call |
| `MessageQueues.ReceiveExactly` | MiniOS/eOS_student/core/comm.c:38-52 | a call of receive with a filled slot starts reading; without one it waits exactly when asked to |
| `MessageQueues.OthersSendNothing` | MiniOS/eOS_student/core/comm.c:22-52 | no other step changes what was sent or the message that waits to be sent |
| `MessageQueues.SentIsAccepted` | MiniOS/eOS_student/core/comm.c:22-36 | over every run, what was sent is the list of the messages of the calls that got through, in order, read off the steps alone |
| `MessageQueues.ReceivedIsAdmitted` | MiniOS/eOS_student/core/comm.c:38-52 | over every run, every receiving call that got through has its message or is still copying it |
| `MessageQueues.StillStands` | MiniOS/eOS_student/core/comm.c:27-28 | writing a byte of a message changes no message not yet received |
| `MessageQueues.NextByte` | MiniOS/eOS_student/core/comm.c:43-44 | the byte the receiver copies next is the next byte of the oldest message not received |
| `MessageQueues.DeliversInOrder` | MiniOS/eOS_student/core/comm.c:11-52 | under every interleaving of one sender and one receiver the received messages are the first of those with which the sends that got through were called, in order, one for each receive that got through and is past its copying; no unread slot is overwritten, free, filled and in-progress slots add up to the queue size, and a waiting side is in its wait queue exactly while there is nothing for it to take |
| `MessageQueues.NeverStuck` | MiniOS/eOS_student/core/sync.c:17-89 | sender and receiver are never both in a wait queue, and in every reachable state some step makes progress: a side inside a call moves on, one taken out of a wait queue comes to its slot, and one in a wait queue leaves the other side a call that goes through |
| `OsLists.AddNodeTail` | MiniOS/eOS_student/core/common.c:16-27 | the node joins the ring at its end |
| `OsLists.AddNodePriority` | MiniOS/eOS_student/core/common.c:30-52 | the node goes before the first node of greater priority number |
| `OsLists.PriorityOrder` | MiniOS/eOS_student/core/common.c:29-52 | that keeps the list ascending and first-come first-served among equals |
| `OsLists.RemoveNode` | MiniOS/eOS_student/core/common.c:54-71 | exactly this node leaves the ring, the head moves on if it was the node, and the node's links are cleared; a detached node is refused and nothing changes |
| `ReadyBits.UnmapIsLowestBit` | MiniOS/eOS_student/core/scheduler.c:5-22 | the table gives the position of the lowest set bit of every non-zero byte |
| `ReadyBits.BitSet` | MiniOS/eOS_student/core/scheduler.c:62-65 | setting a bit changes that bit only |
| `ReadyBits.BitCleared` | MiniOS/eOS_student/core/scheduler.c:70-72 | clearing a bit changes that bit only |
| `Schedulers.HighestIsFirst` | MiniOS/eOS_student/core/scheduler.c:55-58 | with bitmaps that agree with the queues, the two table look-ups give the smallest priority number with a task ready |
| `Schedulers.SetReadyAgrees` | MiniOS/eOS_student/core/scheduler.c:60-66 | setting the two bits keeps the agreement when a task arrives |
| `Schedulers.UnsetReadyAgrees` | MiniOS/eOS_student/core/scheduler.c:68-74 | clearing the bit, and the group bit when its byte becomes zero, keeps it when the last task of a queue leaves |
| `Schedulers.Scheduler.constructor` | MiniOS/eOS_student/core/scheduler.c:39-53 | no bit is set, no queue has a task, and the tables are new: every later operation can follow |
| `Schedulers.Scheduler.SetReady` | MiniOS/eOS_student/core/scheduler.c:60-66 | the bitmaps of the object after a task arrives |
| `Schedulers.Scheduler.UnsetReady` | MiniOS/eOS_student/core/scheduler.c:68-74 | the bitmaps of the object after a queue becomes empty |
| `Schedulers.Scheduler.Enqueue` | MiniOS/eOS_student/core/task.c:51-55 | a task joins the end of its queue; bitmaps and linked lists stay in agreement |
| `Schedulers.Scheduler.CreateTask` | MiniOS/eOS_student/core/task.c:24-35 | the new task is ready at the end of its queue, no other task comes, goes or changes, and only new nodes are added |
| `Schedulers.Scheduler.Dispatch` | MiniOS/eOS_student/core/task.c:63-70 | the first task of the queue leaves it and runs, the bits follow, and the other tasks stay |
| `Schedulers.Scheduler.Requeue` | MiniOS/eOS_student/core/task.c:41-59 | the first half: a running task, and only that, goes back to the end of the queue of its priority |
| `Schedulers.Scheduler.Schedule` | MiniOS/eOS_student/core/task.c:40-72 | a running task goes to the end of its queue; then the earliest-queued task of the smallest ready priority number runs. The tasks ready or running are the same as before, none changes its priority, and the invariant that the next call requires holds again |
| `Schedulers.Scheduler.WakeUp` | MiniOS/eOS_student/core/task.c:137-146 | a waiting task joins the end of its queue and scheduling follows; the tasks ready or running are those from before and the woken one, and the invariant holds again |

## Left out

- PipelineRefinement.PipelineIsSequential: requires of the executed instructions, not of the rest of memory, that none is a `jalr` that has bit 30 set or another function code, or a branch that `alu_control` leaves unassigned, because on those the two processors differ; register 0 holds zero at the start, as it does after the first falling edge.
- Instructions: states what the code executes; where that is not what the ISA asks for, the lemmas named under Findings give the exact condition.
- Datapath: the reset phase is not modelled, and words, registers and memory cells that were never loaded read as 0 instead of as unknown.
- The Lab 3 processor: its branch predictor and modified pipeline are not part of this model.
- The Lab 4 memory hierarchy with its timing, and `back_invalidation`: the inclusion of caches there depends on request timing.
- SegregatedAllocator.Allocator.Free: requires a block that is live, as the code does not check its argument.
- SegregatedAllocator.Allocator.Init: `mm_init` is modelled for a fresh heap, and `mem_sbrk` as growth inside a region of fixed size.
- Dijkstra.DijkstraShortestPath: stated for non-negative weights; rounding of floating-point weights is not modelled there or elsewhere.
- RBTrees.RBTree.Remove: requires a present key, as do the other removals a non-empty tree, because the code dereferences null pointers otherwise.
- BTreeObjects.BTree.Insert: requires a key that is not in the tree or is refused, because any other insertion makes the tree hold a key twice; `BTreeOperations.PresentKeyExactly` says when that happens.
- BTreeObjects.BTree.Remove: stated for a present key; the leaf test for an absent one reads a dead slot.
- BTreeObjects: `for_all`, `search` and `depth` only read and are left out, as is `find_rightmost_key` of the whole tree, which indexes before the array once the last key has been removed.
- HashTables: removal and its tombstones, after which put and remove stop early; the wrap-around of `step * (step + 1)` in 64 bits and of the table size; probing is a parameter instead of a derived class.
- FibonacciHeaps: there is no decrease-key; parent pointers are cleared as in the code but never read, and reference counting is not modelled.
- FibonacciForests.DegreeIndexes: the logarithm of the size divided by log2 of the golden ratio is taken exactly instead of in double precision.
- Caches: block offsets are not stored, as the code computes but never uses them; `back_invalidation` leaves a way in the recency list and is left out.
- LruSets.HitsAreMonotone: stated for traces without write-backs; `LruSets.HitsKeptExactly` says what holds with them.
- MessageQueues: one sender and one receiver, so that a wait queue holds at most one task. A task released before it has suspended is made ready a second time, which the model represents by its coming back from the suspension; a call either gives up at once or waits without limit (timeouts of -1 and 0), and positive timeouts with their sleeping and timers are left out, as is the list node that a wait queue allocates.
- Schedulers.Scheduler.Schedule: requires that some task is ready or running, as the idle task always is; the test `priority > LOWEST_PRIORITY` is never true and is not modelled, and saving and restoring contexts and the scheduler lock are left out.
- Schedulers.Scheduler.WakeUp: requires a task that is not in a ready queue, so the second entry that a task gets when it is released between joining a wait queue and suspending is outside the scheduler's part of the model.
- ReadyBits.UnmapIsLowestBit: the 256-entry table is represented by its first row and first column, which determine it.
- Condition variables and the other stubs of MiniOS, the deque, the plain binary search tree, `shlab` and `snudebugger`, printing, formatting and test drivers.
- Memory reclamation: dropped nodes are unlinked but not freed.
