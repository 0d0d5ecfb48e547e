# Fused in Dafny

Fused simulates microcontrollers together with their energy supply. This project models the parts of it
whose behaviour is easy to get wrong, and proves what they are for. Each part comes as functions on
values, which say what a step does, lemmas about those functions over all inputs and all runs, and, where
the program updates objects in place, classes whose methods are proved to do what the functions say.

- **Cache** (`CacheAddress`, `Replacement`, `CacheModel`, `CacheSystem`, `CacheFlat`, `CacheLru`, `CacheKinds`,
  and in place `ReplacementUnits`, `CacheDevice`): a set-associative cache over non-volatile memory, with
  three write policies and four replacement policies. It is transparent: whatever runs through it, with
  power losses, sees a reference memory. Victims are written back to where they came from, LRU has its
  stack property, and every kind of policy picks its victims as it should, from construction on.
- **Cortex-M0** (`M0Arith`, `M0Stack`, `M0Branch`, `M0Exception`, `M0Pipeline`, `M0Interrupt`, `M0Execute`,
  `M0Encodings`, `M0Steps`, and in place `M0Cpu` and the class in `M0Interrupt`): flags and multi-word
  arithmetic, multi-register transfers, calls, exceptions, and the pipeline, which refines a machine that
  executes one instruction at a time, interrupted or not. `M0Execute` puts the modelled instructions into it;
  `M0Encodings` and `M0Steps` say what each encoding does, in plain arithmetic.
- **DMA** (`Dma`, `DmaDevice`): two kinds of processes that meet in a pending/accept handshake. A step is
  what one process does between two waits; triggers and register writes fall in between.
- **Multiplier** (`Mpy32`): products and accumulations spread over 16-bit registers.
- **MSP430 CPU** (`Msp430`, `Msp430Device`): flags of byte and word operations, and nesting of interrupts
  and calls.
- **NVIC** (`Nvic`), **event ledgers** (`PowerLedger`) and **SPI FIFO** (`SpiFifo`).

Machine words are naturals below a power of two, and wrap-around and truncation are written out. `Bits`
and `SingleBits` define the bit operators on naturals and relate them to arithmetic, so that the masks and
shifts of the program are proved to be the fields and bits they stand for.

## Assumptions

- The line width, the number of sets, and for the pseudo-random policy the number of lines, are powers of
  two; memory is a whole number of lines; an access is not empty, inside memory and no longer than a line.
  The alignment check is modelled, with its fatal end.
- Every bus access takes time, so that a DMA channel has seen `accept` rise before the arbiter goes on,
  and the CPU writes DMA registers and memory only while it is not stalled.
- The pipeline runs over code memory that does not change, and over an execution function that changes
  the PC only when it reports a taken branch, reports one for every 32-bit instruction (as `bl`, `mrs` and
  `msr` do, `mcu/cortex-m0/exmemwb_misc.c:86` and `mcu/cortex-m0/exmemwb_misc.c:142`), and does nothing on
  the bubble. The modelled instructions are proved to (`M0Execute.ModelledOk`); of the others it is assumed.
- A transfer of several registers that leaves memory or is not word aligned ends the simulation.
- A stack that is pushed to is word aligned and the words lie inside memory; on the MSP430 SP does not
  wrap.
- The values of the multiplier's control bits come from a vendor header, which is not part of this model.
  They are those of the MSP430FR5994; the proofs about masks are for these values, in which the code of
  MACS has the bits of both MAC and MPYS.

## Where code and text differ

- `Spi::Fifo::get` logs that it returns all ones when it is asked for too much. It returns what there is
  with zeros above, and leaves a negative count (`SpiFifo.GetRefinesExactly`).
- 16-bit signed accumulation of the multiplier computes nothing (`Mpy32.Macs16Idle`).
- The guard of `reportEvent` is off by one: the log row has a time column after the events
  (`PowerLedger.GuardMissesTimeColumn`).
- The alignment check of the cache compares offsets only. It misses exactly the accesses longer than a
  line that it lets pass (`CacheAddress.AlignmentCheckExact`), with lines of one byte every word access
  (`CacheAddress.AlignmentCheckMissesWord`).
- `getNextExecutionPc` asserts at most one bubble, which three stages violate after exactly the cycles
  whose instruction reports a taken branch (`M0Interrupt.ThreeStageEntry`).
- A return address from 0xF0000000 up is taken for an EXC_RETURN value by BX and POP
  (`M0Branch.BlReturns`, `M0Stack.PushPop`).
- Reading an operand register of the multiplier selects its mode, and reading OP2 or OP2H multiplies again;
  `Mpy32.ReadSelects`, `Mpy32.ReadIdle16` and `Mpy32.ReadIdle32` say exactly when that changes nothing.
- STM with a listed base that is its lowest register, which the architecture defines, ends the simulation
  (`M0Stack.StmRefuses`).
- Operands of mixed sizes, one of 16 and one of 32 bits, which the multiplier means to support, are multiplied
  with a stale 32-bit register; `Mpy32.MixedRight` says exactly when that is harmless.
- A DMA block of size 0 ends at its trigger without clearing the enable bit of its register, and a single
  transfer of size 0 makes one beat (`Dma.EmptyBlock`, `Dma.Total`).

## Model

| member | source | states |
|---|---|---|
| `CacheAddress.AddressFields` | mcu/Cache.hpp:150-168 | the masks and shifts of `index`, `tag` and `offset` are the low bits, the next bits and the rest of the address, and together determine it |
| `CacheAddress.MaskFits` | mcu/Cache.cpp:52-56 | the masks built in the constructor are words that cover disjoint bits, whatever the line width and set count |
| `CacheAddress.JoinUnique` | mcu/Cache.hpp:150-160 | tag and index of a block are those of no other block |
| `CacheAddress.WriteBackIsBlockAddress` | mcu/Cache.cpp:248-250 | the shifted tag and index of a block, truncated to 32 bits, are exactly the byte address of the block |
| `CacheAddress.WriteBackRejoins` | mcu/Cache.cpp:244-266 | the address a victim is written back to is the address it was loaded from: split and rejoin are inverse |
| `CacheAddress.AlignmentCheckExact` | mcu/Cache.cpp:124-131 | an access of any length is within one line if and only if the check passes and the access is no longer than a line |
| `CacheAddress.AlignmentCheckMissesWord` | mcu/Cache.cpp:124-131 | so with lines of one byte, and any number of sets, a word access of two bytes passes and spans two lines |
| `Replacement.PolicyStep` | mcu/CacheReplacementPolicies.hpp:46-179 | under every policy a miss names a line of the set and hits and misses keep the policy well formed |
| `Replacement.MoveAt` | mcu/CacheReplacementPolicies.hpp:55-64 | moving position i of the LRU list to the front shifts the positions before it by one and leaves the others |
| `Replacement.OrderIsComplete` | mcu/CacheReplacementPolicies.hpp:46-76 | an LRU list of n distinct line numbers holds every line |
| `Replacement.RoundRobinIsFair` | mcu/CacheReplacementPolicies.hpp:78-97 | any n consecutive misses, hits between them or not, evict each of n lines exactly once |
| `Replacement.LfuCountsHits` | mcu/CacheReplacementPolicies.hpp:102-149 | over every run the counters are the hits since the line was loaded, capped at the saturation |
| `Replacement.LfuVictim` | mcu/CacheReplacementPolicies.hpp:114-136 | the victim has a minimal counter |
| `Replacement.TieIsTwoIndices` | mcu/CacheReplacementPolicies.hpp:114-132 | the tie breaker comes into play exactly if two lines share the minimal counter |
| `Replacement.LfsrBijective` | mcu/CacheReplacementPolicies.hpp:164-168 | the shift register step is a bijection on 16-bit states: a step back undoes it, from either side |
| `Replacement.LfsrNeverZero` | mcu/CacheReplacementPolicies.hpp:166-168 | from the seed the register is never zero, after any number of steps |
| `Replacement.LfsrVictim` | mcu/CacheReplacementPolicies.hpp:156-170 | the masked register is below the number of lines, a power of two |
| `Replacement.LfsrVictimIsRemainder` | mcu/CacheReplacementPolicies.hpp:156-170 | with a power of two of lines it is the register modulo the lines |
| `Replacement.LfsrShifts` | mcu/CacheReplacementPolicies.hpp:164-168 | a step moves the register right by one, with the parity of bits 0, 2, 3 and 5 in its highest bit; the seed 0xBEEF is followed by 0x5F77 |
| `Replacement.TieBreakerPicks` | mcu/CacheReplacementPolicies.hpp:114-132 | of several least used lines the tie breaker takes the first when set and the last when clear |
| `Replacement.TiesAlternate` | mcu/CacheReplacementPolicies.hpp:114-136 | a tie, and nothing else, moves the tie breaker |
| `Replacement.LruFirstLoads` | mcu/CacheReplacementPolicies.hpp:48-64 | a newly constructed LRU set loads its lines from the last to the first |
| `Replacement.RoundRobinFirstLoads` | mcu/CacheReplacementPolicies.hpp:78-97 | the i-th miss of a newly constructed round-robin set takes line i + 1 modulo the lines, over every run |
| `Replacement.LfuFirstLoads` | mcu/CacheReplacementPolicies.hpp:102-149 | a newly constructed LFU set counts hits up to 64, and its first two misses, both ties, take the last line and then the first |
| `Replacement.PseudoRandomLoads` | mcu/CacheReplacementPolicies.hpp:156-170 | the k-th miss of a newly constructed pseudo-random set takes the line of the register after k + 1 steps |
| `Replacement.ResetMakesNew` | mcu/CacheReplacementPolicies.hpp:66-74 | a reset makes every policy what its constructor made, but for the tie breaker of LFU, which stays; likewise lines 92 and 138 to 142 |
| `ReplacementUnits.LruUnit.Hit` | mcu/CacheReplacementPolicies.hpp:55-58 | the list is updated in place to the specified order |
| `ReplacementUnits.LruUnit.Miss` | mcu/CacheReplacementPolicies.hpp:60-64 | the victim is the last of the list, which moves to the front |
| `ReplacementUnits.RoundRobinUnit.Miss` | mcu/CacheReplacementPolicies.hpp:87-90 | the counter advances modulo the number of lines and names the victim |
| `ReplacementUnits.LfuUnit.Hit` | mcu/CacheReplacementPolicies.hpp:107-112 | the counter of the line goes up unless it is saturated |
| `ReplacementUnits.LfuUnit.Miss` | mcu/CacheReplacementPolicies.hpp:114-136 | the loop finds the specified victim, toggles the tie breaker on a tie, and clears the counter |
| `ReplacementUnits.PseudoRandomUnit.Miss` | mcu/CacheReplacementPolicies.hpp:163-170 | the shared register steps and its masked value is the victim |
| `CacheModel.FindLine` | mcu/Cache.cpp:26-33 | the index of a valid line with the tag, and -1 exactly if there is none |
| `CacheModel.AccessSetStep` | mcu/Cache.cpp:133-223 | for any in-range victim an access keeps tags unique, dirty lines valid and clean lines equal to memory, and a read returns what set and memory together hold |
| `CacheModel.AccessSetView` | mcu/Cache.cpp:145-223 | an access changes the logical content under every tag of its set by exactly the bytes written |
| `CacheModel.AccessSetFrame` | mcu/Cache.cpp:145-223 | memory blocks of other sets stay as they are |
| `CacheSystem.MasksFindPlace` | mcu/Cache.cpp:124-145 | set, tag and offset found by masks and shifts are those the model uses |
| `CacheSystem.InitialOk` | mcu/Cache.cpp:42-91 | the cache as constructed satisfies the invariant and shows the memory behind it, whatever the geometry and the policies |
| `CacheSystem.StepKeepsOk` | mcu/Cache.cpp:119-229 | every access, with the victim its replacement policy names, keeps the invariant of all sets |
| `CacheSystem.StepRefines` | mcu/Cache.cpp:119-229 | under all three write policies an access is a read or a write of a reference memory: same reply, exactly the written bytes changed, memory itself brought up to date at write-back |
| `CacheSystem.ResetShowsDurable` | mcu/Cache.cpp:238-242 | after a power loss every byte reads as its last written-back value |
| `CacheSystem.ResetInvisible` | mcu/Cache.cpp:238-242 | a power loss changes the logical memory if and only if some dirty line differs from memory; never under write-through and write-around |
| `CacheSystem.RunRefines` | mcu/Cache.cpp:119-242 | transparency over every run of reads, writes and power losses: all replies and the final contents are those of the reference memory |
| `CacheFlat.LooksFlat` | mcu/Cache.cpp:119-229 | under write-through and write-around, or while power stays on, every run gives byte for byte what a flat memory gives |
| `CacheLru.LruStack` | mcu/CacheReplacementPolicies.hpp:46-76 | after any run under an allocating write policy from an empty cache the lines of a set in list order hold exactly the most recently used distinct tags |
| `CacheLru.HitExactly` | mcu/Cache.cpp:133-143 | an address hits if and only if its tag is among the n most recent distinct tags of its set |
| `CacheLru.MoreLinesMoreHits` | mcu/CacheReplacementPolicies.hpp:46-76 | adding lines never turns a hit into a miss |
| `CacheLru.BuiltHitExactly` | mcu/Cache.cpp:71-86 | so for a cache configured for LRU, from its construction on and from every power loss on |
| `CacheLru.AccessHits` | mcu/Cache.cpp:133-223 | after an access its address hits, unless it is a write under write-around, which leaves a miss there and every other block as it was |
| `CacheKinds.UseIsLoaded` | mcu/Cache.cpp:133-223 | the line the policy names is the line that holds the block afterwards |
| `CacheKinds.SetRuns` | mcu/Cache.cpp:133-143 | after any requests the policy of every set has run through exactly the hits and misses of that set |
| `CacheKinds.BuiltRoundRobin` | mcu/Cache.cpp:71-86 | in a cache configured for round robin, after any requests, the i-th line a set has loaded is line i + 1 modulo the lines |
| `CacheKinds.BuiltLfu` | mcu/Cache.cpp:71-86 | in a cache configured for LFU, after any requests, a miss takes a line with the fewest hits since it was last a victim, counted up to 64 |
| `CacheKinds.BuiltPseudoRandom` | mcu/Cache.cpp:71-86 | in a cache configured for pseudo random, after any requests, a miss takes the line of the shared register, stepped once for every miss of any set |
| `CacheDevice.CacheLine.Reset` | mcu/Cache.hpp:28-35 | the loop fills the line with 0xAA and clears its flags and tag |
| `CacheDevice.CacheSet.FindLine` | mcu/Cache.cpp:26-33 | the loop returns what the specification finds |
| `CacheDevice.CacheSet.Reset` | mcu/Cache.cpp:35-40 | all lines and the policy are reset in place |
| `CacheDevice.Cache.WriteLine` | mcu/Cache.cpp:244-256 | the dirty line goes to the memory block it stands for, and is clean |
| `CacheDevice.Cache.ReadLine` | mcu/Cache.cpp:258-269 | the line of the address is loaded from memory |
| `CacheDevice.Cache.Transport` | mcu/Cache.cpp:119-229 | one bus access in place is one step of the cache system, reply included |
| `CacheDevice.Cache.Reset` | mcu/Cache.cpp:238-242 | resetting set after set in place is the specified reset |
| `CacheDevice.Cache.constructor` | mcu/Cache.cpp:42-91 | the loop over sets builds a cache with objects of its own in the initial state of the configured policy, from which the laws of `CacheLru.BuiltHitExactly`, `CacheKinds.BuiltRoundRobin`, `CacheKinds.BuiltLfu` and `CacheKinds.BuiltPseudoRandom` start |
| `ReplacementUnits.NewUnit` | mcu/Cache.cpp:71-86 | the configured kind of policy is made in its initial state, the one those laws start from |
| `M0Arith.FlagFormulasExact` | mcu/cortex-m0/exmemwb.c:25-31 | the carry, overflow and negative formulas give exactly the flags of AddWithCarry, section A2.2.1 of the ARMv6-M Architecture Reference Manual |
| `M0Arith.AddWordsExact` | mcu/cortex-m0/exmemwb_arith.c:15-76 | ADDS then ADCS over n words is the n-word sum, C the carry out, V exactly signed overflow, for every n |
| `M0Arith.SubWordsExact` | mcu/cortex-m0/exmemwb_arith.c:157-195 | SUBS then SBCS is the n-word difference, C exactly not-borrow, V exactly signed overflow |
| `M0Arith.CompareDecides` | mcu/cortex-m0/exmemwb_branch.c:27-123 | after CMP the conditions decide the unsigned and signed orders of the operands |
| `M0Cpu.WithN` | mcu/cortex-m0/exmemwb.h:76-84 | setting N changes N and no other flag; likewise `WithZ`, `WithC`, `WithV` |
| `M0Cpu.Cpu.SetFlag` | mcu/cortex-m0/exmemwb.h:74-81 | the masks set exactly one bit of APSR |
| `M0Cpu.Cpu.DoFlags` | mcu/cortex-m0/exmemwb.h:83-87 | the four updates leave the flags of the sum |
| `M0Cpu.Cpu.Adds` | mcu/cortex-m0/exmemwb_arith.c:63-76 | registers and flags in place as specified |
| `M0Cpu.Cpu.AddsImmediate` | mcu/cortex-m0/exmemwb_arith.c:31-60 | the sum with an immediate, with its flags |
| `M0Cpu.Cpu.Adcs` | mcu/cortex-m0/exmemwb_arith.c:15-28 | the sum with the old carry, with its flags |
| `M0Cpu.Cpu.Subs` | mcu/cortex-m0/exmemwb_arith.c:157-170 | the difference, with its flags |
| `M0Cpu.Cpu.SubsImmediate` | mcu/cortex-m0/exmemwb_arith.c:127-155 | the difference with an immediate, with its flags |
| `M0Cpu.Cpu.Sbcs` | mcu/cortex-m0/exmemwb_arith.c:182-195 | the difference with the old carry, with its flags |
| `M0Cpu.Cpu.Rsbs` | mcu/cortex-m0/exmemwb_arith.c:197-210 | zero minus the register, with its flags |
| `M0Cpu.Cpu.Cmp` | mcu/cortex-m0/exmemwb_branch.c:27-51 | the flags of the difference, registers unchanged |
| `M0Cpu.Cpu.BranchConditional` | mcu/cortex-m0/exmemwb_branch.c:78-141 | the PC moves by the offset and the branch is reported exactly if the condition holds |
| `M0Stack.DecodeMasks` | mcu/cortex-m0/decode.c:74-81 | the shifts and masks that decode the list of PUSH and POP move bit 8 and keep the low eight |
| `M0Cpu.DecodePush` | mcu/cortex-m0/decode.c:78-81 | the decoded list has R0-R7 by the low bits and LR by bit 8, and nothing else |
| `M0Cpu.DecodePop` | mcu/cortex-m0/decode.c:74-76 | the decoded list has R0-R7 by the low bits and PC by bit 8, and nothing else |
| `M0Stack.PushLeaves` | mcu/cortex-m0/exmemwb_mem.c:102-122 | PUSH leaves SP below the words of its list, which lie upwards from it in register order |
| `M0Stack.PushPop` | mcu/cortex-m0/exmemwb_mem.c:65-122 | PUSH {L, lr}, anything that keeps SP and the pushed words, POP {L, pc}: SP and all of L are back, PC is the old LR, other registers are as they were; POP then ends if and only if the old LR is no EXC_RETURN value, and else hands exactly that value to the exception return |
| `M0Stack.PushFrame` | mcu/cortex-m0/exmemwb_mem.c:102-122 | PUSH writes nothing but the words between new and old SP |
| `M0Stack.StmRefuses` | mcu/cortex-m0/exmemwb_mem.c:38-60 | STM ends the simulation before storing anything if and only if the base is in the list and no lower register is |
| `M0Stack.StmLeaves` | mcu/cortex-m0/exmemwb_mem.c:38-60 | otherwise it leaves the values of the list in memory and the base moved past them |
| `M0Stack.StmLdm` | mcu/cortex-m0/exmemwb_mem.c:16-60 | for those other lists: STM, anything that keeps the stored words, LDM from the old base: every listed register is as it was stored, and the base is where STM left it unless it is listed |
| `M0Stack.StmFrame` | mcu/cortex-m0/exmemwb_mem.c:38-60 | STM writes nothing but the block |
| `M0Cpu.Cpu.Push` | mcu/cortex-m0/exmemwb_mem.c:102-122 | the loop from LR down stores the block and moves SP as specified |
| `M0Cpu.Cpu.Pop` | mcu/cortex-m0/exmemwb_mem.c:65-99 | the loop loads the listed registers, moves SP, reports the branch, and hands over an EXC_RETURN value exactly if one was popped into PC |
| `M0Cpu.Cpu.PopAndReturn` | mcu/cortex-m0/exmemwb_mem.c:65-99 | POP in place with the exception return it may ask for |
| `M0Cpu.Cpu.Ldm` | mcu/cortex-m0/exmemwb_mem.c:16-35 | the loop loads the list, and writes the base back exactly if it is not in it |
| `M0Cpu.Cpu.Stm` | mcu/cortex-m0/exmemwb_mem.c:38-60 | the loop stores the list, or gives up before storing anything exactly where the specified STM does |
| `M0Branch.MatchesBlExact` | mcu/cortex-m0/decode.c:83-95 | the mask on the joined halves recognises exactly the bits of BL |
| `M0Branch.DecodesBl` | mcu/cortex-m0/decode.c:97-103 | the shifts, masks, exclusive ors and ors of the decoder give S, I1, I2, imm10 and imm11 as one number |
| `M0Branch.SignExtendExact` | mcu/cortex-m0/exmemwb.h:114-115 | the macro sets the bits above the sign bit exactly if it is set, for any width |
| `M0Branch.BlRoundTrip` | mcu/cortex-m0/decode.c:83-105 | the decoder takes every encoded even offset of 25 bits for a BL, and shifting and sign extending what it decodes gives the offset back |
| `M0Branch.BlReturns` | mcu/cortex-m0/exmemwb_branch.c:161-190 | BL goes to the instruction address plus four plus the offset; BX LR comes back to the instruction after it, unless that address has its four high bits set and is taken for an EXC_RETURN value |
| `M0Branch.BlxReturns` | mcu/cortex-m0/exmemwb_branch.c:144-177 | BLX goes to the register, and BX LR comes back to the instruction after it, with the same exception |
| `M0Branch.ConditionalOffset` | mcu/cortex-m0/exmemwb_branch.c:134 | the shifted and sign-extended immediate of a conditional branch is its signed immediate, doubled |
| `M0Branch.BranchOffset` | mcu/cortex-m0/exmemwb_branch.c:69 | and that of an unconditional one |
| `M0Cpu.Cpu.BranchLink` | mcu/cortex-m0/exmemwb_branch.c:181-190 | PC and LR in place as specified |
| `M0Cpu.Cpu.BranchLinkExchange` | mcu/cortex-m0/exmemwb_branch.c:144-157 | refused exactly on an address without thumb bit, else PC and LR as specified |
| `M0Cpu.Cpu.BranchExchange` | mcu/cortex-m0/exmemwb_branch.c:161-177 | refused exactly on an address without thumb bit; an EXC_RETURN value is handed over, any other address becomes the PC |
| `M0Exception.FramePtrMask` | mcu/cortex-m0/CortexM0Cpu.cpp:265-266 | subtracting 0x20 and clearing bit 2 is SP less the frame, aligned to eight bytes |
| `M0Exception.StackedPsrMask` | mcu/cortex-m0/CortexM0Cpu.cpp:281-283 | the stacked xPSR is APSR with bit 9 recording the alignment |
| `M0Exception.PsrRoundTrip` | mcu/cortex-m0/CortexM0Cpu.cpp:281-283 | unstacking recovers the alignment bit and the four flags |
| `M0Exception.EnterFrame` | mcu/cortex-m0/CortexM0Cpu.cpp:264-283 | entry writes the eight words of the frame and nothing else |
| `M0Exception.EntryState` | mcu/cortex-m0/CortexM0Cpu.cpp:252-302 | the handler runs in handler mode with IPSR its exception number, bit 1 of CONTROL clear and its other bits kept, R0-R12 and APSR kept, LR one of the three EXC_RETURN values by the old mode and stack, and SP moved by 0x20 or 0x24 |
| `M0Exception.EntryStack` | mcu/cortex-m0/CortexM0Cpu.cpp:264-283 | from SP up lie R0-R3, R12, LR, the return address and APSR with bit 9 the alignment; all other memory is kept |
| `M0Exception.ReturnState` | mcu/cortex-m0/CortexM0Cpu.cpp:304-349 | from any frame return takes the registers from their places, the flags alone into APSR, IPSR 0, and mode and stack by the EXC_RETURN value |
| `M0Exception.ReturnFromFrame` | mcu/cortex-m0/CortexM0Cpu.cpp:328-345 | return takes R0-R3, R12, LR and PC from the frame and SP from before it, for both alignments |
| `M0Exception.HandlerTransparent` | mcu/cortex-m0/exmemwb_mem.c:65-122 | a handler that starts with PUSH {L, lr} and ends with POP {L, pc}, leaving SP, the pushed words, the frame and the registers outside L of R4-R11 alone in between, is invisible to the interrupted program: POP itself returns from the exception |
| `M0Exception.ExceptionTransparent` | mcu/cortex-m0/CortexM0Cpu.cpp:252-360 | entry, any handler that keeps R4-R11, SP, CONTROL and the frame, return: all registers, flags, mode and stack selection are as before |
| `M0Cpu.Cpu.ExceptionEnter` | mcu/cortex-m0/CortexM0Cpu.cpp:252-302 | entry in place is the specified entry, whose state `M0Exception.EntryState` and `M0Exception.EntryStack` give in full |
| `M0Cpu.Cpu.ExceptionReturn` | mcu/cortex-m0/CortexM0Cpu.cpp:304-349 | return in place is the specified return, refused exactly on values that are no EXC_RETURN |
| `M0Pipeline.FetchReadsCode` | mcu/cortex-m0/CortexM0Cpu.cpp:394-418 | fetching through the buffer returns the halfword in memory |
| `M0Pipeline.NextExecutionPcExact` | mcu/cortex-m0/CortexM0Cpu.cpp:543-552 | in every state of the invariant the formula names the next real instruction, on two and three stages |
| `M0Pipeline.PcReads` | mcu/cortex-m0/CortexM0Cpu.cpp:119-126 | during execution the PC reads as instruction address plus four, 32-bit instructions included |
| `M0Pipeline.BubbleCycle` | mcu/cortex-m0/CortexM0Cpu.cpp:115-156 | a bubble changes nothing but the pipeline |
| `M0Pipeline.RealCycle` | mcu/cortex-m0/CortexM0Cpu.cpp:115-156 | a cycle without bubble is one step of the sequential machine, and ends the simulation exactly where that does |
| `M0Pipeline.PipelineRefines` | mcu/cortex-m0/CortexM0Cpu.cpp:87-178 | in every reachable state the queue and PC name the next instruction, and the non-bubble cycles are exactly the steps of the sequential machine, whose steps `M0Steps.StepReads` gives; both stop at the same place |
| `M0Interrupt.InterruptEntry` | mcu/cortex-m0/CortexM0Cpu.cpp:252-302 | wherever the assertion on bubbles holds, which on two stages is everywhere, the saved PC is the next instruction and the handler starts at its own |
| `M0Interrupt.InterruptTransparent` | mcu/cortex-m0/CortexM0Cpu.cpp:252-360 | on either pipeline, after a handler that behaves, it is about to execute the same next instruction on the same core |
| `M0Interrupt.NoNesting` | mcu/cortex-m0/CortexM0Cpu.cpp:230-233 | while a handler runs IPSR holds its number and no other exception can be taken |
| `M0Interrupt.ReturnCycle` | mcu/cortex-m0/CortexM0Cpu.cpp:115-156 | the cycle that executes a BX or POP returning from an exception is the return |
| `M0Interrupt.BodyEnds` | mcu/cortex-m0/exmemwb_mem.c:65-122 | a handler from PUSH {L, lr} to POP {L, pc} hands over a core that behaved and the value entry put in LR |
| `M0Interrupt.HandlerRefines` | mcu/cortex-m0/CortexM0Cpu.cpp:87-302 | the cycles of a handler refine the sequential machine too, from its first instruction |
| `M0Interrupt.InterruptedRunRefines` | mcu/cortex-m0/CortexM0Cpu.cpp:87-360 | on either pipeline a program interrupted any number of times where the assertion allows it, by handlers that run in the same pipeline, behave and return by BX or POP, executes between them exactly the steps of the sequential machine, up to what the handlers write to memory |
| `M0Interrupt.ThreeStageEntry` | mcu/cortex-m0/CortexM0Cpu.cpp:543-552 | on three stages, after any cycle from any state of the invariant that does not end the simulation, the assertion on bubbles fails if and only if the instruction executed in that cycle reported a taken branch |
| `M0Execute.FieldMask` | mcu/cortex-m0/decode.c:17-75 | the shifts and masks of the decoders are the fields of the instruction |
| `M0Execute.ModelledOk` | mcu/cortex-m0/exmemwb.c:122-313 | the modelled instructions, decoded by opcode group as in the tables, change the PC only when they report a taken branch, report one for BL, and do nothing on the bubble, whatever the other instructions do within these rules; `NoOthersOk` gives a machine of these instructions alone |
| `M0Encodings.AddsRegister` | mcu/cortex-m0/exmemwb_arith.c:63-76 | 0x1800 + 64m + 8n + d leaves R[n] + R[m] modulo 2^32 in R[d] and the flags of that sum, and nothing else changes |
| `M0Encodings.SubsRegister` | mcu/cortex-m0/exmemwb_arith.c:157-170 | 0x1A00 + 64m + 8n + d leaves the difference and its flags likewise |
| `M0Encodings.AddsSmall` | mcu/cortex-m0/exmemwb_arith.c:31-44 | 0x1C00 + 64 imm + 8n + d adds the three-bit immediate |
| `M0Encodings.SubsSmall` | mcu/cortex-m0/exmemwb_arith.c:127-140 | 0x1E00 + 64 imm + 8n + d subtracts it |
| `M0Encodings.AddsWide` | mcu/cortex-m0/exmemwb_arith.c:47-60 | 0x3000 + 256d + imm adds the eight-bit immediate |
| `M0Encodings.SubsWide` | mcu/cortex-m0/exmemwb_arith.c:142-155 | 0x3800 + 256d + imm subtracts it |
| `M0Encodings.CompareWide` | mcu/cortex-m0/exmemwb_branch.c:27-37 | 0x2800 + 256n + imm leaves the flags of the difference and nothing else |
| `M0Encodings.CompareRegister` | mcu/cortex-m0/exmemwb_branch.c:40-51 | 0x4280 + 8m + n does for two registers |
| `M0Encodings.AdcsRegister` | mcu/cortex-m0/exmemwb_arith.c:15-28 | 0x4140 + 8m + d adds with the carry of APSR |
| `M0Encodings.SbcsRegister` | mcu/cortex-m0/exmemwb_arith.c:182-195 | 0x4180 + 8m + d subtracts with the borrow |
| `M0Encodings.RsbsRegister` | mcu/cortex-m0/exmemwb_arith.c:197-210 | 0x4240 + 8n + d subtracts from zero |
| `M0Encodings.ProgramAdds` | mcu/cortex-m0/exmemwb_arith.c:15-76 | 0x1840 on the lowest words and 0x4148 on the others, executed one after the other, add numbers of any number of words, C the carry out and V signed overflow |
| `M0Encodings.ProgramSubtracts` | mcu/cortex-m0/exmemwb_arith.c:157-195 | 0x1A40 and then 0x4188 subtract, C clear exactly on a borrow |
| `M0Encodings.MoveRegister` | mcu/cortex-m0/exmemwb_misc.c:25-34 | 0x4600 + 128 (d / 8) + 8m + d mod 8 moves between any two registers, and to the PC with the thumb bit set |
| `M0Encodings.BranchAlways` | mcu/cortex-m0/exmemwb_branch.c:68-75 | 0xE000 with the eleven-bit field of any even offset goes by that offset |
| `M0Encodings.BranchIf` | mcu/cortex-m0/exmemwb_branch.c:78-141 | 0xD000 + 256 cond with the eight-bit field of any even offset goes by it exactly if the condition holds, and else changes nothing |
| `M0Encodings.CompareAndBranch` | mcu/cortex-m0/exmemwb_branch.c:27-141 | after a comparison all fourteen conditional branches are taken exactly in the order of the operands, sign or overflow their condition names |
| `M0Encodings.BranchWithLink` | mcu/cortex-m0/exmemwb_branch.c:181-190 | the two halves of BL, field by field, go to the PC plus S:I1:I2:imm10:imm11:0 as a signed number, with the old PC in LR |
| `M0Encodings.BranchToRegister` | mcu/cortex-m0/exmemwb_branch.c:161-177 | 0x4700 + 8m ends the simulation on an even address, jumps below 0xF0000000, and from there up returns from the exception or ends |
| `M0Encodings.CallRegister` | mcu/cortex-m0/exmemwb_branch.c:144-157 | 0x4780 + 8m ends the simulation on an even address, else jumps with the next address in LR |
| `M0Encodings.PushStores` | mcu/cortex-m0/exmemwb_mem.c:102-122 | 0xB400 + list stores the registers at the number of listed registers below each, LR above them, from the new SP up, and nothing else; it ends the simulation exactly where the block leaves memory |
| `M0Encodings.PopLoads` | mcu/cortex-m0/exmemwb_mem.c:65-99 | 0xBC00 + list loads them from there, the PC from above them, moves SP past them, and asks for an exception return exactly if the PC would be 0xF0000000 or above |
| `M0Encodings.StmStores` | mcu/cortex-m0/exmemwb_mem.c:38-60 | 0xC000 + 256n + list stores from the base up and moves it past the block, refused exactly if the base is the lowest listed |
| `M0Encodings.LdmLoads` | mcu/cortex-m0/exmemwb_mem.c:16-35 | 0xC800 + 256n + list loads from there, the base moved past the block unless loaded |
| `M0Steps.HalvesOfWord` | mcu/cortex-m0/CortexM0Cpu.cpp:394-418 | code memory is little endian: the low half of a word is at its address |
| `M0Steps.StepReads` | mcu/cortex-m0/decode.c:195-215 | a step executes the halfword at the next address, with the following halfword exactly if it is from 0xF000 up to 0xF7FF; without a branch the next address is two on |
| `M0Steps.CallStep` | mcu/cortex-m0/decode.c:83-105 | for every even offset of 25 bits, BL in code memory is one step to four past its address plus the offset, with that address plus four in LR |
| `M0Steps.CallCycle` | mcu/cortex-m0/CortexM0Cpu.cpp:115-156 | and one cycle of either pipeline |
| `M0Steps.BackwardEncodings` | mcu/cortex-m0/decode.c:83-105 | the halves of BL by -4, -8 and the farthest backward offset |
| `M0Steps.ForwardEncodings` | mcu/cortex-m0/decode.c:83-105 | the halves of BL by 0, 0x400000 and 0x800000 |
| `M0Execute.ReturnLeaves` | mcu/cortex-m0/exmemwb_mem.c:65-99 | BX of a register holding an accepted EXC_RETURN value, and POP of one into the PC, end a handler |
| `M0Execute.ModelledRunRefines` | mcu/cortex-m0/CortexM0Cpu.cpp:87-360 | so the core with the modelled instructions, interrupted any number of times, executes the steps of the sequential machine |
| `M0Interrupt.CortexM0.Fetch` | mcu/cortex-m0/CortexM0Cpu.cpp:394-418 | the masks and the buffer in place as specified |
| `M0Interrupt.CortexM0.FlushPipeline` | mcu/cortex-m0/CortexM0Cpu.cpp:180-187 | the loop leaves a queue of bubbles |
| `M0Interrupt.CortexM0.Cycle` | mcu/cortex-m0/CortexM0Cpu.cpp:87-156 | one pass of the loop in place is one cycle |
| `M0Interrupt.CortexM0.EnterException` | mcu/cortex-m0/CortexM0Cpu.cpp:252-302 | the saved PC with its thumb bit, the entry and the flush as specified, refused exactly where the assertion fails |
| `M0Interrupt.CortexM0.GetNextExecutionPc` | mcu/cortex-m0/CortexM0Cpu.cpp:543-552 | the assertion and the formula as specified |
| `Dma.FirstPending` | mcu/msp430fr5xx/Dma.cpp:185-193 | the lowest pending channel is served first |
| `Dma.RunKeepsInv` | mcu/msp430fr5xx/Dma.cpp:172-236 | over every interleaving memory is what the beats and the writes of the CPU made of it and nothing else |
| `Dma.ApplyKeepsJob` | mcu/msp430fr5xx/Dma.cpp:172-236 | every step of the arbiter, of any channel, every trigger, memory write and register write to other channels keeps a job on course |
| `Dma.RunKeepsJob` | mcu/msp430fr5xx/Dma.cpp:172-236 | so does every run of them |
| `Dma.ProgramStartsJob` | mcu/msp430fr5xx/Dma.cpp:511-521 | writing the address, size and control registers of an idle channel starts a job |
| `Dma.TriggeredOnCourse` | mcu/msp430fr5xx/Dma.cpp:366-401 | a trigger loads the job registers at its start only, and is ignored while a transfer is pending |
| `Dma.AcceptedOnCourse` | mcu/msp430fr5xx/Dma.cpp:382-415 | an accepted beat moves the addresses and the size by one, and ends the job at the last |
| `Dma.JobOutcome` | mcu/msp430fr5xx/Dma.cpp:363-415 | the beats are the k-th source and destination addresses in order, at most the size; the channel is disabled, flagged and its size restored exactly when all are made |
| `Dma.BeatAddresses` | mcu/msp430fr5xx/Dma.cpp:272-291 | in every reachable state the k-th beat goes from the start less k times the width, the start itself, or the start plus k times the width, by the modes of source and destination, with widths 1 and 2 |
| `Dma.JobMoves` | mcu/msp430fr5xx/Dma.cpp:205-291 | in every mode and width, whatever happens in between, memory holds what the beats so far have moved: each byte of the destination what the last beat to write it brought from the source, the source unchanged, and all beats once the channel is disabled |
| `Dma.FixedDestination` | mcu/msp430fr5xx/Dma.cpp:272-291 | a finished job with a fixed destination leaves the last unit of the source there |
| `Dma.FixedSource` | mcu/msp430fr5xx/Dma.cpp:272-291 | one with a fixed source fills the destination with that unit |
| `Dma.DownwardCopy` | mcu/msp430fr5xx/Dma.cpp:272-291 | one that decrements on both sides copies the range that ends with the programmed unit |
| `Dma.ReversingCopy` | mcu/msp430fr5xx/Dma.cpp:272-291 | one that decrements the source and increments the destination reverses the units |
| `Dma.JobCopies` | mcu/msp430fr5xx/Dma.cpp:205-223 | with incrementing disjoint ranges the destination equals the source, and memory nobody writes to is unchanged |
| `Dma.BlockFinishes` | mcu/msp430fr5xx/Dma.cpp:172-236 | a granted block retires after exactly four steps of the arbiter a beat and one or two more, over every run that leaves its own registers alone, whatever else is triggered and programmed meanwhile |
| `Dma.LowestIsGranted` | mcu/msp430fr5xx/Dma.cpp:185-193 | a free arbiter grants a channel if and only if it is pending and no lower one is |
| `Dma.PendingUntilGranted` | mcu/msp430fr5xx/Dma.cpp:172-415 | a triggered channel stays pending until it is granted, whatever else happens |
| `Dma.GrantedBlockMoves` | mcu/msp430fr5xx/Dma.cpp:172-415 | a block transfer of any mode, under any contention: from the grant, any run with at least four steps of the arbiter a beat and two more leaves in memory what its beats move and nothing else, the channel disabled and flagged |
| `Dma.GrantedBlockCopies` | mcu/msp430fr5xx/Dma.cpp:172-415 | a block transfer end to end under any contention: from the grant, any such run with at least four steps of the arbiter a beat and two more leaves the destination equal to the source, other memory as it was, the channel disabled, its flag set and its size restored |
| `Dma.BlockCopies` | mcu/msp430fr5xx/Dma.cpp:172-415 | in particular from the trigger on, if it finds the arbiter free and no lower channel pending |
| `Dma.TriggersAreBeats` | mcu/msp430fr5xx/Dma.cpp:366-393 | in Single mode every trigger that finds the channel waiting makes one beat, and nothing else makes one |
| `Dma.SingleMoves` | mcu/msp430fr5xx/Dma.cpp:172-393 | a single transfer of any mode: over every run with `size` such triggers the same holds |
| `Dma.SingleCopies` | mcu/msp430fr5xx/Dma.cpp:172-393 | a single transfer end to end: over every run with `size` such triggers, other channels being triggered and programmed and the CPU writing memory in between, the same holds |
| `Dma.BeatIsMade` | mcu/msp430fr5xx/Dma.cpp:172-236 | a granted beat is made after exactly three steps of the arbiter, in either mode, whatever happens between them |
| `Dma.EmptyBlock` | mcu/msp430fr5xx/Dma.cpp:394-415 | a block of size 0 makes no beat, and leaves the enable bit of its register set |
| `DmaDevice.DmaChannel.UpdateAddresses` | mcu/msp430fr5xx/Dma.cpp:270-291 | addresses move in place as specified, which `Dma.BeatAddresses` gives mode by mode |
| `DmaDevice.DmaChannel.OnTrigger` | mcu/msp430fr5xx/Dma.cpp:366-401 | the channel process from trigger to wait |
| `DmaDevice.DmaChannel.OnAccept` | mcu/msp430fr5xx/Dma.cpp:382-415 | the channel process from accept to wait |
| `DmaDevice.DmaController.UpdateChannelAddresses` | mcu/msp430fr5xx/Dma.cpp:511-521 | the loop refreshes every channel |
| `DmaDevice.DmaController.UpdateConfig` | mcu/msp430fr5xx/Dma.cpp:141-168 | a write to a control register in place, which refreshes the addresses of all channels but for channel 0 |
| `DmaDevice.DmaController.ReadRegisters` | mcu/msp430fr5xx/Dma.cpp:159-168 | a read of the channel registers refreshes the addresses too |
| `DmaDevice.DmaController.CpuWrite` | mcu/msp430fr5xx/Msp430Cpu.cpp:227-248 | a write of the CPU to memory, between the services of the arbiter |
| `DmaDevice.DmaController.FindPending` | mcu/msp430fr5xx/Dma.cpp:185-193 | the loop finds the lowest pending channel |
| `DmaDevice.DmaController.Process` | mcu/msp430fr5xx/Dma.cpp:172-236 | one step of the arbiter in place is the specified step |
| `Mpy32.SelectsMode16` | mcu/msp430fr5xx/Mpy32.cpp:51-66 | the masks select the mode and 16-bit first operand; likewise `SelectsMode32`, `SelectsSize`, `SetsCarry` |
| `Mpy32.SignedProduct` | mcu/msp430fr5xx/Mpy32.cpp:224-235 | multiplying sign-extended operands and truncating is the signed product, truncated |
| `Mpy32.Multiply16Exact` | mcu/msp430fr5xx/Mpy32.cpp:282-375 | 16-bit MPY and MPYS leave the exact product in SUMEXT:RES1:RES0, MAC adds modulo 2^48, RESLO and RESHI follow |
| `Mpy32.Multiply32Exact` | mcu/msp430fr5xx/Mpy32.cpp:113-281 | 32-bit MPY and MPYS leave the exact product in SUMEXT:RES3..RES0, MAC adds modulo 2^80, MACS modulo 2^64 with SUMEXT the sign |
| `Mpy32.MixedResults` | mcu/msp430fr5xx/Mpy32.cpp:107-199 | a 16-bit first and a 32-bit second operand are multiplied with whatever the 32-bit first operand register of the mode holds; likewise `MixedResultsSwapped` |
| `Mpy32.MixedRight` | mcu/msp430fr5xx/Mpy32.cpp:107-112 | so mixed sizes give the product if and only if the 32-bit register happens to hold the 16-bit operand, or the other operand is zero |
| `Mpy32.MixedExample` | mcu/msp430fr5xx/Mpy32.cpp:107-112 | 3 times 5 is 0 when that register holds 0 |
| `Mpy32.Carry16` | mcu/msp430fr5xx/Mpy32.cpp:284-369 | the carry bit: the accumulated result has left 32 bits, or the signed product is negative |
| `Mpy32.Carry32` | mcu/msp430fr5xx/Mpy32.cpp:116-280 | the carry bit: the result has left 64 bits, the signed sum wrapped around 64 bits, or the signed product is negative |
| `Mpy32.Macs16Idle` | mcu/msp430fr5xx/Mpy32.cpp:294-299 | 16-bit MACS leaves the results alone, which is right if and only if an operand is zero |
| `Mpy32.DotProduct16` | mcu/msp430fr5xx/Mpy32.cpp:284-321 | one MPY then any number of MACs: the dot product modulo 2^48 |
| `Mpy32.DotProduct32` | mcu/msp430fr5xx/Mpy32.cpp:116-199 | any number of 32-bit MACs: the dot product modulo 2^80 |
| `Mpy32.SignedDotProduct32` | mcu/msp430fr5xx/Mpy32.cpp:129-161 | any number of 32-bit MACSs: the signed dot product modulo 2^64 |
| `Mpy32.SignedDotProductSign` | mcu/msp430fr5xx/Mpy32.cpp:156-161 | with SUMEXT the sign of the 64 bits |
| `Mpy32.Multiplier.ClearBits` | mcu/msp430fr5xx/Mpy32.cpp:203-219 | clearing bit by bit leaves zero |
| `Mpy32.Multiplier.Process` | mcu/msp430fr5xx/Mpy32.cpp:107-378 | every branch in place as specified |
| `Mpy32.ReadIsRewrite` | mcu/msp430fr5xx/Mpy32.cpp:38-103 | a read of any register returns its value and does all that writing that value back would, the multiplication included |
| `Mpy32.ReadSelects` | mcu/msp430fr5xx/Mpy32.cpp:47-84 | a read that starts no multiplication leaves all registers alone if and only if it selects what is selected already; one of a result register or of a high operand half always does |
| `Mpy32.ReadMultiplies` | mcu/msp430fr5xx/Mpy32.cpp:85-103 | reading OP2 or OP2H multiplies again by the 16-bit or 32-bit operands in place, and accumulates again in the accumulating modes |
| `Mpy32.ReadIdle16` | mcu/msp430fr5xx/Mpy32.cpp:284-369 | such a read leaves the 16-bit results as they are if and only if the product is there already (MPY, MPYS), an operand is zero (MAC), or always (MACS) |
| `Mpy32.ReadIdle32` | mcu/msp430fr5xx/Mpy32.cpp:113-281 | and the 32-bit ones if and only if the product is there already (MPY, MPYS), an operand is zero (MAC), or an operand is zero and SUMEXT is the sign (MACS) |
| `Mpy32.FieldIsDigit` | mcu/msp430fr5xx/Mpy32.cpp:139-143 | the shifts and masks that take a result apart give its 16-bit digits |
| `Mpy32.JoinedResults` | mcu/msp430fr5xx/Mpy32.cpp:116-127 | the shifts and ors that put SUMEXT and RES3 to RES0 together give their value; likewise `JoinedLowResults` |
| `Mpy32.SignExtensionMask` | mcu/msp430fr5xx/Mpy32.cpp:135-136 | or-ing ones above the operand is the sign extension |
| `Mpy32.Multiplier.Transport` | mcu/msp430fr5xx/Mpy32.cpp:38-103 | a read or write of an operand or result register in place, refused exactly in fractional mode |
| `Msp430.SumFlagsExact` | mcu/msp430fr5xx/Msp430Cpu.cpp:705-722 | carry, zero, negative and overflow mean what they should on the low bytes or words, whatever is above |
| `Msp430.CompareDecides` | mcu/msp430fr5xx/Msp430Cpu.cpp:792-799 | after CMP the jumps decide the unsigned and signed orders in byte and word mode, for sources of up to 32 bits |
| `Msp430.JumpOffsetExact` | mcu/msp430fr5xx/Msp430Cpu.cpp:545-552 | every even offset from -1024 to 1022 comes back from its ten-bit field |
| `Msp430.ConstantsSigned` | mcu/msp430fr5xx/Msp430Cpu.cpp:452-477 | the six generated constants are 0, 1, 2, -1, 4 and 8 in both modes |
| `Msp430.CallReturns` | mcu/msp430fr5xx/Msp430Cpu.cpp:665-671 | CALL, any well-nested run, RET: PC and SP are back |
| `Msp430.InterruptReturns` | mcu/msp430fr5xx/Msp430Cpu.cpp:686-693 | an interrupt, any well-nested run, RETI: PC, SP and SR are back |
| `Msp430.NestingRestores` | mcu/msp430fr5xx/Msp430Cpu.cpp:168-225 | every well-nested run of calls and interrupts restores PC and SP, and of interrupts SR |
| `Msp430.InterruptTaken` | mcu/msp430fr5xx/Msp430Cpu.cpp:192-214 | taken if and only if GIE or index below three; the handler starts at its vector with SR cleared but for SCG0 |
| `Msp430.EntryExact` | mcu/msp430fr5xx/Msp430Cpu.cpp:192-225 | entry stacks PC and below it SR, goes to the address in the word 0xFFFE less twice the index, clears SR but for bit 6, and changes nothing else; it ends the simulation exactly on an odd vector or outside memory |
| `Msp430.ResetExact` | mcu/msp430fr5xx/Msp430Cpu.cpp:192-214 | a reset goes to the address at 0xFFFE and clears SR but for bit 6, and stacks nothing |
| `Msp430.CallExact` | mcu/msp430fr5xx/Msp430Cpu.cpp:665-671 | CALL goes to its target with the next address on the stack, and changes nothing else; it ends the simulation exactly on an odd target |
| `Msp430.ReturnsExact` | mcu/msp430fr5xx/Msp430Cpu.cpp:686-693 | RET takes PC, and RETI SR and then PC, off the stack |
| `Msp430.EntrySrMask` | mcu/msp430fr5xx/Msp430Cpu.cpp:210-211 | the mask keeps exactly SCG0 |
| `Msp430Device.CpuUnit.SetSumFlags` | mcu/msp430fr5xx/Msp430Cpu.cpp:750-753 | the four flags in place, all other bits of SR unchanged |
| `Msp430Device.CpuUnit.Compare` | mcu/msp430fr5xx/Msp430Cpu.cpp:792-799 | the flags of the comparison in place |
| `Msp430Device.CpuUnit.ConditionalJump` | mcu/msp430fr5xx/Msp430Cpu.cpp:545-584 | the PC moves by the signed offset modulo 2^32 exactly if the condition holds, refused exactly where `setPc` finds the target odd |
| `Msp430Device.CpuUnit.Call` | mcu/msp430fr5xx/Msp430Cpu.cpp:665-671 | push and jump in place, refused exactly where `setPc` finds the target odd |
| `Msp430Device.CpuUnit.Reti` | mcu/msp430fr5xx/Msp430Cpu.cpp:686-693 | SR then PC popped in place, refused exactly on an odd PC |
| `Msp430Device.CpuUnit.Ret` | mcu/msp430fr5xx/Msp430Cpu.cpp:522-535 | autoincrement through SP into PC in place, refused exactly on an odd PC |
| `Msp430Device.CpuUnit.DecodeJump` | mcu/msp430fr5xx/Msp430Cpu.cpp:546-552 | the masks and the shift give the signed offset and the condition |
| `Msp430Device.CpuUnit.ProcessInterrupt` | mcu/msp430fr5xx/Msp430Cpu.cpp:168-225 | reset, entry or nothing in place |
| `Nvic.WriteOneBits` | mcu/cortex-m0/Nvic.cpp:68-73 | the word operators on the registers, bit by bit: a one that is written sets or clears its bit, a zero leaves it |
| `Nvic.OutputExact` | mcu/cortex-m0/Nvic.cpp:184-200 | the output names the enabled pending interrupt of least priority value, then least number, and -1 exactly if there is none |
| `Nvic.OutputFollowsHistory` | mcu/cortex-m0/Nvic.cpp:83-205 | over every history the output after a sample is 16 plus the pending enabled line with the least of the priorities written last, then least number, by the history alone |
| `Nvic.PrioritiesFollowHistory` | mcu/cortex-m0/Nvic.cpp:184-192 | the priorities are those written last, and zero before and after a reset |
| `Nvic.OutputHeld` | mcu/cortex-m0/Nvic.cpp:56-109 | between samples the output stands |
| `Nvic.RegistersFollowHistory` | mcu/cortex-m0/Nvic.cpp:83-205 | over every run ISER = ICER hold what the history of writes enables and ISPR = ICPR what the history of samples and writes leaves pending, line by line |
| `Nvic.EdgeStaysPending` | mcu/cortex-m0/Nvic.cpp:144-182 | a sampled rising edge is pending at the end of every history in which no later sample ends it: by its handler starting, or by software clearing it while the line is low, without a new request |
| `Nvic.PendingEnds` | mcu/cortex-m0/Nvic.cpp:144-182 | and ceases to be exactly at such a sample, or at a reset |
| `Nvic.ServedOnce` | mcu/cortex-m0/Nvic.cpp:144-192 | a line that stays high is served once, unless its handler returns or software asks again |
| `Nvic.EdgeDuringHandler` | mcu/cortex-m0/Nvic.cpp:144-205 | an edge sampled while the handler runs stays pending while it runs |
| `Nvic.Controller.Write` | mcu/cortex-m0/Nvic.cpp:75-109 | register writes in place |
| `Nvic.Controller.ResetState` | mcu/cortex-m0/Nvic.cpp:56-66 | reset in place |
| `Nvic.Controller.Scan` | mcu/cortex-m0/Nvic.cpp:139-193 | the loop over the lines finds pending bits and the line to request |
| `Nvic.Controller.Process` | mcu/cortex-m0/Nvic.cpp:133-211 | one evaluation in place |
| `PowerLedger.ReportBalances` | ps/PowerModelChannel.cpp:147-148 | a report keeps rates, log and file balanced |
| `PowerLedger.LogStepBalances` | ps/PowerModelChannel.cpp:225-240 | so does a pass of the log loop, with or without a dump |
| `PowerLedger.ApplyConserves` | ps/PowerModelChannel.cpp:138-241 | and every event, energies included |
| `PowerLedger.FileHoldsReported` | ps/PowerModelChannel.cpp:46 | after any run from the start the file the channel leaves holds exactly the counts the run reported, which are those popped and those still in the rates |
| `PowerLedger.FileIsHistory` | ps/PowerModelChannel.cpp:225-240 | row by row, the file the channel leaves holds the time of every pass of the log loop and what was reported for each event from then until the next |
| `PowerLedger.LogBounded` | ps/PowerModelChannel.cpp:225-240 | the log never holds more than 100001 rows and is dumped whole |
| `PowerLedger.RatesFollowHistory` | ps/PowerModelChannel.cpp:147-168 | the rate of an event is what was reported since it was last popped |
| `PowerLedger.CurrentFollowsHistory` | ps/PowerModelBridge.hpp:30-53 | after any run the dynamic current times the voltage and the time since the last update with a voltage is the energy in the rates, which `PowerLedger.RatesFollowHistory` gives |
| `PowerLedger.BridgeDeliversReported` | ps/PowerModelBridge.hpp:30-53 | after any run from the start the sum of dynamic current times voltage times time, plus unpopped energy, is all energy reported |
| `PowerLedger.UpdateKeepsEnergy` | ps/PowerModelBridge.hpp:30-53 | an update moves energy from the rates into current, and none without a positive voltage |
| `PowerLedger.GuardMissesTimeColumn` | ps/PowerModelChannel.cpp:145 | the guard lets through exactly the events and the index of the time column |
| `PowerLedger.EventChannel.ReportEvent` | ps/PowerModelChannel.cpp:138-149 | rate and log in place; refused exactly where the guard fails, undefined exactly at the index of the time column, which the guard lets through |
| `PowerLedger.EventChannel.PopEventCount` | ps/PowerModelChannel.cpp:163-168 | the rate is returned and cleared; refused exactly where the guard fails, undefined exactly at the index of the time column |
| `PowerLedger.EventChannel.PopDynamicEnergy` | ps/PowerModelChannel.cpp:175-182 | the loop pops every event and returns the energy of all |
| `PowerLedger.EventChannel.LogOnce` | ps/PowerModelChannel.cpp:225-240 | a pass of the log loop in place |
| `PowerLedger.Bridge.Process` | ps/PowerModelBridge.hpp:30-53 | the current put out, and the ledger after it |
| `SpiFifo.PutAppends` | mcu/cortex-m0/Spi.hpp:177-194 | a put appends the bytes of the value low byte first, or is rejected and changes nothing exactly if they do not fit |
| `SpiFifo.GetTakes` | mcu/cortex-m0/Spi.hpp:154-175 | a get returns and removes the first bytes, and the bytes above stay zero |
| `SpiFifo.GetRefinesExactly` | mcu/cortex-m0/Spi.hpp:154-175 | the FIFO still holds a queue after a get if and only if it held enough bytes; otherwise zeros are returned above what there was |
| `SpiFifo.LevelExact` | mcu/cortex-m0/Spi.hpp:196-204 | the level encodes the length |
| `SpiFifo.RunRefines` | mcu/cortex-m0/Spi.hpp:142-204 | any mix of puts, gets and resets with no get past the end behaves as a queue of four bytes |
| `SpiFifo.FifoUnit.Get` | mcu/cortex-m0/Spi.hpp:154-175 | in place |
| `SpiFifo.FifoUnit.Put` | mcu/cortex-m0/Spi.hpp:177-194 | in place |
| `SpiFifo.FifoUnit.Level` | mcu/cortex-m0/Spi.hpp:196-204 | the specified level |

## Left out

- SystemC scheduling, sockets, clocks, elaboration, configuration, logging and the energy events reported
  along the way: plumbing. Of time only step boundaries and positive delays are left.
- The shift register of the pseudo-random policy is the cache's own in the model; the program shares it
  between all caches.
- `Cache::transport_dbg`, which bypasses the cache, and the constructor's reading of the configuration.
- Cortex-M0 memory is a sequence of words: byte and halfword accesses are not modelled, nor are unaligned
  multi-register transfers.
- Cortex-M0 instructions other than those of `M0Execute.Execute`: single loads and stores, logic, shifts,
  extensions, MOVS, multiplication, arithmetic on high registers and SP, and special registers.
- M0Exception.ExceptionTransparent: covers one exception at a time, because the core takes none while
  another is active; PRIMASK, sleep, breakpoints and single steps are not modelled, nor is the comparison
  with the registers at entry, which only logs.
- Exceptions taken on three stages right after a flush, where the program stops at its assertion.
- DMA: the decoding of the control register, how long a channel may be starved by lower ones, burst and
  repeated modes, clearing of flags through DMAIV, the interrupt vector register, trigger selection, and
  reconfiguration of a channel while the arbiter serves it.
- Dma.ProgramStartsJob: starts with an empty history of beats, because the history is not part of the
  device.
- Multiplier: fractional mode.
- Mpy32.Multiplier.Transport: leaves out accesses to the control register itself, and single bytes.
- MSP430: decoding of operands and addressing modes other than those named, the remaining instructions,
  execution at a PC beyond 16 bits, and an SP beyond them.
- NVIC: byte accesses to the enable registers, and the output while power is off.
- PowerLedger.BridgeDeliversReported: over reals and for events of constant energy; counts do not
  overflow. Registration of modules and states, and the static current, are left out as easy.
- Sensors, radio, timers, ADC, clock system, GPIO and the analog supply.
