# Emu68: meaning of the translated code, and smaller cores

Emu68 translates m68k code into AArch64 code. This project models the part of the translator that handles ADDQ,
SUBQ, Scc, DBcc, Bcc, BRA and BSR with their operands and condition codes, and proves that running the emitted
instructions means the same as the m68k instructions. Beside it stand the lookup cache, interrupt and exception
entry, the ELF and hunk loaders, and the doorbell between cores.

## How the model is built

* `Words`, `A64`: 32-bit words and an interpreter for the emitted instructions (registers, NZCV, byte-addressed
  big-endian memory). Instructions are data that carry the fields of the encoding, so the arithmetic in encoder
  aliases such as `bic_immed` is part of the model. Branches go forward, or leave the fragment when their distance
  is still 0, to be joined later to an exit block.
* `M68k`, `Manual`, `Guest`: the m68k side, from the M68000 Family Programmer's Reference Manual: tables 3-18 and
  3-19, extension words and operand addresses of section 2.2, the instructions of section 4. The guest uses nothing
  of the emitters; they share with it the datatypes, step sizes, instruction lengths and the decoding of extension
  words.
* `Flags`, `Capture`, `LogicCapture`, `Conditions`, `FpuConditions`, `Quick`, `Pc`, `Displacement`, `Indexed`: the
  emitters and helpers as functions from translation-time parameters to code, each with the effect of that code.
* `EmitQuick`, `EmitBranch`: whole emitters, and for each a refinement lemma. `Represents` relates a host state to a
  guest state: registers and memory equal, PC register plus pending offset equal to the PC, live flags equal in the
  cached register (which holds C and V exchanged), and every flag marked in `host_flags` equal in the host's NZCV.
* `InNumbers`: the same results about the emitted code without anything shared, in numbers: by how much registers and
  PC move, which bytes change and how, which flags are cached, and which bits of an extension word give which part of
  the address; and that every guest state is represented by a host state and every host state represents one.
* `Unit`: translation units and runs of units, liveness of condition codes as data-flow inequalities over the whole
  program, and the consequence that leaving out dead flags cannot be observed. `FlagScan`: the scan that chooses the
  masks, sound against the flags that are live, and exact in what it decides within its depth. `Loops`: DBcc loops and prediction.
* `Lengths`, `Link`: how long the code is, and the finished buffer, with returns, a program counter and signed distance fields; patching and appending
  exit blocks preserves the meaning of the fragments.
* `Translator`: the same emitters in the form the source has, a context whose code buffer, recorded exits,
  `host_flags`, pending offset and code pointer the methods change. Each method is proved to append the code, and
  reach the state, of its function; the last one is proved to return a buffer that runs as the guest does.
* `Lists`, `Lru`, `JitCache`, `Interrupts`, `ElfLoader`, `HunkLoader`, `HunkLoad`, `DuffCopy`, `Doorbell`: the smaller
  cores. `Memory` (bytes at number addresses) and `Wrappers` are shared.

Guest memory is addressed modulo 2^32. The register allocator is taken to hand out distinct registers for distinct
roles, so registers are named by role. `EMIT_LoadImmediate` is one instruction that loads a constant. Which way a
branch is predicted, whether BRA is inlined and where a unit ends are free choices; the results hold for all of them.

## What came out differently from what one might expect

* Setting all five flags conditionally sets four (`Flags.SetFlagsConditionalExactIff`).
* `EMIT_GetNZ00` emits nothing for several flags without N and Z, yet reports V and C as done
  (`LogicCapture.GetNZ00ExactIff`).
* FP predicates F and SF return condition NV, which always holds (`FpuConditions.TestFpuConditionDecidesIff`); and
  OGE/ULT and OLE/UGT are not complements if Z and NAN are both set (`FpuConditions.TestsComplementIff`).
* The immediate addition in the DBcc exit block is exact only for offsets that are not negative; all that are
  reachable are (`EmitBranch.DbccExitExactIff`, `Pc.AdvanceEffect`).
* A writable ELF section aligned to more than a page can overrun the measured size, and an alignment of 0 makes the
  measuring pass forget and the placing pass use address 0 (`ElfLoader.RegionFitsIff`,
  `ElfLoader.ZeroAlignmentForgets`).
* Evicting units, and verifying them, removes them from their buckets but not from the lookup table, so that a lookup
  may return the code of a unit that has been freed; neither `LRU_InvalidateByM68kAddress` nor
  `LRU_InvalidateByARMAddress` has a caller (`JitCache.Cache.Evict`, `JitCache.StaleHit`).
* A code or data block without words makes the hunk loader copy 2^35 words, and one that reaches past the
  padding after its hunk may overwrite the header of the next, which breaks the chain
  (`DuffCopy.CopiedIsCountIff`, `HunkLoad.CopyKeepsChainIff`).
* RTE refuses frames of formats 3 and 4, which `M68K_Exception` can push (`Interrupts.RteUndoesIff`).
* The flag scan halves branch displacements, so it follows an odd one elsewhere (`FlagScan.TargetExactIff`).
* `DuffCopy` with count 0 copies 2^35 words (`DuffCopy.CopiedIsCountIff`).
* The head sentinel of a hash bucket reads as the key of epoch 0 and address 0 (`JitCache.SentinelKey`).
* With a single way the replacement policy leaves its range (`Lru.TouchAvailableIff`).

## Model

| member | source | states |
|---|---|---|
| `Words.RotatedComplement` | emu68/include/A64.h:371-373 | 32-w ones rotated right by r-w are exactly the bits that w ones rotated by r leave out, for every 1 <= w <= 31 and every 8-bit r (the encoder's arithmetic wraps) |
| `A64.BicClearsRotatedOnes` | emu68/include/A64.h:371-373 | `bic_immed`, encoded as an AND with the complementary run, clears exactly its w rotated bits of any register value |
| `A64.Then` | emu68/include/A64.h:22-34 | EMIT appends instructions in order: one branch-free sequence after another runs the one after the other, the composition every other proof uses |
| `M68k.NeedsSuffice` | emu68/src/M68k_LINE5.c:935-952 | A condition has the same value on any two flag states that agree on the flags declared for it |
| `M68k.NeedsAreExact` | emu68/src/M68k_LINE6.c:286-303 | No declared flag is superfluous: for each there are two flag states differing only there on which the condition differs |
| `Flags.ClearFlagsExact` | emu68/include/A64.h:710-787 | For all 256 masks, clears exactly the given bits of the cached register and changes nothing else |
| `Flags.SetFlagsExact` | emu68/include/A64.h:1216-1293 | For all 256 masks, sets exactly the given bits of the cached register and changes nothing else |
| `Flags.SetFlagsConditionalEffect` | emu68/include/A64.h:1296-1419 | Sets the bits it really sets (X is missing from mask 31) exactly when the condition holds, and nothing else |
| `Flags.SetFlagsConditionalExactIff` | emu68/include/A64.h:1333-1338 | For every condition: on every register value exactly the given bits are set when it holds, and none otherwise, if and only if the mask is not 31 |
| `Capture.CaptureOneEffect` | emu68/include/A64.h:923-957 | The switch on a mask with one flag replaces exactly that flag by the host's, carry and X inverted for a subtraction |
| `Capture.CaptureNibbleEffect` | emu68/include/A64.h:1097-1110 | N, Z, V and C become the host's at once, the carry inverted on request; X and the upper bits of the register survive, and nothing else changes |
| `Capture.CaptureAllCode` | emu68/include/A64.h:980-1058 | Which of five code shapes each of the 32 masks gets, for all four functions at once |
| `Capture.CaptureAllEffect` | emu68/src/M68k_LINE5.c:268-290 | For all 32 masks and both operations, capture plus the conditional settings after it leave every requested flag equal to the host's (carry and X inverted for SUBQ), X kept unless requested, the system byte and all other state kept |
| `LogicCapture.DoubleIncrementEffect` | emu68/include/A64.h:896-901 | What the two conditional increments write into N and Z on any host flags |
| `LogicCapture.DoubleIncrementExactIff` | emu68/include/A64.h:896-901 | N and Z are written right if and only if they are not both set and V implies Z without N; always so after a logical instruction |
| `LogicCapture.GetNZ00Outcome` | emu68/include/A64.h:790-862 | The condition codes after GetNZ00 for every mask, after a logical instruction |
| `LogicCapture.GetNZ00ExactIff` | emu68/include/A64.h:831-859 | Every flag reported as done is right after every logical instruction if and only if the mask is not one of several flags without N and Z (there nothing is emitted) |
| `LogicCapture.GetNZxxExact` | emu68/include/A64.h:865-908 | N and Z are captured if requested, X, V and C keep their values and stay reported as not done |
| `Capture.MarkedFlags` | emu68/include/A64.h:982-984 | After the capture `host_flags` marks N, Z and V exactly if requested, C if requested and not inverted, never X |
| `Conditions.HostDecides` | emu68/src/M68k_CC.c:15-178 | When `host_flags` marks all flags a condition needs, the host condition of the same name decides it |
| `Conditions.TestConditionDecides` | emu68/src/M68k_CC.c:180-328 | For every condition and every coherent `host_flags`, the returned host condition holds exactly when the m68k condition does; guest state kept and `host_flags` still coherent |
| `Conditions.JumpDecides` | emu68/src/M68k_CC.c:15-178 | For every condition and every coherent `host_flags`, the emitted branch (host flag, TBZ, TST or reload form) is taken exactly when the m68k condition holds; guest state kept and `host_flags` still coherent |
| `FpuConditions.SkipAhead` | emu68/src/M68k_CC.c:368-378 | A test, a branch over three instructions and those three run as an if |
| `FpuConditions.TestFpuConditionDecidesIff` | emu68/src/M68k_CC.c:330-476 | For every predicate field and every 32-bit FPSR the code falls through, keeps the guest state, and the returned host condition holds exactly when the predicate of section 3.6.2 does, if and only if the field does not select F or SF |
| `FpuConditions.VerdictByNumber` | emu68/src/M68k_CC.c:330-476 | For each of the sixteen predicate numbers, the emitted test as a formula over bits 27, 26 and 24 of FPSR |
| `FpuConditions.TestsComplementIff` | emu68/src/M68k_CC.c:330-476 | On every state the emitted tests of predicates p and p XOR 0x0f answer oppositely if and only if neither is F or T and it is not one of those four with Z and NAN both set |
| `Quick.TopAddBits` | emu68/src/M68k_LINE5.c:55-60 | N, Z, V and C of the 32-bit addition at the top of a register are those of the byte or word addition (table 3-18 of the manual) |
| `Quick.TopSubBits` | emu68/src/M68k_LINE5.c:335-341 | The same for subtraction, the host carry being the inverted borrow |
| `Quick.TopArithmetic` | emu68/src/M68k_LINE5.c:55-60 | Adding or subtracting at the top of a register and shifting down gives the sized result |
| `Quick.OnDataEffect` | emu68/src/M68k_LINE5.c:29-103 | ADDQ and SUBQ on a data register, every size, amount and mask: low part is the sized result, upper bits and other registers kept, flags ready for the capture |
| `Quick.OnLoadedEffect` | emu68/src/M68k_LINE5.c:137-158 | The same on an operand loaded from memory |
| `Pc.AdvanceEffect` | emu68/src/M68k_Translator.c:72-88 | PC register plus pending offset advances by the offset, and what is pending stays within 0..120 |
| `Pc.GetOffsetExact` | emu68/src/M68k_Translator.c:52-70 | After any run of advances the returned offset absorbs what is pending, fits a signed byte, and nothing need be written out |
| `Pc.GetOffsetEffect` | emu68/src/M68k_Translator.c:52-70 | For any signed byte pending and requested: PC register plus returned offset is the old PC plus both, and the returned offset is a signed byte |
| `Pc.FlushEffect` | emu68/src/M68k_Translator.c:90-98 | The pending offset reaches the PC register and nothing else changes |
| `Pc.AddOffsetEffect` | emu68/src/M68k_LINE6.c:195-203 | Immediate addition, subtraction, or constant in a register: whichever the size selects, the result is PC plus the offset modulo 2^32 |
| `Displacement.LoadAtEffect` | emu68/src/M68k_EA.c:24-146 | For every size, sign extension and 16-bit (or, when wide, 32-bit) displacement, with a base register or without one (0xff, which counts as zero), the load reads base + displacement whichever encoding is picked |
| `Displacement.StoreAtEffect` | emu68/src/M68k_EA.c:225-332 | The store writes exactly the operand at base + displacement, with a base register or without |
| `Displacement.AddressAtEffect` | emu68/src/M68k_EA.c:116-140 | Size 0 yields base + displacement, with a base register or without |
| `Displacement.MaterialiseExactIff` | emu68/src/M68k_EA.c:54-59 | MOVZ, or MOVN of -offset-1, gives the offset if and only if it is nonzero and of at most 17 bits |
| `Indexed.AccessEffect` | emu68/src/M68k_EA.c:148-223 | load_reg_from_addr and its store twin access base + (index << shift), a missing one counting as zero |
| `Indexed.PreIndexedEffect` | emu68/src/M68k_EA.c:843-876 | Memory indirect preindexed: pointer at base + displacement + index, outer displacement added |
| `Indexed.PostIndexedEffect` | emu68/src/M68k_EA.c:829-842 | Memory indirect postindexed: pointer at base + displacement, index and outer displacement added |
| `Indexed.FullEffect` | emu68/src/M68k_EA.c:738-891 | For every full extension word the manual defines, the code accesses the address of sections 2.2.8 to 2.2.10 and changes only scratch registers (and the operand stored) |
| `Indexed.BriefEffect` | emu68/src/M68k_EA.c:691-737 | The brief format accesses (d8, An, Xn.size*scale) for every displacement, index, size and scale |
| `Indexed.Mode6Effect` | emu68/src/M68k_EA.c:686-891 | Mode 6 as a whole for loads, stores and addresses, from the fields of the extension word; `InNumbers.Mode6InNumbers` states it from the bits of the word |
| `EmitQuick.StoreLow` | emu68/src/M68k_LINE5.c:161-168 | A sized store depends only on the low part of the register, so untruncated in-place sums store right |
| `EmitQuick.LoadOperand` | emu68/src/M68k_LINE5.c:128-135 | Operand load, stepping the address register back first for predecrement, by what `InNumbers.QuickInNumbers` fixes |
| `EmitQuick.StoreOperand` | emu68/src/M68k_LINE5.c:160-168 | Result store, stepping the address register on afterwards for postincrement, by what `InNumbers.QuickInNumbers` fixes |
| `EmitQuick.ComputeEffect` | emu68/src/M68k_LINE5.c:15-292 | The arithmetic of ADDQ and SUBQ for all operands: guest registers and memory are those of the m68k instruction, flags ready |
| `EmitQuick.FinishEffect` | emu68/src/M68k_LINE5.c:243-291 | Everything after the arithmetic: requested flags in the cached register, PC advanced, `host_flags` true of the state |
| `EmitQuick.QuickRefines` | emu68/src/M68k_LINE5.c:294-577 | ADDQ and SUBQ refine their m68k meaning for data and address registers and modes 2 to 6, every size, covering mask, pending offset and valid `host_flags` |
| `EmitBranch.RunExit` | emu68/src/M68k_LINE6.c:178-181 | Straight code, an exit branch and straight code either leave or fall through as the branch decides |
| `EmitBranch.BccRefines` | emu68/src/M68k_LINE6.c:113-284 | Bcc, predicted either way, 8-, 16- or 32-bit: target if the condition holds, else next instruction, one of them through the exit block, for every pending offset and coherent `host_flags` |
| `EmitBranch.BraRefines` | emu68/src/M68k_LINE6.c:19-109 | BRA and BSR arrive at the target; BSR has pushed the address of the next instruction |
| `EmitBranch.SccRefines` | emu68/src/M68k_LINE5.c:579-651 | Scc writes 0xff or 0 as the condition says, to a data register (upper bits kept) or a byte in modes 2 to 6 |
| `EmitBranch.DbccExitExactIff` | emu68/src/M68k_LINE5.c:823-823 | The exit block's immediate addition is exact if and only if the offset is not negative (and below 4096) |
| `EmitBranch.DbccRefines` | emu68/src/M68k_LINE5.c:705-860 | DBcc: a true condition leaves with the counter untouched; else the low word counts down, and the code branches back unless it was zero |
| `InNumbers.CoveredIff` | emu68/src/M68k_LINE5.c:862-902 | The encodings all these results cover, field by field: quick values 1 to 8, no byte operation on an address register, every 16-bit displacement, every brief extension word and every full one that is not reserved |
| `InNumbers.QuickInNumbers` | emu68/src/M68k_LINE5.c:124-243 | After the code of ADDQ and SUBQ the address register of a postincrement or predecrement operand has moved by 4 for a long, 2 for a word, 1 for a byte but 2 on A7; the PC and the code pointer have moved by 2, by 4 with a displacement or a brief extension word, and by 2 or 4 more for each displacement bits 5-4 and 1-0 of a full one announce |
| `InNumbers.QuickLeaves` | emu68/src/M68k_LINE5.c:15-241 | What that code leaves: the low byte, word or long of a data register, the whole of an address register, or the big-endian bytes of the operand in memory are up or down by q; the rest of the register and every other byte of memory are as before |
| `InNumbers.QuickCodes` | emu68/src/M68k_LINE5.c:243-291 | And which condition codes it caches: carry and X exactly on passing the largest number of the size (or below zero), Z, N and V by comparing the operand with q and with half of the range, for all sizes, operands and q from 1 to 8 |
| `InNumbers.SccInNumbers` | emu68/src/M68k_LINE5.c:579-651 | The same steps (1, or 2 on A7) and lengths for Scc |
| `InNumbers.SccLeaves` | emu68/src/M68k_LINE5.c:579-651 | Scc leaves ones or zeros in the low byte of a data register, or 0xff or 0 in one byte of memory, and nothing else changes there |
| `InNumbers.BccInNumbers` | emu68/src/M68k_LINE6.c:113-284 | After Bcc, on the path through the exit block as on the other, the PC has moved by 2 plus the displacement if the condition holds, else by 2, 4 or 6 for the three forms; translation goes on at the like address of the predicted path |
| `InNumbers.BraInNumbers` | emu68/src/M68k_LINE6.c:19-111 | BRA and BSR move the PC by 2 plus the displacement; BSR takes 4 from A7 and leaves the PC plus 2, 4 or 6 in the four bytes there, most significant first, and no other byte changes |
| `InNumbers.DbccInNumbers` | emu68/src/M68k_LINE5.c:705-860 | DBcc moves the PC by 4 if the condition holds or the low word of the counter was 0, else by 2 plus the displacement; unless the condition holds the low word is one less and the high word kept |
| `InNumbers.Mode6InNumbers` | emu68/src/M68k_EA.c:686-891 | The code of mode 6 accesses the address that follows from the raw 16-bit words: D or A and number of the index, word or long, scale, the 8-bit displacement, base and index suppressed, both displacements by their sizes, and the kind of indirection, each from its bits |
| `Unit.EmitRefines` | emu68/src/M68k_LINE5.c:904-913 | Every modelled emitter refines its instruction, through the dispatch |
| `Unit.NextIsGuest` | emu68/src/M68k_LINE6.c:219-219 | On the path that falls through, translation goes on where the guest does |
| `Unit.UnitRefines` | emu68/src/M68k_Translator.c:389-442 | The fragments translated along any path, with any sound masks, take a state representing the guest to one representing it a whole number of instructions later, through an exit block or to the end |
| `Unit.BoundaryRepresents` | emu68/src/M68k_Translator.c:389-428 | After each turn of the translation loop: host and guest agree at every instruction boundary inside a unit |
| `Unit.HostFlagsCoherent` | emu68/include/A64.h:111-119 | At every instruction boundary, testing the host flags and testing the cached register decide alike |
| `Unit.RunRefines` | emu68/src/ExecutionLoop.c:436-466 | Any sequence of units, however the program is cut into them, refines the guest's run |
| `Unit.DeadFlagsInvisible` | emu68/src/M68k_LINE5.c:268-290 | Any two sound choices of update masks lead every run to the same registers, memory and PC |
| `Unit.AllFlagsSound` | emu68/src/M68k_LINE5.c:954-974 | Computing every flag is sound for every program, so the previous result compares eliminated with full flags |
| `Unit.PairSound` | emu68/src/M68k_LINE6.c:314-317 | ADDQ or SUBQ with any mask containing what the next Bcc, Scc or DBcc declares, then that instruction, is right |
| `Loops.DbccEnds` | emu68/src/M68k_LINE5.c:705-860 | Whatever the loop body does to the flags, as long as it keeps the counter: the loop goes on through every round before the m-th and ends in it exactly if the condition has become true there or the counter, one less in each round, has run out |
| `Loops.DbccLoop` | emu68/src/M68k_LINE5.c:705-860 | If the condition is false in every round reached, a counter with low word k branches back exactly k times; low word ends 0xffff, high word kept |
| `Loops.IdleLasts` | emu68/src/M68k_LINE5.c:705-860 | A body that keeps flags and counter, under any condition that is false to begin with, is such a loop |
| `Loops.DbccBlock` | emu68/src/M68k_LINE5.c:705-860 | In every round reached the emitted block leaves exactly if the condition is true or the counter has run out |
| `Loops.PredictionInvisible` | emu68/src/M68k_LINE6.c:142-166 | Layouts predicted taken and not taken end with the same registers, memory and PC, which is the manual's |
| `FlagScan.GetSRMask` | emu68/src/M68k_SR.c:889-1181 | The scan with its three loops, over programs of the modelled instructions, computes the function the following rows are about; with even displacements its result holds a flag exactly if the instruction sets it and it does not die within the depth |
| `FlagScan.TargetExactIff` | emu68/src/M68k_SR.c:934-934 | The scan follows a branch to its target if and only if the displacement is even |
| `FlagScan.WordsAgree` | emu68/src/M68k_SR.c:15-60 | The scan measures every effective address as the emitters do, for every extension word |
| `FlagScan.ScanExact` | emu68/src/M68k_SR.c:912-1181 | For every program, instruction, flag and depth: a flag the instruction sets that some path needs before setting it is in the mask, and the scan calls a flag needed only if some path does |
| `FlagScan.ScanDecidesIff` | emu68/src/M68k_SR.c:912-1181 | For every program, instruction, flag and depth: a flag the instruction sets is left out of the mask if and only if within that depth, through BRA and BSR and past one conditional branch (both of whose paths must do so before any further branch), an instruction sets it and none up to that one needs it |
| `FlagScan.ScanSound` | emu68/src/M68k_SR.c:889-1181 | For every program with even displacements and every depth, the masks satisfy the data-flow inequalities with the flags that really are live |
| `FlagScan.ScanInvisible` | emu68/src/M68k_SR.c:889-1181 | With the masks of the scan at any depth every run ends with the same registers, memory and PC as with every flag computed |
| `FlagScan.DeeperIsSmaller` | emu68/src/M68k_SR.c:889-912 | Scanning deeper only removes flags from the mask; at depth 0 it is every flag the instruction sets |
| `Link.PatchedExactIff` | emu68/src/M68k_Translator.c:703-716 | A patched branch jumps by the distance it was given if and only if that is below 2^18 for B.cond and below 2^13 for TBZ and TBNZ |
| `Lengths.EmitLength` | emu68/src/M68k_LINE5.c:15-860 | No modelled instruction takes more than 24 cells, its exit block and the return after that included, for every operand, flag mask, pending offset and `host_flags` |
| `Link.UnitNear` | emu68/src/M68k_Translator.c:303-305 | In a unit of at most 256 instructions, the most the translation loop allows, every branch is in reach of its exit block |
| `Link.LinkLays` | emu68/src/M68k_Translator.c:633-723 | Appending the recorded blocks and patching the recorded branches leaves every fragment where it was emitted, its exits aimed at a block with its exit code and a return |
| `Link.LinkedUnitRuns` | emu68/src/M68k_Translator.c:389-723 | The finished buffer of at most 256 instructions, run from its first cell, returns in the state `UnitRefines` gives for the fragments, which represents the guest a whole number of instructions later |
| `Link.LinkedLoopRuns` | emu68/src/M68k_Translator.c:595-616 | A unit that branches back to its own start while no interrupt is pending runs as the same unit entered again each time, until a run leaves it or an interrupt is pending, and ends in a state that represents the guest |
| `Translator.HostFlagsCompose` | emu68/include/A64.h:111-119 | `host_flags` after two sequences is that after the second, starting from that after the first |
| `Translator.Context.Emit` | emu68/include/A64.h:111-119 | Appends instructions; a flag-setting encoder resets `host_flags` |
| `Translator.Context.GetOffsetPC` | emu68/src/M68k_Translator.c:52-70 | Appends and returns what `Pc.GetOffsetPc` says; `host_flags` kept |
| `Translator.Context.AdvancePC` | emu68/src/M68k_Translator.c:72-88 | Appends what `Pc.AdvancePc` says; `host_flags` kept |
| `Translator.Context.FlushPC` | emu68/src/M68k_Translator.c:90-98 | Appends what `Pc.FlushPc` says; nothing pending |
| `Translator.Context.GetFlags` | emu68/include/A64.h:912-1212 | Appends the capture, returns the flags left to do, sets `host_flags` to those captured |
| `Translator.Context.SetLeft` | emu68/src/M68k_LINE5.c:276-289 | Appends the conditional settings for the flags left |
| `Translator.Context.JumpOnCondition` | emu68/src/M68k_CC.c:15-178 | Appends the conditional branch and returns its position and how it is to be patched |
| `Translator.Context.TestCondition` | emu68/src/M68k_CC.c:180-328 | Appends the test and returns the host condition |
| `Translator.Context.TestFPUCondition` | emu68/src/M68k_CC.c:330-476 | In every state the code appended falls through, leaves the guest alone, and the returned host condition then holds exactly when the predicate does, if and only if the field does not select F or SF; what was in the buffer stays, and `host_flags` is reset by every test |
| `Translator.Context.LoadAt` | emu68/src/M68k_EA.c:24-146 | Appends the load that `LoadAtEffect` is about, with a base register or without; `host_flags` kept |
| `Translator.Context.StoreAt` | emu68/src/M68k_EA.c:225-332 | Appends the store that `StoreAtEffect` is about |
| `Translator.Context.AddressAt` | emu68/src/M68k_EA.c:116-140 | Appends the address computation that `AddressAtEffect` is about |
| `Translator.Context.AccessFrom` | emu68/src/M68k_EA.c:148-223 | Appends the indexed access |
| `Translator.Context.FullExtension` | emu68/src/M68k_EA.c:738-891 | Reassigning base and displacement registers along the way, appends the code of the full format and counts its words |
| `Translator.Context.Mode6` | emu68/src/M68k_EA.c:686-891 | Appends the code of mode 6 and returns the position after its extension words |
| `Translator.Context.LoadAddress` | emu68/src/M68k_EA.c:436-891 | Called with size 0, as ADDQ and SUBQ do: appends the address code of modes 2 to 6 and returns the register that holds the address and the number of extension words |
| `Translator.Context.ADDQ` | emu68/src/M68k_LINE5.c:15-577 | Appends the code and reaches the translation state that `QuickRefines` is about |
| `Translator.Context.Scc` | emu68/src/M68k_LINE5.c:579-651 | Appends the code and reaches the state that `SccRefines` is about |
| `Translator.Context.DBcc` | emu68/src/M68k_LINE5.c:705-860 | The same for `DbccRefines`; the exit block leaves the buffer and is recorded with its branches, in order, each with its position and kind of fix-up |
| `Translator.Context.Bcc` | emu68/src/M68k_LINE6.c:113-284 | The same for `BccRefines` |
| `Translator.Context.BRA` | emu68/src/M68k_LINE6.c:19-111 | The same for `BraRefines` |
| `Translator.Context.TranslateUnit` | emu68/src/M68k_Translator.c:389-510 | The translation loop produces the fragments that `UnitRefines` is about, and records for each its exit block with exactly the branches out of it, at their positions in the buffer |
| `Translator.Context.Finish` | emu68/src/M68k_Translator.c:570-723 | Closes the unit, appends each recorded block with its return and patches its branches, first recorded first |
| `Translator.Context.M68kTranslate` | emu68/src/M68k_Translator.c:294-723 | From an empty buffer to a finished one that, for a path of at most 256 instructions and from any state representing the guest at its entry, returns in a state representing the guest a whole number of instructions later; also for a unit that loops back to its start, after as many passes as that takes |
| `Lists.List.AddHead` | emu68/include/lists.h:41-53 | Keeps the two-sentinel doubly linked shape and acts as cons; null does nothing |
| `Lists.List.AddTail` | emu68/include/lists.h:55-67 | Keeps the shape and appends |
| `Lists.List.Remove` | emu68/include/lists.h:33-39 | Keeps the shape and deletes the node; its own pointers are left |
| `Lists.List.RemHead` | emu68/include/lists.h:85-92 | Takes the first node, or null from an empty list |
| `Lists.List.RemTail` | emu68/include/lists.h:94-101 | Takes the last node, or null from an empty list |
| `Lists.List.NewList` | emu68/include/lists.h:103-112 | Empties a list |
| `Lists.List.ForeachNode` | emu68/include/lists.h:114-120 | Terminates, having visited the head sentinel and then each node once in order |
| `Lru.TouchAvailableIff` | emu68/src/ExecutionLoop.c:78-82 | Using a way leaves another available if and only if there are two or more ways; the way just used is then never the next victim |
| `Lru.RunAvailable` | emu68/src/ExecutionLoop.c:62-166 | Over every run of finds, insertions and invalidations the chosen way stays in range |
| `Lru.FirstUnusedNext` | emu68/src/ExecutionLoop.c:78-166 | After any run from a fresh set an insertion takes the first way not used since the set last started over: a used way is not taken again until every way has been used |
| `Lru.FirstInsertsStay` | emu68/src/ExecutionLoop.c:137-166 | After a flush the first insertions, as many as there are ways, all stay findable, whatever lookups come between |
| `JitCache.BucketFindIs` | emu68/src/ExecutionLoop.c:198-215 | The plain search returns the first unit with the key |
| `JitCache.SentinelKey` | emu68/src/ExecutionLoop.c:198-203 | The head sentinel matches exactly the key made of epoch 0 and address 0 |
| `JitCache.Cache.FindBlock` | emu68/src/ExecutionLoop.c:68-91 | Table lookup in set (address / 16) mod sets; the set changes as the policy's `Find` |
| `JitCache.Cache.InsertBlock` | emu68/src/ExecutionLoop.c:150-166 | Only the victim's entry of set (address / 16) mod sets changes; the set changes as the policy's `Insert` |
| `JitCache.Cache.FindUnitQuick` | emu68/src/ExecutionLoop.c:168-216 | For every even nonzero PC and any contents of the table, the entry of the table if there is one, else the plain search of the bucket; as long as the invariant holds that is the plain search in either case, and the invariant is kept |
| `JitCache.Cache.InvalidateByArmAddress` | emu68/src/ExecutionLoop.c:107-118 | Stopping at the first match removes every entry with the entry point |
| `JitCache.Cache.InvalidateByM68kAddress` | emu68/src/ExecutionLoop.c:120-135 | Stopping at the first match removes every entry with the address, and restores the invariant after its unit has gone (no removal in the source calls it) |
| `JitCache.Cache.InvalidateAll` | emu68/src/ExecutionLoop.c:137-148 | Every set becomes the policy's fresh set |
| `JitCache.Cache.Flush` | emu68/src/M68k_LINEF.c:1940-1946 | After a new epoch no key of any bucket matches |
| `JitCache.Cache.Evict` | emu68/src/M68k_Translator.c:954-968 | Up to 64 units, least recently used first, leave their buckets and nothing else changes; the lookup then agrees with the plain search for every even nonzero PC if and only if no entry of the table is that of an evicted unit |
| `JitCache.Cache.StaleIff` | emu68/src/M68k_Translator.c:895-904 | The same for any set of units taken out of their buckets without touching the table, as unit verification does |
| `JitCache.StaleHit` | emu68/src/M68k_Translator.c:954-968 | A unit added, looked up and evicted: the next lookup still returns its entry point, while the plain search finds nothing |
| `JitCache.Cache.AddUnit` | emu68/src/M68k_Translator.c:1028-1029 | A new unit at the head of bucket (address / 4) mod buckets is found by its key, and the invariant is kept |
| `Interrupts.SwapIsFrame` | emu68/src/ExecutionLoop.c:399-402 | The conditional XOR with 3 turns the register's word into the architecture's, and undoes itself |
| `Interrupts.DecodeFrame` | emu68/src/ExecutionLoop.c:415-418 | The stored word determines the status register |
| `Interrupts.FramePushed` | emu68/src/ExecutionLoop.c:415-418 | Status register at +0, PC at +2, vector at +6, nothing else written |
| `Interrupts.StatusWords` | emu68/src/ExecutionLoop.c:399-402 | Both status words bit by bit: T1 0x8000, T0 0x4000, S 0x2000, M 0x1000, the mask times 0x100, X 16, N 8, Z 4, and V 2 and C 1 in the frame, exchanged in the register |
| `Interrupts.SameFrame` | emu68/src/M68k_ExceptionEntry.c:25-80 | Format 0 exceptions push the same frame as interrupts and differ only in the interrupt mask |
| `Interrupts.LevelsRise` | emu68/src/ExecutionLoop.c:376-413 | If nothing but the mask not being lowered is known of the guest, successive entries have strictly rising levels until level 7 |
| `Interrupts.AtMostSixMaskable` | emu68/src/ExecutionLoop.c:376-413 | From the seventh such entry on, all are of level 7 |
| `Interrupts.FramesRecover` | emu68/src/ExecutionLoop.c:380-425 | After any run of nested interrupts every frame still yields the PC and status register it interrupted |
| `Interrupts.UserStackKept` | emu68/src/ExecutionLoop.c:382-397 | USP holds the user's stack pointer throughout |
| `Interrupts.ExceptionEffect` | emu68/src/M68k_ExceptionEntry.c:25-80 | What an exception of any format leaves on the stack: status register, PC and vector word, above them the effective address (formats 2 and 3) or fault and effective address (format 4), nothing else written; trace off, supervisor mode on, and the PC loaded from VBR plus the low twelve bits of the vector word |
| `Interrupts.RteTraps` | emu68/src/M68k_LINE4.c:1648-1758 | RTE in user mode enters the handler at VBR + 0x20 and with a frame of another format the one at VBR + 0x38, in supervisor mode, with status register, PC and offset on the stack |
| `Interrupts.RteUndoesIff` | emu68/src/M68k_LINE4.c:1648-1758 | RTE right after an exception restores status register, PC and stack pointers if and only if the frame is of format 0 or 2; formats 3 and 4, which exceptions push, it refuses |
| `Interrupts.UnwindsAll` | emu68/src/M68k_LINE4.c:1648-1758 | However the handlers of nested interrupts run, as long as each leaves its frame and what lies above alone, each RTE returns to the status register, PC, stack pointers and stack contents its interrupt found |
| `Interrupts.Core.InterruptBlock` | emu68/src/ExecutionLoop.c:319-428 | The level is 7 on an ARM error, else the larger of the external level and 6 (ARM), 2 (PPC) or 0. If it is 7 or above the mask: eight bytes below the supervisor's stack pointer hold the status word, the PC and 0x60 + 4 * level, the PC is the longword at VBR + 0x60 + 4 * level, supervisor mode is on, both trace bits are off and the mask is the level; otherwise the m68k state is unchanged |
| `Interrupts.Core.TakeException` | emu68/src/M68k_ExceptionEntry.c:25-80 | The stores of formats 0 to 4 after the stack swap build the state that `ExceptionEffect` is about |
| `ElfLoader.CursorFits` | emu68/src/ElfLoader.c:474-507 | From an aligned base the placing cursor never passes what was measured |
| `ElfLoader.SectionFits` | emu68/src/ElfLoader.c:274-301 | Every placed section is aligned and inside its region |
| `ElfLoader.PlacementAgrees` | emu68/src/ElfLoader.c:474-507 | All placed sections are aligned, inside the regions GetElfSize reported, read-only below writable, and pairwise disjoint |
| `ElfLoader.PagesSuffice` | emu68/src/ElfLoader.c:482-483 | A page-aligned load address and alignments up to a page make both bases aligned |
| `ElfLoader.RegionFitsIff` | emu68/src/ElfLoader.c:219-271 | Every table whose alignments divide k fits the measured region if and only if k divides the base |
| `ElfLoader.LargeAlignmentOverruns` | emu68/src/ElfLoader.c:483-483 | A writable section aligned to 8192 can overrun: its base is rounded up to 4096 only |
| `ElfLoader.ZeroAlignmentForgets` | emu68/src/ElfLoader.c:241-286 | An alignment of 0 makes the measuring pass lose what it had counted, and puts a placed section at address 0 |
| `ElfLoader.ContentsLoaded` | emu68/src/ElfLoader.c:287-298 | After loading, each byte of each placed section is the file's, or 0 for a section without contents, whatever was loaded before and after it |
| `ElfLoader.MeasureAppend` | emu68/src/ElfLoader.c:235-256 | One more section leaves the measured size of a region as it is without SHF_ALLOC or with another SHF_WRITE; else that size is rounded up to the alignment and the section's own rounded size added |
| `ElfLoader.GetElfSize` | emu68/src/ElfLoader.c:219-271 | The measuring loop computes the two region sizes |
| `ElfLoader.Loader.LoadHunk` | emu68/src/ElfLoader.c:274-301 | Aligns one cursor, gives the section its address, moves the cursor by its size, and copies or clears its contents; for an empty section nothing changes |
| `ElfLoader.Loader.Place` | emu68/src/ElfLoader.c:474-507 | The placing loop gives symbol and string tables the address file plus offset, every allocated section that is not empty its own, leaves all other headers, and fills memory section by section |
| `HunkLoader.HunksFit` | emu68/src/HunkLoader.c:17-55 | Hunks are pairwise disjoint and inside the size GetHunkFileSize reports |
| `HunkLoader.LayoutInNumbers` | emu68/src/HunkLoader.c:91-106 | Data begin eight bytes and the next field four bytes into a hunk; the next hunk follows at the smallest multiple of 32 that holds header and data |
| `HunkLoader.ReportInNumbers` | emu68/src/HunkLoader.c:45-49 | Each hunk counts for the smallest multiple of 32 that holds its data and 24 bytes |
| `HunkLoader.AddHunkFields` | emu68/src/HunkLoader.c:91-106 | Adding a hunk writes its size and next fields and links it, keeping the chain so far |
| `HunkLoader.RelocatedAt` | emu68/src/HunkLoader.c:193-200 | Each relocated longword is its old value plus the reference, modulo 2^32 |
| `HunkLoader.RelocatedChain` | emu68/src/HunkLoader.c:167-205 | Relocations inside a hunk leave all size and next fields alone |
| `HunkLoader.Loader.Preallocate` | emu68/src/HunkLoader.c:91-106 | The next fields list the hunks in order, data are cleared, nothing outside the reported size changes |
| `HunkLoader.Loader.Follow` | emu68/src/HunkLoader.c:182-186 | k steps along the chain reach hunk k |
| `HunkLoader.Loader.Relocate` | emu68/src/HunkLoader.c:167-247 | A relocation entry, PC-relative or not, adds its reference at every offset, and keeps the chain |
| `HunkLoad.CopyKeepsChainIff` | emu68/src/HunkLoader.c:129-165 | Copying n longwords into a hunk keeps the chain, whatever they are, if and only if they end before the next hunk begins or there is none (the loader does not check) |
| `HunkLoad.CopyStores` | emu68/include/DuffCopy.h:10-24 | On memory seen as words the copying device and writing the contents one after another are the same |
| `HunkLoad.BlockCopies` | emu68/src/HunkLoader.c:129-165 | Of a block of at least one word that fits its hunk the device copies exactly its words |
| `HunkLoad.LoadedHunks` | emu68/src/HunkLoader.c:125-271 | After the first n hunks of a file each of them holds its own image, those after them are as pre-allocated, and the chain is intact |
| `HunkLoad.RaisedByOne` | emu68/src/HunkLoader.c:167-247 | Among several relocation entries, PC-relative or not, every longword listed once goes up by the address of the data of its own entry's hunk (eight bytes into it), less that of the hunk's own if PC-relative, modulo 2^32 |
| `HunkLoad.LoadedLong` | emu68/src/HunkLoader.c:91-271 | At the end of a whole load each longword of a hunk's contents holds what the file says, or that plus the reference of the entry that lists it, both in numbers |
| `HunkLoad.LoadHunkFile` | emu68/src/HunkLoader.c:57-277 | From pre-allocation through copying and relocating to the last hunk: every hunk holds its image, the chain leads through all of them, nothing outside the reported size changes |
| `DuffCopy.CopiedIsCountIff` | emu68/include/DuffCopy.h:10-24 | The device copies exactly `count` words if and only if 1 <= count <= 0xfffffff8; for 0 it copies 2^35 |
| `DuffCopy.CopyMoves` | emu68/include/DuffCopy.h:10-24 | A copy without overlap moves the words and touches nothing else |
| `DuffCopy.Memory.DuffCopy` | emu68/include/DuffCopy.h:10-24 | The unrolled loop equals the plain copy of that many words |
| `Doorbell.Conservation` | emu68/include/doorbell.h:18-41 | Over every interleaving with any spurious failures: nonzero sends = received + overwritten + pending |
| `Doorbell.SendsAreSent` | emu68/include/doorbell.h:36-41 | The sends counted are the nonzero messages of the run's send steps, in order, and what is in the slot is the last of them |
| `Doorbell.Delivered` | emu68/include/doorbell.h:18-41 | A message sent, loaded by a spinning waiter and claimed without a spurious failure is the one returned, and the slot is empty again, whatever other waiters do aside |
| `Doorbell.ReturnConsumesOne` | emu68/include/doorbell.h:18-34 | Each return consumes exactly one send not consumed before, later than all consumed before, and returns its nonzero value |
| `Doorbell.ClaimSucceedsIff` | emu68/include/doorbell.h:26-32 | A claim succeeds if and only if it does not fail spuriously and a message with the loaded value is pending |

## Left out

- Instructions other than ADDQ, SUBQ, Scc, DBcc, Bcc, BRA and BSR, and operand modes 7 (absolute, PC-relative, immediate), which repeat mode 5 and 6 with another base.
- In M68K_GetSRMask: absolute JMP and JSR, which the scan follows too, and the instructions that end it, none of which is modelled.
- The register allocator, dirty-register write-back, and the part of `EMIT_LocalExit` that stores registers; an exit block is the PC adjustment.
- Nothing in the source checks the distances it patches. For the modelled instructions they always fit (`Link.UnitNear`); the count takes `EMIT_LoadImmediate` as one instruction (it is at most two) and leaves out what `EMIT_LocalExit` and the register allocator add, for which seven instructions each remain in a unit of 256.
- That the interrupt word is read before the pending offset is written out at the end of a unit that loops; `Link.Go` is told how often it finds nothing pending.
- Self-modifying guest code and the instruction cache: the program is fixed during a run.
- The slow-down code of DBF busy loops, which reads address 0 three times and changes no guest state.
- Bit-exact encodings of instructions, and 64-bit addresses: an access wraps around at 2^32.
- `TRAPcc`, `EMIT_GetFPUFlags` and the FPU table.
- `LRU_MarkForVerify` (pointer tagging), prefetch hints, `FindUnit` and `FindUnitNoLRU`, which ignore the epoch; the epoch counter does not wrap around.
- Hash buckets in `JitCache` are sequences of units; that the linked lists behave as sequences is what `Lists` proves.
- `ForeachNodeSafe`, which initialises a variable named `node` rather than its parameter.
- Reading IPL lines from the bus, and the rest of `MainLoop` (calling translated code, comparing checksums of units). The list of all units by last use is a parameter of `JitCache.Cache.Evict`.
- RTE is modelled as what its code does, not as code.
- Addresses in `Interrupts`, `HunkLoader`, `ElfLoader` and `DuffCopy` are numbers that do not wrap around; bus errors are not modelled.
- Relocation types and symbol resolution of ELF files, and executable ELF files, which are copied to fixed addresses.
- Parsing the words of a hunk file into blocks. A first hunk to load other than 0 (the loader goes on to the next hunk after a skipped block, too) and a virtual base other than the load address (the loader follows next fields as load addresses) are not modelled. Relocation offsets are those of separate longwords in `HunkLoader.RelocatedAt` and `HunkLoad.RaisedByOne`.
- The retry loops of `doorbell_wait` are steps of the machine in `Doorbell`, not a loop; that a waiter is eventually served is not claimed.
- Instruction timing, the instruction counter, debugging and disassembly output.
