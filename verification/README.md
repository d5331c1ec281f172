# Verification of the NVMirror eBPF compiler

These Dafny files model the compiler pipeline of NVMirror — decoder, static verifier, lowering to the
intermediate representation, AArch64 and RISC-V emitters with their relocation, the reference interpreter and
the differential fuzzer — and prove properties of the model. `dafny verify dfyconfig.toml` checks everything.
Nothing here runs the Rust code.

## What is modelled

* **Source language.** `Isa` and `Interpreter`: decoded instructions and the reference interpreter, as a step
  function on values and as a class that updates its registers and stack in place. It is the only meaning a
  program has; everything else is measured against it. Division by zero gives 0, modulo by zero leaves the
  destination, 32-bit results are zero-extended (RFC 9669, sections 4.1 and 4.3). `AluLaws` and `StackLaws` say what
  its arithmetic and its stack do bit by bit and byte by byte.
* **Decoder.** `Decode`: one scan over raw slots, every error included. `DecodeLaws` states it again on the layout of
  raw slots: where each field comes from, and which slots are refused.
* **Verifier.** `Flow` says, without blocks or passes, what a safe program is: `Safe` speaks of all paths through
  the instructions. `Cfg`, `Blocks`, `Dataflow`, `Budget` and `Verifier` are the implementation — leaders, blocks,
  the in-place fixed-point passes with their budget of 32, the exit checks — proved to decide exactly `Safe` plus
  a budget condition that `Budget` states on the program alone. `Safety` spells safety out once more, on the fields
  of the instructions. `Runs` carries it to whole runs, `HelperRuns` to runs whose helper calls leave anything in R1
  to R5.
* **Lowering.** `Ir`, `Lowering`, `Frames`, `LoweringMeaning`, `LoweringRuns`: blocks, register maps, frames opened
  and closed, and the simulation between interpreter runs and runs of the lowered nodes. `LoweringLaws`: register
  homes, frames, and the way back from nodes to instructions.
* **Emission and relocation, for both targets.** `Bytes`, `A64Encode`/`A64Words`, `RvEncode`/`RvWords`,
  `Emitting`, `Linking`, `Layout`, `DryRun`, and the two emitter classes `A64Emitter`, `RvEmitter`, which append to
  a byte buffer and patch it in place.
* **Machines.** `A64Machine` after the Arm Architecture Reference Manual (sections C1.2.4, C4.1, C6.2) and
  `RvMachine` after the RISC-V Unprivileged ISA 20191213 (sections 2.3 to 2.6, chapters 5, 7 and 8): decoding of words,
  registers, flags, save-area memory, fetch and step.
* **Nodes on the machines.** `A64Imm`, `A64Alu`, `A64Shift`, `A64Nodes`, `A64Compare`, `A64Endian`, `A64Access`,
  `A64Atomic`, `A64Call` and `A64Frame`, and for RISC-V `RvImm`, `RvNodes`, `RvAlu64`, `RvAlu32`, `RvBranch`,
  `RvEndian`, `RvAccess`, `RvAtomic`, `RvCall` and `RvFrame`: what the words of each node do, and exactly when that is
  what the interpreter, or for atomics RFC 9669, says.
* **End to end.** `A64Sim`, `A64Pipeline`, `RvSim` and `RvPipeline` put interpreter, lowered nodes, machine words and
  patched branches together; `Compiler` is the entry point of the engine, and `EndToEnd` carries what the pipelines
  say to the code it returns. `Generator` and `FuzzOracle` are the fuzzer, and `NativeRuns` says why its native runs
  on AArch64 cannot differ from the interpreter.

## Where the code and its documentation disagree

The code is modelled as it is. Each line below is a proved lemma.

* The guide says that the back-edge budget decides termination and bounds loop traversals
  (docs/nvmirror-technical-guide.tex:893-895). The budget counts analysis passes. `Runs.SafeProgramCanLoop`: a safe
  program with one backward branch runs for ever. `BudgetChain.ChainBudget`: safe programs without any loop are
  rejected from 31 backward jumps on.
* A verified program can run past its last instruction, if that is a conditional branch that is not taken
  (`Runs.SafeProgramCanFallOff`); it cannot otherwise (`Runs.NeverFallsOff`).
* AArch64 signed 32-bit conditions compare signed values, the interpreter zero-extended ones: they agree exactly
  when the operands have the same sign bit (`A64Compare.SignedBranch32`).
* AArch64 Jset is emitted as a comparison for inequality, in the 64-bit and in the 32-bit form: it agrees exactly on
  equal operands that are zero and on unequal operands with a common bit (`A64Compare.JsetBranch`).
* The mask word of the AArch64 16-bit byte swap is said to be an AND with 0xFFFF
  (crates/jit-aarch64/src/encode.rs:449-455); it is an AND with 15, of another register unless bits 3 and 4 of the
  register number are set (`A64Endian.DecodeMaskWord`). Conversions to little-endian do not cut off the upper bits
  (`A64Endian.EndianExact`). RISC-V emits a word without effect for every byte swap, which its source says too
  (`RvEndian.EndianExact`).
* The AArch64 epilogue restores the stack pointer exactly if the frame is not 512 bytes (`A64Frame.FrameRoundTrip`),
  and verified programs can need 512 (`A64DeepFrame.SafeProgramLosesStack`). The prologue's `MOV X29, SP` is encoded
  as a move from register 31, which is zero there.
* AArch64 loads and stores encode their offset exactly if it is not negative, a multiple of the size and below 4096
  units (`A64Access.AccessExact`); so no access to the eBPF stack is encoded right (`A64Access.FrameAccessesMissed`),
  and an eight-byte store at a negative offset is encoded as a load (`A64Access.StoreBecomesLoad`).
* RISC-V LUI receives a value already shifted down. The load sequence is right exactly for -6144 to 2047 and for
  wide values both of whose halves are below 2048 (`RvImm.LoadValue`).
* RISC-V division by zero gives all ones, the interpreter 0 (`RvAlu64.AluNode64Exact`); 32-bit W-form results are
  sign-extended, so they agree exactly below 2 to the 31 (`RvAlu32.AluNode32Exact`).
* AArch64 emits LDCLR for an atomic and, with the operand as it is: that clears the bits it should keep, and is right
  for a cell of zero only. Compare-and-exchange compares with X0, which holds R1, where R0 is in X7
  (`A64Atomic.AtomicExact`). On both targets fetched values are dropped and 32-bit atomics are done on 64 bits
  (`A64Atomic.AtomicNode`, `RvAtomic.AtomicNode`).
* The RISC-V compare-and-exchange loop loads over its own address register; where it should store, it traps unless the
  cell holds its own address (`RvAtomic.ExchangeNode`). RISC-V atomics reach offsets of 12 signed bits only
  (`RvAtomic.AddressExact`).
* The prologue stands behind the label of block 0, so a framed program that comes back to its first instruction
  opens another frame each time; exactly the returns to the start are left over at the exit, in the lowered code
  (`LoweringRuns.LoweringPreservesExit`) and on both machines, whose stack pointer ends that much too low
  (`A64Pipeline.CompiledCodeComputes`, `RvPipeline.CompiledCodeComputes`).
* A slot of the 32-bit jump class with operation bits 0 decodes to a conditional jump that always jumps
  (`Decode.AlwaysTakenSlots`).
* `compile_sized` calls its size exact; it is an upper bound (`DryRun.EmittedFits`).

## Model

| member | source | states |
|---|---|---|
| Interpreter.InterpreterState.constructor | crates/jit-engine/src/lib.rs:178-187 | A new interpreter has all registers and stack bytes zero and stands at instruction 0. |
| Interpreter.InterpreterState.DoStep | crates/jit-engine/src/lib.rs:189-281 | One step in place leaves registers, stack, pc and halted flag exactly as the step function on values says, for every instruction, and reports continue, halt or a panic accordingly. |
| Interpreter.InterpreterState.DoRun | crates/jit-engine/src/lib.rs:283-290 | The step loop ends in the state that the run function reaches within the limit, and returns its R0; a panic is the only other outcome. |
| AluLaws.LogicBits64 | crates/jit-engine/src/lib.rs:300-316 | Bit for bit, exclusive or is the sum modulo 2 of the operands, and is their product, or their larger one; on 64 bits. |
| AluLaws.LogicBits32 | crates/jit-engine/src/lib.rs:318-334 | The same on 32 bits. |
| AluLaws.CommonBit | crates/jit-engine/src/lib.rs:336-351 | Jset jumps if and only if some bit is set in both operands. |
| AluLaws.DivisionLaw64 | crates/jit-engine/src/lib.rs:300-316 | Quotient times divisor plus remainder is the dividend and the remainder is smaller; a divisor zero gives quotient zero. |
| AluLaws.DivisionLaw32 | crates/jit-engine/src/lib.rs:318-334 | The same on 32 bits. |
| AluLaws.EndianBytes | crates/jit-engine/src/lib.rs:353-372 | Byte k of a conversion to big-endian is the byte counted from the other end of the width, of one to little-endian byte k; bytes beyond the width are zero. |
| StackLaws.ReadBytes | crates/jit-engine/src/lib.rs:374-385 | A read within the stack has the stack bytes at its offset as its bytes, the lowest first, and no others. |
| StackLaws.WriteBytes | crates/jit-engine/src/lib.rs:387-398 | A write within the stack puts the low bytes of the value at its offset and leaves every other byte as it was. |
| StackLaws.OutOfRange | crates/jit-engine/src/lib.rs:374-398 | Beyond the stack a read gives 0 and a write does nothing; it panics exactly if the range test overflows. |
| StackLaws.ReadBack | crates/jit-engine/src/lib.rs:374-398 | Reading back a write gives the value, cut off at the width. |
| StackLaws.ReadElsewhere | crates/jit-engine/src/lib.rs:374-398 | A write does not change a read of any width that it does not overlap. |
| StackLaws.StoreThenLoad | crates/jit-engine/src/lib.rs:212-226 | With R10 above the stack, a register stored in the frame and loaded back comes back cut off at the width. |
| StackLaws.StoreImmThenLoad | crates/jit-engine/src/lib.rs:227-233 | A stored constant comes back sign-extended to 64 bits and cut off at the width. |
| Runs.RunMakesSteps | crates/jit-engine/src/lib.rs:283-290 | A run with a limit makes exactly that many steps if nothing stops it before. |
| Runs.RunStops | crates/jit-engine/src/lib.rs:283-290 | A run ends where a step stops, whatever is left of its limit. |
| Runs.StopsExactly | crates/jit-engine/src/lib.rs:189-271 | A step stops exactly past the program, when halted, at an exit and at a tail call, and then changes no register and no stack byte. |
| Decode.DecodeProgram | crates/ebpf-core/src/decode.rs:30-77 | The scan over the slots yields exactly the decoding defined slot by slot, including which error is reported first. |
| Decode.SlotsTaken | crates/ebpf-core/src/decode.rs:30-77 | On success the decoded instructions, two slots for each wide one, use up all slots. |
| Decode.DecodedInOrder | crates/ebpf-core/src/decode.rs:38-74 | Decoded instruction k is the decoding of its own slots, those after the slots of the instructions before it. |
| Decode.DecodeConserves | crates/ebpf-core/src/decode.rs:30-77 | Raw length is decoded length plus the number of wide instructions; no tail call and no 64-bit conditional jump with the operation of an unconditional one comes out. |
| Decode.AlwaysTakenSlots | crates/ebpf-core/src/decode.rs:117-140 | A conditional jump that always jumps comes out exactly for a slot of the 32-bit jump class with operation bits 0, and only in the 32-bit form. |
| Decode.DecodeEncoded | crates/ebpf-core/src/decode.rs:79-190 | The canonical encoding of any one supported instruction, standing anywhere in a program, decodes to that instruction. |
| Decode.RoundTrip | crates/ebpf-core/src/decode.rs:30-77 | Decoding the canonical encoding of any list of supported instructions gives the list back. |
| DecodeLaws.DecodedFields | crates/ebpf-core/src/decode.rs:79-190 | Every field of a decoded instruction is the field of its slot: class, operation bits, register nibbles, offset, constant. |
| DecodeLaws.RefusedExactly | crates/ebpf-core/src/decode.rs:30-190 | A program is refused exactly if it is empty, longer than a million slots, or has a faulty slot, such as one with a register above 10; the error is that of the first fault, the destination checked before the source. |
| Flow.LeadersExact | crates/ebpf-core/src/verify.rs:120-155 | The list of leaders holds exactly the positions that are 0, a branch target or just behind a block end. |
| Safety.LeadersAre | crates/ebpf-core/src/verify.rs:120-155 | On the instructions: a block starts at 0, where a branch leads and behind a branch or exit, in lowering also behind a tail call, and nowhere else. |
| Cfg.FindBbStarts | crates/ebpf-core/src/verify.rs:120-155 | Ok exactly when every branch lands in the program, and then the leaders in order; otherwise the first branch out of range, with its target. |
| Cfg.Merge | crates/ebpf-core/src/verify.rs:71-79 | Merging two register files leaves initialised exactly what both have initialised. |
| Cfg.BuildCfg | crates/ebpf-core/src/verify.rs:168-227 | The blocks partition the program, start at the leaders, and have as successors exactly the blocks that their last instruction leads to; only block 0 starts out reachable, with R1 and R10 initialised. |
| Dataflow.CheckAndUpdateRegs | crates/ebpf-core/src/verify.rs:281-394 | One instruction: a write to R10, then the first uninitialised read in operand order, then a bad stack offset is reported; otherwise exactly the written registers become and the clobbered ones cease to be initialised. |
| Dataflow.LateVisitIsQuiet | crates/ebpf-core/src/verify.rs:247-274 | Once everything was known a pass ago, visiting a reachable block changes none of its successors. |
| Dataflow.DataflowAnalysis | crates/ebpf-core/src/verify.rs:233-278 | Ok is a fixed point every claim of which has a path as witness; the passes made are exactly one more than the latest arrival of anything some path says; a check error names a real path; the budget runs out only if something arrives after pass 31. |
| Dataflow.KnownByRetreats | crates/ebpf-core/src/verify.rs:20 | Everything is known after twice as many passes as backward branches, plus one. |
| Blocks.Shorten | crates/ebpf-core/src/verify.rs:20 | Why few passes suffice: every block path has a substitute to the same block, with the same answer for a given register, that retreats at most twice per backward branch. |
| Budget.KnownIff | crates/ebpf-core/src/verify.rs:233-278 | What the analysis can know after n passes is a property of the instruction paths alone, independent of the block graph. |
| Budget.FewBackwardBranches | crates/ebpf-core/src/verify.rs:20 | With at most 15 backward branches a program is within the pass budget. |
| BudgetChain.ChainBudget | crates/ebpf-core/src/verify.rs:247-253 | For every k a safe program of k backward jumps, each taken once, is within the budget if and only if k is at most 30. |
| Verifier.CheckExitReachability | crates/ebpf-core/src/verify.rs:396-423 | Ok exactly when all blocks are reachable, none falls off the end and one ends in an exit; otherwise the fault reported is a real one. |
| Verifier.SoundOnPath | crates/ebpf-core/src/verify.rs:233-278 | At a fixed point, along every path however it loops, the analysis claims no more registers than the path has initialised. |
| Verifier.MeetOverAllPaths | crates/ebpf-core/src/verify.rs:71-79 | At a fixed point a reachable block has a register marked initialised if and only if every path to the block initialises it. |
| Verifier.ReachabilityExact | crates/ebpf-core/src/verify.rs:396-423 | At a fixed point a block is marked reachable if and only if some path reaches its first instruction. |
| Verifier.JustifiedRefutes | crates/ebpf-core/src/verify.rs:23-45 | Every justified error but the exceeded budget contradicts safety. |
| Verifier.VerifyProgram | crates/ebpf-core/src/verify.rs:100-116 | Ok if and only if the program is safe on all paths and within the pass budget, with the number of blocks as result; every error is justified by the program; with at most 15 backward branches Ok if and only if safe. |
| Safety.SafeMeans | crates/ebpf-core/src/verify.rs:100-116 | Safety spelled out on instruction fields: branches stay inside; R10 is never set; frame offsets are from -512 to -1; every instruction is on some walk; on every walk a used register was set, or is R1 or R10 as given, with no call since that loses it; there is an exit and the end is no plain instruction. |
| Safety.NoStaleArguments | crates/ebpf-core/src/verify.rs:329-339 | On no walk of a safe program is one of R1 to R5 used after a call without having been set in between. |
| Safety.VerdictIs | crates/ebpf-core/src/verify.rs:281-394 | Which fault of an instruction is reported: a set R10, then the first lacking operand, source first in arithmetic, then the frame; without a fault exactly what is set becomes, and R1 to R5 at a call cease to be initialised. |
| Runs.RunFollowsPath | crates/ebpf-core/src/verify.rs:100-116 | Every interpreter run of a safe program follows a path of its control flow and leaves it only past a final conditional branch. |
| Runs.RunReadsInitialised | crates/ebpf-core/src/verify.rs:281-363 | Wherever a run of a safe program stands, the next instruction reads only registers initialised along the run, does not write R10 and stays in the frame. |
| Runs.FramePointerConstant | crates/ebpf-core/src/verify.rs:365-370 | R10 never changes in a run of a safe program. |
| Runs.ForwardProgramsStop | fuzz/src/lib.rs:64-65 | A safe program without backward branches stops within as many steps as it has instructions. |
| Runs.TwoRunIndependence | crates/ebpf-core/src/verify.rs:281-363 | Two runs of a safe program from the same stack, R1 and R10, with anything in the other registers, have the same outcome: same stop, same stack, same R0 at an exit. |
| HelperRuns.HelperIndependence | crates/ebpf-core/src/verify.rs:329-339 | The same if every call returns a common value but leaves anything at all in R1 to R5, different in the two runs. |
| HelperRuns.StubIsAnyHelper | crates/jit-engine/src/lib.rs:256-260 | The interpreter, whose calls keep R1 to R5, has the outcome of every run whose helpers return 0 and leave anything there. |
| Runs.NeverFallsOff | crates/ebpf-core/src/verify.rs:396-423 | A safe program whose last instruction is no conditional branch never runs past its end. |
| Runs.SafeProgramCanFallOff | crates/ebpf-core/src/verify.rs:396-423 | A concrete safe program runs past its end without an exit, R0 as on entry. |
| Runs.SafeProgramCanLoop | docs/nvmirror-technical-guide.tex:893-895 | A concrete safe program with one backward branch makes any number of steps. |
| Lowering.Aarch64Injective | crates/jit-regalloc/src/lib.rs:74-93 | No two eBPF registers share an AArch64 register. |
| Lowering.Riscv64Injective | crates/jit-regalloc/src/lib.rs:110-129 | No two eBPF registers share a RISC-V register. |
| LoweringLaws.Aarch64Homes | crates/jit-regalloc/src/lib.rs:74-93 | R0 lives in X7, R1 to R5 in X0 to X4, R6 to R9 in X19 to X22, R10 in X25. |
| LoweringLaws.Riscv64Homes | crates/jit-regalloc/src/lib.rs:110-129 | R0 lives in a0, R1 to R5 in a1 to a5, R6 to R10 in s2 to s6. |
| Lowering.FindLeaders | crates/jit-regalloc/src/lib.rs:140-170 | The flags mark exactly the leaders, a tail call counting as a block end. |
| Lowering.NumberBlocks | crates/jit-regalloc/src/lib.rs:173-183 | Every instruction is mapped to the number of the block that holds it. |
| Lowering.LowerToIr | crates/jit-regalloc/src/lib.rs:134-374 | Block b has id b and consists of the opening, for block 0, and exactly the lowered instructions from the b-th leader up to the next. |
| LoweringMeaning.LeaderPassesAgree | crates/jit-regalloc/src/lib.rs:140-170 | Without tail calls lowering and the verifier find the same leaders. |
| LoweringMeaning.TargetsAreBlockStarts | crates/jit-regalloc/src/lib.rs:295-335 | The block that a branch names starts at the instruction that the branch goes to. |
| LoweringMeaning.TransfersOnlyAtBlockEnds | crates/jit-regalloc/src/lib.rs:231-373 | Only the last instruction of a block can transfer control. |
| LoweringMeaning.FrameDiscipline | crates/jit-regalloc/src/lib.rs:185-228 | The frame is 0 or a multiple of 16 from 64 to 512, covers every frame-pointer access, and is 0 exactly when no instruction needs one. |
| LoweringLaws.FrameExactly | crates/jit-regalloc/src/lib.rs:185-228 | There is a frame exactly if some instruction calls, touches the stack or sets R6 to R9; it is the smallest multiple of 16 from 64 on that covers every access. |
| LoweringLaws.CallsAreFramed | crates/jit-regalloc/src/lib.rs:207-243 | A program with a helper call has a frame of at least 64 bytes; its first node behind the first label opens it, every exit closes one, and without tail calls every return stands behind an epilogue. |
| LoweringLaws.LoweringRoundTrip | crates/jit-regalloc/src/lib.rs:231-373 | The nodes of an instruction, read back through register map and block starts, are that instruction, for every kind of instruction. |
| LoweringMeaning.FlattenIsChunks | crates/jit-regalloc/src/lib.rs:231-373 | The emitted node order is program order: label, prologue and lowered nodes of one instruction after the other. |
| LoweringMeaning.LabelsApart | crates/jit-regalloc/src/lib.rs:231-373 | No block is empty: no label follows another. |
| LoweringMeaning.FlatReturns | crates/jit-regalloc/src/lib.rs:231-373 | In lowered code a frame is closed only to return. |
| LoweringRuns.LoweringPreservesRuns | crates/jit-regalloc/src/lib.rs:231-373 | After any number of interpreter steps the lowered code stands at the same instruction with the same registers and stack, given room for one frame per visit to instruction 0. |
| LoweringRuns.LoweringPreservesExit | crates/jit-regalloc/src/lib.rs:231-373 | When the interpreter exits, the lowered code returns the same R0 and stack; the frames left over are the returns to instruction 0, and with none left the callee-saved registers are as on entry. |
| LoweringRuns.FramelessKeepsSaved | crates/jit-regalloc/src/lib.rs:207-218 | A safe program lowered without a frame never changes R6 to R10. |
| Bytes.PatchWord | crates/jit-aarch64/src/lib.rs:479-481 | Overwriting four aligned bytes of a little-endian buffer replaces one word and no other. |
| Bytes.ByteOrder | crates/jit-aarch64/src/lib.rs:66-68 | The lowest byte of an emitted word comes first. |
| A64Emitter.AArch64Emitter.EmitAlu64Node | crates/jit-aarch64/src/lib.rs:115-205 | Appends exactly the words of the 64-bit operation, for every operation and operand form. |
| A64Emitter.AArch64Emitter.EmitAlu32Node | crates/jit-aarch64/src/lib.rs:207-244 | Appends exactly the words of the 32-bit operation, for every operation and operand form. |
| A64Emitter.AArch64Emitter.EmitLoadImm64 | crates/jit-aarch64/src/lib.rs:84-106 | Appends MOVZ and one MOVK for every other chunk that is not zero. |
| A64Emitter.AArch64Emitter.EmitNode | crates/jit-aarch64/src/lib.rs:370-454 | One node extends words, label table and relocations as the emission function says, the relocation pointing at the last word. |
| A64Emitter.AArch64Emitter.EmitProgram | crates/jit-ir/src/lib.rs:137-146 | A program is emitted as its flattened nodes, each block behind its label. |
| A64Emitter.AArch64Emitter.CalculateSize | crates/jit-aarch64/src/lib.rs:495-502 | The dry-run size is four times one word per block and eight per node. |
| A64Emitter.AArch64Emitter.Finalize | crates/jit-aarch64/src/lib.rs:456-493 | In-place patching in relocation order gives the result of the linking function, and changes nothing else. |
| RvEmitter.RiscVEmitter.EmitNode | crates/jit-riscv/src/lib.rs:362-449 | One node extends words, label table and relocations as the emission function says. |
| RvEmitter.RiscVEmitter.EmitProgram | crates/jit-ir/src/lib.rs:137-146 | A program is emitted as its flattened nodes, each block behind its label. |
| RvEmitter.RiscVEmitter.Finalize | crates/jit-riscv/src/lib.rs:451-495 | In-place patching in relocation order gives the result of the linking function, and changes nothing else. |
| DryRun.A64NodeBound | crates/jit-aarch64/src/lib.rs:28 | No node takes more than 8 words on AArch64. |
| DryRun.A64WorstCase | crates/jit-aarch64/src/lib.rs:295-342 | 8 words occur: an atomic operation at a negative offset. |
| DryRun.RvWorstCase | crates/jit-riscv/src/lib.rs:419-435 | 9 words occur on RISC-V: the prologue. |
| DryRun.RvNodeBound | crates/jit-riscv/src/lib.rs:27 | No node takes more than 9 words on RISC-V, one less than is reckoned. |
| DryRun.EmittedFits | crates/jit-aarch64/src/lib.rs:495-502 | The bytes emitted for any program, on either target, are whole words and at most the dry-run size. |
| DryRun.EstimateIs | crates/jit-aarch64/src/lib.rs:28 | The estimate is one word for each block and eight, on RISC-V ten, for each node. |
| Linking.LinkSucceeds | crates/jit-aarch64/src/lib.rs:456-471 | Linking succeeds if and only if every relocation has a label in reach, and keeps the code length. |
| Linking.LinkKeeps | crates/jit-aarch64/src/lib.rs:456-493 | Words without a relocation keep their value. |
| Linking.LinkPatches | crates/jit-aarch64/src/lib.rs:456-493 | A relocated word ends as its own placeholder patched once. |
| Linking.OrderIrrelevant | crates/jit-aarch64/src/lib.rs:456-493 | Two relocation lists with the same members give the same code, or both fail. |
| Linking.LinkIdempotent | crates/jit-aarch64/src/lib.rs:456-493 | Linking linked code again changes nothing. |
| Layout.RelocSource | crates/jit-aarch64/src/lib.rs:264-293 | Every relocation stems from a branching node and points at its last word. |
| Layout.LabelOffset | crates/jit-aarch64/src/lib.rs:430-433 | The label table has every label, the last of its block, at the offset of the code behind it. |
| Layout.LinkedBranch | crates/jit-aarch64/src/lib.rs:456-493 | In linked code the last word of a branching node is its placeholder with exactly the displacement to its label filled in, and that is in reach. |
| Layout.LinkOutcome | crates/jit-aarch64/src/lib.rs:456-471 | Finalizing succeeds exactly when every branch reaches its label, by the offsets of the nodes; otherwise the error names the block that the first branch out of reach goes to. |
| Compiling.ShortProgramsLink | crates/jit-aarch64/src/lib.rs:456-493 | Finalizing the code of a lowerable program cannot fail below 2 to the 20 bytes on AArch64 or 4096 bytes on RISC-V. |
| A64Imm.LoadImm | crates/jit-aarch64/src/lib.rs:84-106 | The MOVZ and MOVK sequence loads exactly its immediate, any 64-bit value, and changes no other register. |
| A64Alu.ModNode64 | crates/jit-aarch64/src/lib.rs:136-141 | UDIV and MSUB compute the remainder, also for divisor zero and for divisor and destination the same register. |
| A64Shift.ShiftStep | crates/jit-aarch64/src/encode.rs:223-240 | The bit-field forms with the fields chosen by the encoder shift as the interpreter does, for all three shifts and every amount. |
| A64Nodes.AluNode64 | crates/jit-aarch64/src/lib.rs:115-205 | The words of every 64-bit operation, register and immediate alike, leave the interpreter's value in the destination and change only it, X9 and X12. |
| A64Nodes.AluNode32 | crates/jit-aarch64/src/lib.rs:207-244 | The same for every 32-bit operation, zero-extended. |
| A64Compare.BranchAgrees64 | crates/jit-aarch64/src/lib.rs:506-521 | For all 64-bit operands the chosen condition on the flags of CMP decides as the interpreter does, for every operation but Jset. |
| A64Compare.BranchAgrees32 | crates/jit-aarch64/src/lib.rs:264-284 | The 32-bit form decides as the interpreter does for equality and unsigned order. |
| A64Compare.SignedBranch32 | crates/jit-engine/src/lib.rs:247-250 | Signed 32-bit conditions agree with the interpreter if and only if the operands have the same sign bit. |
| A64Compare.JsetBranch | crates/jit-aarch64/src/lib.rs:506-521 | Emitted as a comparison, Jset agrees with the interpreter, in the 64-bit and in the 32-bit form, if and only if the operands are both zero, or differ and have a common bit. |
| A64Compare.BranchesDisagree | crates/jit-aarch64/src/lib.rs:506-521 | Concrete operands on which each of these two disagrees. |
| A64Compare.CompareNode | crates/jit-aarch64/src/lib.rs:264-281 | The comparison words, with an immediate loaded first, set the flags of the operands and change only X9. |
| A64Endian.EndianExact | crates/jit-aarch64/src/lib.rs:344-364 | The words of a byte swap do what the interpreter does always for 32- and 64-bit swaps; for conversions to little-endian exactly if no upper bit is set; for a 16-bit swap exactly if the low byte is zero and the next one equals the four bits that the mask leaves of another register. |
| A64Endian.DecodeMaskWord | crates/jit-aarch64/src/encode.rs:449-455 | The mask word of the 16-bit swap is an AND with four ones of register n or 24, not with sixteen ones of register n as its comment says. |
| A64Link.PatchedCond | crates/jit-aarch64/src/lib.rs:467-481 | A patched conditional branch keeps its condition and decodes to its displacement in words. |
| A64Link.PatchedJump | crates/jit-aarch64/src/lib.rs:482-490 | A patched branch decodes to its displacement in words. |
| A64Link.ReachExact | crates/jit-aarch64/src/lib.rs:467-490 | A whole number of words is in reach if and only if the offset field of the branch can hold it. |
| A64Atomic.AtomicDecodes | crates/jit-aarch64/src/encode.rs:381-416 | Every atomic word decodes to LDADD, LDSET, LDCLR, LDEOR or SWP of the value register at X9, dropping the old value, and for a compare-and-exchange to CAS of X0. |
| A64Atomic.AddressNode | crates/jit-aarch64/src/lib.rs:306-312 | The words before the operation leave base plus offset in X9 and change nothing else. |
| A64Atomic.AtomicNode | crates/jit-aarch64/src/lib.rs:295-342 | An atomic node changes only the cell at base plus offset, to what its operation gives, and X9; a compare-and-exchange also X0. The width does not matter. |
| A64Atomic.AtomicExact | crates/jit-aarch64/src/lib.rs:316-339 | The cell is right for addition, or, exclusive or and exchange; for and exactly if it was zero; for compare-and-exchange exactly if X0 and R0 both match it or neither does, or the new value is the old. |
| A64Call.CallDecodes | crates/jit-aarch64/src/lib.rs:404-408 | A call is BLR X9. |
| A64Call.CallThenReturn | crates/jit-aarch64/src/lib.rs:404-451 | A call overwrites X30; if code and helper leave the stack pointer and save area alone, the epilogue brings back X30 and the other saved registers as on entry. |
| A64Decode.KnownWords | crates/jit-aarch64/src/encode.rs:458-493 | Literal words of the manual, with those that the tests expect. |
| A64Access.AccessExact | crates/jit-aarch64/src/encode.rs:291-343 | A load or store of any width decodes to its own offset if and only if that is not negative, a multiple of the size and below 4096 units. |
| A64Access.AccessNodes | crates/jit-aarch64/src/lib.rs:246-262 | Load and store nodes are one word with the node's own registers and width, and its offset under the same condition. |
| A64Access.ConstantStore | crates/jit-aarch64/src/lib.rs:384-390 | A constant is built in X9 and stored from there to the node's own base, width and offset. |
| A64Access.FrameAccessesMissed | crates/jit-aarch64/src/encode.rs:291-343 | No accepted access to the eBPF stack decodes to its own offset. |
| A64Access.StoreBecomesLoad | crates/jit-aarch64/src/encode.rs:319-322 | Every eight-byte store at a negative multiple of 8 decodes as a load, 32768 bytes higher. |
| A64Frame.PrologueNode | crates/jit-aarch64/src/lib.rs:434-443 | The prologue lowers SP by the frame and saves X29, X30, X19 to X22 and X25, for every frame from 64 to 512. |
| A64Frame.FrameRoundTrip | crates/jit-aarch64/src/lib.rs:434-451 | After prologue, any body that keeps SP and the save area, and epilogue, the saved registers are back, and SP is back if and only if the frame is not 512. |
| A64DeepFrame.SafeProgramLosesStack | crates/jit-aarch64/src/lib.rs:434-451 | A concrete safe program needs 512 bytes, and its prologue and epilogue leave SP changed. |
| A64Sim.SimStep | crates/jit-aarch64/src/lib.rs:370-454 | One step of the lowered code is matched by machine steps, at least one unless it passes a label. |
| A64Sim.SimRuns | crates/jit-aarch64/src/lib.rs:370-493 | Runs of the lowered code are matched by machine runs through linked code, at least half as long. |
| A64Pipeline.CompiledCodeComputes | crates/jit-engine/src/lib.rs:65-80 | If the interpreter exits, compiled AArch64 code of a safe supported program, entered with R1 in X0, R10 in X25 and anything elsewhere, returns the same R0 in X0. SP is below its entry value by one frame for each extra visit to instruction 0; X30, the unused callee-saved registers and memory outside the save areas are as on entry, and with no extra visit so are X19 to X30. |
| A64Pipeline.WholeStateKept | crates/jit-aarch64/src/lib.rs:434-451 | With one frame opened or none, SP and X19 to X30 are back, and without a frame all of memory. |
| Compiling.OneFrame | crates/jit-regalloc/src/lib.rs:185-228 | A safe program with no branch back to its first instruction opens one frame at most. |
| Frames.DownIs | crates/jit-aarch64/src/lib.rs:434-451 | Below k frames the stack pointer is the entry value less k times the frame, modulo 2 to the 64. |
| A64Pipeline.CompiledCodeDiverges | crates/jit-engine/src/lib.rs:65-80 | If the interpreter runs for ever, so does the machine, inside the code. |
| A64Pipeline.CompiledCodeFallsOff | crates/jit-engine/src/lib.rs:65-80 | If the interpreter runs past the end of the program, the machine runs to the word behind its code. |
| A64Pipeline.ReturnsIffExits | crates/jit-engine/src/lib.rs:65-80 | Compiled code returns if and only if the interpreter exits. |
| RvDecode.BRoundTrip | crates/jit-riscv/src/encode.rs:192-200 | Packing and unpacking a branch offset is the identity on every even offset from -4096 to 4094. |
| RvDecode.JRoundTrip | crates/jit-riscv/src/encode.rs:245-252 | Packing and unpacking a jump offset is the identity on every even offset from -1048576 to 1048574. |
| RvDecode.PatchedBranch | crates/jit-riscv/src/lib.rs:476-490 | A patched branch keeps every bit outside the immediate, so comparison and operands, and decodes to its displacement. |
| RvDecode.PatchedJump | crates/jit-riscv/src/lib.rs:461-475 | A patched jump keeps its link register and decodes to its displacement. |
| RvDecode.ReachExact | crates/jit-riscv/src/lib.rs:461-490 | An even displacement is in reach if and only if some word has it as branch or jump offset. |
| RvDecode.KnownWords | crates/jit-riscv/src/encode.rs:269-303 | Literal words of the manual, with those that the tests expect. |
| RvNodes.LoadImm32 | crates/jit-riscv/src/lib.rs:99-111 | The load of a 32-bit immediate is right if and only if it is from -6144 to 2047. |
| RvImm.LoadValue | crates/jit-riscv/src/lib.rs:86-141 | For every 64-bit immediate and register: the load is right if and only if the value is from -6144 to 2047, or wide with both halves below 2048 — into the scratch register, with the lower half zero; nothing but the scratch register changes beside it. |
| RvAlu64.AluNode64Exact | crates/jit-riscv/src/lib.rs:148-196 | For every operation and operand: what is left in the destination; and if the operand is a register or an immediate that is loaded right, it is the interpreter's value if and only if there is no division by zero. Nothing else but s7 changes. |
| RvAlu64.ImmediateAlwaysRight | crates/jit-riscv/src/lib.rs:148-196 | A 64-bit operation on an immediate agrees with the interpreter for every register value if and only if the immediate is loaded right or need not be loaded, and is no divisor zero. |
| RvAlu32.AluNode32Exact | crates/jit-riscv/src/lib.rs:198-239 | For every 32-bit operation and operand: what is left in the destination; with a register or an immediate whose low half is loaded right, it is the interpreter's value if and only if the operation zero-extends, or the operands keep the result below 2 to the 31 and there is no division by zero. |
| RvAlu32.BelowExact | crates/jit-engine/src/lib.rs:202-206 | When a 32-bit result is below 2 to the 31, as a condition on the operands, operation by operation. |
| RvAlu32.LowExact | crates/jit-riscv/src/lib.rs:86-141 | The low half of a 32-bit immediate is loaded right exactly if all of it is, from -6144 to 2047. |
| RvEndian.EndianExact | crates/jit-riscv/src/lib.rs:350-356 | The word emitted for a byte swap does nothing: that is right exactly if the operand has no bits beyond the width and, for a swap, reads the same from either end. |
| RvBranch.DirectDecision | crates/jit-riscv/src/lib.rs:259-298 | Every comparison, with operands exchanged where the ISA has none, decides as the interpreter does. |
| RvBranch.JsetDecision | crates/jit-riscv/src/lib.rs:259-298 | Jset, a conjunction and a comparison with zero, decides as the interpreter does. |
| RvBranch.BranchWordStep | crates/jit-riscv/src/lib.rs:259-298 | The branch word in linked code goes to the label if its comparison holds, and to the next node otherwise. |
| RvAccess.AccessExact | crates/jit-riscv/src/encode.rs:139-185 | A load or store of any width decodes to its own offset if and only if that fits 12 signed bits. |
| RvAccess.AccessNodes | crates/jit-riscv/src/lib.rs:241-257 | Load and store nodes are one word with the node's own registers and width, and its offset under the same condition. |
| RvAccess.ConstantStore | crates/jit-riscv/src/lib.rs:376-381 | A constant is loaded into s7 and stored from there to the node's own base, width and offset. |
| RvAtomic.AtomicDecodes | crates/jit-riscv/src/encode.rs:269-288 | Every atomic word but those of a compare-and-exchange decodes to AMOADD, AMOOR, AMOAND, AMOXOR or AMOSWAP of the value register at s7, dropping the old value. |
| RvAtomic.AddressExact | crates/jit-riscv/src/lib.rs:310-315 | The operation addresses base plus offset exactly if the offset fits 12 signed bits. |
| RvAtomic.AtomicNode | crates/jit-riscv/src/lib.rs:300-348 | An atomic node other than a compare-and-exchange changes only the cell it addresses, to what its operation gives, and s7. |
| RvAtomic.AtomicRight | crates/jit-riscv/src/lib.rs:320-335 | That is the eBPF operation, for every operation and operand. |
| RvAtomic.ExchangeNode | crates/jit-riscv/src/lib.rs:336-345 | A compare-and-exchange loads over its own address: if the cell differs from a0 nothing changes, as it should; if it equals a0 the value is stored only when the cell holds its own address, and otherwise the code traps. |
| RvCall.CallDecodes | crates/jit-riscv/src/lib.rs:396-399 | A call is JALR through s7, linking in ra. |
| RvCall.CallThenReturn | crates/jit-riscv/src/lib.rs:396-446 | A call overwrites ra; if code and helper leave sp and save area alone, the epilogue brings back ra and the other saved registers as on entry. |
| RvAccess.FrameAccessesReached | crates/jit-riscv/src/encode.rs:139-185 | Every accepted access to the eBPF stack decodes to its own offset. |
| RvFrame.FrameRoundTrip | crates/jit-riscv/src/lib.rs:419-446 | After prologue, any body that keeps sp and the save area, and epilogue, sp, ra, s0 and s2 to s6 are back, for every frame from 64 to 512. |
| RvSim.SimRuns | crates/jit-riscv/src/lib.rs:362-495 | Runs of the lowered code are matched by machine runs through linked code, at least half as long. |
| RvPipeline.CompiledCodeComputes | crates/jit-engine/src/lib.rs:65-80 | If the interpreter exits, compiled RISC-V code of a safe supported program, entered with R1 in a1, R10 in s6 and anything elsewhere, jumps to the return address with the same R0 in a0. sp is below its entry value by one frame for each extra visit to instruction 0; ra, gp, tp, the unused callee-saved registers and memory outside the save areas are as on entry, and with no extra visit so are s0 to s11 but for s7. |
| RvPipeline.WholeStateKept | crates/jit-riscv/src/lib.rs:419-446 | With one frame opened or none, sp, ra, gp, tp and s0 to s11 but for s7 are back, and without a frame all of memory. |
| RvPipeline.CompiledCodeDiverges | crates/jit-engine/src/lib.rs:65-80 | If the interpreter runs for ever, so does the machine, inside the code. |
| RvPipeline.CompiledCodeFallsOff | crates/jit-engine/src/lib.rs:65-80 | If the interpreter runs past the end of the program, the machine runs to the word behind its code. |
| Compiler.Compile | crates/jit-engine/src/lib.rs:65-80 | Raw bytes either fail to decode as the decoder says, are rejected for a justified reason, have a branch out of reach — the first one goes to the block in the error, and the code is long — or yield the linked code of the lowered nodes of a safe program with the verifier's block count. |
| EndToEnd.Aarch64Computes | crates/jit-engine/src/lib.rs:65-80 | What the compiler returns for AArch64, of a supported program, returns the interpreter's R0 in X0. |
| EndToEnd.Riscv64Computes | crates/jit-engine/src/lib.rs:65-80 | What it returns for RISC-V likewise in a0. |
| Compiler.BlockCountsAgree | crates/jit-engine/src/lib.rs:65-80 | The lowered program of a decoded one has as many blocks as the verifier counts. |
| Compiler.CompileSized | crates/jit-engine/src/lib.rs:84-97 | The same in two passes, where the size computed first bounds the code, and code of a safe program with a branch out of reach has a size of at least that reach. |
| Generator.XorShiftNonzero | fuzz/src/lib.rs:34-41 | The generator never reaches the state zero, from which it would not leave. |
| Generator.FirstFromOne | fuzz/src/lib.rs:34-41 | The first number from seed 1 is 1082269761. |
| Generator.Rng.Range | fuzz/src/lib.rs:47-51 | Draws nothing from an empty interval and one value otherwise, in the half-open interval, or, for a reversed one, wrapped. |
| Generator.GenerateProgram | fuzz/src/lib.rs:70-158 | The program and the new generator state are a function of seed and size, draw by draw; the program has the shape promised — moves of small constants, then additions, subtractions, logic, products, shifts and moves on R0 to R4, with operands in their ranges, and branches forward by at most four short of the final exit —, the length drawn, and decodes instruction by instruction. |
| Generator.OpsPicked | fuzz/src/lib.rs:98-137 | The operations that a pick chooses from, in order: eight on constants, five between registers and on 32 bits, six comparisons. |
| Generator.BodyStep | fuzz/src/lib.rs:92-145 | The kind of a body instruction by the digit drawn: four in ten operate on a constant, two on a register, two on 32 bits, one moves, one jumps if there is room. |
| Generator.GeneratedDecodes | fuzz/src/lib.rs:70-158 | A generated program within the instruction limit decodes. |
| Generator.RunsToExit | fuzz/src/lib.rs:60-66 | From anywhere in a generated program the interpreter gets to the final exit in at most as many steps as instructions are left. |
| Generator.OnlyUninitialised | fuzz/src/lib.rs:70-158 | The only error that verification can justify on a generated program is an uninitialised register. |
| Generator.InitialisedIsSafe | fuzz/src/lib.rs:70-158 | If the preamble sets R2, R3 and R4, a generated program is safe. |
| Generator.ResultIsClosed | fuzz/src/lib.rs:70-158 | A generated program, verified or not, never panics and its result does not depend on the registers it is entered with. |
| FuzzOracle.FuzzOne | fuzz/src/lib.rs:176-211 | One iteration: too long a program does not decode; an unsafe one is rejected for an uninitialised register, which needs a preamble that leaves out one of R2 to R4; a safe one compiles faithfully unless a branch is out of reach; the result is the interpreter's. |
| NativeRuns.NoMismatch | fuzz/src/lib.rs:197-207 | Compiled code of a generated safe program, entered with anything in any register, returns what the interpreter returns, if the step limit covers the program, and leaves SP and the callee-saved registers as they were. |

## Left out

- A64Pipeline.CompiledCodeComputes: does not cover program memory, helper calls, tail calls and atomics, because the
  interpreter uses its own array's host address, treats atomics as no-ops and calls as stubs, and the prologue never
  sets X25; nor Jset, signed 32-bit conditions, 16-bit byte swaps and conversions to little-endian, where the two are
  proved to disagree (of the last the 64-bit one agrees, but has no word).
- RvPipeline.CompiledCodeComputes: does not cover, beyond the above memory and calls, 32-bit comparisons (emitted as
  64-bit ones), byte swaps other than the 64-bit one to little-endian, 32-bit operations that agree on some operands
  only, division by a register or by zero, and immediates that the load sequence gets wrong; of these the exact
  conditions are stated where the words are.
- RvFrame.FrameRoundTrip: does not speak of s7, which the generated code uses as scratch and never saves.
- Runs.ForwardProgramsStop: claims termination for programs without backward branches only; with one it can fail.
- Targets switched off at build time are not modelled.
- Generator.XorShiftNonzero: says nothing about the period or the distribution of the random numbers.
- Memory operands: the interpreter's stack access is modelled byte by byte, with wrap-around addresses relative to a
  host address that is a parameter; the bound on the starting offset is the verifier's, so access width past the end
  of the stack panics and is not excluded.
- Branch offsets count decoded instructions, as in the code, not raw slots; a wide instruction counts once.
- Block identifiers are unbounded naturals, not 32-bit; allocation sizes and capacity hints are left out.
- Negation wraps; arithmetic overflow checks of debug builds are left out.
- The host of the interpreter and both targets are little-endian.
- Calls and atomics have a machine meaning node by node, not in runs of whole programs: no instruction puts a helper's
  address into X9 or s7, and the interpreter does nothing for an atomic. Tail calls are never decoded. Spill and fill
  nodes are emitted but never produced by lowering.
- A store-conditional succeeds exactly at the reserved address; spurious failures and other harts are not modelled.
- The emitters' overflow and unsupported-node errors are never raised and not modelled.
- The shim (executable memory, helper table), the disassembler, the benchmarks, the fuzzer's shrinking and its native
  execution.
- Nothing was executed.
