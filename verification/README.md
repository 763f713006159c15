# A Dafny model of the Amiga machine's core components

This project models seven components of the repository and proves what each of them is for, over every
input, every run or every reachable state:

* **m68k-vp**: a block decoder, two rewriting passes, a direct-mapped block cache and an IR interpreter.
  The cached, rewritten run computes what a run computes that decodes every block afresh and rewrites
  nothing, and that run is the program executed one instruction at a time wherever no block was cut off at
  the op limit (`VpIr`, `VpPasses`, `VpCore`, `VpRuns`, `VpDecoder`, `VpStepping`, `VpProgram`, `VpMovem`,
  `VpBitfield`). What each op computes is stated as arithmetic on registers, bytes and condition codes
  (`VpAlu`, `VpScale`, `VpOps`).
* **The software blitter**: one reference for area mode, from which the barrel shifter, area fill,
  overlapping copies and every destination bit of a general minterm follow, and line mode, solid, textured
  or dotted, against the ideal line (`BlitterWord`, `Blitter`, `BlitterArea`, `BlitterHazards`,
  `BlitterStreams`, `BlitterLogic`, `BlitterCopy`, `BlitterRegisters`, `BlitterLine`, `BlitterTexture`).
* **virtionet.device**: tasks, interrupt handler and virtio device as interleaved steps (`VirtQueue`,
  `VirtNet`, `VirtNetSlots`, `VirtNetRequests`, `VirtNetSafety`, `VirtNetServed`, `VirtNetLoss`,
  `VirtNetLoops`).
* **The 8520 CIA and the beam counter**: lazy-tick deadlines against step-by-step simulation, interrupt
  sources, key codes and registers (`Cia`, `CiaTimers`, `CiaRegisters`, `Beam`).
* **The Cirrus BitBLT engine** in all its modes: which bytes a transfer writes, and how its address registers
  survive between triggers (`Cirrus`, `CirrusModes`, `CirrusPixels`, `CirrusTransfers`, `CirrusTiles`,
  `CirrusRetrigger`).
* **The PCI BAR allocator** of prometheus.library (`PciBars`, `PciPlacement`).
* **The block-size adapter** of the UEFI board, as a flat array of sectors (`BlockAdapter`).

`Bits` holds machine words as natural numbers with the bitwise operators defined bit by bit, `Wrappers` the
optional values.

Code that computes is modelled by functions; loops and objects are methods and classes whose contracts tie
them to those functions, and the theorems are lemmas about the functions. Where a component hands work to
code that is not modelled (opcode decoding, the word operators inside the blitter's loops, the meaning of
single IR ops), that part is a parameter with its needed properties stated, and the concrete instance is
shown to have them (`VpProgram.M68kIsReady`, `VpMovem.M68kMovesLongs`, `BlitterLine.HardwareDraws`).

`dafny verify dfyconfig.toml` checks the whole project.

## Results about the code itself

* The flag-liveness pass starts each block from "nothing needed", so it is right for arbitrary entry flags
  exactly when no `bne` of the block reads the Z it was entered with (`VpPasses.PassesAreExact`);
  `VpCore.SplitCompareAndBranchDiverges` is a program where it is wrong.
* A block that ends at the op limit goes back to its own entry point, although the comment at
  crates/m68k-vp/src/interp.rs:660-664 says that it falls through to the next address: 64 no-ops in a row
  loop (`VpProgram.StraightLineLoops`). A block's exit is where the program stands after as many single
  instructions if and only if it ends in a control transfer or its next address is its own entry
  (`VpStepping.BlockFollowsProgram`), and a whole run agrees with the program at every block boundary if and
  only if that holds of each block it executes (`VpProgram.TracksExactly`).
* `asr` shifts a byte or a word without its sign: the operand is zero-extended before the 32-bit arithmetic
  shift (crates/m68k-vp/src/interp.rs:495-564). It is the floor of the signed operand over 2^n if and only if
  the operand is not negative, the count is 0, or a long is shifted by less than 32
  (`VpScale.AsrIsFloorExactly`).
* The CIA deadline is cut to 32 bits. It is tight if and only if the true deadline fits
  (`Cia.DeadlineIsTight`, with `Cia.DeadlineTruncates` an input where it does not), and one call of `tick`
  with that many clocks gets there if and only if the carried clocks fit as well, because their 32-bit sum
  overflows otherwise (`Cia.OneCallReachesDeadline`).
* The line deadline is exact if and only if the clock ratio is not 0 and the true deadline fits 32 bits
  (`Beam.LineDeadlineIsExact`). A tick takes a ratio of 0 as 1 but the deadline does not
  (`Beam.ZeroRatioDeadline`); with 2^31 clocks per colour clock it is cut short
  (`Beam.LineDeadlineTruncates`).
* The driver takes any queue size the device offers, up to 8, but its rings survive the wrap of the
  16-bit indices if and only if the size divides 65536 (`VirtQueue.SizesThatSurviveTheWrap`). For every
  other size, 6 among them, a post to a queue with room destroys an unread entry
  (`VirtQueue.OtherSizesOverwrite`).
* A reader that passed its online check before `VNetClose` and queues itself afterwards is dropped by the
  next `VNetOpen` (`VirtNetLoss.StragglerIsLost`), and no continuation ever replies to it
  (`VirtNetLoss.StragglerNeverCompletes`, `VirtNetLoss.LostIsForever`). A run loses no request if and only if
  every Open finds the read list empty (`VirtNetLoss.LossesExactly`), which holds in particular when no
  reader queues itself while the unit is closed.
* The second overflow test of `assign_bars` is not merely defensive, as the comment at
  m68k/prometheus-library/prometheus_library.c:244-247 has it: a 2 GB BAR wraps the 32-bit sum to 0, passes
  the first test and is refused only by the second (`PciBars.TwoGigabytesWrap`).
* Re-triggering the Cirrus engine with a new width does not always continue a transfer: the address counters
  are cut to 21 bits between two triggers but not inside one (`Cirrus.WrappingRetriggerDiffers`). A wrap is
  harmless where what it reaches lies past the VRAM, whose size is a command-line value. An opaque one-row
  copy continues for every VRAM contents and every raster op if and only if, over the first width, the
  destination counter does not wrap or all its wrapped bytes lie past the VRAM, and the source counter does
  not wrap or no byte of the second piece is both stored in the VRAM and fetched from it through the wrapped
  counter (`CirrusRetrigger.RetriggerContinuesExactly`; in closed form `SafeGoingUp` and `SafeGoingDown`).
* The line rule rounds halves up along the minor axis; the oracle in the blitter's own tests
  (crates/machine-core/src/blitter.rs:1163-1193) rounds them down and is not the specification used here.

## Model

| member | source | states |
|---|---|---|
| VpPasses.ExecuteBlock | crates/m68k-vp/src/interp.rs:369-666 | the dispatch loop leaves the machine, retired count and next PC of the recursive block execution, including the op-limit exit to the block's own entry |
| VpPasses.FlagLiveness | crates/m68k-vp/src/passes.rs:27-49 | the backward scan narrows every op to what the instructions after it need, and touches nothing past the block |
| VpPasses.Peephole | crates/m68k-vp/src/passes.rs:64-76 | exactly the `lea (An),An` ops become no-ops |
| VpPasses.RunPasses | crates/m68k-vp/src/passes.rs:78-81 | both passes in order |
| VpPasses.RewrittenExactly | crates/m68k-vp/src/passes.rs:27-76 | instruction by instruction: an op is asked for Z alone if a `bne` follows it before the next flag-producing op and for nothing otherwise, `lea (An),An` is a no-op, everything else is as decoded |
| VpPasses.M68kIsRespectful | crates/m68k-vp/src/interp.rs:369-674 | no interpreter op's effect depends on its flag mask, narrowing to Z keeps Z, and only flag-producing ops and `moveq` write flags |
| VpPasses.OptimizedAgrees | crates/m68k-vp/src/passes.rs:27-81 | decoded and rewritten block leave the same registers, memory, retired count and next PC from states that differ only in flags, unless the block reads the Z it was entered with |
| VpPasses.EntryZDecides | crates/m68k-vp/src/passes.rs:27-33 | where the entry Z is read, two entry states that differ in Z part ways |
| VpPasses.PassesAreExact | crates/m68k-vp/src/passes.rs:27-81 | the rewritten block is right for arbitrary entry flags if and only if no `bne` of it reads the Z it was entered with |
| VpCore.StoresKeepCoherence | crates/m68k-vp/src/interp.rs:78-89 | stores that keep the code bytes of decoded blocks keep every cached block equal to what decoding would give now |
| VpCore.VpCore.FlushCache | crates/m68k-vp/src/interp.rs:72-76 | no slot is valid afterwards |
| VpCore.VpCore.GetOrDecode | crates/m68k-vp/src/interp.rs:78-89 | hit or miss, collision or not, the result is the rewritten form of what decoding the entry point gives now, and the cache stays coherent |
| VpCore.VpCore.ExecuteCached | crates/m68k-vp/src/interp.rs:198-199 | a cached block behaves as the freshly decoded one |
| VpCore.VpCore.Run | crates/m68k-vp/src/interp.rs:182-203 | the cached, rewritten run ends with the registers, memory, PC, retired count and exit of the run that decodes every block and rewrites nothing |
| VpRuns.RunStopsFirst | crates/m68k-vp/src/interp.rs:182-203 | a run stops at its first block boundary whose PC is watched or whose count has reached the budget, and says which, the watch list first; otherwise it panics because the next block does not decode or the 32-bit count overflows |
| VpCore.RunSession | crates/m68k-vp/src/interp.rs:170-203 | the same for any sequence of runs, budgets, watch lists and cache flushes; after a flush the code of dropped blocks may have changed |
| VpCore.SplitCompareAndBranchDiverges | crates/m68k-vp/src/passes.rs:27-33 | a compare in one block and its `bne` in the next: the rewritten run takes the other branch |
| VpDecoder.DecodeBlock | crates/m68k-vp/src/decoder.rs:608-620 | instructions are decoded until a control transfer or the op limit; overflowing the arena fails |
| VpDecoder.DecodedBlocksAreGood | crates/m68k-vp/src/decoder.rs:608-620 | decoded blocks transfer control only at the end, retire at least one instruction and ask for all flags |
| VpStepping.BlocksDecodeWell | crates/m68k-vp/src/decoder.rs:608-620 | every block decoder built from single instructions yields only good blocks, as the run loop needs |
| VpStepping.BlocksDecodeLocally | crates/m68k-vp/src/decoder.rs:608-620 | if single-instruction decoding looks only at its span, block decoding looks only at the span it adds up to, across the 2^32 wrap |
| VpStepping.BlockRuns | crates/m68k-vp/src/interp.rs:369-666 | executing a decoded block retires its instructions one by one, with the same machine; only the exit of a block cut off at the op limit differs |
| VpStepping.BlockFollowsProgram | crates/m68k-vp/src/interp.rs:369-666 | the exit of a block is where the program stands after as many instructions if and only if the block ends in a control transfer or its next address is its own entry |
| VpProgram.TracksExactly | crates/m68k-vp/src/interp.rs:182-203 | a run agrees with the program at every block boundary if and only if every block it executes is of that kind, for blocks that do not overwrite their own instructions ahead of time |
| VpProgram.RunIsSteps | crates/m68k-vp/src/interp.rs:182-203 | such a run that retires n instructions leaves the machine and PC of n single instructions, each decoded when its turn comes |
| VpProgram.RunProgram | crates/m68k-vp/src/interp.rs:182-203 | the cached, rewritten run leaves the registers, memory and PC of as many single instructions |
| VpProgram.StraightLineLoops | crates/m68k-vp/src/interp.rs:660-666 | 64 no-ops: the block retires 64 instructions and is back at its entry, the program is 128 bytes further on |
| VpProgram.M68kIsReady | crates/m68k-vp/src/interp.rs:369-674 | the interpreter's own ops with any single-instruction decoder that reads only its span meet everything the run loop relies on |
| VpProgram.RunM68kSession | crates/m68k-vp/src/interp.rs:170-203 | the session theorem for the interpreter's own ops, whose arithmetic `VpAlu`, `VpScale` and `VpOps` give |
| VpAlu.AddIsSum | crates/m68k-vp/src/interp.rs:255-282 | `add`, `addq`: the sum modulo the operand size with the upper bits of a data register kept; N, Z, V, C and X are sign, zero, signed overflow and unsigned carry |
| VpAlu.SubIsDifference | crates/m68k-vp/src/interp.rs:284-310 | `sub`, `subq`, `cmp`: the difference likewise, with the borrow; `cmp` writes no register |
| VpAlu.NegIsNegation | crates/m68k-vp/src/interp.rs:467-494 | `neg`: the operand subtracted from zero, with the same codes |
| VpAlu.LogicIsBitwise | crates/m68k-vp/src/interp.rs:420-449 | `and`, `or`, `eor`: each bit of the result from the two operand bits; V, C and X cleared |
| VpAlu.NotInverts | crates/m68k-vp/src/interp.rs:467-494 | `not`: -1 - a within the size, that is, every bit inverted |
| VpAlu.TstReports | crates/m68k-vp/src/interp.rs:467-494 | `tst`: the operand's sign and zero, no register changed |
| VpAlu.ExtKeepsValue | crates/m68k-vp/src/interp.rs:467-494 | `ext.l`: the long has the signed value of its low word |
| VpScale.LeftShiftMultiplies | crates/m68k-vp/src/interp.rs:495-564 | left shifts multiply by 2^n modulo the operand size; C and X are the lowest bit beyond the size, V of an arithmetic one says that the signed product does not fit |
| VpScale.RightShiftDivides | crates/m68k-vp/src/interp.rs:495-564 | right shifts divide by 2^n and round down, the signed value only for an arithmetic shift of a long by less than 32; C and X are the last bit shifted out |
| VpScale.AsrIsFloorExactly | crates/m68k-vp/src/interp.rs:495-564 | `asr` is the floor of the signed operand over 2^n if and only if the operand is not negative, the count is 0, or a long is shifted by less than 32 |
| VpScale.MulIsProduct | crates/m68k-vp/src/interp.rs:565-613 | `mulu`, `muls`: the whole 32-bit product of the low words, unsigned and signed |
| VpScale.DivuDivides | crates/m68k-vp/src/interp.rs:565-613 | `divu`: low half times divisor plus high half is the dividend, the high half below the divisor; unchanged if the divisor is 0 or the quotient does not fit |
| VpScale.DivsDivides | crates/m68k-vp/src/interp.rs:565-613 | `divs`: the same for signed halves, the remainder with the sign of the dividend |
| VpOps.LoadReads | crates/m68k-vp/src/interp.rs:212-237 | a sized load reads the big-endian bytes at the resolved address, post-increment and pre-decrement by the size included |
| VpOps.StoreWrites | crates/m68k-vp/src/interp.rs:212-250 | a sized store writes exactly those bytes; the source is fetched and stepped before the destination is resolved |
| VpOps.RegisterMoves | crates/m68k-vp/src/interp.rs:377-419 | `lea`, register moves and `moveq`, with the condition codes `moveq` sets |
| VpOps.ExtractReads | crates/m68k-vp/src/interp.rs:323-338 | `bfextu`: the register holds the field's bits in memory order |
| VpOps.InsertWrites | crates/m68k-vp/src/interp.rs:342-364 | `bfins`: the field's bits become the register's low bits, every other bit of memory is kept |
| VpOps.CallPushes | crates/m68k-vp/src/interp.rs:638-644 | `bsr` pushes the address behind it, changes only the four stack bytes and A7, and goes to its target |
| VpOps.ReturnPops | crates/m68k-vp/src/interp.rs:652-658 | `rts` goes to the long on top of the stack and pops it |
| VpOps.BranchDecides | crates/m68k-vp/src/interp.rs:645-651 | `bne` goes to its target when Z is clear, otherwise on, and changes nothing |
| VpOps.CallReturns | crates/m68k-vp/src/interp.rs:638-658 | program runs: a `bsr` to code that reaches an `rts` with A7 and the stacked long kept goes on at pc + len with A7 restored; of the bytes the callee kept only the four stack bytes changed |
| VpOps.CountedLoopEnds | crates/m68k-vp/src/interp.rs:645-651 | program runs: `subq #1,Dd` and `bne` back take as many turns as the counter says, 2^32 for 0, and leave it 0 |
| VpOps.CompareThenBranch | crates/m68k-vp/src/interp.rs:284-310 | `cmp` then `bne` branches exactly when the operands differ within the size, decoded or rewritten, whatever the entry flags |
| VpDecoder.DecodeMovem | crates/m68k-vp/src/decoder.rs:80-153 | one micro-op per selected register in hardware order, a no-op for an empty list |
| VpDecoder.MovemRetiresOnce | crates/m68k-vp/src/decoder.rs:88-153 | every expansion retires exactly one instruction, the empty list included |
| VpMovem.M68kMovesLongs | crates/m68k-vp/src/interp.rs:386-408 | the micro-ops are one long store below An and one long load above it |
| VpMovem.ListsMirror | crates/m68k-vp/src/decoder.rs:80-120 | the bit-reversed list names the same registers in the opposite order |
| VpMovem.StoreAllSpec | crates/m68k-vp/src/interp.rs:212-227 | the stores fill the longs below An in order and change no byte outside them, with 32-bit and buffer wrap |
| VpMovem.LoadAllSpec | crates/m68k-vp/src/interp.rs:212-227 | the loads bring back the longs above An in order and change no other register |
| VpMovem.SaveRestore | crates/m68k-vp/src/decoder.rs:80-153 | save through -(An), anything that keeps An and the 64 bytes below it, restore through (An)+: every saved register and An are back |
| VpProgram.M68kSaveRestore | crates/m68k-vp/src/decoder.rs:80-153 | the same with the interpreter's own ops |
| VpBitfield.ReadField | crates/m68k-vp/src/interp.rs:323-338 | the extract loop computes the gathered, shifted and masked field |
| VpBitfield.WriteField | crates/m68k-vp/src/interp.rs:342-364 | the insert loops leave memory with the spliced bytes scattered back |
| VpBitfield.ReadFieldBits | crates/m68k-vp/src/interp.rs:323-338 | bit i of the field is memory bit 8*base+offset+i |
| VpBitfield.WriteFieldBits | crates/m68k-vp/src/interp.rs:342-364 | walking once round memory from the field, its bits become the value's and every other bit keeps its value, across five bytes and the end of the buffer |
| VpBitfield.InsertThenExtract | crates/m68k-vp/src/interp.rs:323-364 | extracting gives back the inserted value |
| VpIr.IdxIsMod | crates/m68k-vp/src/mem.rs:42-45 | masking the 32-bit address with the buffer length less one is the address modulo that length |
| VpIr.MaskIsMod | crates/m68k-vp/src/mem.rs:42-45 | an AND with 2^k - 1 is a remainder by 2^k |
| VpIr.WrappedAddress | crates/m68k-vp/src/mem.rs:42-45 | wrapping at 2^32 before masking never shows, for every power-of-two buffer |
| BlitterWord.PeekPoke | crates/machine-core/src/blitter.rs:551-579 | a word write is read back at its own word and nowhere else |
| BlitterWord.SameWordsSameBytes | crates/machine-core/src/blitter.rs:551-579 | what is proved of all words holds of every byte |
| BlitterWord.ReadWord | crates/machine-core/src/blitter.rs:551-558 | a fetch masks the pointer into chip RAM and reads big-endian |
| BlitterWord.WriteWord | crates/machine-core/src/blitter.rs:566-579 | a store masks the same way and changes exactly two bytes |
| BlitterWord.MintermBit | crates/machine-core/src/blitter.rs:586-616 | every output bit is the table entry its three input bits select |
| BlitterWord.ShiftDelays | crates/machine-core/src/blitter.rs:627-638 | in scan order the shifter delays the stream by n bits, the first n coming from the word before, in both directions |
| BlitterWord.FillBit | crates/machine-core/src/blitter.rs:645-661 | bit k is combined with the carry and the parity of the bits below it |
| BlitterWord.ApplyFill | crates/machine-core/src/blitter.rs:645-661 | the fill loop computes that word and the outgoing carry; inclusive wins when both are requested |
| Blitter.Device.Execute | crates/machine-core/src/blitter.rs:256-272 | an armed blit runs once, in the mode its control word selects, with BZERO set first |
| Blitter.Device.ExecuteArea | crates/machine-core/src/blitter.rs:278-423 | the nested loops leave the RAM, pointers, latches and BZERO of the row function |
| Blitter.Device.ExecuteWord | crates/machine-core/src/blitter.rs:340-393 | one word: fetch, mask, shift, minterm, fill, store, step, as the word function whose bits `BlitterLogic` gives |
| Blitter.Device.ExecuteLine | crates/machine-core/src/blitter.rs:453-542 | the pixel loop and the registers it leaves |
| BlitterArea.StepAdvances | crates/machine-core/src/blitter.rs:340-407 | one word takes the loop state of word j of the reference to that of word j+1, row ends included |
| BlitterArea.AreaMeaning | crates/machine-core/src/blitter.rs:278-423 | if no word is fetched after it was overwritten, every output word is a function of the memory before the blit and every other word is unchanged |
| BlitterArea.ZeroFlag | crates/machine-core/src/blitter.rs:386-388 | BZERO stays set exactly when every output word was zero |
| BlitterHazards.AlongIsOffset | crates/machine-core/src/blitter.rs:302-407 | stepping word by word with modulos reaches row r, column i at r*(2w+m)+2i |
| BlitterHazards.LanesAreHazardFree | crates/machine-core/src/blitter.rs:278-423 | from the addresses alone, any operation and any enabled channels: no word is fetched after it was overwritten if the destination follows each source in the direction of travel with its modulo, lies wholly above or below it, or beside it in rows of the same pitch |
| BlitterHazards.InsideByCorners | crates/machine-core/src/blitter.rs:302-407 | a channel stays inside the RAM if and only if the two corners of its rectangle do |
| BlitterStreams.ShifterDelaysStream | crates/machine-core/src/blitter.rs:334-363 | over all rows the D words are the masked A words shifted by ash as one bit string, right ascending and left descending |
| BlitterStreams.CarryOfRow | crates/machine-core/src/blitter.rs:338-384 | the fill carry restarts on each row and runs through its words |
| BlitterStreams.FillIsPrefixParity | crates/machine-core/src/blitter.rs:296-391 | every bit of a filled row is the row bit OR or XOR the carry-in XOR the parity of the row bits to its right |
| BlitterRegisters.MaskedBit | crates/machine-core/src/blitter.rs:351-361 | the first word of a row passes AFWM, the last ALWM, a single word both, whichever way the blit runs |
| BlitterRegisters.SourceBitIsMasked | crates/machine-core/src/blitter.rs:340-363 | a bit of the shifted stream is a fetched bit that its word's masks let through |
| BlitterRegisters.AddressesAreHazardFree | crates/machine-core/src/blitter.rs:278-423 | the register values that make a blit hazard-free |
| BlitterRegisters.InPlaceAddresses | crates/machine-core/src/blitter.rs:278-423 | a fill in place is one such case |
| BlitterRegisters.ShiftFromRegisters | crates/machine-core/src/blitter.rs:283-363 | the stream law for the control words that program a shifted copy, from pointers, modulos and size that place the destination behind, above, below or beside the source |
| BlitterRegisters.FillFromRegisters | crates/machine-core/src/blitter.rs:283-391 | prefix parity for the control words that program a fill, under the same address conditions: IFE gives OR, EFE gives XOR, FCI the carry-in |
| BlitterLogic.PointerReached | crates/machine-core/src/blitter.rs:302-407 | the pointer of word j of the whole blit in closed form, modulos at the row ends, whatever wraps |
| BlitterLogic.LogicStream | crates/machine-core/src/blitter.rs:340-391 | any minterm: scan bit q of the logic unit is the table entry selected by bit q - ash of the masked A stream, bit q - bsh of the fetched B stream (BLTBDAT unshifted if B is off) and bit q of the C stream, zeros before the start |
| BlitterLogic.AreaIsLogic | crates/machine-core/src/blitter.rs:278-423 | every destination bit of a hazard-free unfilled blit is that bit, of the memory before the blit |
| BlitterLogic.AreaIsFill | crates/machine-core/src/blitter.rs:278-423 | with fill, every bit of a row is that bit ORed or XORed with the carry-in and the parity of the row bits to its right |
| BlitterLogic.OtherWordKept | crates/machine-core/src/blitter.rs:278-423 | a word that is no destination word keeps its value |
| BlitterLogic.AreaLeavesPointers | crates/machine-core/src/blitter.rs:404-423 | the pointers left behind, enabled channels past the last row, and no other register than the data and BZERO |
| BlitterLogic.AreaLeavesZero | crates/machine-core/src/blitter.rs:393-395 | BZERO stays set if and only if every destination word was zero |
| BlitterLogic.AreaLeavesData | crates/machine-core/src/blitter.rs:388-422 | BLTDDAT holds the last destination word |
| BlitterLogic.AreaLeavesC | crates/machine-core/src/blitter.rs:376-386 | BLTCDAT holds the last C word |
| BlitterCopy.CopyIsHazardFree | crates/machine-core/src/blitter.rs:278-423 | a copy towards its own source, in the direction of travel, never fetches an overwritten word |
| BlitterCopy.CopyIsMemmove | crates/machine-core/src/blitter.rs:278-423 | the destination rectangle is the original source rectangle and nothing else changed |
| BlitterCopy.OverlappingCopy | crates/machine-core/src/blitter.rs:278-423 | the same from the registers: ascending onto a lower address, descending onto a higher one |
| BlitterLine.NearestPixel | crates/machine-core/src/blitter.rs:496-530 | no pixel of the rule is more than half a step off the ideal line |
| BlitterLine.EndsAtEndPoint | crates/machine-core/src/blitter.rs:496-530 | the last pixel is the other end point |
| BlitterLine.OctantReachesEnd | crates/machine-core/src/blitter.rs:664-697 | with SUD, SUL and AUL set for a line to (dx, dy), the first pixel is the start and the last lies (dx, dy) from it |
| BlitterLine.MinorSteps | crates/machine-core/src/blitter.rs:513-522 | the sign of the error term decides exactly when the ideal line moves along the minor axis |
| BlitterLine.DroppedBitIsHarmless | crates/machine-core/src/blitter.rs:744-747 | the bit 0 that BLTAPTL drops changes no decision |
| BlitterLine.AccumulatorStep | crates/machine-core/src/blitter.rs:516-522 | the 16-bit accumulator holds the error term without overflow |
| BlitterLine.PenMoves | crates/machine-core/src/blitter.rs:666-725 | in every octant the pen moves one pixel on the major axis and one on the minor axis when the sign is clear |
| BlitterLine.LineIsExact | crates/machine-core/src/blitter.rs:453-542 | with D = A or C the final RAM is the initial RAM with exactly the line's bits set |
| BlitterLine.LineFromRegisters | crates/machine-core/src/blitter.rs:453-542 | the same from the register set-up, every octant, any plane width and start pointer |
| BlitterTexture.PatternOfPixel | crates/machine-core/src/blitter.rs:480-527 | pixel k is drawn with pattern bit (bsh - k) mod 16 of BLTBDAT, or of the word fetched for it k modulos on |
| BlitterTexture.DotDecides | crates/machine-core/src/blitter.rs:495-525 | single-dot mode stores the first pixel of each row and no other |
| BlitterTexture.LineIsDrawn | crates/machine-core/src/blitter.rs:453-542 | any minterm, any pattern, single dots or not: every bit of memory is what the stored pixels make of it, each by the table entry of whether it is this bit, its pattern bit and the bit so far |
| BlitterTexture.TexturedLineFromRegisters | crates/machine-core/src/blitter.rs:453-542 | the same from the register set-up, every octant |
| BlitterTexture.PatternedLine | crates/machine-core/src/blitter.rs:453-542 | minterm 0xCA with a pattern in BLTBDAT: a bit is the pattern bit of the last pixel stored in it, and keeps its value if there is none |
| BlitterTexture.PixelIsBlank | crates/machine-core/src/blitter.rs:496-506 | a pixel's word is zero exactly if the table gives 0 for each of its bits |
| BlitterTexture.LineZeroFlag | crates/machine-core/src/blitter.rs:506-521 | BZERO stays set exactly if every pixel's word was zero, stored or not |
| BlitterTexture.LineLeavesPen | crates/machine-core/src/blitter.rs:508-539 | the C and D pointers and the A shift stand on the pixel that would come next |
| BlitterTexture.LineLeavesError | crates/machine-core/src/blitter.rs:512-540 | the low half of the A pointer holds that pixel's error term, the upper half is kept |
| BlitterTexture.LineLeavesSign | crates/machine-core/src/blitter.rs:530-535 | bit 6 of BLTCON1 is its sign, the bits below 12 are otherwise kept |
| BlitterTexture.LineLeavesShift | crates/machine-core/src/blitter.rs:527-535 | the B shift has gone back one a pixel |
| BlitterTexture.LineLeavesPatternPointer | crates/machine-core/src/blitter.rs:487-537 | the B pointer has moved BLTBMOD a pixel if B is on |
| BlitterTexture.LineLeavesData | crates/machine-core/src/blitter.rs:499-541 | the D and C data registers hold the last pixel's words |
| BlitterTexture.DisabledChannels | crates/machine-core/src/blitter.rs:512-524 | without C nothing is stored, without A the error term stands still |
| VirtQueue.SizesThatSurviveTheWrap | m68k/virtionet-device/virtionet_device.c:276-282 | any N consecutive entries have distinct cells across the 16-bit wrap if and only if N divides 65536 |
| VirtQueue.OtherSizesOverwrite | m68k/virtionet-device/virtionet_device.c:276-282 | for every other size, a queue with room left in which posting destroys the oldest unread entry |
| VirtQueue.PublishAppends | m68k/virtionet-device/virtionet_device.c:276-282 | publishing appends to the unread entries and overwrites none of them |
| VirtQueue.PostKeeps | m68k/virtionet-device/virtionet_device.c:276-282 | posting a descriptor that is not outstanding keeps every outstanding one in exactly one place |
| VirtQueue.ReturnKeeps | m68k/virtionet-device/virtionet_device.c:490-500 | a device that returns what it holds overwrites no uncollected used entry |
| VirtQueue.CollectKeeps | m68k/virtionet-device/virtionet_device.c:586-622 | the driver takes back exactly one outstanding descriptor |
| VirtNetSlots.AllocKeepsSlots | m68k/virtionet-device/virtionet_device.c:431-447 | a writer reserves the first free slot for itself alone, or is refused |
| VirtNetSlots.BuildFailsKeepsSlots | m68k/virtionet-device/virtionet_device.c:449-455 | a failed writer gives its slot back |
| VirtNetSlots.PublishKeepsSlots | m68k/virtionet-device/virtionet_device.c:778-783 | a published slot has one pending request and is offered exactly once, behind what was offered before |
| VirtNetSlots.TxOneKeepsSlots | m68k/virtionet-device/virtionet_device.c:592-622 | a used tx entry always names a published slot with a pending request, which becomes free |
| VirtNetSlots.RefillKeepsBuffers | m68k/virtionet-device/virtionet_device.c:573-582 | the rx descriptors stay a permutation of all of them over offered, held and returned |
| VirtNetRequests.RxOneConserves | m68k/virtionet-device/virtionet_device.c:515-571 | a frame moves at most the oldest read from the queue to a reply |
| VirtNetRequests.TxOneConserves | m68k/virtionet-device/virtionet_device.c:606-619 | a completion moves one pending request to a reply |
| VirtNetRequests.AbortConserves | m68k/virtionet-device/virtionet_device.c:1086-1102 | an aborted read leaves the queue for the aborting task, once |
| VirtNetRequests.DrainConserves | m68k/virtionet-device/virtionet_device.c:786-803 | flush, close and open account for every queued read: replied, replied, lost |
| VirtNetSafety.StepKeepsInv | m68k/virtionet-device/virtionet_device.c:276-803 | every step of every party keeps the whole invariant |
| VirtNetSafety.StartsOk | m68k/virtionet-device/virtionet_device.c:361-414 | the state DevInit leaves satisfies it |
| VirtNetSafety.SlotsArePartitioned | m68k/virtionet-device/virtionet_device.c:431-455 | in every reachable state each tx descriptor is exactly one of free, reserved, published, and published ones occur exactly once across unread avail, device and unread used entries |
| VirtNetSafety.OffersAreKept | m68k/virtionet-device/virtionet_device.c:276-282 | no step overwrites an unread avail entry of either queue |
| VirtNetSafety.NoCompletionLost | m68k/virtionet-device/virtionet_device.c:625-654 | outside the handler, a clear and not owed queue bit means both queues are fully processed |
| VirtNetSafety.RequestsAreSomewhereOnce | m68k/virtionet-device/virtionet_device.c:664-803 | every submitted request is in exactly one of read queue, tx slot, task, replied, lost, and is replied at most once |
| VirtNetSafety.ReadsAreServedInOrder | m68k/virtionet-device/virtionet_device.c:490-584 | reads are served in queueing order and packetsReceived is rxDropped plus reads served since Open, modulo 2^32 |
| VirtNetServed.FrameExactly | m68k/virtionet-device/virtionet_device.c:490-584 | every reachable state: a frame longer than 26 bytes whose type the oldest read asks for, or asks 0, replies to exactly that read; any other is dropped and counted; either way the buffer is offered again, last in line |
| VirtNetServed.ServedWasAsked | m68k/virtionet-device/virtionet_device.c:515-571 | every run: a served read was handed a frame of the type its queueing step asked for, or asked 0 |
| VirtNetServed.CompletionExactly | m68k/virtionet-device/virtionet_device.c:586-623 | every reachable state: a used tx entry replies to the one request pending in its slot, counts it and frees the slot, and no other changes |
| VirtNetServed.AcceptedExactly | m68k/virtionet-device/virtionet_device.c:664-725 | every run: a read is taken on, and a write of at most 1512 bytes, exactly when the unit was configured since it was opened and brought online since; any other is replied to at once |
| VirtNetServed.ReadIsQueuedLast | m68k/virtionet-device/virtionet_device.c:664-687 | a read joins the end of the queue with the type it asks for |
| VirtNetServed.WriteReservesLowest | m68k/virtionet-device/virtionet_device.c:431-447 | a write reserves the lowest free slot or is refused |
| VirtNetServed.WriteIsOfferedLast | m68k/virtionet-device/virtionet_device.c:776-784 | publishing offers the slot last in line, with its request pending |
| VirtNetServed.AbortExactly | m68k/virtionet-device/virtionet_device.c:1086-1102 | an abort takes that read out of the queue and leaves the others in order, or changes nothing |
| VirtNetServed.InterruptStarts | m68k/virtionet-device/virtionet_device.c:625-640 | reading the ISR register starts the handler and clears the bit, or does nothing |
| VirtNetServed.SentCountsCompletions | m68k/virtionet-device/virtionet_device.c:606-619 | every run: packetsSent is the number of completions since Open, modulo 2^32 |
| VirtNetLoss.LossesExactly | m68k/virtionet-device/virtionet_device.c:1221-1227 | a run loses no request if and only if every Open in it finds the read list empty |
| VirtNetLoss.PunctualRunsLoseNothing | m68k/virtionet-device/virtionet_device.c:684-686 | if no reader queues itself while the unit is closed, every request is queued, pending, held or replied, exactly once |
| VirtNetLoss.StragglerIsLost | m68k/virtionet-device/virtionet_device.c:1221-1227 | open, configure, online, read checked, close, read queued, open: the read is lost |
| VirtNetLoss.LostIsNowhereElse | m68k/virtionet-device/virtionet_device.c:1221-1227 | a lost request is lost once, not replied, and in no queue, slot or task |
| VirtNetLoss.LostIsForever | m68k/virtionet-device/virtionet_device.c:664-803 | whatever runs afterwards, it stays lost once and is never replied |
| VirtNetLoss.StragglerNeverCompletes | m68k/virtionet-device/virtionet_device.c:1221-1227 | from every reachable closed state with an empty read list the straggler can happen, and no continuation replies to it |
| VirtNetLoops.VNetBase.PushRx | m68k/virtionet-device/virtionet_device.c:276-282 | the cell and the published index, nothing else |
| VirtNetLoops.VNetBase.PostRxBuffers | m68k/virtionet-device/virtionet_device.c:386-414 | DevInit posts every rx buffer once |
| VirtNetLoops.VNetBase.AllocSlot | m68k/virtionet-device/virtionet_device.c:431-447 | the search takes the first free slot, or reports -1 and changes nothing |
| VirtNetLoops.VNetBase.ProcessTxUsed | m68k/virtionet-device/virtionet_device.c:586-623 | with the device acting before the snapshot and before every pass, the loop is a run of the state machine that ends outside the handler |
| VirtNetLoops.VNetBase.ProcessRxUsed | m68k/virtionet-device/virtionet_device.c:490-584 | the same for the receive loop, up to the start of the transmit half |
| VirtNetLoops.VNetBase.ReceiveOne | m68k/virtionet-device/virtionet_device.c:490-584 | one pass is one receive step, whose answer `VirtNetServed.FrameExactly` gives |
| VirtNetLoops.VNetBase.CompleteOne | m68k/virtionet-device/virtionet_device.c:586-623 | one pass is one transmit completion step |
| VirtNetLoops.VNetBase.IsrHandler | m68k/virtionet-device/virtionet_device.c:625-654 | a whole interrupt, the device active throughout, is a run that keeps the invariant, and leaves both queues fully processed unless the device set or owes a new bit |
| VirtNetLoops.VNetBase.ReplyAll | m68k/virtionet-device/virtionet_device.c:793-799 | every queued read is replied once and the list is empty |
| VirtNetLoops.VNetBase.TakeOffQueue | m68k/virtionet-device/virtionet_device.c:1086-1095 | the search removes exactly the aborted read if it is queued |
| Cia.Chip.constructor | crates/machine-core/src/cia.rs:180-218 | the reset state |
| CiaRegisters.ResetReads | crates/machine-core/src/cia.rs:180-222 | after reset the overlay is on at CIA-A, the pins are idle inputs, the timers stopped at their full count, nothing is enabled or pending and the clock runs from 0 |
| Cia.Chip.ReadReg | crates/machine-core/src/cia.rs:225-266 | the value of each register and what reading it does |
| Cia.Chip.WriteReg | crates/machine-core/src/cia.rs:269-335 | what writing each register does |
| Cia.Chip.TodTick | crates/machine-core/src/cia.rs:373-379 | one tick of the time of day |
| Cia.Chip.QueueKeycode | crates/machine-core/src/cia.rs:350-356 | a key code is queued or dropped |
| Cia.Chip.TickKeyboard | crates/machine-core/src/cia.rs:534-554 | the handshake delay and the delivery of a queued key |
| Cia.Chip.TickOneEclock | crates/machine-core/src/cia.rs:496-528 | one E-clock of both timers and the keyboard |
| Cia.Chip.TickEclock | crates/machine-core/src/cia.rs:455-494 | the loop with its idle shortcut is n single E-clocks |
| Cia.Chip.TickClocks | crates/machine-core/src/cia.rs:383-391 | CPU clocks with the remainder carried, and the interrupt line; an overflow of the 32-bit sum stops before anything changes |
| Cia.IdleIsStill | crates/machine-core/src/cia.rs:489-494 | an idle chip does not change |
| Cia.TickedAdds | crates/machine-core/src/cia.rs:383-391 | ticking in two pieces is ticking once |
| Cia.ReachableInv | crates/machine-core/src/cia.rs:225-391 | every run of register accesses, queued keys and ticks keeps the key ring well formed and the carry below one E-clock |
| Cia.QuietStep | crates/machine-core/src/cia.rs:414-451 | before the deadline an E-clock changes nothing but counts, and every deadline comes one closer |
| Cia.EventRaises | crates/machine-core/src/cia.rs:496-554 | at the deadline a source is raised |
| Cia.DeadlineIsSound | crates/machine-core/src/cia.rs:414-451 | ticking fewer clocks than the deadline, any number if there is none, raises no source and changes no control register and no SDR |
| Cia.DeadlineIsTight | crates/machine-core/src/cia.rs:414-451 | ticking exactly the deadline raises a source if and only if the deadline fits 32 bits |
| Cia.OneCallReachesDeadline | crates/machine-core/src/cia.rs:383-451 | one call with the reported clocks is accepted and raises a source if and only if all clocks of those E-clocks, carried ones included, fit 32 bits |
| Cia.ReachableDeadlines | crates/machine-core/src/cia.rs:414-451 | both for every state a run can reach from reset |
| Cia.DeadlineTruncates | crates/machine-core/src/cia.rs:446-451 | a deadline of 2^32 clocks is reported as 0 |
| CiaTimers.ContinuousAClosedForm | crates/machine-core/src/cia.rs:496-507 | timer A has underflowed 0 times up to its count, then once every latch+1 E-clocks |
| CiaTimers.ContinuousBClosedForm | crates/machine-core/src/cia.rs:509-523 | the same law for timer B on the E-clock |
| CiaTimers.CascadeClosedForm | crates/machine-core/src/cia.rs:509-523 | cascaded timer B obeys the law in timer A's underflows |
| CiaTimers.CascadePeriod | crates/machine-core/src/cia.rs:496-523 | once both have reloaded, B fires every (latchA+1)*(latchB+1) E-clocks |
| CiaTimers.OneShotA | crates/machine-core/src/cia.rs:496-507 | a one-shot timer A underflows exactly once, count+1 E-clocks on, and stops, reloaded |
| CiaTimers.OneShotB | crates/machine-core/src/cia.rs:509-523 | the same for timer B on the E-clock |
| CiaTimers.OneShotCascade | crates/machine-core/src/cia.rs:509-523 | a cascaded one-shot timer B underflows exactly once, on underflow count+1 of timer A in whatever mode, then stands reloaded and stopped |
| CiaRegisters.TickRaises | crates/machine-core/src/cia.rs:496-554 | one E-clock raises bit 0 exactly for timer A, bit 1 for timer B, bit 3 for a key, and no other |
| CiaRegisters.SourceHistory | crates/machine-core/src/cia.rs:496-554 | after n E-clocks a source is pending exactly if it was or if its event happened in one of them |
| CiaRegisters.KeyRoundTrip | crates/machine-core/src/cia.rs:637-639 | inverting and rotating right gives back the key code sent |
| CiaRegisters.QueuedLast | crates/machine-core/src/cia.rs:350-356 | a key joins the end of the queue, or is dropped when sixteen are waiting |
| CiaRegisters.KeyTick | crates/machine-core/src/cia.rs:534-554 | a key that arrives is the oldest, in SDR in its wire form; otherwise queue and SDR are left alone |
| CiaRegisters.KeysArriveInOrder | crates/machine-core/src/cia.rs:350-554 | every run: the keys accepted are, in order, those that arrived and those still waiting |
| CiaRegisters.KeyTakesAMillisecond | crates/machine-core/src/cia.rs:534-554 | with SDR read and the port set to input, a waiting key arrives in the 709th E-clock and not before |
| CiaRegisters.UnreadKeyIsKept | crates/machine-core/src/cia.rs:534-554 | until SDR is read or written, no later key takes the place of the one in it, whatever runs |
| CiaRegisters.PortsReadPins | crates/machine-core/src/cia.rs:225-237 | output pins read as latched, input pins as driven from outside |
| CiaRegisters.PortsAreWritten | crates/machine-core/src/cia.rs:269-274 | the first four registers are the two latches and the two directions |
| CiaRegisters.TimerAProgrammed | crates/machine-core/src/cia.rs:275-297 | the two bytes make the latch; the count follows if the timer is stopped or in one-shot mode, which starts it |
| CiaRegisters.TimerBProgrammed | crates/machine-core/src/cia.rs:298-308 | the same for timer B |
| CiaRegisters.TimersReadBack | crates/machine-core/src/cia.rs:238-241 | the two bytes read are the count |
| CiaRegisters.OneShotInterval | crates/machine-core/src/cia.rs:276-297 | writing the two bytes in one-shot mode alone makes the timer underflow once, that many E-clocks and one more later |
| CiaRegisters.ControlAWritten | crates/machine-core/src/cia.rs:318-325 | CRA reads back without LOAD, which reloads timer A alone |
| CiaRegisters.ControlBWritten | crates/machine-core/src/cia.rs:326-331 | the same for CRB and timer B |
| CiaRegisters.MaskIsWritten | crates/machine-core/src/cia.rs:310-317 | bit 7 says whether the five source bits written set or clear the mask, the others are kept |
| CiaRegisters.InterruptRead | crates/machine-core/src/cia.rs:251-260 | ICR reads the pending sources, with bit 7 if an enabled one is among them, and clears them |
| CiaRegisters.TimeIsSet | crates/machine-core/src/cia.rs:576-604 | three bytes written set the time and leave it running, or the alarm alone if CRB bit 7 is set |
| CiaRegisters.HalfWrittenTimeStops | crates/machine-core/src/cia.rs:576-604 | after the first byte the time stands still |
| CiaRegisters.AlwaysCompared | crates/machine-core/src/cia.rs:606-612 | every run keeps the alarm comparison up to date |
| CiaRegisters.AlarmOnTheTick | crates/machine-core/src/cia.rs:373-379 | a tick counts in 24 bits and raises bit 2 exactly when the new time is the alarm |
| CiaRegisters.AlarmOnTheWrite | crates/machine-core/src/cia.rs:576-612 | a write raises it exactly when it makes the two equal |
| CiaRegisters.TimeReadsCoherently | crates/machine-core/src/cia.rs:556-574 | high byte first, the three bytes read are those of one time, whatever runs between the reads |
| Beam.Counter.Tick | crates/machine-core/src/chipset.rs:724-777 | one tick by quotient and remainder |
| Beam.BeamRefinesRaster | crates/machine-core/src/chipset.rs:605-621 | the derived position, frame count, LOF, vertical blank latch, lines and frames are those of a raster stepped one colour clock at a time |
| Beam.TickRefinesRaster | crates/machine-core/src/chipset.rs:724-777 | a tick of CPU clocks is that many whole colour clocks of the stepped raster, the vertical blank latch included, with the rest carried; calls of a line or more on end are counted |
| Beam.TickSplits | crates/machine-core/src/chipset.rs:724-777 | every split of the clocks gives the same position, carry, frame count, LOF and summed lines and frames |
| Beam.LofIsFrameParity | crates/machine-core/src/chipset.rs:761-769 | LOF stays the parity of the frame count |
| Beam.PositionReadback | crates/machine-core/src/chipset.rs:625-633 | VPOSR and VHPOSR together give back the exact position, LOF and the chip identity |
| Beam.LineDeadlineIsExact | crates/machine-core/src/chipset.rs:796-800 | for every ratio: fewer clocks start no line, and that many start exactly one if and only if the ratio is not 0 and the deadline fits 32 bits |
| Beam.ZeroRatioDeadline | crates/machine-core/src/chipset.rs:796-800 | with a clock ratio of 0 the reported deadline starts no line |
| Beam.LineDeadlineTruncates | crates/machine-core/src/chipset.rs:796-800 | 2^31 clocks per colour clock: the deadline of 227 * 2^31 is reported as 2^31, which is one colour clock |
| CirrusModes.Chip.ExecuteBlit | crates/machine-core/src/cirrus.rs:907-1088 | the loops, in every mode, leave the VRAM and counters of the row function, whose bytes `CirrusTransfers` gives |
| CirrusModes.Chip.StartBlit | crates/machine-core/src/cirrus.rs:849-866 | a trigger runs the transfer, or waits for the number of host bytes the mode needs, at least one |
| CirrusModes.Chip.FeedSystemBlit | crates/machine-core/src/cirrus.rs:872-895 | host bytes are kept in order up to the capacity, and the last expected one runs the transfer with them |
| CirrusModes.PlainBlit | crates/machine-core/src/cirrus.rs:907-1088 | without pattern, expansion or host data the engine is the plain copy |
| CirrusPixels.RopIsTable | crates/machine-core/src/cirrus.rs:1264-1288 | every raster op code as a truth table over the source and destination bit, unknown codes copying |
| CirrusTransfers.ByteTransferred | crates/machine-core/src/cirrus.rs:907-1044 | any mode, addresses and pitches from the registers: byte x of row y becomes the raster op of its source byte and its old value, both of the memory before the transfer, or stays if transparent, provided nothing it depends on is stored earlier and nothing later takes its place; pattern rows mod 8, bits most significant first, foreground and background, inversion |
| CirrusTransfers.OthersKept | crates/machine-core/src/cirrus.rs:907-1044 | every other byte is kept |
| CirrusTransfers.RectangleTransferred | crates/machine-core/src/cirrus.rs:907-1044 | the same for every byte, at dst +- (y * dstPitch + x), of a rectangle that fits the VRAM with its source apart from it, as comparisons of addresses |
| CirrusTransfers.ScrollTransferred | crates/machine-core/src/cirrus.rs:907-1044 | overlapping rectangles of one pitch, in the direction of travel: a move of the original rectangle |
| CirrusTransfers.CountersMove | crates/machine-core/src/cirrus.rs:1046-1088 | both counters left behind in every mode, cut to 21 bits, and no other register bit changed |
| CirrusTransfers.HostBytesExpected | crates/machine-core/src/cirrus.rs:785-866 | how many host bytes a transfer waits for, padding included |
| CirrusTiles.PlainTrigger | crates/machine-core/src/cirrus.rs:907-1088 | for a plain copy the triggers of the full engine are those of the plain one |
| CirrusTiles.TapPerTile | crates/machine-core/src/cirrus.rs:907-1088 | a bit stream moves on one byte per eight pixels |
| CirrusTiles.RetriggerContinuesInAnyMode | crates/machine-core/src/cirrus.rs:907-1088 | patterns, solid fills, expanded patterns and streams, and plain copies: w1 bytes of whole tiles and then only the width set to w2 leave the VRAM and counters of w1+w2, if neither counter wraps over w1 |
| Cirrus.OneRowTrigger | crates/machine-core/src/cirrus.rs:736-768 | one trigger of a given width moves that many bytes and both 21-bit counters, and no other parameter |
| Cirrus.CountersPassLastRow | crates/machine-core/src/cirrus.rs:1072-1088 | for a rectangle the counters stop just past its last row |
| Cirrus.RunsJoin | crates/machine-core/src/cirrus.rs:817-847 | two transfers on end are one, if the counters do not wrap between them and transparent pixels are whole |
| Cirrus.RetriggerContinues | crates/machine-core/src/cirrus.rs:907-1088 | width w1 and then only the width set to w2 leaves the VRAM and counters of width w1+w2, any raster op, either direction |
| Cirrus.RetriggersContinue | crates/machine-core/src/cirrus.rs:907-1088 | the same for any number of pieces |
| Cirrus.WrappingRetriggerDiffers | crates/machine-core/src/cirrus.rs:750-768 | across the 21-bit wrap two triggers write where one does not |
| CirrusRetrigger.JoinsExactly | crates/machine-core/src/cirrus.rs:750-847 | two opaque runs on end are one for every VRAM contents and raster op if and only if no byte that only a wrapped counter reaches makes a difference |
| CirrusRetrigger.RetriggerContinuesExactly | crates/machine-core/src/cirrus.rs:907-1088 | the same of triggers of a one-row copy, with both counters read back from the registers |
| CirrusRetrigger.SafeGoingUp | crates/machine-core/src/cirrus.rs:750-768 | going up, the condition is: the destination does not wrap, and the source does not either or the second piece is past the VRAM |
| CirrusRetrigger.SafeGoingDown | crates/machine-core/src/cirrus.rs:750-768 | going down, the condition on widths, counters and VRAM length in closed form |
| PciBars.ProbeFindsSize | m68k/prometheus-library/prometheus_library.c:229-239 | the sizing probe finds 2^k bytes in 32-bit arithmetic and restores the register |
| PciBars.TestsDecide | m68k/prometheus-library/prometheus_library.c:241-254 | the two overflow tests accept a BAR exactly when it fits the region |
| PciBars.TwoGigabytesWrap | m68k/prometheus-library/prometheus_library.c:241-254 | a 2 GB BAR wraps the sum to 0, and only the second test refuses it |
| PciBars.Bus.AssignBars | m68k/prometheus-library/prometheus_library.c:191-275 | the BAR loop leaves regions, registers, command word and cursor of the allocation rule that `PciPlacement` pins down |
| PciBars.Bus.RecordFunction | m68k/prometheus-library/prometheus_library.c:281-317 | one function recorded and assigned, or refused when the table is full |
| PciBars.Bus.EnumerateBus0 | m68k/prometheus-library/prometheus_library.c:323-371 | the scan records the present functions in order until the table is full |
| PciBars.WholeScanIsTidy | m68k/prometheus-library/prometheus_library.c:191-371 | over a whole scan assigned BARs are disjoint, naturally aligned and inside the region, the others 0/0 |
| PciBars.RegistersHoldRegions | m68k/prometheus-library/prometheus_library.c:191-275 | every assigned register holds its region's base, every other register what it held |
| PciPlacement.AssignSettles | m68k/prometheus-library/prometheus_library.c:191-275 | every BAR index of a function: a 32-bit memory BAR gets its own size at the least multiple of it at or behind the end of the regions assigned before, 0/0 only if that would end above 0x2080_0000; its register holds the base; I/O, 64-bit and absent BARs are 0/0 and keep theirs |
| PciPlacement.LiveLists | m68k/prometheus-library/prometheus_library.c:323-371 | function 0 of every present device and functions 1 to 7 of the multifunction ones, each once, in order |
| PciPlacement.ScanPlacesEveryBar | m68k/prometheus-library/prometheus_library.c:281-371 | any bus: exactly those are recorded, up to 32, every BAR of every board is placed by that rule behind all boards before it, COMMAND is memory plus master, and nothing else on the bus changes |
| PciPlacement.ScanBus0 | m68k/prometheus-library/prometheus_library.c:323-371 | the scan itself leaves that |
| BlockAdapter.GeometryAccepts | crates/board-qemu-q35/src/storage.rs:96-144 | a block size is refused exactly when it is neither a multiple nor a divisor of 512 |
| BlockAdapter.GeometryFits | crates/board-qemu-q35/src/storage.rs:96-144 | accepted sectors and native blocks tile the same bytes of the medium, as many sectors as fit |
| BlockAdapter.Placement | crates/board-qemu-q35/src/storage.rs:157-215 | the native blocks of an accepted sector lie over or around its 512 bytes, inside the medium |
| BlockAdapter.EfiBlockDevice.ReadSector | crates/board-qemu-q35/src/storage.rs:157-185 | a read returns bytes 512*lba onwards, and fails out of range or when the firmware does |
| BlockAdapter.EfiBlockDevice.WriteSector | crates/board-qemu-q35/src/storage.rs:187-215 | a write replaces exactly those bytes; a failed one changes nothing, or leaves anything in the native blocks it handed to the firmware |
| BlockAdapter.SpliceIsSectorUpdate | crates/board-qemu-q35/src/storage.rs:187-215 | a write changes its own sector and no other |
| BlockAdapter.HoldsLastWrite | crates/board-qemu-q35/src/storage.rs:157-215 | after any history, failures included, a sector holds the last data written to it successfully, unless a failed write has damaged its native blocks since |
| BlockAdapter.TornStaysInside | crates/board-qemu-q35/src/storage.rs:187-215 | a failed write damages no sector of other native blocks |
| BlockAdapter.Session | crates/board-qemu-q35/src/storage.rs:157-215 | a device driven through any mixture of reads and writes answers every read with the last data written successfully to that sector, and fails exactly when it must |

## Left out

- VpDecoder.DecodeBlock: the opcode table of `decode_one` is a parameter apart from `movem`; the instruction cursor, the op limit and the arena overflow are modelled.
- VpCore.VpCore.Run: an overflow of the 32-bit retired count counts as a panic, as in a build with overflow checks, and an opcode the decoder does not know ends both runs the same way.
- VpProgram.RunProgram: a block that overwrites an instruction of its own further on is outside this theorem; `VpCore.VpCore.Run` covers it.
- VpPasses.M68kIsRespectful: the flag effects of `move`, `mul` and `div` that this IR leaves out by design are not added.
- VpMovem.SaveRestore: memory of at least 64 bytes, and An not among the saved registers.
- Blitter.Device.Execute: register writes other than the pointer halves, and the device write log, are not modelled; `execute` starts from the register values.
- Blitter.Device.ExecuteArea: the row and word loop bodies are split into methods, with the word operators passed in; `Execute` passes the hardware's.
- BlitterTexture.LineIsDrawn: graphics.library's set-up with `2 * dmaj` within a signed word, channel C on and a one-bit texture; other settings of a line blit are in the step function only.
- VpOps.CallReturns: a buffer of at least four bytes.
- VpOps.CountedLoopEnds: the loop of two instructions only.
- BlitterLogic.AreaIsLogic: blits that store and fetch no word they have overwritten; with channel D off, `BlitterLogic.LogicStream` and `BlitterArea.ZeroFlag` say what is computed.
- VirtNetSafety.StepKeepsInv: `VNetOpen` is one step, the copy hooks write only their own buffers, and the device returns only descriptors it holds; the branches for a misbehaving device are modelled and shown not to be taken.
- VirtNetLoops.VNetBase.ProcessRxUsed: the device acts between passes, not within one; frame bytes, addresses and the copied payload are not modelled.
- Cia.DeadlineIsTight: pending sources are cleared first, so that what is seen is what the tick raised.
- Beam.TickSplits: the coarse-tick detector, which looks at single calls, is outside the split law; saturation of the 64-bit counters is excluded.
- CirrusModes.Chip.StartBlit: the register lock and the start and busy bits are not modelled; a transfer starts from the register values.
- CirrusTiles.RetriggerContinuesInAnyMode: sufficient; the condition is exact for opaque plain copies only (`CirrusRetrigger.RetriggerContinuesExactly`).
- CirrusTransfers.ByteTransferred: transfers that read none of the bytes they have overwritten.
- PciBars.Bus.AssignBars: the memory-decode bit is off while the BARs are sized; only the COMMAND word left at the end is modelled.
- PciBars.WholeScanIsTidy: I/O and 64-bit BARs are skipped as the library does; expansion ROM and bridges are not modelled.
- BlockAdapter.EfiBlockDevice.WriteSector: the 64-bit product of the sector count does not overflow.
- virtio capability walk, feature negotiation and DMA allocation: plumbing against hardware and Exec.
- Board start-up code, heap, framebuffer presentation, RDB disk discovery, palette and mode tables, floppy pins, autoconfig and plain register latches: they would only add easy members.
- The renderer, `MachineBus` and the m68k crate are not part of this model.
