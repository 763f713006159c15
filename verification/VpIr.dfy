/**
 The m68k-vp intermediate representation and the architectural effect of each of its ops
 (crates/m68k-vp/src/ir.rs, mem.rs and the per-op arms of interp.rs).

 An op's effect is split in two: `Effect` gives the new registers and memory and never looks at the
 condition codes; `NewFlags` gives the new condition codes.
 */
module VpIr {
  import opened Bits

  // ---- flat guest memory --------------------------------------------------

  predicate IsPowerOfTwo(n: nat) { n == 1 || (n > 1 && n % 2 == 0 && IsPowerOfTwo(n / 2)) }

  /** A power-of-two buffer that fits a 32-bit address space. */
  type Mem = m: seq<u8> | 0 < |m| < U32_RANGE && IsPowerOfTwo(|m|) witness [0]

  lemma {:induction false} AndAtMost(x: nat, y: nat)
    ensures And(x, y) <= y
  {
    if x > 0 && y > 0 { AndAtMost(x / 2, y / 2); }
  }

  /** An address, wrapped at 32 bits and masked into a buffer of `n` bytes. */
  function Idx(addr: int, n: nat): (i: nat)
    requires n > 0
    ensures i < n
  {
    AndAtMost(Wrap32(addr), n - 1);
    And(Wrap32(addr), n - 1)
  }

  /** Masking with a power of two less one is the remainder. */
  lemma {:induction false} MaskIsMod(x: nat, n: nat)
    requires IsPowerOfTwo(n)
    ensures And(x, n - 1) == x % n
  {
    if n > 1 {
      var h := n / 2;
      MaskIsMod(x / 2, h);
      HalvedMod(x, h);
      MaskHalves(x, n - 1);
    }
  }

  lemma MaskHalves(x: nat, y: nat)
    requires y % 2 == 1
    ensures And(x, y) == x % 2 + 2 * And(x / 2, y / 2)
  {
  }

  lemma {:induction false} PowerOfTwoDivides(n: nat, k: nat)
    requires IsPowerOfTwo(n) && n <= Pow2(k)
    ensures Pow2(k) % n == 0
  {
    if n > 1 {
      PowerOfTwoDivides(n / 2, k - 1);
      var c := Pow2(k - 1) / (n / 2);
      DivModLaw(Pow2(k - 1), n / 2);
      assert Pow2(k) == 2 * ((n / 2) * c) == n * c;
      ModUnique(Pow2(k), n, c, 0);
    }
  }

  /** Reducing by a multiple of `n` first changes no remainder modulo `n`. */
  lemma ModOfMod(x: int, big: nat, n: nat)
    requires n > 0 && big > 0 && big % n == 0
    ensures x % big % n == x % n
  {
    var c, q, r := big / n, x / big, x % big;
    DivModLaw(big, n);
    DivModLaw(x, big);
    DivModLaw(r, n);
    assert n * (c * q) == (n * c) * q;
    assert n * (c * q + r / n) == n * (c * q) + n * (r / n);
    ModUnique(x, n, c * q + r / n, r % n);
  }

  /** The buffer length divides 2^32, so the 32-bit wrap never shows. */
  lemma IdxIsMod(addr: int, n: nat)
    requires IsPowerOfTwo(n) && n < U32_RANGE
    ensures Idx(addr, n) == addr % n
  {
    MaskIsMod(Wrap32(addr), n);
    Pow2Values();
    PowerOfTwoDivides(n, 32);
    ModOfMod(addr, U32_RANGE, n);
  }

  lemma IdxCongruent(x: int, y: int, j: int, n: nat)
    requires IsPowerOfTwo(n) && n < U32_RANGE && Idx(x, n) == Idx(y, n)
    ensures Idx(x + j, n) == Idx(y + j, n)
  {
    IdxIsMod(x, n);
    IdxIsMod(y, n);
    IdxIsMod(x + j, n);
    IdxIsMod(y + j, n);
    Congruent(n, x, y, j);
  }

  /** Distinct offsets below the buffer length reach distinct bytes. */
  lemma DistinctBytes(n: nat, a: int, i: int, j: int)
    requires IsPowerOfTwo(n) && n < U32_RANGE && 0 <= i < n && 0 <= j < n && i != j
    ensures Idx(a + i, n) != Idx(a + j, n)
  {
    IdxIsMod(a + i, n);
    IdxIsMod(a + j, n);
    DistinctResidues(n, a, i, j);
  }

  function ReadU8(m: Mem, addr: int): u8 { m[Idx(addr, |m|)] }

  function WriteU8(m: Mem, addr: int, v: u8): Mem { m[Idx(addr, |m|) := v] }

  function ReadU16(m: Mem, addr: int): u16 { ReadU8(m, addr) * 256 + ReadU8(m, addr + 1) }

  function WriteU16(m: Mem, addr: int, v: u16): Mem {
    WriteU8(WriteU8(m, addr, v / 256), addr + 1, v % 256)
  }

  function ReadU32(m: Mem, addr: int): u32 { ReadU16(m, addr) * U16_RANGE + ReadU16(m, addr + 2) }

  function WriteU32(m: Mem, addr: int, v: u32): Mem {
    WriteU16(WriteU16(m, addr, v / U16_RANGE), addr + 2, v % U16_RANGE)
  }

  /** Addresses wrap at 2^32 before they are masked, once or twice. */
  lemma WrappedAddress(m: Mem, addr: int)
    ensures Idx(Wrap32(addr), |m|) == Idx(addr, |m|)
  {
    SmallMod(Wrap32(addr), U32_RANGE);
  }

  /** The borrowed guest memory; writes replace its contents. */
  class VpMemory {
    var buf: Mem
  }

  // ---- the IR -----------------------------------------------------------

  /** Registers 0-7 are D0-D7, 8-15 are A0-A7. */
  type Reg = r: int | 0 <= r < 16
  type Regs = s: seq<u32> | |s| == 16 witness seq(16, _ => 0)

  const A7: Reg := 15

  datatype Size = B | W | L {
    function Bytes(): nat { match this case B => 1 case W => 2 case L => 4 }
    function Range(): nat { match this case B => 0x100 case W => 0x1_0000 case L => U32_RANGE }
    function SignBit(): nat { Range() / 2 }
  }

  datatype Ea = Ind(r: Reg) | PostInc(r: Reg) | PreDec(r: Reg) | Disp(r: Reg, d: int)
  datatype Source = FromEa(ea: Ea) | FromReg(r: Reg) | Imm(v: u32)
  datatype AluBin = Add | Sub | AndB | OrB | Eor | Cmp
  datatype AluUn = NotU | Neg | Tst | ExtL
  datatype MulDiv = MulU | MulS | DivU | DivS
  datatype BfOp = ExtU | Ins

  /** Condition-code masks: C, V, Z, N, X in bits 0 to 4. */
  type Flags = bv8
  const F_C: Flags := 0x01
  const F_V: Flags := 0x02
  const F_Z: Flags := 0x04
  const F_N: Flags := 0x08
  const F_X: Flags := 0x10
  const F_ALL: Flags := 0x1F
  const F_NONE: Flags := 0x00

  datatype Op =
    | MoveqImm(dst: Reg, imm: int)
    | RegMove(dst: Reg, src: Reg)
    | LoadReg(dst: Reg, ea: Ea, size: Size)
    | MoveMem(from: Source, to: Ea, size: Size)
    | Lea(dst: Reg, ea: Ea)
    | AluBinReg(op: AluBin, dst: Reg, src: Reg, size: Size, flags: Flags)
      // the decoder emits only add and subtract with an immediate
    | AluImm(subtract: bool, dst: Reg, imm: int, size: Size, flags: Flags)
    | AluUnary(un: AluUn, dst: Reg, size: Size, flags: Flags)
    | Shift(left: bool, arith: bool, dst: Reg, count: nat, size: Size, flags: Flags)
    | MulDivOp(md: MulDiv, dst: Reg, src: Reg)
    | Bitfield(bf: BfOp, base: Reg, reg: Reg, offset: nat, width: nat)
    | Bsr(target: u32)
    | Bne(target: u32, fallthrough: u32)
    | Rts
    | Nop
  {
    predicate Terminates() { Bsr? || Bne? || Rts? }
    /** The four shapes whose `flags` mask the liveness pass narrows. */
    predicate ProducesFlags() { AluBinReg? || AluImm? || AluUnary? || Shift? }
  }

  datatype Instr = Instr(op: Op, pc: u32, len: nat, retire: bool)
  datatype Block = Block(instrs: seq<Instr>, entryPc: u32)

  // ---- arithmetic helpers ---------------------------------------------------

  function Signed32(x: int): int { var y := x % U32_RANGE; if y >= 0x8000_0000 then y - U32_RANGE else y }

  function And32(x: u32, y: u32): u32 { Pow2Values(); AndRange(x, y, 32); And(x, y) }
  function Or32(x: u32, y: u32): u32 { Pow2Values(); OrRange(x, y, 32); Or(x, y) }
  function Xor32(x: u32, y: u32): u32 { Pow2Values(); XorRange(x, y, 32); Xor(x, y) }

  function FlagIf(b: bool, f: Flags): Flags { if b then f else F_NONE }

  /** Division that truncates toward zero, and its remainder. */
  function TruncDiv(x: int, y: int): int
    requires y != 0
  {
    if x >= 0 then (if y > 0 then x / y else -(x / -y))
    else if y > 0 then -((-x) / y) else (-x) / (-y)
  }

  function TruncRem(x: int, y: int): int
    requires y != 0
  {
    x - TruncDiv(x, y) * y
  }

  datatype Sum = Sum(result: u32, flags: Flags)

  function AddFlags(a: u32, b: u32, size: Size): Sum {
    var av, bv := a % size.Range(), b % size.Range();
    var r := (av + bv) % size.Range();
    var sa, sb, sr := av >= size.SignBit(), bv >= size.SignBit(), r >= size.SignBit();
    Sum(r, FlagIf(sr, F_N) | FlagIf(r == 0, F_Z) | FlagIf(sa == sb && sr != sa, F_V)
           | FlagIf(av + bv >= size.Range(), F_C | F_X))
  }

  function SubFlags(a: u32, b: u32, size: Size): Sum {
    var av, bv := a % size.Range(), b % size.Range();
    var r := (av - bv) % size.Range();
    var sa, sb, sr := av >= size.SignBit(), bv >= size.SignBit(), r >= size.SignBit();
    Sum(r, FlagIf(sr, F_N) | FlagIf(r == 0, F_Z) | FlagIf(sa != sb && sr != sa, F_V)
           | FlagIf(av < bv, F_C | F_X))
  }

  function LogicFlags(r: u32, size: Size): Flags {
    FlagIf(r % size.Range() >= size.SignBit(), F_N) | FlagIf(r % size.Range() == 0, F_Z)
  }

  function BinResult(op: AluBin, a: u32, b: u32, size: Size): Sum {
    match op
    case Add => AddFlags(a, b, size)
    case Sub => SubFlags(a, b, size)
    case Cmp => SubFlags(a, b, size)
    case AndB => Sum(And32(a, b), LogicFlags(And32(a, b), size))
    case OrB => Sum(Or32(a, b), LogicFlags(Or32(a, b), size))
    case Eor => Sum(Xor32(a, b), LogicFlags(Xor32(a, b), size))
  }

  function UnResult(op: AluUn, a: u32, size: Size): Sum {
    match op
    case NotU => var r := size.Range() - 1 - a % size.Range(); Sum(r, LogicFlags(r, size))
    case Neg => SubFlags(0, a, size)
    case Tst => Sum(a, LogicFlags(a, size))
    case ExtL => var r := Wrap32(Signed16(a)); Sum(r, LogicFlags(r, L))
  }

  /** Arithmetic-left overflow: some bit that passed through the sign position differs from the
      final sign. */
  predicate AslOverflow(probe: nat, n: nat, finalSign: bool, size: Size)
    requires probe < size.Range()
    decreases n
  {
    n > 0 && ((probe >= size.SignBit()) != finalSign
              || AslOverflow((probe * 2) % size.Range(), n - 1, finalSign, size))
  }

  function ShiftResult(left: bool, arith: bool, a32: u32, n: nat, size: Size): Sum {
    var bits := size.Bytes() * 8;
    var a := a32 % size.Range();
    if left then
      var r := if n >= bits then 0 else (a * Pow2(n)) % size.Range();
      var out := 0 < n <= bits && (a / Pow2(bits - n)) % 2 == 1;
      var ovf := arith && AslOverflow(a, if n < bits then n else bits, r >= size.SignBit(), size);
      Sum(r, LogicFlags(r, size) | FlagIf(out, F_C | F_X) | FlagIf(ovf, F_V))
    else
      var k := if n < 31 then n else 31;
      var r := if n >= bits then 0
               else if arith then Wrap32(Signed32(a) / Pow2(k)) % size.Range()
               else Shifted(a, k);
      var out := 0 < n <= bits && (a / Pow2(n - 1)) % 2 == 1;
      Sum(r, LogicFlags(r, size) | FlagIf(out, F_C | F_X))
  }

  function Shifted(a: u32, k: nat): (r: u32)
    ensures r <= a
  {
    if k == 0 then a else Shifted(a / 2, k - 1)
  }

  function MulDivResult(op: MulDiv, a: u32, b: u32): u32 {
    match op
    case MulU =>
      var av, bv := a % U16_RANGE, b % U16_RANGE;
      Wrap32(av * bv)
    case MulS => Wrap32(Signed16(a) * Signed16(b))
    case DivU =>
      var v := b % U16_RANGE;
      if v == 0 || a / v > 0xFFFF then a else Wrap32((a % v) * U16_RANGE + a / v)
    case DivS =>
      var v := Signed16(b);
      var n := Signed32(a);
      if v == 0 || (n == -0x8000_0000 && v == -1) then a
      else
        var q := TruncDiv(n, v);
        if -32768 <= q <= 32767 then
          (TruncRem(n, v) % U16_RANGE) * U16_RANGE + q % U16_RANGE
        else a
  }

  // ---- register access and addressing -----------------------------------------

  /** A sized write to a data register keeps its upper bits; an address register takes it whole. */
  function SetSized(regs: Regs, r: Reg, v: u32, size: Size): Regs {
    if r < 8 then regs[r := regs[r] - regs[r] % size.Range() + v % size.Range()] else regs[r := v]
  }

  function EaAddr(regs: Regs, ea: Ea, size: Size): u32 {
    match ea
    case Ind(r) => regs[r]
    case PostInc(r) => regs[r]
    case PreDec(r) => Wrap32(regs[r] - size.Bytes())
    case Disp(r, d) => Wrap32(regs[r] + d)
  }

  function EaRegs(regs: Regs, ea: Ea, size: Size): Regs {
    match ea
    case Ind(_) => regs
    case PostInc(r) => regs[r := Wrap32(regs[r] + size.Bytes())]
    case PreDec(r) => regs[r := Wrap32(regs[r] - size.Bytes())]
    case Disp(_, _) => regs
  }

  function ReadSized(m: Mem, addr: u32, size: Size): u32 {
    match size case B => ReadU8(m, addr) case W => ReadU16(m, addr) case L => ReadU32(m, addr)
  }

  function WriteSized(m: Mem, addr: u32, v: u32, size: Size): Mem {
    match size
    case B => WriteU8(m, addr, v % 0x100)
    case W => WriteU16(m, addr, v % U16_RANGE)
    case L => WriteU32(m, addr, v)
  }

  function LeaAddr(regs: Regs, ea: Ea): u32 {
    match ea
    case Disp(r, d) => Wrap32(regs[r] + d)
    case _ => regs[ea.r]
  }

  // ---- bit-fields in memory -----------------------------------------------------

  function FieldBytes(offset: nat, width: nat): nat { (offset % 8 + width + 7) / 8 }

  /** The `n` bytes from `addr` read as one big-endian number, most significant byte first. */
  function Gather(m: Mem, addr: int, n: nat): nat {
    if n == 0 then 0 else Gather(m, addr, n - 1) * 256 + ReadU8(m, addr + n - 1)
  }

  /** The `n` low bytes of `v` stored big-endian from `addr`, last byte first. */
  function Scatter(m: Mem, addr: int, n: nat, v: nat): Mem
    decreases n
  {
    if n == 0 then m else Scatter(WriteU8(m, addr + n - 1, v % 256), addr, n - 1, v / 256)
  }

  function BfShift(offset: nat, width: nat): nat {
    FieldBytes(offset, width) * 8 - offset % 8 - width
  }

  function BfRead(m: Mem, base: int, offset: nat, width: nat): nat {
    Low(Shr(Gather(m, base + offset / 8, FieldBytes(offset, width)), BfShift(offset, width)), width)
  }

  /** `(buf & !mask) | ((value << shift) & mask)` over a 64-bit buffer. */
  function Spliced(buf: nat, shift: nat, width: nat, value: nat): nat {
    var mask := Shl(Pow2(width) - 1, shift);
    Or(And(buf, Not(mask, 64)), And(Shl(value, shift), mask))
  }

  function BfWrite(m: Mem, base: int, offset: nat, width: nat, value: nat): Mem {
    var n := FieldBytes(offset, width);
    var start := base + offset / 8;
    Scatter(m, start, n, Spliced(Gather(m, start, n), BfShift(offset, width), width, value))
  }

  // ---- the two halves of an op ----------------------------------------------------

  datatype Arch = Arch(regs: Regs, mem: Mem)

  /** Registers and memory after `op`; the stack effect of `bsr` and `rts` included. */
  function Effect(i: Instr, s: Arch): Arch {
    var regs := s.regs;
    match i.op
    case MoveqImm(dst, imm) => s.(regs := regs[dst := Wrap32(imm)])
    case RegMove(dst, src) => s.(regs := regs[dst := regs[src]])
    case LoadReg(dst, ea, size) =>
      s.(regs := SetSized(EaRegs(regs, ea, size), dst, ReadSized(s.mem, EaAddr(regs, ea, size), size), size))
    case MoveMem(from, to, size) =>
      var v := match from
        case FromEa(ea) => ReadSized(s.mem, EaAddr(regs, ea, size), size)
        case FromReg(r) => regs[r]
        case Imm(v) => v;
      var r1 := if from.FromEa? then EaRegs(regs, from.ea, size) else regs;
      Arch(EaRegs(r1, to, size), WriteSized(s.mem, EaAddr(r1, to, size), v, size))
    case Lea(dst, ea) => s.(regs := regs[dst := LeaAddr(regs, ea)])
    case AluBinReg(op, dst, src, size, _) =>
      if op.Cmp? then s
      else s.(regs := SetSized(regs, dst, BinResult(op, regs[dst], regs[src], size).result, size))
    case AluImm(subtract, dst, imm, size, _) =>
      s.(regs := SetSized(regs, dst, ImmResult(subtract, regs[dst], imm, size).result, size))
    case AluUnary(un, dst, size, _) =>
      if un.Tst? then s
      else if un.ExtL? then s.(regs := regs[dst := UnResult(un, regs[dst], size).result])
      else s.(regs := SetSized(regs, dst, UnResult(un, regs[dst], size).result, size))
    case Shift(left, arith, dst, count, size, _) =>
      s.(regs := SetSized(regs, dst, ShiftResult(left, arith, regs[dst], count, size).result, size))
    case MulDivOp(md, dst, src) => s.(regs := regs[dst := MulDivResult(md, regs[dst], regs[src])])
    case Bitfield(bf, base, reg, offset, width) =>
      if bf.ExtU? then s.(regs := regs[reg := Wrap32(BfRead(s.mem, regs[base], offset, width))])
      else s.(mem := BfWrite(s.mem, regs[base], offset, width, Low(regs[reg], width)))
    case Bsr(_) =>
      var sp := Wrap32(regs[A7] - L.Bytes());
      Arch(regs[A7 := sp], WriteU32(s.mem, sp, Wrap32(i.pc + i.len)))
    case Rts => s.(regs := regs[A7 := Wrap32(regs[A7] + L.Bytes())])
    case Bne(_, _) => s
    case Nop => s
  }

  function ImmResult(subtract: bool, a: u32, imm: int, size: Size): Sum {
    if subtract then SubFlags(a, Wrap32(imm), size) else AddFlags(a, Wrap32(imm), size)
  }

  /** The condition codes a flag-producing op computes, before its mask is applied. */
  function Computed(op: Op, regs: Regs): Flags
    requires op.ProducesFlags()
  {
    match op
    case AluBinReg(b, dst, src, size, _) => BinResult(b, regs[dst], regs[src], size).flags
    case AluImm(subtract, dst, imm, size, _) => ImmResult(subtract, regs[dst], imm, size).flags
    case AluUnary(un, dst, size, _) => UnResult(un, regs[dst], size).flags
    case Shift(left, arith, dst, count, size, _) =>
      ShiftResult(left, arith, regs[dst], count, size).flags
  }

  /** Only the bits an op's mask asks for change; `moveq` writes N, Z, V and C outright. */
  function NewFlags(op: Op, regs: Regs, flags: Flags): Flags {
    if op.ProducesFlags() then
      (flags & !op.flags) | (Computed(op, regs) & op.flags)
    else if op.MoveqImm? then
      (flags & !(F_N | F_Z | F_V | F_C)) | LogicFlags(Wrap32(op.imm), L)
    else flags
  }
}
