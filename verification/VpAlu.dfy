/**
 What the arithmetic ops compute (crates/m68k-vp/src/interp.rs `add_flags`, `sub_flags`, `logic_flags` and the
 ALU arms of `execute_block`), stated as arithmetic on the operands.

 An operand of a given size is read as an unsigned number below 2^8, 2^16 or 2^32, or as the signed number
 with the same low bits. Each theorem speaks of `Step` over the interpreter's own ops.
 */
module VpAlu {
  import opened Bits
  import opened VpIr
  import opened VpPasses

  // ---- sized operands -------------------------------------------------------------------------

  function Width(size: Size): nat { match size case B => 8 case W => 16 case L => 32 }
  function Radix(size: Size): int { match size case B => 256 case W => 65536 case L => 4294967296 }

  function Unsigned(x: int, size: Size): int { x % Radix(size) }

  function Signed(x: int, size: Size): int {
    if 2 * Unsigned(x, size) < Radix(size) then Unsigned(x, size) else Unsigned(x, size) - Radix(size)
  }

  /** A signed number of this size. */
  predicate Fits(x: int, size: Size) { -Radix(size) <= 2 * x < Radix(size) }

  /** Condition code `bit` now says `b` if the op was asked for it, and is what it was otherwise. */
  predicate Says(bit: Flags, b: bool, asked: Flags, was: Flags, now: Flags) {
    if asked & bit != 0 then (now & bit != 0) == b else now & bit == was & bit
  }

  /** The condition codes X, N, Z, V, C (bits 4 to 0) of an op. */
  predicate Codes(asked: Flags, was: Flags, now: Flags, x: bool, n: bool, z: bool, v: bool, c: bool) {
    && Says(0x10, x, asked, was, now) && Says(0x08, n, asked, was, now) && Says(0x04, z, asked, was, now)
    && Says(0x02, v, asked, was, now) && Says(0x01, c, asked, was, now)
  }

  /** Only register `dst` changes: a data register in its low bits, an address register as a whole. */
  predicate Put(a: Arch, b: Arch, dst: Reg, v: int, size: Size) {
    && b.mem == a.mem && (forall r: Reg :: r != dst ==> b.regs[r] == a.regs[r])
    && Unsigned(b.regs[dst], size) == Unsigned(v, size)
    && b.regs[dst] / Radix(size) == if dst < 8 then a.regs[dst] / Radix(size) else 0
  }

  // ---- helpers ------------------------------------------------------------------------------------

  lemma Sizes(size: Size)
    ensures size.Range() == Radix(size) == Pow2(Width(size)) && size.SignBit() * 2 == Radix(size)
    ensures size.Bytes() * 8 == Width(size)
  {
    Pow2Values();
  }

  lemma SignTest(x: int, size: Size)
    ensures Unsigned(x, size) >= size.SignBit() <==> Signed(x, size) < 0
    ensures 2 * Unsigned(x, size) >= Radix(size) <==> Signed(x, size) < 0
    ensures Unsigned(x, size) == 0 <==> Signed(x, size) == 0
  {
    Sizes(size);
  }

  lemma SetSizedPuts(a: Arch, dst: Reg, v: u32, size: Size)
    requires dst < 8 || v < Radix(size)
    ensures Put(a, a.(regs := SetSized(a.regs, dst, v, size)), dst, v, size)
  {
    Sizes(size);
    if dst < 8 {
      var x, n := a.regs[dst], Radix(size);
      DivModLaw(x, n);
      ModUnique(x - x % n + v % n, n, x / n, v % n);
    } else {
      SmallMod(v, Radix(size));
    }
  }

  lemma PutSame(a: Arch, b: Arch, dst: Reg, v: int, w: int, size: Size)
    requires Put(a, b, dst, v, size) && Unsigned(v, size) == Unsigned(w, size)
    ensures Put(a, b, dst, w, size)
  {
  }

  function Bundle(x: bool, n: bool, z: bool, v: bool, c: bool): Flags {
    FlagIf(n, F_N) | FlagIf(z, F_Z) | FlagIf(v, F_V) | FlagIf(x, F_X) | FlagIf(c, F_C)
  }

  /** Flag bits collected with a bitwise or, and applied under a mask. */
  lemma Collected(x: bool, n: bool, z: bool, v: bool, c: bool, asked: Flags, was: Flags)
    ensures Codes(asked, was, (was & !asked) | (Bundle(x, n, z, v, c) & asked), x, n, z, v, c)
  {
  }

  lemma BothCarries(n: bool, z: bool, v: bool, c: bool)
    ensures FlagIf(n, F_N) | FlagIf(z, F_Z) | FlagIf(v, F_V) | FlagIf(c, F_C | F_X) == Bundle(c, n, z, v, c)
  {
  }

  // ---- sums and differences ---------------------------------------------------------------------------

  lemma SumSigns(x: int, y: int, r: int, n: int)
    requires n > 0 && n % 2 == 0 && 0 <= x < n && 0 <= y < n && r == (x + y) % n
    ensures var s := (if 2 * x < n then x else x - n) + (if 2 * y < n then y else y - n);
            (((2 * x >= n) == (2 * y >= n) && (2 * r >= n) != (2 * x >= n)) <==> !(-n <= 2 * s < n))
  {
    if x + y < n { SmallMod(x + y, n); } else { ModUnique(x + y, n, 1, x + y - n); }
  }

  lemma DifferenceSigns(x: int, y: int, r: int, n: int)
    requires n > 0 && n % 2 == 0 && 0 <= x < n && 0 <= y < n && r == (x - y) % n
    ensures var s := (if 2 * x < n then x else x - n) - (if 2 * y < n then y else y - n);
            (((2 * x >= n) != (2 * y >= n) && (2 * r >= n) != (2 * x >= n)) <==> !(-n <= 2 * s < n))
  {
    if x >= y { SmallMod(x - y, n); } else { ModUnique(x - y, n, -1, x - y + n); }
  }

  lemma ModSum(a: int, b: int, n: int)
    requires n > 0
    ensures (a % n + b % n) % n == (a + b) % n
  {
    var p, q := a / n, b / n;
    DivModLaw(a, n);
    DivModLaw(b, n);
    DivModLaw(a % n + b % n, n);
    var s := (a % n + b % n) / n;
    assert n * (p + q + s) == n * p + n * q + n * s;
    ModUnique(a + b, n, p + q + s, (a % n + b % n) % n);
  }

  lemma ModDifference(a: int, b: int, n: int)
    requires n > 0
    ensures (a % n - b % n) % n == (a - b) % n
  {
    var p, q := a / n, b / n;
    DivModLaw(a, n);
    DivModLaw(b, n);
    DivModLaw(a % n - b % n, n);
    var d := (a % n - b % n) / n;
    assert n * (p - q + d) == n * p - n * q + n * d;
    ModUnique(a - b, n, p - q + d, (a % n - b % n) % n);
  }

  /** The condition codes of a sum: the sign of the result, a zero result, a signed sum that does not fit the
      size, and an unsigned sum that does not. */
  predicate SumCodes(a: int, b: int, size: Size, asked: Flags, was: Flags, now: Flags) {
    var carry := Unsigned(a, size) + Unsigned(b, size) >= Radix(size);
    Codes(asked, was, now, carry, Signed(a + b, size) < 0, Unsigned(a + b, size) == 0,
          !Fits(Signed(a, size) + Signed(b, size), size), carry)
  }

  /** The condition codes of a difference; carry and extend are a borrow. */
  predicate DifferenceCodes(a: int, b: int, size: Size, asked: Flags, was: Flags, now: Flags) {
    var borrow := Unsigned(a, size) < Unsigned(b, size);
    Codes(asked, was, now, borrow, Signed(a - b, size) < 0, Unsigned(a - b, size) == 0,
          !Fits(Signed(a, size) - Signed(b, size), size), borrow)
  }

  /** An operand of `add`, `sub` and `cmp`: a register, or the immediate of `addq` and `subq`. */
  function Operand(op: Op, regs: Regs): int
    requires op.AluBinReg? || op.AluImm?
  {
    if op.AluBinReg? then regs[op.src] else op.imm
  }

  predicate IsAdd(op: Op) { (op.AluBinReg? && op.op == Add) || (op.AluImm? && !op.subtract) }
  predicate IsSub(op: Op) { (op.AluBinReg? && op.op == Sub) || (op.AluImm? && op.subtract) }
  predicate IsCmp(op: Op) { op.AluBinReg? && op.op == Cmp }

  /** How an ALU op uses its result and its flags. */
  predicate Applied(m: Machine, n: Machine, dst: Reg, size: Size, asked: Flags, s: Sum, writes: bool) {
    && n.arch == (if writes then m.arch.(regs := SetSized(m.arch.regs, dst, s.result, size)) else m.arch)
    && n.flags == (m.flags & !asked) | (s.flags & asked)
  }

  lemma AddApplied(i: Instr, m: Machine)
    requires IsAdd(i.op)
    ensures Applied(m, Step(M68K, i, m), i.op.dst, i.op.size, i.op.flags,
                    AddFlags(m.arch.regs[i.op.dst], Wrap32(Operand(i.op, m.arch.regs)), i.op.size), true)
  {
    if i.op.AluBinReg? { SmallMod(m.arch.regs[i.op.src], U32_RANGE); }
  }

  lemma SubApplied(i: Instr, m: Machine)
    requires IsSub(i.op) || IsCmp(i.op)
    ensures Applied(m, Step(M68K, i, m), i.op.dst, i.op.size, i.op.flags,
                    SubFlags(m.arch.regs[i.op.dst], Wrap32(Operand(i.op, m.arch.regs)), i.op.size), !IsCmp(i.op))
  {
    if i.op.AluBinReg? { SmallMod(m.arch.regs[i.op.src], U32_RANGE); }
  }

  /** The sum and the difference of two operands of a size, with their condition codes. */
  function SumOf(a: int, b: int, size: Size): Sum {
    var carry := Unsigned(a, size) + Unsigned(b, size) >= Radix(size);
    Sum(Unsigned(a + b, size), Bundle(carry, Signed(a + b, size) < 0, Unsigned(a + b, size) == 0,
                                      !Fits(Signed(a, size) + Signed(b, size), size), carry))
  }

  function DifferenceOf(a: int, b: int, size: Size): Sum {
    var borrow := Unsigned(a, size) < Unsigned(b, size);
    Sum(Unsigned(a - b, size), Bundle(borrow, Signed(a - b, size) < 0, Unsigned(a - b, size) == 0,
                                      !Fits(Signed(a, size) - Signed(b, size), size), borrow))
  }

  /** Comparing the sign bits of operands and result finds a signed overflow. */
  lemma SumOverflow(a: int, b: int, size: Size)
    ensures (Signed(a, size) < 0) == (Signed(b, size) < 0) && (Signed(a + b, size) < 0) != (Signed(a, size) < 0) <==>
            !Fits(Signed(a, size) + Signed(b, size), size)
  {
    ModSum(a, b, Radix(size));
    SumSigns(Unsigned(a, size), Unsigned(b, size), Unsigned(a + b, size), Radix(size));
  }

  lemma DifferenceOverflow(a: int, b: int, size: Size)
    ensures (Signed(a, size) < 0) != (Signed(b, size) < 0) && (Signed(a - b, size) < 0) != (Signed(a, size) < 0) <==>
            !Fits(Signed(a, size) - Signed(b, size), size)
  {
    ModDifference(a, b, Radix(size));
    DifferenceSigns(Unsigned(a, size), Unsigned(b, size), Unsigned(a - b, size), Radix(size));
  }

  lemma AddMeans(a: u32, b: u32, size: Size)
    ensures AddFlags(a, b, size) == SumOf(a, b, size)
  {
    Sizes(size);
    ModSum(a, b, Radix(size));
    SumOverflow(a, b, size);
    SignTest(a, size);
    SignTest(b, size);
    SignTest(a + b, size);
    BothCarries(Signed(a + b, size) < 0, Unsigned(a + b, size) == 0,
                !Fits(Signed(a, size) + Signed(b, size), size), Unsigned(a, size) + Unsigned(b, size) >= Radix(size));
  }

  lemma SubMeans(a: u32, b: u32, size: Size)
    ensures SubFlags(a, b, size) == DifferenceOf(a, b, size)
  {
    Sizes(size);
    ModDifference(a, b, Radix(size));
    DifferenceOverflow(a, b, size);
    SignTest(a, size);
    SignTest(b, size);
    SignTest(a - b, size);
    BothCarries(Signed(a - b, size) < 0, Unsigned(a - b, size) == 0,
                !Fits(Signed(a, size) - Signed(b, size), size), Unsigned(a, size) < Unsigned(b, size));
  }

  lemma Residues(a: int, b: int, c: int, size: Size)
    requires Unsigned(b, size) == Unsigned(c, size)
    ensures Unsigned(a + b, size) == Unsigned(a + c, size) && Unsigned(a - b, size) == Unsigned(a - c, size)
  {
    var n := Radix(size);
    ModSum(a, b, n);
    ModSum(a, c, n);
    ModDifference(a, b, n);
    ModDifference(a, c, n);
  }

  lemma SignedResidue(x: int, y: int, size: Size)
    requires Unsigned(x, size) == Unsigned(y, size)
    ensures Signed(x, size) == Signed(y, size)
  {
  }

  /** Operands that agree modulo the operand size have the same sums and differences. */
  lemma SameOperand(a: int, b: int, c: int, size: Size)
    requires Unsigned(b, size) == Unsigned(c, size)
    ensures SumOf(a, b, size) == SumOf(a, c, size) && DifferenceOf(a, b, size) == DifferenceOf(a, c, size)
  {
    Residues(a, b, c, size);
    SignedResidue(b, c, size);
    SignedResidue(a + b, a + c, size);
    SignedResidue(a - b, a - c, size);
  }

  lemma OpMeans(a: u32, b: int, size: Size)
    ensures AddFlags(a, Wrap32(b), size) == SumOf(a, b, size)
    ensures SubFlags(a, Wrap32(b), size) == DifferenceOf(a, b, size)
  {
    AddMeans(a, Wrap32(b), size);
    SubMeans(a, Wrap32(b), size);
    ModOfMod(b, U32_RANGE, Radix(size));
    SameOperand(a, Wrap32(b), b, size);
  }

  lemma AddWritten(m: Machine, n: Machine, dst: Reg, size: Size, asked: Flags, a: int, b: int)
    requires Applied(m, n, dst, size, asked, SumOf(a, b, size), true)
    ensures Put(m.arch, n.arch, dst, a + b, size)
    ensures SumCodes(a, b, size, asked, m.flags, n.flags)
  {
    var carry := Unsigned(a, size) + Unsigned(b, size) >= Radix(size);
    SetSizedPuts(m.arch, dst, Unsigned(a + b, size), size);
    SmallMod(Unsigned(a + b, size), Radix(size));
    PutSame(m.arch, n.arch, dst, Unsigned(a + b, size), a + b, size);
    Collected(carry, Signed(a + b, size) < 0, Unsigned(a + b, size) == 0,
              !Fits(Signed(a, size) + Signed(b, size), size), carry, asked, m.flags);
  }

  /** `add` and `addq`: the sum modulo the operand size, and its condition codes. */
  lemma AddIsSum(i: Instr, m: Machine)
    requires IsAdd(i.op)
    ensures var a, b, n := m.arch.regs[i.op.dst], Operand(i.op, m.arch.regs), Step(M68K, i, m);
            && Put(m.arch, n.arch, i.op.dst, AsInt(a + b), i.op.size)
            && SumCodes(a, b, i.op.size, i.op.flags, m.flags, n.flags)
  {
    var a, b, size := m.arch.regs[i.op.dst], Operand(i.op, m.arch.regs), i.op.size;
    AddApplied(i, m);
    OpMeans(a, b, size);
    AddWritten(m, Step(M68K, i, m), i.op.dst, size, i.op.flags, a, b);
  }

  lemma DifferencePut(m: Machine, n: Machine, dst: Reg, size: Size, asked: Flags, a: int, b: int)
    requires Applied(m, n, dst, size, asked, DifferenceOf(a, b, size), true)
    ensures Put(m.arch, n.arch, dst, a - b, size)
  {
    SetSizedPuts(m.arch, dst, Unsigned(a - b, size), size);
    SmallMod(Unsigned(a - b, size), Radix(size));
    PutSame(m.arch, n.arch, dst, Unsigned(a - b, size), a - b, size);
  }

  lemma SubWritten(m: Machine, n: Machine, dst: Reg, size: Size, asked: Flags, a: int, b: int, writes: bool)
    requires Applied(m, n, dst, size, asked, DifferenceOf(a, b, size), writes)
    ensures writes ==> Put(m.arch, n.arch, dst, a - b, size)
    ensures DifferenceCodes(a, b, size, asked, m.flags, n.flags)
  {
    var borrow := Unsigned(a, size) < Unsigned(b, size);
    if writes { DifferencePut(m, n, dst, size, asked, a, b); }
    Collected(borrow, Signed(a - b, size) < 0, Unsigned(a - b, size) == 0,
              !Fits(Signed(a, size) - Signed(b, size), size), borrow, asked, m.flags);
  }

  /** `sub`, `subq` and `cmp`: the difference modulo the operand size, which `cmp` does not write. */
  lemma SubIsDifference(i: Instr, m: Machine)
    requires IsSub(i.op) || IsCmp(i.op)
    ensures var a, b, n := m.arch.regs[i.op.dst], Operand(i.op, m.arch.regs), Step(M68K, i, m);
            && (if IsCmp(i.op) then n.arch == m.arch else Put(m.arch, n.arch, i.op.dst, AsInt(a - b), i.op.size))
            && DifferenceCodes(a, b, i.op.size, i.op.flags, m.flags, n.flags)
  {
    var a, b, size := m.arch.regs[i.op.dst], Operand(i.op, m.arch.regs), i.op.size;
    SubApplied(i, m);
    OpMeans(a, b, size);
    SubWritten(m, Step(M68K, i, m), i.op.dst, size, i.op.flags, a, b, !IsCmp(i.op));
  }

  lemma NegApplied(i: Instr, m: Machine)
    requires i.op.AluUnary? && i.op.un == Neg
    ensures Applied(m, Step(M68K, i, m), i.op.dst, i.op.size, i.op.flags,
                    SubFlags(0, m.arch.regs[i.op.dst], i.op.size), true)
  {
  }

  /** `neg`: the operand subtracted from zero. */
  lemma NegIsNegation(i: Instr, m: Machine)
    requires i.op.AluUnary? && i.op.un == Neg
    ensures var a, n := AsInt(m.arch.regs[i.op.dst]), Step(M68K, i, m);
            && Put(m.arch, n.arch, i.op.dst, -a, i.op.size)
            && DifferenceCodes(0, a, i.op.size, i.op.flags, m.flags, n.flags)
  {
    var a := m.arch.regs[i.op.dst];
    NegApplied(i, m);
    SubMeans(0, a, i.op.size);
    SubWritten(m, Step(M68K, i, m), i.op.dst, i.op.size, i.op.flags, 0, a, true);
  }

  // ---- bitwise ops -------------------------------------------------------------------------------------

  predicate LogicCodes(r: int, size: Size, asked: Flags, was: Flags, now: Flags) {
    Codes(asked, was, now, false, Signed(r, size) < 0, Unsigned(r, size) == 0, false, false)
  }

  lemma LogicMeans(r: u32, size: Size)
    ensures LogicFlags(r, size) == Bundle(false, Signed(r, size) < 0, Unsigned(r, size) == 0, false, false)
  {
    Sizes(size);
    SignTest(r, size);
  }

  lemma LogicWritten(m: Machine, n: Machine, asked: Flags, r: u32, size: Size)
    requires n.flags == (m.flags & !asked) | (LogicFlags(r, size) & asked)
    ensures LogicCodes(r, size, asked, m.flags, n.flags)
  {
    LogicMeans(r, size);
    Collected(false, Signed(r, size) < 0, Unsigned(r, size) == 0, false, false, asked, m.flags);
  }

  lemma Halves(x: nat, q: nat, b: nat)
    requires b < 2 && x == 2 * q + b
    ensures x / 2 == q && x % 2 == b
  {
  }

  lemma {:induction false} LowBitAlone(x: nat, w: nat, k: nat)
    requires k < w
    ensures Bit(x % Pow2(w), k) == Bit(x, k)
    decreases w
  {
    var h := Pow2(w - 1);
    HalvedMod(x, h);
    Halves(x % Pow2(w), x / 2 % h, x % 2);
    if k > 0 { LowBitAlone(x / 2, w - 1, k - 1); }
  }

  /** Numbers that agree modulo 2^w agree on their low bits. */
  lemma LowBitsOf(x: nat, y: nat, w: nat, k: nat)
    requires x % Pow2(w) == y % Pow2(w) && k < w
    ensures Bit(x, k) == Bit(y, k)
  {
    LowBitAlone(x, w, k);
    LowBitAlone(y, w, k);
  }

  /** The bits an op of a size writes: the low ones of a data register, all of an address register. */
  function Written(dst: Reg, size: Size): nat { if dst < 8 then Width(size) else 32 }

  lemma SetSizedBits(a: Arch, b: Arch, dst: Reg, v: u32, size: Size, k: nat)
    requires b == a.(regs := SetSized(a.regs, dst, v, size)) && k < Written(dst, size)
    ensures Bit(b.regs[dst], k) == Bit(v, k)
    ensures dst < 8 ==> b.regs[dst] / Radix(size) == a.regs[dst] / Radix(size)
  {
    Sizes(size);
    if dst < 8 {
      SetSizedPuts(a, dst, v, size);
      LowBitsOf(b.regs[dst], v, Width(size), k);
    }
  }

  /** Only `dst` changes, and of a data register only the bits of the op's size. */
  predicate Confined(a: Arch, b: Arch, dst: Reg, size: Size) {
    && b.mem == a.mem && (forall r: Reg :: r != dst ==> b.regs[r] == a.regs[r])
    && (dst < 8 ==> b.regs[dst] / Radix(size) == a.regs[dst] / Radix(size))
  }

  predicate Bitwise(op: Op) { op.AluBinReg? && (op.op == AndB || op.op == OrB || op.op == Eor) }

  function BitResult(op: AluBin, x: bool, y: bool): bool {
    match op case AndB => x && y case OrB => x || y case _ => x != y
  }

  lemma BitwiseBit(op: AluBin, a: u32, b: u32, size: Size, k: nat)
    requires op == AndB || op == OrB || op == Eor
    ensures var s := BinResult(op, a, b, size);
            Bit(s.result, k) == BitResult(op, Bit(a, k), Bit(b, k)) && s.flags == LogicFlags(s.result, size)
  {
    AndBit(a, b, k);
    OrBit(a, b, k);
    XorBit(a, b, k);
  }

  lemma BitwiseApplied(i: Instr, m: Machine)
    requires Bitwise(i.op)
    ensures Applied(m, Step(M68K, i, m), i.op.dst, i.op.size, i.op.flags,
                    BinResult(i.op.op, m.arch.regs[i.op.dst], m.arch.regs[i.op.src], i.op.size), true)
  {
  }

  lemma BitwiseWritten(i: Instr, m: Machine, n: Machine, r: u32, k: nat)
    requires Bitwise(i.op) && k < Written(i.op.dst, i.op.size)
    requires Applied(m, n, i.op.dst, i.op.size, i.op.flags, Sum(r, LogicFlags(r, i.op.size)), true)
    ensures Confined(m.arch, n.arch, i.op.dst, i.op.size) && Bit(n.arch.regs[i.op.dst], k) == Bit(r, k)
    ensures LogicCodes(n.arch.regs[i.op.dst], i.op.size, i.op.flags, m.flags, n.flags)
  {
    SetSizedBits(m.arch, n.arch, i.op.dst, r, i.op.size, k);
    LogicWritten(m, n, i.op.flags, r, i.op.size);
    SetSizedLow(m.arch, n.arch, i.op.dst, r, i.op.size);
    SignedResidue(n.arch.regs[i.op.dst], r, i.op.size);
  }

  /** `and`, `or` and `eor` work bit by bit; V, C and X are cleared. */
  lemma LogicIsBitwise(i: Instr, m: Machine, k: nat)
    requires Bitwise(i.op) && k < Written(i.op.dst, i.op.size)
    ensures var a, b, n := m.arch.regs[i.op.dst], m.arch.regs[i.op.src], Step(M68K, i, m);
            && Confined(m.arch, n.arch, i.op.dst, i.op.size)
            && Bit(n.arch.regs[i.op.dst], k) == BitResult(i.op.op, Bit(a, k), Bit(b, k))
            && LogicCodes(n.arch.regs[i.op.dst], i.op.size, i.op.flags, m.flags, n.flags)
  {
    var a, b := m.arch.regs[i.op.dst], m.arch.regs[i.op.src];
    BitwiseBit(i.op.op, a, b, i.op.size, k);
    BitwiseApplied(i, m);
    BitwiseWritten(i, m, Step(M68K, i, m), BinResult(i.op.op, a, b, i.op.size).result, k);
  }

  lemma SetSizedLow(a: Arch, b: Arch, dst: Reg, v: u32, size: Size)
    requires b == a.(regs := SetSized(a.regs, dst, v, size))
    ensures Unsigned(b.regs[dst], size) == Unsigned(v, size)
  {
    if dst < 8 { SetSizedPuts(a, dst, v, size); }
  }

  lemma {:induction false} InvertedBit(a: nat, w: nat, x: nat, k: nat)
    requires k < w && x == Pow2(w) - 1 - a % Pow2(w)
    ensures Bit(x, k) == !Bit(a, k)
    decreases w
  {
    var h := Pow2(w - 1);
    HalvedMod(a, h);
    var y: nat := h - 1 - a / 2 % h;
    Halves(x, y, 1 - a % 2);
    if k > 0 { InvertedBit(a / 2, w - 1, y, k - 1); }
  }

  lemma NotApplied(i: Instr, m: Machine)
    requires i.op.AluUnary? && i.op.un == NotU
    ensures var r, size := Radix(i.op.size) - 1 - Unsigned(m.arch.regs[i.op.dst], i.op.size), i.op.size;
            Applied(m, Step(M68K, i, m), i.op.dst, size, i.op.flags, Sum(r, LogicFlags(r, size)), true)
  {
    Sizes(i.op.size);
  }

  lemma Inverted(a: int, r: int, size: Size)
    requires r == Radix(size) - 1 - Unsigned(a, size)
    ensures Unsigned(-1 - a, size) == r && Unsigned(r, size) == r && Signed(-1 - a, size) == Signed(r, size)
  {
    DivModLaw(a, Radix(size));
    ModUnique(-1 - a, Radix(size), -1 - a / Radix(size), r);
    SmallMod(r, Radix(size));
  }

  /** `not`: minus one less the operand, that is, every bit of the size inverted. */
  lemma NotInverts(i: Instr, m: Machine, k: nat)
    requires i.op.AluUnary? && i.op.un == NotU && k < Width(i.op.size)
    ensures var a, n := AsInt(m.arch.regs[i.op.dst]), Step(M68K, i, m);
            && Put(m.arch, n.arch, i.op.dst, -1 - a, i.op.size)
            && LogicCodes(-1 - a, i.op.size, i.op.flags, m.flags, n.flags)
            && Bit(n.arch.regs[i.op.dst], k) == !Bit(m.arch.regs[i.op.dst], k)
  {
    NotApplied(i, m);
    NotWritten(m, Step(M68K, i, m), i.op.dst, i.op.size, i.op.flags, m.arch.regs[i.op.dst],
               Radix(i.op.size) - 1 - Unsigned(m.arch.regs[i.op.dst], i.op.size), k);
  }

  lemma NotWritten(m: Machine, n: Machine, dst: Reg, size: Size, asked: Flags, a: u32, r: u32, k: nat)
    requires k < Width(size) && r == Radix(size) - 1 - Unsigned(a, size)
    requires Applied(m, n, dst, size, asked, Sum(r, LogicFlags(r, size)), true)
    ensures Put(m.arch, n.arch, dst, -1 - AsInt(a), size) && LogicCodes(-1 - AsInt(a), size, asked, m.flags, n.flags)
    ensures Bit(n.arch.regs[dst], k) == !Bit(a, k)
  {
    Inverted(a, r, size);
    SetSizedPuts(m.arch, dst, r, size);
    PutSame(m.arch, n.arch, dst, r, -1 - AsInt(a), size);
    LogicWritten(m, n, asked, r, size);
    BitsInverted(n.arch.regs[dst], a, r, size, k);
  }

  lemma BitsInverted(x: u32, a: u32, r: u32, size: Size, k: nat)
    requires k < Width(size) && r == Radix(size) - 1 - Unsigned(a, size) && Unsigned(x, size) == Unsigned(r, size)
    ensures Bit(x, k) == !Bit(a, k)
  {
    Sizes(size);
    LowBitsOf(x, r, Width(size), k);
    InvertedBit(a, Width(size), r, k);
  }

  /** `tst` writes no register; its condition codes are those of the operand. */
  lemma TstReports(i: Instr, m: Machine)
    requires i.op.AluUnary? && i.op.un == Tst
    ensures var n := Step(M68K, i, m);
            n.arch == m.arch && LogicCodes(m.arch.regs[i.op.dst], i.op.size, i.op.flags, m.flags, n.flags)
  {
    LogicWritten(m, Step(M68K, i, m), i.op.flags, m.arch.regs[i.op.dst], i.op.size);
  }

  /** `ext.l`: the long has the signed value of its low word. */
  lemma ExtKeepsValue(i: Instr, m: Machine)
    requires i.op.AluUnary? && i.op.un == ExtL
    ensures var a, n := m.arch.regs[i.op.dst], Step(M68K, i, m);
            && Put(m.arch, n.arch, i.op.dst, Signed(a, W), L) && Signed(n.arch.regs[i.op.dst], L) == Signed(a, W)
            && LogicCodes(Signed(a, W), L, i.op.flags, m.flags, n.flags)
  {
    var a, n := m.arch.regs[i.op.dst], Step(M68K, i, m);
    var r := n.arch.regs[i.op.dst];
    assert r == Wrap32(Signed16(a)) && Signed16(a) == Signed(a, W);
    SmallMod(r, Radix(L));
    LogicWritten(m, n, i.op.flags, r, L);
    SignedResidue(r, Signed(a, W), L);
    if Signed(a, W) >= 0 { SmallMod(Signed(a, W), Radix(L)); }
    else { ModUnique(Signed(a, W), Radix(L), -1, Signed(a, W) + Radix(L)); }
  }

  // ---- shifts ----------------------------------------------------------------------------------------------
}
