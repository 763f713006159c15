/**
 What moves, calls and branches do (crates/m68k-vp/src/interp.rs `resolve_ea`, `read_sized`, `write_sized` and the
 corresponding arms of `execute_block`; crates/m68k-vp/src/mem.rs).

 Memory is spoken of byte by byte: operands lie big-endian from their address on, modulo the buffer length. Two
 results span whole runs: a call returns behind itself, and a counted loop ends when its counter is zero.
 */
module VpOps {
  import opened Bits
  import opened Wrappers
  import opened VpIr
  import opened VpPasses
  import opened VpDecoder
  import opened VpStepping
  import opened VpBitfield
  import opened VpAlu
  import opened VpScale

  // ---- operands in memory ------------------------------------------------------------------------

  function At(m: Mem, x: int): u8 { m[x % |m|] }

  function Length(size: Size): int { match size case B => 1 case W => 2 case L => 4 }

  /** The operand at address `x`, most significant byte first. */
  function Big(m: Mem, x: int, size: Size): int {
    match size
    case B => At(m, x)
    case W => 256 * At(m, x) + At(m, x + 1)
    case L => 16777216 * At(m, x) + 65536 * At(m, x + 1) + 256 * At(m, x + 2) + At(m, x + 3)
  }

  /** Byte `k` of a value of this size, most significant first. */
  function Byte(v: int, size: Size, k: int): int {
    match size
    case B => v % 256
    case W => if k == 0 then v / 256 % 256 else v % 256
    case L => if k == 0 then v / 16777216 % 256 else if k == 1 then v / 65536 % 256
              else if k == 2 then v / 256 % 256 else v % 256
  }

  /** Whether cell `y` is one of the `len` cells from address `x` on. */
  predicate Hit(n: nat, x: int, len: int, y: int)
    requires n > 0
  {
    y == x % n || (len > 1 && y == (x + 1) % n) || (len > 2 && (y == (x + 2) % n || y == (x + 3) % n))
  }

  /** The bytes of `v` stand from address `x` on (in a buffer shorter than the operand the later ones win), and no
      other byte has changed. */
  predicate Stored(m: Mem, m': Mem, x: int, v: int, size: Size) {
    && |m'| == |m|
    && (forall k :: 0 <= k < Length(size) && k >= Length(size) - |m| ==> At(m', x + k) == Byte(v, size, k))
    && (forall y :: 0 <= y < |m| && !Hit(|m|, x, Length(size), y) ==> m'[y] == m[y])
  }

  lemma ReadByte(m: Mem, x: int)
    ensures ReadU8(m, x) == At(m, x)
  {
    IdxIsMod(x, |m|);
  }

  lemma ReadsBig(m: Mem, x: int, size: Size)
    ensures ReadU32(m, x) == Big(m, x, L)
    ensures 0 <= x < U32_RANGE ==> ReadSized(m, x, size) == Big(m, x, size)
  {
    ReadByte(m, x);
    ReadByte(m, x + 1);
    ReadByte(m, x + 2);
    ReadByte(m, x + 3);
  }

  /** One byte stored. */
  predicate StoredByte(m: Mem, m': Mem, x: int, v: u8) {
    |m'| == |m| && m' == m[x % |m| := v]
  }

  lemma WritesByte(m: Mem, x: int, v: u8)
    ensures StoredByte(m, WriteU8(m, x, v), x, v)
  {
    IdxIsMod(x, |m|);
  }

  lemma Apart(m: Mem, x: int, j: int, k: int)
    requires 0 <= j < k < j + |m|
    ensures (x + j) % |m| != (x + k) % |m|
  {
    DistinctResidues(|m|, x + j, 0, k - j);
  }

  lemma WritesWord(m: Mem, x: int, v: u16)
    ensures Stored(m, WriteU16(m, x, v), x, v, W)
  {
    var m1 := WriteU8(m, x, v / 256);
    var m2 := WriteU8(m1, x + 1, v % 256);
    WritesByte(m, x, v / 256);
    WritesByte(m1, x + 1, v % 256);
    if |m| >= 2 { Apart(m, x, 0, 1); }
    SmallMod(v / 256, 256);
  }

  lemma Sized4(m: Mem)
    ensures |m| == 1 || |m| == 2 || |m| >= 4
  {
    assert IsPowerOfTwo(|m|);
  }

  /** A digit of a number, taken before or after the higher digits are dropped. */
  lemma LowDigit(v: int, a: int, b: int)
    requires a > 0 && b > 0
    ensures a * b > 0 && v % (a * b) / a == v / a % b && v % (a * b) % a == v % a
  {
    var n := a * b;
    var q, r := v / n, v % n;
    DivModLaw(v, n);
    DivModLaw(r, a);
    assert n * q == a * (b * q);
    assert a * (b * q + r / a) == a * (b * q) + a * (r / a);
    ModUnique(v, a, b * q + r / a, r % a);
    QuotientBounds(r, a, b);
    ModUnique(v / a, b, q, r / a);
  }

  lemma QuotientBounds(r: int, a: int, b: int)
    requires a > 0 && b > 0 && 0 <= r < a * b
    ensures 0 <= r / a < b
  {
    DivModLaw(r, a);
    if r / a >= b { MulMono(a, b, r / a); }
  }

  lemma LongBytes(v: u32)
    ensures v / U16_RANGE / 256 == v / 16777216 && v / U16_RANGE % 256 == v / 65536 % 256
    ensures v % U16_RANGE / 256 == v / 256 % 256 && v % U16_RANGE % 256 == v % 256
  {
    LowDigit(v, 256, 256);
    DivDiv(v, 65536, 256);
  }

  lemma FourWrites(m: Mem, m': Mem, x: int, a: u8, b: u8, c: u8, d: u8)
    requires m' == WriteU8(WriteU8(WriteU8(WriteU8(m, x, a), x + 1, b), x + 2, c), x + 3, d)
    ensures |m'| == |m| && At(m', x + 3) == d && (|m| >= 2 ==> At(m', x + 2) == c)
    ensures |m| >= 4 ==> At(m', x) == a && At(m', x + 1) == b
    ensures forall y :: 0 <= y < |m| && !Hit(|m|, x, 4, y) ==> m'[y] == m[y]
  {
    var m1 := WriteU8(m, x, a);
    var m2 := WriteU8(m1, x + 1, b);
    var m3 := WriteU8(m2, x + 2, c);
    WritesByte(m, x, a);
    WritesByte(m1, x + 1, b);
    WritesByte(m2, x + 2, c);
    WritesByte(m3, x + 3, d);
    if |m| >= 2 { Apart(m, x, 2, 3); }
    if |m| >= 4 {
      Apart(m, x, 0, 1);
      Apart(m, x, 0, 2);
      Apart(m, x, 0, 3);
      Apart(m, x, 1, 2);
      Apart(m, x, 1, 3);
    }
  }

  lemma WritesLong(m: Mem, x: int, v: u32)
    ensures Stored(m, WriteU32(m, x, v), x, v, L)
  {
    LongBytes(v);
    FourWrites(m, WriteU32(m, x, v), x, v / U16_RANGE / 256, v / U16_RANGE % 256,
               v % U16_RANGE / 256, v % U16_RANGE % 256);
    Sized4(m);
    SmallMod(v / 16777216, 256);
  }

  lemma TruncatedByte(v: u32, size: Size, k: int)
    ensures Byte(Unsigned(v, size), size, k) == Byte(v, size, k)
  {
    match size
    case B => SmallMod(v % 256, 256);
    case W => LowDigit(v, 256, 256); SmallMod(v / 256 % 256, 256);
    case L => SmallMod(v, U32_RANGE);
  }

  lemma Truncated(m: Mem, m': Mem, x: int, v: u32, size: Size)
    requires Stored(m, m', x, Unsigned(v, size), size)
    ensures Stored(m, m', x, v, size)
  {
    forall k | 0 <= k < Length(size)
      ensures Byte(Unsigned(v, size), size, k) == Byte(v, size, k)
    {
      TruncatedByte(v, size, k);
    }
  }

  lemma WritesSized(m: Mem, x: u32, v: u32, size: Size)
    ensures Stored(m, WriteSized(m, x, v, size), x, v, size)
  {
    match size
    case B => WritesByte(m, x, v % 0x100);
    case W => WritesWord(m, x, v % U16_RANGE); Truncated(m, WriteSized(m, x, v, size), x, v, size);
    case L => WritesLong(m, x, v);
  }

  lemma BytesMake(v: u32, size: Size)
    ensures Unsigned(v, size) ==
            match size
            case B => Byte(v, B, 0)
            case W => 256 * Byte(v, W, 0) + Byte(v, W, 1)
            case L => 16777216 * Byte(v, L, 0) + 65536 * Byte(v, L, 1) + 256 * Byte(v, L, 2) + Byte(v, L, 3)
  {
    LongBytes(v);
  }

  /** What was stored is read back, in a buffer at least as long as the operand. */
  lemma StoredIsRead(m: Mem, m': Mem, x: int, v: u32, size: Size)
    requires Stored(m, m', x, v, size) && |m| >= Length(size)
    ensures Big(m', x, size) == Unsigned(v, size)
  {
    BytesMake(v, size);
    forall k | 0 <= k < Length(size)
      ensures At(m', x + k) == Byte(v, size, k)
    {
    }
    assert At(m', x + 0) == Byte(v, size, 0);
  }

  // ---- addressing modes ------------------------------------------------------------------------------

  /** An address or register moved by `d`, modulo 2^32. */
  function Moved(x: int, d: int): u32 { (x + d) % 4294967296 }

  /** The address a mode means and the registers it leaves. */
  predicate Resolves(regs: Regs, ea: Ea, size: Size, addr: u32, after: Regs) {
    match ea
    case Ind(r) => addr == regs[r] && after == regs
    case PostInc(r) => addr == regs[r] && after == regs[r := Moved(regs[r], Length(size))]
    case PreDec(r) => addr == Moved(regs[r], -Length(size)) && after == regs[r := addr]
    case Disp(r, d) => addr == Moved(regs[r], d) && after == regs
  }

  lemma EaResolves(regs: Regs, ea: Ea, size: Size)
    ensures Resolves(regs, ea, size, EaAddr(regs, ea, size), EaRegs(regs, ea, size))
  {
  }

  /** A load into a register: the operand at the address, the address register stepped first. */
  lemma LoadReads(i: Instr, m: Machine, addr: u32, mid: Regs)
    requires i.op.LoadReg? && Resolves(m.arch.regs, i.op.ea, i.op.size, addr, mid)
    ensures var n := Step(M68K, i, m);
            && n.flags == m.flags
            && Put(Arch(mid, m.arch.mem), n.arch, i.op.dst, Big(m.arch.mem, addr, i.op.size), i.op.size)
  {
    EaResolves(m.arch.regs, i.op.ea, i.op.size);
    ReadsBig(m.arch.mem, addr, i.op.size);
    SetSizedPuts(Arch(mid, m.arch.mem), i.op.dst, ReadSized(m.arch.mem, addr, i.op.size), i.op.size);
  }

  /** The value a store is given, and the registers once it is fetched. */
  predicate Fetches(a: Arch, from: Source, size: Size, v: int, mid: Regs) {
    match from
    case FromEa(ea) => exists x: u32 :: Resolves(a.regs, ea, size, x, mid) && v == Big(a.mem, x, size)
    case FromReg(r) => v == a.regs[r] && mid == a.regs
    case Imm(w) => v == w && mid == a.regs
  }

  lemma FetchIs(a: Arch, from: Source, size: Size, v: int, mid: Regs)
    requires Fetches(a, from, size, v, mid)
    ensures match from
            case FromEa(ea) => v == ReadSized(a.mem, EaAddr(a.regs, ea, size), size) && mid == EaRegs(a.regs, ea, size)
            case FromReg(r) => v == a.regs[r] && mid == a.regs
            case Imm(w) => v == w && mid == a.regs
  {
    if from.FromEa? {
      EaResolves(a.regs, from.ea, size);
      ReadsBig(a.mem, EaAddr(a.regs, from.ea, size), size);
    }
  }

  lemma StoreIs(i: Instr, m: Machine, v: int, mid: Regs)
    requires i.op.MoveMem? && Fetches(m.arch, i.op.from, i.op.size, v, mid)
    ensures 0 <= v < U32_RANGE
    ensures Step(M68K, i, m) == Machine(Arch(EaRegs(mid, i.op.to, i.op.size),
              WriteSized(m.arch.mem, EaAddr(mid, i.op.to, i.op.size), v, i.op.size)), m.flags)
  {
    FetchIs(m.arch, i.op.from, i.op.size, v, mid);
  }

  /** A store: the source is fetched, with its address register stepped, before the destination is resolved. */
  lemma StoreWrites(i: Instr, m: Machine, v: int, mid: Regs, addr: u32, after: Regs)
    requires i.op.MoveMem? && Fetches(m.arch, i.op.from, i.op.size, v, mid)
    requires Resolves(mid, i.op.to, i.op.size, addr, after)
    ensures var n := Step(M68K, i, m);
            && n.flags == m.flags && n.arch.regs == after && Stored(m.arch.mem, n.arch.mem, addr, v, i.op.size)
  {
    StoreIs(i, m, v, mid);
    EaResolves(mid, i.op.to, i.op.size);
    WritesSized(m.arch.mem, addr, v, i.op.size);
  }

  /** Registers set as a whole: `lea` to the address of its operand, a register move, `moveq`. */
  lemma RegisterMoves(i: Instr, m: Machine)
    requires i.op.Lea? || i.op.RegMove? || i.op.MoveqImm?
    ensures var n := Step(M68K, i, m);
            && n.arch.mem == m.arch.mem
            && n.arch.regs == m.arch.regs[i.op.dst :=
                 match i.op
                 case Lea(_, ea) => if ea.Disp? then Moved(m.arch.regs[ea.r], ea.d) else m.arch.regs[ea.r]
                 case RegMove(_, src) => m.arch.regs[src]
                 case MoveqImm(_, imm) => Moved(imm, 0)]
            && (if i.op.MoveqImm? then Codes(0x0F, m.flags, n.flags, false, Signed(i.op.imm, L) < 0,
                                             Unsigned(i.op.imm, L) == 0, false, false)
                else n.flags == m.flags)
  {
    if i.op.MoveqImm? {
      var v := Wrap32(i.op.imm);
      LogicMeans(v, L);
      SmallMod(v, U32_RANGE);
      SignedResidue(v, i.op.imm, L);
      MoveqCodes(Signed(i.op.imm, L) < 0, Unsigned(i.op.imm, L) == 0, m.flags);
    }
  }

  lemma MoveqCodes(n: bool, z: bool, was: Flags)
    ensures Codes(0x0F, was, (was & !(F_N | F_Z | F_V | F_C)) | Bundle(false, n, z, false, false),
                  false, n, z, false, false)
  {
  }

  // ---- bit-fields --------------------------------------------------------------------------------------------

  /** Bit `p` of memory as one bit string, most significant bit of each byte first. */
  predicate StringBit(m: Mem, p: int) { Bit(m[(p / 8) % |m|], 7 - p % 8) }

  lemma MemBitIsStringBit(m: Mem, p: int)
    ensures MemBit(m, p) == StringBit(m, p)
  {
    ReadByte(m, p / 8);
  }

  /** `bfextu`: the register is the field, its bits in the order they stand in memory. */
  lemma ExtractReads(i: Instr, m: Machine, k: nat)
    requires i.op.Bitfield? && i.op.bf == ExtU && k < i.op.width <= 32
    ensures var n := Step(M68K, i, m);
            && OnlyRegister(m, n, i.op.reg) && n.arch.regs[i.op.reg] < Pow2(i.op.width)
            && Bit(n.arch.regs[i.op.reg], i.op.width - 1 - k) ==
               StringBit(m.arch.mem, 8 * m.arch.regs[i.op.base] + i.op.offset + k)
  {
    var base, v := m.arch.regs[i.op.base], BfRead(m.arch.mem, m.arch.regs[i.op.base], i.op.offset, i.op.width);
    ExtractRange(m.arch.mem, base, i.op.offset, i.op.width);
    Pow2Mono(i.op.width, 32);
    Pow2Values();
    SmallMod(v, U32_RANGE);
    ReadFieldBits(m.arch.mem, base, i.op.offset, i.op.width, k);
    MemBitIsStringBit(m.arch.mem, 8 * base + i.op.offset + k);
  }

  predicate OnlyRegister(m: Machine, n: Machine, dst: Reg) {
    n.flags == m.flags && n.arch.mem == m.arch.mem && forall r: Reg :: r != dst ==> n.arch.regs[r] == m.arch.regs[r]
  }

  /** Bit `x` of memory, the `d`th from the field's first bit on, after the low bits of `v` were inserted. */
  predicate BitInserted(m: Mem, m': Mem, width: nat, v: u32, d: nat, x: int) {
    |m'| == |m| && StringBit(m', x) == if d < width then Bit(v, width - 1 - d) else StringBit(m, x)
  }

  lemma LowBitsGiven(v: u32, w: nat, width: nat, d: nat)
    requires w == Low(v, width) && d < width
    ensures Bit(w, width - 1 - d) == Bit(v, width - 1 - d)
  {
    LowBit(v, width, width - 1 - d);
  }

  lemma Inserts(m: Mem, m': Mem, base: u32, offset: nat, width: nat, v: u32, w: nat, d: nat, x: int)
    requires |m| >= 8 && offset < 32 && 1 <= width <= 32 && d < 8 * |m| && x == 8 * base + offset + d
    requires w == Low(v, width) && m' == BfWrite(m, base, offset, width, w)
    ensures BitInserted(m, m', width, v, d, x)
  {
    WriteFieldBits(m, base, offset, width, w, d);
    MemBitIsStringBit(m, x);
    MemBitIsStringBit(m', x);
    if d < width { LowBitsGiven(v, w, width, d); }
  }

  /** `bfins`: walking once round memory from the field, its bits become the low bits of the register. */
  lemma InsertWrites(i: Instr, m: Machine, base: Reg, reg: Reg, offset: nat, width: nat, d: nat, x: int)
    requires i.op == Bitfield(Ins, base, reg, offset, width) && 1 <= width <= 32 && offset < 32
    requires |m.arch.mem| >= 8 && d < 8 * |m.arch.mem| && x == 8 * m.arch.regs[base] + offset + d
    ensures var n := Step(M68K, i, m);
            && n.flags == m.flags && n.arch.regs == m.arch.regs
            && BitInserted(m.arch.mem, n.arch.mem, width, m.arch.regs[reg], d, x)
  {
    Inserts(m.arch.mem, Step(M68K, i, m).arch.mem, m.arch.regs[base], offset, width, m.arch.regs[reg],
            Low(m.arch.regs[reg], width), d, x);
  }

  // ---- control transfers -----------------------------------------------------------------------------------------

  /** `bsr`, wherever it stands in a block: the address behind it is pushed. */
  lemma CallPushes(b: Block, k: nat, m: Machine)
    requires k < |b.instrs| && b.instrs[k].op.Bsr?
    ensures var i, x := b.instrs[k], ExecFrom(M68K, b, k, m);
            var sp := Moved(m.arch.regs[15], -4);
            && x.nextPc == i.op.target && x.machine.flags == m.flags
            && x.machine.arch.regs == m.arch.regs[15 := sp]
            && Stored(m.arch.mem, x.machine.arch.mem, sp, Moved(i.pc, i.len), L)
  {
    var i := b.instrs[k];
    WritesLong(m.arch.mem, Moved(m.arch.regs[15], -4), Moved(i.pc, i.len));
  }

  /** `rts`: on at the long on top of the stack, which is popped. */
  lemma ReturnPops(b: Block, k: nat, m: Machine)
    requires k < |b.instrs| && b.instrs[k].op.Rts?
    ensures var x := ExecFrom(M68K, b, k, m);
            && x.nextPc == Big(m.arch.mem, m.arch.regs[15], L) && x.machine.flags == m.flags
            && x.machine.arch == Arch(m.arch.regs[15 := Moved(m.arch.regs[15], 4)], m.arch.mem)
  {
    ReadsBig(m.arch.mem, m.arch.regs[15], L);
  }

  /** `bne` looks at Z and changes nothing. */
  lemma BranchDecides(b: Block, k: nat, m: Machine)
    requires k < |b.instrs| && b.instrs[k].op.Bne?
    ensures var i, x := b.instrs[k], ExecFrom(M68K, b, k, m);
            x.machine == m && x.nextPc == if m.flags & 0x04 == 0 then i.op.target else i.op.fallthrough
  {
  }

  lemma NopChanges(i: Instr, m: Machine)
    requires i.op.Nop?
    ensures Step(M68K, i, m) == m
  {
  }

  // ---- a call comes back -----------------------------------------------------------------------------------------

  /** One instruction that is a single control transfer, as the decoder gives it. */
  predicate DecodesTo(isa: Isa, m: Mem, pc: u32, op: Op, len: nat) {
    op.Terminates() && isa.one(m, pc) == Some(Decoded([Instr(op, pc, len, true)], len, true))
  }

  lemma OneTransfer(isa: Isa, p: Point, op: Op, len: nat)
    requires DecodesTo(isa, p.machine.arch.mem, p.pc, op, len)
    ensures var x := ExecFrom(isa.sem, Block([Instr(op, p.pc, len, true)], p.pc), 0, p.machine);
            Steps(isa, p, 1) == Some(Point(x.machine, x.nextPc))
  {
    var d := Decoded([Instr(op, p.pc, len, true)], len, true);
    assert Steps(isa, p, 1) == Steps(isa, RunOne(isa.sem, d, p), 0);
  }

  /** The machine at the first instruction of the callee. */
  predicate Called(p: Point, target: u32, len: nat, c: Point) {
    var sp := Moved(p.machine.arch.regs[15], -4);
    && c.pc == target && c.machine.flags == p.machine.flags
    && c.machine.arch.regs == p.machine.arch.regs[15 := sp]
    && Stored(p.machine.arch.mem, c.machine.arch.mem, sp, Moved(p.pc, len), L)
  }

  lemma CallEnters(isa: Isa, p: Point, target: u32, len: nat)
    requires isa.sem == M68K && DecodesTo(isa, p.machine.arch.mem, p.pc, Bsr(target), len)
    ensures Steps(isa, p, 1).Some? && Called(p, target, len, Steps(isa, p, 1).value)
  {
    OneTransfer(isa, p, Bsr(target), len);
    CallPushes(Block([Instr(Bsr(target), p.pc, len, true)], p.pc), 0, p.machine);
  }

  /** A `bsr` whose callee, however many instructions it runs, reaches an `rts` with A7 and the stacked long as it
      found them: the program goes on behind the `bsr` with A7 restored, every other register as the callee left
      it, and of the bytes the callee kept only the four on the stack changed. */
  lemma CallReturns(isa: Isa, p: Point, target: u32, len: nat, c: Point, n: nat, q: Point, len': nat, total: nat)
    requires isa.sem == M68K && |p.machine.arch.mem| >= 4 && total == n + 2
    requires DecodesTo(isa, p.machine.arch.mem, p.pc, Bsr(target), len) && Steps(isa, p, 1) == Some(c)
    requires Steps(isa, c, n) == Some(q) && DecodesTo(isa, q.machine.arch.mem, q.pc, Rts, len')
    requires q.machine.arch.regs[15] == c.machine.arch.regs[15]
    requires Big(q.machine.arch.mem, q.machine.arch.regs[15], L) == Big(c.machine.arch.mem, c.machine.arch.regs[15], L)
    ensures var end := Steps(isa, p, total);
            && end.Some? && end.value.pc == Moved(p.pc, len)
            && end.value.machine.arch == Arch(q.machine.arch.regs[15 := p.machine.arch.regs[15]], q.machine.arch.mem)
            && end.value.machine.flags == q.machine.flags
    ensures var m, m', sp := p.machine.arch.mem, q.machine.arch.mem, Moved(p.machine.arch.regs[15], -4);
            forall y :: 0 <= y < |m| == |m'| && !Hit(|m|, sp, 4, y) && m'[y] == c.machine.arch.mem[y] ==> m'[y] == m[y]
  {
    CallEnters(isa, p, target, len);
    var sp := Moved(p.machine.arch.regs[15], -4);
    StoredIsRead(p.machine.arch.mem, c.machine.arch.mem, sp, Moved(p.pc, len), L);
    SmallMod(Moved(p.pc, len), U32_RANGE);
    StepsAdd(isa, p, 1, c, n + 1, total);
    StepsAdd(isa, c, n, q, 1, n + 1);
    OneTransfer(isa, q, Rts, len');
    ReturnPops(Block([Instr(Rts, q.pc, len', true)], q.pc), 0, q.machine);
    BackUp(p.machine.arch.regs[15]);
  }

  lemma BackUp(x: u32)
    ensures Moved(Moved(x, -4), 4) == x
  {
    if x < 4 { ModUnique(x - 4, U32_RANGE, -1, x - 4 + U32_RANGE); ModUnique(x + U32_RANGE, U32_RANGE, 1, x); }
    else { SmallMod(x - 4, U32_RANGE); SmallMod(x, U32_RANGE); }
  }

  // ---- a counted loop ends -------------------------------------------------------------------------------------

  function Countdown(d: Reg, pc: u32): Instr { Instr(AluImm(true, d, 1, L, F_ALL), pc, 2, true) }

  /** `subq.l #1,Dd` at `pc` and `bne` back to it behind it. */
  predicate CountedLoop(isa: Isa, m: Mem, pc: u32, d: Reg, out: u32) {
    && isa.one(m, pc) == Some(Decoded([Countdown(d, pc)], 2, false))
    && DecodesTo(isa, m, Moved(pc, 2), Bne(pc, out), 2)
  }

  /** One turn of the loop. */
  lemma LoopTurn(isa: Isa, p: Point, d: Reg, out: u32, v: u32)
    requires isa.sem == M68K && CountedLoop(isa, p.machine.arch.mem, p.pc, d, out)
    requires v == Moved(p.machine.arch.regs[d], -1)
    ensures Steps(isa, p, 2).Some?
    ensures var q := Steps(isa, p, 2).value;
            && q.pc == (if v == 0 then out else p.pc)
            && q.machine.arch == Arch(p.machine.arch.regs[d := v], p.machine.arch.mem)
  {
    var i := Countdown(d, p.pc);
    var m1 := Step(M68K, i, p.machine);
    var p1 := Point(m1, Moved(p.pc, 2));
    LoopTest(i, p.machine, d, v);
    assert ExecFrom(M68K, Block([i], p.pc), 1, m1).machine == m1;
    assert RunOne(M68K, Decoded([i], 2, false), p) == p1;
    assert Steps(isa, p, 2) == Steps(isa, p1, 1);
    OneTransfer(isa, p1, Bne(p.pc, out), 2);
    BranchDecides(Block([Instr(Bne(p.pc, out), p1.pc, 2, true)], p1.pc), 0, m1);
  }

  lemma LoopTest(i: Instr, m: Machine, d: Reg, v: u32)
    requires i == Countdown(d, i.pc) && v == Moved(m.arch.regs[d], -1)
    ensures var n := Step(M68K, i, m);
            n.arch == Arch(m.arch.regs[d := v], m.arch.mem) && (n.flags & 0x04 != 0 <==> v == 0)
  {
    var n := Step(M68K, i, m);
    SubIsDifference(i, m);
    SmallMod(n.arch.regs[d], U32_RANGE);
    assert n.arch.regs[d] == v;
    assert n.arch.regs == m.arch.regs[d := v];
  }

  /** The number of turns: the counter, or 2^32 for a counter of zero. */
  function Turns(v: u32): nat { if v == 0 then 4294967296 else v }

  /** Out of the loop, the counter zero and nothing else changed. */
  predicate LoopLeft(end: Option<Point>, a: Arch, d: Reg, out: u32) {
    end.Some? && end.value.pc == out && end.value.machine.arch == Arch(a.regs[d := 0], a.mem)
  }

  lemma AfterTurn(isa: Isa, p: Point, d: Reg, out: u32, v: u32) returns (q: Point)
    requires isa.sem == M68K && CountedLoop(isa, p.machine.arch.mem, p.pc, d, out)
    requires v == Moved(p.machine.arch.regs[d], -1)
    ensures Steps(isa, p, 2) == Some(q) && q.machine.arch.regs[d] == v
    ensures if v == 0 then LoopLeft(Some(q), p.machine.arch, d, out)
            else CountedLoop(isa, q.machine.arch.mem, q.pc, d, out)
    ensures forall end :: LoopLeft(end, q.machine.arch, d, out) ==> LoopLeft(end, p.machine.arch, d, out)
  {
    LoopTurn(isa, p, d, out, v);
    q := Steps(isa, p, 2).value;
    assert q.machine.arch.regs[d := 0] == p.machine.arch.regs[d := 0];
  }

  /** The loop leaves at `out` with the counter zero and nothing else changed, after two instructions a turn. */
  lemma {:induction false} CountedLoopEnds(isa: Isa, p: Point, d: Reg, out: u32, n: nat)
    requires isa.sem == M68K && CountedLoop(isa, p.machine.arch.mem, p.pc, d, out)
    requires n == 2 * Turns(p.machine.arch.regs[d])
    ensures LoopLeft(Steps(isa, p, n), p.machine.arch, d, out)
    decreases n
  {
    var v := Moved(p.machine.arch.regs[d], -1);
    var q := AfterTurn(isa, p, d, out, v);
    CountsDown(p.machine.arch.regs[d], v);
    StepsAdd(isa, p, 2, q, n - 2, n);
    if v != 0 {
      CountedLoopEnds(isa, q, d, out, n - 2);
    }
  }

  lemma CountsDown(x: u32, v: u32)
    requires v == Moved(x, -1)
    ensures if v == 0 then Turns(x) == 1 else Turns(v) == Turns(x) - 1
  {
    if x == 0 { ModUnique(-1, U32_RANGE, -1, U32_RANGE - 1); } else { SmallMod(x - 1, U32_RANGE); }
  }

  // ---- compare and branch -----------------------------------------------------------------------------------------

  /** `cmp` followed by `bne` branches exactly when the operands differ within the size, in the decoded block and in
      the rewritten one, whatever the flags were. */
  lemma CompareThenBranch(b: Block, k: nat, m: Machine, f: Flags)
    requires k + 1 < |b.instrs| && AsksForAllFlags(b.instrs)
    requires IsCmp(b.instrs[k].op) && b.instrs[k + 1].op.Bne?
    ensures var op, next := b.instrs[k].op, b.instrs[k + 1].op;
            var differ := Unsigned(m.arch.regs[op.dst], op.size) != Unsigned(m.arch.regs[op.src], op.size);
            var to := if differ then next.target else next.fallthrough;
            && ExecFrom(M68K, b, k, m).nextPc == to
            && ExecFrom(M68K, Optimized(b), k, m.(flags := f)).nextPc == to
  {
    var i := b.instrs[k];
    SubIsDifference(i, m);
    EqualOperands(m.arch.regs[i.op.dst], m.arch.regs[i.op.src], i.op.size);
    BranchDecides(b, k + 1, Step(M68K, i, m));
    M68kIsRespectful();
    OptimizedAgrees(M68K, b, k, m.arch, m.flags, f);
  }

  lemma EqualOperands(a: int, b: int, size: Size)
    ensures Unsigned(a - b, size) == 0 <==> Unsigned(a, size) == Unsigned(b, size)
  {
    var n := Radix(size);
    ModDifference(a, b, n);
    if a % n >= b % n { SmallMod(a % n - b % n, n); } else { ModUnique(a % n - b % n, n, -1, a % n - b % n + n); }
  }
}
