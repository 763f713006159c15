/**
 The software blitter (crates/machine-core/src/blitter.rs): area mode and line mode as step functions
 over the state their loops carry, and the loops themselves proved against those functions.
 */
module Blitter {
  import opened Bits
  import opened BlitterWord

  /** A modulo with bit 0 cleared. */
  function Even(m: i16): int { AsInt(m) - m % 2 }

  function SetPtrLo(ptr: u32, v: u16): u32 { WithLow(ptr, v / 2 * 2) }
  function WithLow(ptr: u32, v: u16): u32 { ptr / U16_RANGE * U16_RANGE + AsInt(v) }

  datatype Regs = Regs(con0: u16, con1: u16, afwm: u16, alwm: u16,
                       apt: u32, bpt: u32, cpt: u32, dpt: u32,
                       amod: i16, bmod: i16, cmod: i16, dmod: i16,
                       adat: u16, bdat: u16, cdat: u16, ddat: u16,
                       width: nat, height: nat, zero: bool)

  /** The word-level operators. The step functions take them as a parameter: what the loops do with
      pointers, latches and carries does not depend on them. */
  datatype Alu = Alu(mask: (u16, u16) -> u16,
                     shift: (u16, u16, nat, bool) -> u16,
                     logic: (u8, u16, u16, u16) -> u16,
                     fill: (u16, bool, bool) -> u16,
                     odd: u16 -> bool,
                     rotate: (u16, nat) -> u16,
                     texture: (u16, nat) -> u16)

  const HARDWARE: Alu := Alu(And16, ShiftCombine, Minterm, Filled, OddWord, RotateRight, Texture)

  predicate OddWord(d: u16) { OddBelow(d, 16) }

  /** `x` rotated right within 16 bits. */
  function RotateRight(x: u16, n: nat): u16 { Trunc16(Shr(Pair(x, x), n)) }

  /** `a >> n` of a word. */
  function Texture(a: u16, n: nat): u16 { Trunc16(Shr(a, n)) }

  /** The parity and fill operators are those of the fill loop. */
  predicate FillsAs(alu: Alu) {
    && (forall d: u16, c, inc :: alu.fill(d, c, inc) == Filled(d, c, inc))
    && (forall d: u16 :: alu.odd(d) == OddWord(d))
  }

  // ---- area mode --------------------------------------------------------------------------------

  /** What stays fixed during an area blit; the modulos carry the sign of the direction. */
  datatype Setup = Setup(useA: bool, useB: bool, useC: bool, useD: bool,
                         ash: nat, bsh: nat, desc: bool, lf: u8,
                         ife: bool, efe: bool, fci: bool,
                         afwm: u16, alwm: u16,
                         amod: int, bmod: int, cmod: int, dmod: int,
                         adat: u16, bdat: u16, width: nat)

  function Directed(desc: bool, m: i16): int { if desc then -Even(m) else Even(m) }

  function AreaSetup(r: Regs): Setup {
    var desc := Bit(r.con1, 1);
    Setup(Bit(r.con0, 11), Bit(r.con0, 10), Bit(r.con0, 9), Bit(r.con0, 8),
          r.con0 / 0x1000, r.con1 / 0x1000, desc, r.con0 % 0x100,
          Bit(r.con1, 3), Bit(r.con1, 4), Bit(r.con1, 2),
          r.afwm, r.alwm,
          Directed(desc, r.amod), Directed(desc, r.bmod), Directed(desc, r.cmod), Directed(desc, r.dmod),
          r.adat, r.bdat, r.width)
  }

  /** Fill runs only in descending mode. */
  predicate Filling(s: Setup) { s.desc && (s.ife || s.efe) }

  /** What an area blit carries from word to word. */
  datatype Flow = Flow(ram: Ram, apt: u32, bpt: u32, cpt: u32, dpt: u32,
                       aPrev: u16, bPrev: u16, cdat: u16, carry: bool, zero: bool, lastD: u16)

  function AreaStart(r: Regs, ram: Ram): Flow {
    Flow(ram, r.apt, r.bpt, r.cpt, r.dpt, 0, 0, r.cdat, Bit(r.con1, 2), r.zero, 0)
  }

  function Bumped(used: bool, ptr: u32, delta: int): u32 { if used then Wrap32(AsInt(ptr) + delta) else ptr }

  function Stride(desc: bool): int { if desc then -2 else 2 }

  /** The first- and last-word masks, both applied to a row of one word. */
  function Masked(alu: Alu, s: Setup, raw: u16, i: nat): u16 {
    var m := if i == 0 then alu.mask(raw, s.afwm) else raw;
    if i + 1 == s.width then alu.mask(m, s.alwm) else m
  }

  function ChannelB(alu: Alu, s: Setup, prev: u16, raw: u16): u16 {
    if s.useB then alu.shift(prev, raw, s.bsh, s.desc) else raw
  }

  function Output(alu: Alu, s: Setup, m: u16, carry: bool): u16 {
    if Filling(s) then alu.fill(m, carry, s.ife) else m
  }

  function CarryOver(alu: Alu, s: Setup, m: u16, carry: bool): bool {
    if Filling(s) then carry != alu.odd(m) else carry
  }

  function Fetch(used: bool, ram: Ram, ptr: u32, latch: u16): u16 {
    if used then Peek(ram, WordAt(ptr)) else latch
  }

  function Stored(used: bool, ram: Ram, ptr: u32, v: u16): Ram {
    if used then Poke(ram, WordAt(ptr), v) else ram
  }

  /** Word `i` of a row. */
  function WordStep(alu: Alu, s: Setup, f: Flow, i: nat): Flow {
    var a := Masked(alu, s, Fetch(s.useA, f.ram, f.apt, s.adat), i);
    var b := Fetch(s.useB, f.ram, f.bpt, s.bdat);
    var c := Fetch(s.useC, f.ram, f.cpt, f.cdat);
    var m := alu.logic(s.lf, alu.shift(f.aPrev, a, s.ash, s.desc), ChannelB(alu, s, f.bPrev, b), c);
    var d := Output(alu, s, m, f.carry);
    var step := Stride(s.desc);
    Flow(Stored(s.useD, f.ram, f.dpt, d),
         Bumped(s.useA, f.apt, step), Bumped(s.useB, f.bpt, step),
         Bumped(s.useC, f.cpt, step), Bumped(s.useD, f.dpt, step),
         a, if s.useB then b else f.bPrev, c,
         CarryOver(alu, s, m, f.carry), f.zero && d == 0, d)
  }

  /** `n` words of a row, from word `i` on. */
  function WordSteps(alu: Alu, s: Setup, f: Flow, i: nat, n: nat): Flow
    decreases n
  {
    if n == 0 then f else WordSteps(alu, s, WordStep(alu, s, f, i), i + 1, n - 1)
  }

  /** The modulos are added and the fill carry restarts; the shifters are not cleared. */
  function RowEnd(s: Setup, f: Flow): Flow {
    f.(apt := Bumped(s.useA, f.apt, s.amod), bpt := Bumped(s.useB, f.bpt, s.bmod),
       cpt := Bumped(s.useC, f.cpt, s.cmod), dpt := Bumped(s.useD, f.dpt, s.dmod), carry := s.fci)
  }

  function Rows(alu: Alu, s: Setup, f: Flow, n: nat): Flow
    decreases n
  {
    if n == 0 then f else Rows(alu, s, RowEnd(s, WordSteps(alu, s, f, 0, s.width)), n - 1)
  }

  function AreaBlit(alu: Alu, r: Regs, ram: Ram): Flow { Rows(alu, AreaSetup(r), AreaStart(r, ram), r.height) }

  function AreaRegs(r: Regs, f: Flow): Regs {
    r.(apt := f.apt, bpt := f.bpt, cpt := f.cpt, dpt := f.dpt, cdat := f.cdat, zero := f.zero, ddat := f.lastD)
  }

  // ---- line mode ----------------------------------------------------------------------------------

  datatype LineSetup = LineSetup(useA: bool, useB: bool, useC: bool, lf: u8, sing: bool,
                                 sud: bool, sul: bool, aul: bool,
                                 bplmod: int, amod: u16, bmod: u16, aWord: u16)

  datatype LineFlow = LineFlow(ram: Ram, bpt: u32, cpt: u32, dpt: u32, ash: nat, acc: u16, sign: bool,
                               oneDot: bool, bdat: u16, bsh: nat, cdat: u16, zero: bool, lastD: u16)

  function LineSetupOf(alu: Alu, r: Regs): LineSetup {
    LineSetup(Bit(r.con0, 11), Bit(r.con0, 10), Bit(r.con0, 9), r.con0 % 0x100, Bit(r.con1, 1),
              Bit(r.con1, 4), Bit(r.con1, 3), Bit(r.con1, 2),
              r.cmod, Wrap16(r.amod), Wrap16(r.bmod), alu.mask(r.adat, r.afwm))
  }

  function LineStart(alu: Alu, r: Regs, ram: Ram): LineFlow {
    LineFlow(ram, r.bpt, r.cpt, r.dpt, r.con0 / 0x1000, r.apt % U16_RANGE, Bit(r.con1, 6),
             false, alu.rotate(r.bdat, r.con1 / 0x1000), r.con1 / 0x1000, r.cdat, r.zero, 0)
  }

  /** The pen: its word, its column in that word, and whether this row already has its single dot. */
  datatype Pen = Pen(cpt: u32, ash: nat, oneDot: bool)

  function StepX(p: Pen, left: bool): Pen {
    if left then
      if p.ash == 0 then p.(cpt := Wrap32(AsInt(p.cpt) - 2), ash := 15) else p.(ash := p.ash - 1)
    else
      if p.ash + 1 > 15 then p.(cpt := Wrap32(AsInt(p.cpt) + 2), ash := 0) else p.(ash := p.ash + 1)
  }

  function StepY(p: Pen, up: bool, bplmod: int): Pen {
    p.(cpt := Wrap32(AsInt(p.cpt) + if up then -bplmod else bplmod), oneDot := false)
  }

  function StepSometimes(s: LineSetup, p: Pen): Pen {
    if s.sud then StepY(p, s.sul, s.bplmod) else StepX(p, s.sul)
  }

  function StepAlways(s: LineSetup, p: Pen): Pen {
    if s.sud then StepX(p, s.aul) else StepY(p, s.aul, s.bplmod)
  }

  function NextPen(s: LineSetup, p: Pen, sign: bool): Pen {
    StepAlways(s, if sign then p else StepSometimes(s, p))
  }

  function NextAcc(s: LineSetup, acc: u16, sign: bool): u16 {
    if s.useA then Wrap16(AsInt(acc) + if sign then s.bmod else s.amod) else acc
  }

  /** The texture word of a pixel, and the word it is drawn with. */
  function LinePattern(alu: Alu, s: LineSetup, f: LineFlow): u16 {
    if s.useB then alu.rotate(Peek(f.ram, WordAt(f.bpt)), f.bsh) else f.bdat
  }

  function LineWord(alu: Alu, s: LineSetup, f: LineFlow): u16 {
    alu.logic(s.lf, alu.texture(s.aWord, f.ash), if Bit(LinePattern(alu, s, f), 0) then 0xFFFF else 0,
              Fetch(s.useC, f.ram, f.cpt, f.cdat))
  }

  function LineStep(alu: Alu, s: LineSetup, f: LineFlow): LineFlow {
    var bdat, c, d := LinePattern(alu, s, f), Fetch(s.useC, f.ram, f.cpt, f.cdat), LineWord(alu, s, f);
    var pen := NextPen(s, Pen(f.cpt, f.ash, true), f.sign);
    var acc := NextAcc(s, f.acc, f.sign);
    LineFlow(Stored(s.useC && (!s.sing || !f.oneDot), f.ram, f.dpt, d),
             Bumped(s.useB, f.bpt, Signed16(s.bmod)), pen.cpt, pen.cpt, pen.ash, acc, acc >= 0x8000,
             pen.oneDot, alu.rotate(bdat, 15), (f.bsh + 15) % 16, c, f.zero && d == 0, d)
  }

  function LineSteps(alu: Alu, s: LineSetup, f: LineFlow, n: nat): LineFlow
    decreases n
  {
    if n == 0 then f else LineSteps(alu, s, LineStep(alu, s, f), n - 1)
  }

  function LineBlit(alu: Alu, r: Regs, ram: Ram): LineFlow {
    LineSteps(alu, LineSetupOf(alu, r), LineStart(alu, r, ram), r.height)
  }

  function WithSign(con1: u16, sign: bool): nat {
    Bit6(con1);
    AsInt(con1) - (if Bit(con1, 6) then 0x40 else 0) + (if sign then 0x40 else 0)
  }

  /** A word with its top four bits replaced. */
  function WithTop(x: nat, top: nat): u16 { x % 0x1000 + top % 16 * 0x1000 }

  function LineRegs(r: Regs, f: LineFlow): Regs {
    r.(con1 := WithTop(WithSign(r.con1, f.acc >= 0x8000), f.bsh),
       con0 := WithTop(r.con0, f.ash),
       bpt := f.bpt, cpt := f.cpt, dpt := f.dpt,
       apt := WithLow(r.apt, f.acc),
       cdat := f.cdat, zero := f.zero, ddat := f.lastD)
  }

  lemma Bit6(x: nat)
    ensures Bit(x, 6) ==> x >= 0x40
  {
    if x < 0x40 {
      assert Pow2(6) == 0x40;
      BitsAboveAreZero(x, 6, 6);
    }
  }

  // ---- the loops ---------------------------------------------------------------------------------------

  class Device {
    var con0: u16
    var con1: u16
    var afwm: u16
    var alwm: u16
    var apt: u32
    var bpt: u32
    var cpt: u32
    var dpt: u32
    var amod: i16
    var bmod: i16
    var cmod: i16
    var dmod: i16
    var adat: u16
    var bdat: u16
    var cdat: u16
    var ddat: u16
    var width: nat
    var height: nat
    var zero: bool
    var pending: bool

    function Registers(): Regs
      reads this
    {
      Regs(con0, con1, afwm, alwm, apt, bpt, cpt, dpt, amod, bmod, cmod, dmod, adat, bdat, cdat, ddat,
           width, height, zero)
    }

    /** Run the armed blit, if there is one. */
    method Execute(ram: array<u8>) returns (ran: bool)
      requires ram.Length == CHIP_RAM_SIZE
      modifies this, ram
      ensures ran == old(pending) && !pending
      ensures !ran ==> Registers() == old(Registers()) && ram[..] == old(ram[..])
      ensures ran && !Bit(old(con1), 0) ==>
                var f := AreaBlit(HARDWARE, old(Registers()).(zero := true), old(ram[..]));
                Registers() == AreaRegs(old(Registers()), f) && ram[..] == f.ram
      ensures ran && Bit(old(con1), 0) ==>
                var f := LineBlit(HARDWARE, old(Registers()).(zero := true), old(ram[..]));
                Registers() == LineRegs(old(Registers()), f) && ram[..] == f.ram
    {
      if !pending {
        return false;
      }
      pending := false;
      zero := true;
      if Bit(con1, 0) {
        ExecuteLine(HARDWARE, ram, Registers(), LineBlit(HARDWARE, Registers(), ram[..]));
      } else {
        ExecuteArea(HARDWARE, ram, Registers(), AreaBlit(HARDWARE, Registers(), ram[..]));
      }
      return true;
    }

    method ExecuteArea(alu: Alu, ram: array<u8>, ghost r: Regs, ghost f: Flow)
      requires ram.Length == CHIP_RAM_SIZE && FillsAs(alu)
      requires r == Registers() && f == AreaBlit(alu, r, ram[..])
      modifies this, ram
      ensures Registers() == AreaRegs(r, f) && ram[..] == f.ram
      ensures pending == old(pending)
    {
      var pa, pb, pc, pd, lastD :=
        ExecuteRows(alu, AreaSetup(Registers()), ram, height, apt, bpt, cpt, dpt, Bit(con1, 2));
      LatchArea(pa, pb, pc, pd, lastD, r, f);
    }

    method LatchArea(pa: u32, pb: u32, pc: u32, pd: u32, lastD: u16, ghost r: Regs, ghost f: Flow)
      requires Registers() == r.(cdat := f.cdat, zero := f.zero)
      requires pa == f.apt && pb == f.bpt && pc == f.cpt && pd == f.dpt && lastD == f.lastD
      modifies this`apt, this`bpt, this`cpt, this`dpt, this`ddat
      ensures Registers() == AreaRegs(r, f)
    {
      apt, bpt, cpt, dpt, ddat := pa, pb, pc, pd, lastD;
    }

    method ExecuteRows(alu: Alu, s: Setup, ram: array<u8>, h: nat, a0: u32, b0: u32, c0: u32, d0: u32,
                       ghost carry0: bool)
      returns (pa: u32, pb: u32, pc: u32, pd: u32, lastD: u16)
      requires ram.Length == CHIP_RAM_SIZE && carry0 == s.fci && FillsAs(alu)
      modifies this`cdat, this`zero, ram
      ensures var f := Rows(alu, s, Flow(old(ram[..]), a0, b0, c0, d0, 0, 0, old(cdat), carry0, old(zero), 0), h);
              && ram[..] == f.ram && pa == f.apt && pb == f.bpt && pc == f.cpt && pd == f.dpt
              && cdat == f.cdat && zero == f.zero && lastD == f.lastD
    {
      pa, pb, pc, pd, lastD := a0, b0, c0, d0, 0;
      var aPrev: u16, bPrev: u16 := 0, 0;
      ghost var now := Flow(ram[..], pa, pb, pc, pd, aPrev, bPrev, cdat, s.fci, zero, lastD);
      ghost var goal := Rows(alu, s, now, h);
      for row := 0 to h
        invariant now == Flow(ram[..], pa, pb, pc, pd, aPrev, bPrev, cdat, s.fci, zero, lastD)
        invariant Rows(alu, s, now, Left(h, row)) == goal
      {
        now := RowEnd(s, WordSteps(alu, s, now, 0, s.width));
        pa, pb, pc, pd, aPrev, bPrev, lastD := ExecuteRow(alu, s, ram, pa, pb, pc, pd, aPrev, bPrev, lastD);
        pa, pb := Bumped(s.useA, pa, s.amod), Bumped(s.useB, pb, s.bmod);
        pc, pd := Bumped(s.useC, pc, s.cmod), Bumped(s.useD, pd, s.dmod);
      }
    }

    method ExecuteRow(alu: Alu, s: Setup, ram: array<u8>, a0: u32, b0: u32, c0: u32, d0: u32,
                      aPrev0: u16, bPrev0: u16, lastD0: u16)
      returns (pa: u32, pb: u32, pc: u32, pd: u32, aPrev: u16, bPrev: u16, lastD: u16)
      requires ram.Length == CHIP_RAM_SIZE && FillsAs(alu)
      modifies this`cdat, this`zero, ram
      ensures var f0 := old(Flow(ram[..], a0, b0, c0, d0, aPrev0, bPrev0, cdat, s.fci, zero, lastD0));
              var f := WordSteps(alu, s, f0, 0, s.width);
              f == Flow(ram[..], pa, pb, pc, pd, aPrev, bPrev, cdat, f.carry, zero, lastD)
    {
      pa, pb, pc, pd, aPrev, bPrev, lastD := a0, b0, c0, d0, aPrev0, bPrev0, lastD0;
      var carry := s.fci;
      ghost var now := Flow(ram[..], pa, pb, pc, pd, aPrev, bPrev, cdat, carry, zero, lastD);
      ghost var goal := WordSteps(alu, s, now, 0, s.width);
      for i := 0 to s.width
        invariant now == Flow(ram[..], pa, pb, pc, pd, aPrev, bPrev, cdat, carry, zero, lastD)
        invariant WordSteps(alu, s, now, i, Left(s.width, i)) == goal
      {
        pa, pb, pc, pd, aPrev, bPrev, carry, lastD :=
          ExecuteWord(alu, s, ram, i, pa, pb, pc, pd, aPrev, bPrev, carry, now);
        now := WordStep(alu, s, now, i);
      }
    }

    /** One word of the inner loop. */
    method ExecuteWord(alu: Alu, s: Setup, ram: array<u8>, i: nat, a0: u32, b0: u32, c0: u32, d0: u32,
                       aPrev0: u16, bPrev0: u16, carry0: bool, ghost before: Flow)
      returns (pa: u32, pb: u32, pc: u32, pd: u32, aPrev: u16, bPrev: u16, carry: bool, lastD: u16)
      requires ram.Length == CHIP_RAM_SIZE && FillsAs(alu)
      requires before == Flow(ram[..], a0, b0, c0, d0, aPrev0, bPrev0, cdat, carry0, zero, before.lastD)
      modifies this`cdat, this`zero, ram
      ensures Flow(ram[..], pa, pb, pc, pd, aPrev, bPrev, cdat, carry, zero, lastD) == WordStep(alu, s, before, i)
    {
      var b;
      aPrev, b, cdat, pa, pb, pc := FetchSources(alu, s, ram, i, a0, b0, c0, cdat);
      bPrev := if s.useB then b else bPrev0;
      var m := alu.logic(s.lf, alu.shift(aPrev0, aPrev, s.ash, s.desc), ChannelB(alu, s, bPrev0, b), cdat);
      lastD, carry := Finish(alu, s, m, carry0);
      zero := zero && lastD == 0;
      pd := StoreWord(s.useD, ram, d0, lastD, Stride(s.desc));
    }

    method ExecuteLine(alu: Alu, ram: array<u8>, ghost r: Regs, ghost f: LineFlow)
      requires ram.Length == CHIP_RAM_SIZE
      requires r == Registers() && f == LineBlit(alu, r, ram[..])
      modifies this, ram
      ensures Registers() == LineRegs(r, f) && ram[..] == f.ram
      ensures pending == old(pending)
    {
      var pattern := alu.rotate(bdat, con1 / 0x1000);
      var pb, pd, bsh, pen, acc, lastD :=
        ExecutePixels(alu, LineSetupOf(alu, Registers()), ram, height, bpt, dpt, con1 / 0x1000,
                      Pen(cpt, con0 / 0x1000, false), apt % U16_RANGE, Bit(con1, 6), pattern);
      LatchLine(pb, pd, bsh, pen, acc, lastD, r, f);
    }

    /** The registers as the line loop leaves them. */
    method LatchLine(pb: u32, pd: u32, bsh: nat, pen: Pen, acc: u16, lastD: u16, ghost r: Regs, ghost f: LineFlow)
      requires Registers() == r.(cdat := f.cdat, zero := f.zero)
      requires pb == f.bpt && pd == f.dpt && bsh == f.bsh && pen == Pen(f.cpt, f.ash, f.oneDot)
      requires acc == f.acc && lastD == f.lastD
      modifies this`con0, this`con1, this`apt, this`bpt, this`cpt, this`dpt, this`ddat
      ensures Registers() == LineRegs(r, f)
    {
      LatchControl(pen.ash, bsh, acc >= 0x8000);
      bpt, cpt, dpt, apt, ddat := pb, pen.cpt, pd, WithLow(apt, acc), lastD;
    }

    /** The shifts and the sign, back in the control words. */
    method LatchControl(ash: nat, bsh: nat, sign: bool)
      modifies this`con0, this`con1
      ensures con0 == WithTop(old(con0), ash) && con1 == WithTop(WithSign(old(con1), sign), bsh)
    {
      con0, con1 := WithTop(con0, ash), WithTop(WithSign(con1, sign), bsh);
    }

    method ExecutePixels(alu: Alu, s: LineSetup, ram: array<u8>, h: nat, b0: u32, d0: u32, bsh0: nat, pen0: Pen,
                         acc0: u16, sign0: bool, pattern0: u16)
      returns (pb: u32, pd: u32, bsh: nat, pen: Pen, acc: u16, lastD: u16)
      requires ram.Length == CHIP_RAM_SIZE
      modifies this`cdat, this`zero, ram
      ensures var f := LineSteps(alu, s, LineFlow(old(ram[..]), b0, pen0.cpt, d0, pen0.ash, acc0, sign0, pen0.oneDot,
                                             pattern0, bsh0, old(cdat), old(zero), 0), h);
              && ram[..] == f.ram && pb == f.bpt && pd == f.dpt && bsh == f.bsh && pen == Pen(f.cpt, f.ash, f.oneDot)
              && acc == f.acc && cdat == f.cdat && zero == f.zero && lastD == f.lastD
    {
      pb, pd, bsh, pen, acc, lastD := b0, d0, bsh0, pen0, acc0, 0;
      var sign, pattern := sign0, pattern0;
      ghost var now :=
        LineFlow(ram[..], pb, pen.cpt, pd, pen.ash, acc, sign, pen.oneDot, pattern, bsh, cdat, zero, lastD);
      ghost var goal := LineSteps(alu, s, now, h);
      for k := 0 to h
        invariant now ==
                  LineFlow(ram[..], pb, pen.cpt, pd, pen.ash, acc, sign, pen.oneDot, pattern, bsh, cdat, zero, lastD)
        invariant LineSteps(alu, s, now, Left(h, k)) == goal
      {
        pb, pd, bsh, pen, acc, sign, pattern, lastD :=
          ExecutePixel(alu, s, ram, pb, pd, bsh, pen, acc, sign, pattern, now);
        now := LineStep(alu, s, now);
      }
    }

    /** One pixel of the loop. */
    method ExecutePixel(alu: Alu, s: LineSetup, ram: array<u8>, b0: u32, d0: u32, bsh0: nat, pen0: Pen, acc0: u16,
                        sign0: bool, pattern0: u16, ghost f: LineFlow)
      returns (pb: u32, pd: u32, bsh: nat, pen: Pen, acc: u16, sign: bool, pattern: u16, lastD: u16)
      requires ram.Length == CHIP_RAM_SIZE
      requires f == LineFlow(ram[..], b0, pen0.cpt, d0, pen0.ash, acc0, sign0, pen0.oneDot, pattern0, bsh0, cdat, zero,
                             f.lastD)
      modifies this`cdat, this`zero, ram
      ensures LineFlow(ram[..], pb, pen.cpt, pd, pen.ash, acc, sign, pen.oneDot, pattern, bsh, cdat, zero, lastD) ==
              LineStep(alu, s, f)
    {
      var linePixel := !s.sing || !pen0.oneDot;
      pb, pattern, cdat, lastD := DrawWord(alu, s, ram, b0, bsh0, pen0, pattern0, cdat, f);
      pen, acc := MovePen(s, pen0, acc0, sign0);
      sign := acc >= 0x8000;
      zero := zero && lastD == 0;
      WriteChannel(s.useC && linePixel, ram, d0, lastD);
      pd := pen.cpt;
      pattern := alu.rotate(pattern, 15);
      bsh := (bsh0 + 15) % 16;
    }
  }

  /** The texture word of a pixel, fetched anew when channel B is on. */
  method FetchPattern(alu: Alu, s: LineSetup, ram: array<u8>, b0: u32, bsh: nat, pattern0: u16)
    returns (pb: u32, pattern: u16)
    requires ram.Length == CHIP_RAM_SIZE
    ensures pb == Bumped(s.useB, b0, Signed16(s.bmod))
    ensures pattern == if s.useB then alu.rotate(Peek(ram[..], WordAt(b0)), bsh) else pattern0
  {
    pb, pattern := b0, pattern0;
    if s.useB {
      var fetched := ReadWord(ram, b0);
      pb := Wrap32(AsInt(b0) + Signed16(s.bmod));
      pattern := alu.rotate(fetched, bsh);
    }
  }

  /** The word of a pixel, before it is stored. */
  method DrawWord(alu: Alu, s: LineSetup, ram: array<u8>, b0: u32, bsh: nat, pen: Pen, pattern0: u16, cdat: u16,
                  ghost f: LineFlow)
    returns (pb: u32, pattern: u16, c: u16, d: u16)
    requires ram.Length == CHIP_RAM_SIZE && f.ram == ram[..] && f.bpt == b0 && f.bsh == bsh && f.cpt == pen.cpt
    requires f.ash == pen.ash && f.bdat == pattern0 && f.cdat == cdat
    ensures pb == Bumped(s.useB, b0, Signed16(s.bmod)) && pattern == LinePattern(alu, s, f)
    ensures c == Fetch(s.useC, f.ram, f.cpt, f.cdat) && d == LineWord(alu, s, f)
  {
    pb, pattern := FetchPattern(alu, s, ram, b0, bsh, pattern0);
    c := ReadChannel(s.useC, ram, pen.cpt, cdat);
    d := alu.logic(s.lf, alu.texture(s.aWord, pen.ash), if Bit(pattern, 0) then 0xFFFF else 0, c);
  }

  /** The pen and the error accumulator after a pixel. */
  method MovePen(s: LineSetup, pen0: Pen, acc0: u16, sign: bool) returns (pen: Pen, acc: u16)
    ensures pen == NextPen(s, Pen(pen0.cpt, pen0.ash, true), sign) && acc == NextAcc(s, acc0, sign)
  {
    pen := pen0.(oneDot := true);
    if !sign { pen := StepSometimes(s, pen); }
    acc := NextAcc(s, acc0, sign);
    pen := StepAlways(s, pen);
  }

  /** Fetch from an enabled channel and step its pointer; a disabled one supplies its latch. */
  method FetchWord(used: bool, ram: array<u8>, ptr: u32, latch: u16, step: int) returns (v: u16, ptr': u32)
    requires ram.Length == CHIP_RAM_SIZE
    ensures v == Fetch(used, ram[..], ptr, latch) && ptr' == Bumped(used, ptr, step)
  {
    v := ReadChannel(used, ram, ptr, latch);
    ptr' := Bumped(used, ptr, step);
  }

  method ReadChannel(used: bool, ram: array<u8>, ptr: u32, latch: u16) returns (v: u16)
    requires ram.Length == CHIP_RAM_SIZE
    ensures v == Fetch(used, ram[..], ptr, latch)
  {
    v := latch;
    if used { v := ReadWord(ram, ptr); }
  }

  method WriteChannel(used: bool, ram: array<u8>, ptr: u32, v: u16)
    requires ram.Length == CHIP_RAM_SIZE
    modifies ram
    ensures ram[..] == Stored(used, old(ram[..]), ptr, v)
  {
    if used { WriteWord(ram, ptr, v); }
  }

  /** The words of the three source channels, channel A masked. */
  method FetchSources(alu: Alu, s: Setup, ram: array<u8>, i: nat, a0: u32, b0: u32, c0: u32, cdat: u16)
    returns (a: u16, b: u16, c: u16, pa: u32, pb: u32, pc: u32)
    requires ram.Length == CHIP_RAM_SIZE
    ensures a == Masked(alu, s, Fetch(s.useA, ram[..], a0, s.adat), i) && pa == Bumped(s.useA, a0, Stride(s.desc))
    ensures b == Fetch(s.useB, ram[..], b0, s.bdat) && pb == Bumped(s.useB, b0, Stride(s.desc))
    ensures c == Fetch(s.useC, ram[..], c0, cdat) && pc == Bumped(s.useC, c0, Stride(s.desc))
  {
    a, pa := FetchWord(s.useA, ram, a0, s.adat, Stride(s.desc));
    a := MaskWord(alu, s, a, i);
    b, pb := FetchWord(s.useB, ram, b0, s.bdat, Stride(s.desc));
    c, pc := FetchWord(s.useC, ram, c0, cdat, Stride(s.desc));
  }

  /** The first- and last-word masks. */
  method MaskWord(alu: Alu, s: Setup, raw: u16, i: nat) returns (a: u16)
    ensures a == Masked(alu, s, raw, i)
  {
    a := raw;
    if i == 0 { a := alu.mask(a, s.afwm); }
    if i + 1 == s.width { a := alu.mask(a, s.alwm); }
  }

  method StoreWord(used: bool, ram: array<u8>, ptr: u32, v: u16, step: int) returns (ptr': u32)
    requires ram.Length == CHIP_RAM_SIZE
    modifies ram
    ensures ram[..] == Stored(used, old(ram[..]), ptr, v) && ptr' == Bumped(used, ptr, step)
  {
    WriteChannel(used, ram, ptr, v);
    ptr' := Bumped(used, ptr, step);
  }

  method Finish(alu: Alu, s: Setup, m: u16, carry0: bool) returns (d: u16, carry: bool)
    requires FillsAs(alu)
    ensures d == Output(alu, s, m, carry0) && carry == CarryOver(alu, s, m, carry0)
  {
    d, carry := m, carry0;
    if Filling(s) {
      d, carry := ApplyFill(m, carry0, s.ife, s.efe);
    }
  }

  function Left(n: nat, i: int): nat
    requires 0 <= i <= n
  {
    n - i
  }
}
