/**
 Line mode (crates/machine-core/src/blitter.rs `execute_line`): the octant-decoded walk on a 16-bit
 error accumulator draws exactly the pixels of the ideal line, rounded half up along the minor axis.
 */
module BlitterLine {
  import opened Bits
  import opened BlitterWord
  import opened Blitter

  // ---- the ideal line -------------------------------------------------------------------------

  /** The minor offset of pixel `k`: `k * dmin / dmaj` rounded to the nearest integer, halves up. */
  function Minor(dmaj: nat, dmin: nat, k: nat): int {
    if dmaj == 0 then 0 else Twice(k, dmin, dmaj) / (2 * dmaj)
  }

  function Twice(k: nat, dmin: nat, dmaj: nat): int { 2 * (k * dmin) + dmaj }

  predicate Floors(n: int, d: int, m: int) { d * m <= n < d * m + d }

  lemma MinorFloors(dmaj: nat, dmin: nat, k: nat)
    requires dmaj > 0
    ensures Floors(Twice(k, dmin, dmaj), 2 * dmaj, Minor(dmaj, dmin, k))
  {
    DivModLaw(Twice(k, dmin, dmaj), 2 * dmaj);
  }

  lemma FloorUnique(n: int, d: int, m: int)
    requires d > 0 && Floors(n, d, m)
    ensures n / d == m
  {
    ModUnique(n, d, m, n - d * m);
  }

  /** No pixel is more than half a step off the ideal line. */
  lemma NearestPixel(dmaj: nat, dmin: nat, k: nat)
    requires dmaj > 0
    ensures 0 < 2 * dmaj * Minor(dmaj, dmin, k) - 2 * (k * dmin) + dmaj <= 2 * dmaj
  {
    MinorFloors(dmaj, dmin, k);
  }

  /** The last pixel is the other end point. */
  lemma EndsAtEndPoint(dmaj: nat, dmin: nat)
    requires dmin <= dmaj
    ensures Minor(dmaj, dmin, dmaj) == dmin
  {
    if dmaj > 0 {
      assert 2 * (dmaj * dmin) == (2 * dmaj) * dmin;
      FloorUnique(Twice(dmaj, dmin, dmaj), 2 * dmaj, dmin);
    }
  }

  // ---- the accumulator -------------------------------------------------------------------------------

  /** The error term whose sign decides the step after pixel `k`, as the accumulator holds it: bit 0 of
      the programmed value is dropped. */
  function Err(dmaj: nat, dmin: nat, k: nat): int {
    Twice(k, dmin, dmaj) + 2 * dmin - 2 * dmaj - dmaj % 2 - 2 * dmaj * Minor(dmaj, dmin, k)
  }

  /** One step of the walk over plain numbers: the sign of the (rounded) error decides the floor. */
  lemma ErrorDecides(n: int, dmin: int, dmaj: int, m: int, e: int)
    requires 0 <= dmin <= dmaj && dmaj > 0 && Floors(n, 2 * dmaj, m)
    requires n % 2 == dmaj % 2 && e == n + 2 * dmin - 2 * dmaj - dmaj % 2 - 2 * dmaj * m
    ensures Floors(n + 2 * dmin, 2 * dmaj, if e < 0 then m else m + 1)
    ensures -2 * dmaj - 1 <= e < 2 * dmaj
  {
    var p := dmaj * m;
    assert 2 * dmaj * m == 2 * p;
    assert 2 * dmaj * (m + 1) == 2 * p + 2 * dmaj;
  }

  lemma TwiceSteps(k: nat, dmin: nat, dmaj: nat)
    ensures Twice(k + 1, dmin, dmaj) == Twice(k, dmin, dmaj) + 2 * dmin
    ensures Twice(k, dmin, dmaj) % 2 == dmaj % 2
  {
    assert (k + 1) * dmin == k * dmin + dmin;
  }

  function Stepped(dmaj: nat, dmin: nat, k: nat): int { if Err(dmaj, dmin, k) < 0 then 0 else 1 }

  /** The rounded error decides exactly when the ideal line moves along the minor axis. */
  lemma MinorSteps(dmaj: nat, dmin: nat, k: nat, next: nat)
    requires dmin <= dmaj && dmaj > 0 && next == k + 1
    ensures Minor(dmaj, dmin, next) == Minor(dmaj, dmin, k) + Stepped(dmaj, dmin, k)
    ensures Err(dmaj, dmin, next) ==
            Err(dmaj, dmin, k) + if Err(dmaj, dmin, k) < 0 then 2 * dmin else 2 * (dmin - dmaj)
    ensures -2 * dmaj - 1 <= Err(dmaj, dmin, k) < 2 * dmaj
  {
    var n, m := Twice(k, dmin, dmaj), Minor(dmaj, dmin, k);
    MinorFloors(dmaj, dmin, k);
    TwiceSteps(k, dmin, dmaj);
    ErrorDecides(n, dmin, dmaj, m, Err(dmaj, dmin, k));
    FloorUnique(n + 2 * dmin, 2 * dmaj, m + Stepped(dmaj, dmin, k));
    assert 2 * dmaj * (m + 1) == 2 * dmaj * m + 2 * dmaj;
  }

  /** Dropping bit 0 of the programmed error changes no decision. */
  lemma DroppedBitIsHarmless(dmaj: nat, dmin: nat, k: nat)
    requires dmin <= dmaj && dmaj > 0
    ensures (Err(dmaj, dmin, k) < 0) == (Err(dmaj, dmin, k) + dmaj % 2 < 0)
  {
    TwiceSteps(k, dmin, dmaj);
    var p := dmaj * Minor(dmaj, dmin, k);
    assert 2 * dmaj * Minor(dmaj, dmin, k) == 2 * p;
    EvenSign(Twice(k, dmin, dmaj), dmaj, dmin - dmaj - p, Err(dmaj, dmin, k));
  }

  lemma EvenSign(n: int, dmaj: nat, rest: int, e: int)
    requires n % 2 == dmaj % 2 && e == n - dmaj % 2 + 2 * rest
    ensures (e < 0) == (e + dmaj % 2 < 0)
  {
  }

  lemma FirstError(dmaj: nat, dmin: nat)
    ensures Minor(dmaj, dmin, 0) == 0 && Err(dmaj, dmin, 0) == 2 * dmin - dmaj - dmaj % 2
  {
    if dmaj > 0 { FloorUnique(dmaj, 2 * dmaj, 0); }
  }

  /** The 16-bit accumulator holds the error without overflow. */
  predicate Holds(acc: u16, sign: bool, e: int) { acc == Wrap16(e) && sign == (e < 0) }

  lemma SignOf(e: int)
    requires -0x8000 <= e < 0x8000
    ensures (Wrap16(e) >= 0x8000) == (e < 0)
  {
  }

  lemma WrapAdds(x: int, y: int)
    ensures Wrap16(AsInt(Wrap16(x)) + AsInt(Wrap16(y))) == Wrap16(x + y)
  {
  }

  // ---- the pen ------------------------------------------------------------------------------------------

  /** The pen stands on column `x`, row `y`, counted from the left edge of the first pixel's word. */
  predicate At(p: Pen, c0: u32, bplmod: int, x: int, y: int) {
    p.ash == x % 16 && p.cpt == Wrap32(Spot(c0, bplmod, x, y))
  }

  function Spot(c0: u32, bplmod: int, x: int, y: int): int { AsInt(c0) + 2 * (x / 16) + y * bplmod }

  lemma WrapStep(x: int, d: int)
    ensures Wrap32(AsInt(Wrap32(x)) + d) == Wrap32(x + d)
  {
  }

  lemma StepXMoves(p: Pen, c0: u32, bplmod: int, x: int, y: int, left: bool)
    requires At(p, c0, bplmod, x, y)
    ensures At(StepX(p, left), c0, bplmod, if left then x - 1 else x + 1, y)
  {
    var at := Spot(c0, bplmod, x, y);
    WrapStep(at, -2);
    WrapStep(at, 2);
    if left {
      assert (x - 1) / 16 == (if x % 16 == 0 then x / 16 - 1 else x / 16);
      assert (x - 1) % 16 == (if x % 16 == 0 then 15 else x % 16 - 1);
    } else {
      assert (x + 1) / 16 == (if x % 16 == 15 then x / 16 + 1 else x / 16);
      assert (x + 1) % 16 == (if x % 16 == 15 then 0 else x % 16 + 1);
    }
  }

  lemma StepYMoves(p: Pen, c0: u32, bplmod: int, x: int, y: int, up: bool)
    requires At(p, c0, bplmod, x, y)
    ensures At(StepY(p, up, bplmod), c0, bplmod, x, if up then y - 1 else y + 1)
  {
    var at := Spot(c0, bplmod, x, y);
    WrapStep(at, if up then -bplmod else bplmod);
    assert (y + 1) * bplmod == y * bplmod + bplmod;
    assert (y - 1) * bplmod == y * bplmod - bplmod;
  }

  function Signed(back: bool, d: int): int { if back then -d else d }

  /** Where pixel `(maj, min)` of a line in this octant lies, from the starting column `x0`. */
  function XOf(s: LineSetup, x0: int, maj: int, min: int): int {
    x0 + if s.sud then Signed(s.aul, maj) else Signed(s.sul, min)
  }

  function YOf(s: LineSetup, maj: int, min: int): int {
    if s.sud then Signed(s.sul, min) else Signed(s.aul, maj)
  }

  /** The pen moves one pixel along the major axis, and along the minor axis when the sign is clear. */
  lemma PenMoves(s: LineSetup, p: Pen, c0: u32, x0: int, maj: int, min: int, sign: bool)
    requires At(p, c0, s.bplmod, XOf(s, x0, maj, min), YOf(s, maj, min))
    ensures var min' := if sign then min else min + 1;
            At(NextPen(s, p, sign), c0, s.bplmod, XOf(s, x0, maj + 1, min'), YOf(s, maj + 1, min'))
  {
    var x, y := XOf(s, x0, maj, min), YOf(s, maj, min);
    var min' := if sign then min else min + 1;
    var p' := if sign then p else StepSometimes(s, p);
    if !sign {
      if s.sud { StepYMoves(p, c0, s.bplmod, x, y, s.sul); } else { StepXMoves(p, c0, s.bplmod, x, y, s.sul); }
    }
    var x', y' := XOf(s, x0, maj, min'), YOf(s, maj, min');
    assert At(p', c0, s.bplmod, x', y');
    if s.sud { StepXMoves(p', c0, s.bplmod, x', y', s.aul); } else { StepYMoves(p', c0, s.bplmod, x', y', s.aul); }
  }

  // ---- one dot ----------------------------------------------------------------------------------------------

  lemma TextureBit(n: nat, q: nat)
    requires n < 16 && q < 16
    ensures Bit(Texture(0x8000, n), q) == (q == 15 - n)
  {
    LowBit(Shr(0x8000, n), 16, q);
    ShrBit(0x8000, n, q);
    assert OneBit(15) == 0x8000 by {
      assert OneBit(3) == 8 && OneBit(7) == 0x80 && OneBit(11) == 0x800;
    }
    OneBitBit(15, n + q);
  }

  /** `D = A | C` with the single-bit texture sets the pen's bit and no other. */
  lemma DotBit(ash: nat, b: u16, c: u16, q: nat)
    requires ash < 16 && q < 16
    ensures Bit(Minterm(A_OR_C, Texture(0x8000, ash), b, c), q) == (Bit(c, q) || q == 15 - ash)
  {
    MergesAIntoC(Texture(0x8000, ash), b, c, q);
    TextureBit(ash, q);
  }

  /** What drawing needs of the word operators. */
  ghost predicate Draws(alu: Alu) {
    forall ash: nat, b: u16, c: u16, q: nat :: ash < 16 && q < 16 ==>
        Bit(alu.logic(A_OR_C, alu.texture(0x8000, ash), b, c), q) == (Bit(c, q) || q == 15 - ash)
  }

  lemma HardwareDraws()
    ensures Draws(HARDWARE)
  {
    forall ash: nat, b: u16, c: u16, q: nat | ash < 16 && q < 16
      ensures Bit(HARDWARE.logic(A_OR_C, HARDWARE.texture(0x8000, ash), b, c), q) == (Bit(c, q) || q == 15 - ash)
    {
      DotBit(ash, b, c, q);
    }
  }

  // ---- the whole line -----------------------------------------------------------------------------------------

  /** A line programmed the way graphics.library does: `2 * dmaj` within a signed word, solid, `D = A | C`. */
  predicate LineJob(s: LineSetup, f: LineFlow, dmaj: nat, dmin: nat) {
    LineWalk(s, f, dmaj, dmin) && s.useC && !s.sing && s.lf == A_OR_C && s.aWord == 0x8000
  }

  /** What the walk alone needs, whatever is drawn. */
  predicate LineWalk(s: LineSetup, f: LineFlow, dmaj: nat, dmin: nat) {
    && dmin <= dmaj && 2 * dmaj < 0x8000 && s.useA
    && s.amod == Wrap16(2 * (AsInt(dmin) - dmaj)) && s.bmod == Wrap16(2 * dmin)
    && f.acc == Wrap16(2 * AsInt(dmin) - dmaj - dmaj % 2) && f.sign == (2 * dmin < dmaj)
    && f.ash < 16 && f.dpt == f.cpt
  }

  datatype Dot = Dot(word: WordIndex, bit: nat)

  /** Pixel `k` of the ideal line in this octant. */
  function PixelAt(s: LineSetup, f: LineFlow, dmaj: nat, dmin: nat, k: nat): Dot {
    var m := Minor(dmaj, dmin, k);
    var x, y := XOf(s, f.ash, k, m), YOf(s, k, m);
    Dot(WordAt(Wrap32(Spot(f.cpt, s.bplmod, x, y))), 15 - x % 16)
  }

  /** The walk `g` that started from `f` stands on pixel `k`, and its error term is pixel `k`'s. */
  predicate OnTrack(s: LineSetup, f: LineFlow, g: LineFlow, dmaj: nat, dmin: nat, k: nat) {
    StandsOn(s, f, g, k, Minor(dmaj, dmin, k), Err(dmaj, dmin, k))
  }

  predicate StandsOn(s: LineSetup, f: LineFlow, g: LineFlow, k: nat, m: int, e: int) {
    && Holds(g.acc, g.sign, e)
    && At(Pen(g.cpt, g.ash, true), f.cpt, s.bplmod, XOf(s, f.ash, k, m), YOf(s, k, m))
    && g.dpt == g.cpt
  }

  lemma StartsOnTrack(s: LineSetup, f: LineFlow, dmaj: nat, dmin: nat)
    requires LineWalk(s, f, dmaj, dmin)
    ensures OnTrack(s, f, f, dmaj, dmin, 0)
  {
    FirstError(dmaj, dmin);
    StandsOnFirst(s, f, Err(dmaj, dmin, 0));
  }

  lemma StandsOnFirst(s: LineSetup, f: LineFlow, e: int)
    requires f.ash < 16 && f.dpt == f.cpt && Holds(f.acc, f.sign, e)
    ensures StandsOn(s, f, f, 0, 0, e)
  {
    SmallMod(f.cpt, U32_RANGE);
  }

  lemma AccumulatorStep(s: LineSetup, acc: u16, sign: bool, dmaj: nat, dmin: nat, k: nat, next: nat)
    requires dmin <= dmaj && 0 < dmaj && 2 * dmaj < 0x8000 && next == k + 1
    requires s.useA && s.amod == Wrap16(2 * (AsInt(dmin) - dmaj)) && s.bmod == Wrap16(2 * dmin)
    requires Holds(acc, sign, Err(dmaj, dmin, k))
    ensures var acc' := NextAcc(s, acc, sign); Holds(acc', acc' >= 0x8000, Err(dmaj, dmin, next))
  {
    var e := Err(dmaj, dmin, k);
    MinorSteps(dmaj, dmin, k, next);
    MinorSteps(dmaj, dmin, next, next + 1);
    WrapAdds(e, 2 * dmin);
    WrapAdds(e, 2 * (AsInt(dmin) - dmaj));
    SignOf(Err(dmaj, dmin, next));
  }

  lemma StaysOnTrack(alu: Alu, s: LineSetup, f: LineFlow, g: LineFlow, dmaj: nat, dmin: nat, k: nat, next: nat)
    requires LineWalk(s, f, dmaj, dmin) && OnTrack(s, f, g, dmaj, dmin, k) && k < dmaj && next == k + 1
    ensures OnTrack(s, f, LineStep(alu, s, g), dmaj, dmin, next)
  {
    AccumulatorStep(s, g.acc, g.sign, dmaj, dmin, k, next);
    MinorSteps(dmaj, dmin, k, next);
    StandsOnNext(alu, s, f, g, k, next, Minor(dmaj, dmin, k), Err(dmaj, dmin, k), Minor(dmaj, dmin, next),
                 Err(dmaj, dmin, next));
  }

  lemma StandsOnNext(alu: Alu, s: LineSetup, f: LineFlow, g: LineFlow, k: nat, next: nat, m: int, e: int, m': int,
                     e': int)
    requires StandsOn(s, f, g, k, m, e) && next == k + 1 && m' == if e < 0 then m else m + 1
    requires var acc := NextAcc(s, g.acc, g.sign); Holds(acc, acc >= 0x8000, e')
    ensures StandsOn(s, f, LineStep(alu, s, g), next, m', e')
  {
    PenMoves(s, Pen(g.cpt, g.ash, true), f.cpt, f.ash, k, m, g.sign);
  }

  /** One step sets the pixel it stands on and nothing else. */
  lemma StepSetsPixel(alu: Alu, s: LineSetup, f: LineFlow, g: LineFlow, dmaj: nat, dmin: nat, k: nat,
                      w: WordIndex, q: nat)
    requires LineJob(s, f, dmaj, dmin) && OnTrack(s, f, g, dmaj, dmin, k) && Draws(alu) && q < 16
    ensures Bit(Peek(LineStep(alu, s, g).ram, w), q) ==
            (Bit(Peek(g.ram, w), q) || PixelAt(s, f, dmaj, dmin, k) == Dot(w, q))
  {
    var at := WordAt(g.dpt);
    var d := LineStep(alu, s, g).lastD;
    assert LineStep(alu, s, g).ram == Poke(g.ram, at, d);
    PeekPoke(g.ram, at, d, w);
  }

  lemma {:induction false} OneStepMore(alu: Alu, s: LineSetup, f: LineFlow, k: nat)
    ensures LineSteps(alu, s, f, k + 1) == LineStep(alu, s, LineSteps(alu, s, f, k))
    decreases k
  {
    if k > 0 { OneStepMore(alu, s, LineStep(alu, s, f), k - 1); }
  }

  lemma {:induction false} AlwaysOnTrack(alu: Alu, s: LineSetup, f: LineFlow, dmaj: nat, dmin: nat, k: nat)
    requires LineWalk(s, f, dmaj, dmin) && k <= dmaj
    ensures OnTrack(s, f, LineSteps(alu, s, f, k), dmaj, dmin, k)
  {
    if k == 0 {
      StartsOnTrack(s, f, dmaj, dmin);
    } else {
      AlwaysOnTrack(alu, s, f, dmaj, dmin, k - 1);
      OneStepMore(alu, s, f, k - 1);
      StaysOnTrack(alu, s, f, LineSteps(alu, s, f, k - 1), dmaj, dmin, k - 1, k);
    }
  }

  lemma OnePixelMore(alu: Alu, s: LineSetup, f: LineFlow, dmaj: nat, dmin: nat, k: nat, next: nat, w: WordIndex, q: nat)
    requires LineJob(s, f, dmaj, dmin) && Draws(alu) && k <= dmaj && next == k + 1 && q < 16
    ensures Bit(Peek(LineSteps(alu, s, f, next).ram, w), q) ==
            (Bit(Peek(LineSteps(alu, s, f, k).ram, w), q) || PixelAt(s, f, dmaj, dmin, k) == Dot(w, q))
  {
    AlwaysOnTrack(alu, s, f, dmaj, dmin, k);
    OneStepMore(alu, s, f, k);
    StepSetsPixel(alu, s, f, LineSteps(alu, s, f, k), dmaj, dmin, k, w, q);
  }

  lemma {:induction false} DrawsPixels(alu: Alu, s: LineSetup, f: LineFlow, dmaj: nat, dmin: nat, n: nat,
                                       w: WordIndex, q: nat)
    requires LineJob(s, f, dmaj, dmin) && Draws(alu) && n <= dmaj + 1 && q < 16
    ensures Bit(Peek(LineSteps(alu, s, f, n).ram, w), q) ==
            (|| Bit(Peek(f.ram, w), q)
             || exists k: nat :: k < n && PixelAt(s, f, dmaj, dmin, k) == Dot(w, q))
  {
    if n > 0 {
      DrawsPixels(alu, s, f, dmaj, dmin, n - 1, w, q);
      OnePixelMore(alu, s, f, dmaj, dmin, n - 1, n, w, q);
    }
  }

  /** The final RAM is the initial RAM with exactly the pixels of the ideal line set. */
  lemma LineIsExact(alu: Alu, s: LineSetup, f: LineFlow, dmaj: nat, dmin: nat, n: nat, w: WordIndex, q: nat)
    requires LineJob(s, f, dmaj, dmin) && Draws(alu) && n == dmaj + 1 && q < 16
    ensures Bit(Peek(LineSteps(alu, s, f, n).ram, w), q) ==
            (Bit(Peek(f.ram, w), q) || exists k: nat :: k <= dmaj && PixelAt(s, f, dmaj, dmin, k) == Dot(w, q))
  {
    DrawsPixels(alu, s, f, dmaj, dmin, n, w, q);
  }

  // ---- from the registers -----------------------------------------------------------------------------------------

  /** The register set-up of a line of `dmaj + 1` pixels; the octant is in BLTCON1 and the error term was
      written through BLTAPTL. */
  predicate LineRegisters(r: Regs, dmaj: nat, dmin: nat) {
    && dmin <= dmaj && 2 * dmaj < 0x8000 && r.height == dmaj + 1
    && Bit(r.con0, 11) && Bit(r.con0, 9) && r.con0 % 0x100 == A_OR_C
    && !Bit(r.con1, 1) && Bit(r.con1, 6) == (2 * dmin < dmaj)
    && r.adat == 0x8000 && r.afwm == 0xFFFF
    && r.amod == 2 * (AsInt(dmin) - dmaj) && r.bmod == 2 * dmin && r.dpt == r.cpt
    && r.apt == SetPtrLo(r.apt, Wrap16(2 * AsInt(dmin) - dmaj))
  }

  function Magnitude(d: int): nat { if d < 0 then -d else d }

  /** BLTCON1 for a line to `(dx, dy)`: SUD says that x is the major axis, SUL and AUL say that the minor and
      the major axis run backwards. */
  predicate Octant(r: Regs, dx: int, dy: int) {
    && Bit(r.con1, 4) == (Magnitude(dx) >= Magnitude(dy))
    && Bit(r.con1, 3) == (if Magnitude(dx) >= Magnitude(dy) then dy < 0 else dx < 0)
    && Bit(r.con1, 2) == (if Magnitude(dx) >= Magnitude(dy) then dx < 0 else dy < 0)
  }

  /** With that octant the first pixel is the start and the last one is `(dx, dy)` away from it. */
  lemma OctantReachesEnd(alu: Alu, r: Regs, x0: int, dx: int, dy: int, dmaj: nat, dmin: nat)
    requires Octant(r, dx, dy)
    requires dmaj == (if Magnitude(dx) >= Magnitude(dy) then Magnitude(dx) else Magnitude(dy))
    requires dmin == (if Magnitude(dx) >= Magnitude(dy) then Magnitude(dy) else Magnitude(dx))
    ensures var s := LineSetupOf(alu, r);
            && XOf(s, x0, 0, Minor(dmaj, dmin, 0)) == x0 && YOf(s, 0, Minor(dmaj, dmin, 0)) == 0
            && XOf(s, x0, dmaj, Minor(dmaj, dmin, dmaj)) == x0 + dx
            && YOf(s, dmaj, Minor(dmaj, dmin, dmaj)) == dy
  {
    FirstError(dmaj, dmin);
    EndsAtEndPoint(dmaj, dmin);
  }

  lemma LowHalf(p: u32, v: u16)
    ensures WithLow(p, v) % U16_RANGE == v
  {
    ModUnique(WithLow(p, v), U16_RANGE, p / U16_RANGE, v);
  }

  /** Clearing bit 0 before or after the cut to 16 bits is the same. */
  lemma EvenWraps(e: int, v: int, k: int)
    requires e == U16_RANGE * k + v && 0 <= v < U16_RANGE
    ensures Wrap16(e) == v && Wrap16(e - e % 2) == v / 2 * 2
  {
    ModUnique(e, U16_RANGE, k, v);
    ModUnique(e, 2, 0x8000 * k + v / 2, v % 2);
    ModUnique(e - e % 2, U16_RANGE, k, v / 2 * 2);
  }

  lemma ErrorThroughPointer(p: u32, e: int)
    ensures SetPtrLo(p, Wrap16(e)) % U16_RANGE == Wrap16(e - e % 2)
  {
    DivModLaw(e, U16_RANGE);
    EvenWraps(e, e % U16_RANGE, e / U16_RANGE);
    LowHalf(p, Wrap16(e) / 2 * 2);
  }

  lemma AccumulatorProgrammed(r: Regs, dmaj: nat, dmin: nat)
    requires LineRegisters(r, dmaj, dmin)
    ensures r.apt % U16_RANGE == Wrap16(2 * AsInt(dmin) - dmaj - dmaj % 2)
  {
    var e := 2 * AsInt(dmin) - dmaj;
    ErrorThroughPointer(r.apt, e);
    assert e % 2 == dmaj % 2;
  }

  /** A line blit from its registers, in every octant. */
  lemma LineFromRegisters(r: Regs, ram: Ram, dmaj: nat, dmin: nat, w: WordIndex, q: nat)
    requires LineRegisters(r, dmaj, dmin) && q < 16
    ensures var s, f := LineSetupOf(HARDWARE, r), LineStart(HARDWARE, r, ram);
            Bit(Peek(LineBlit(HARDWARE, r, ram).ram, w), q) ==
            (Bit(Peek(ram, w), q) || exists k: nat :: k <= dmaj && PixelAt(s, f, dmaj, dmin, k) == Dot(w, q))
  {
    HardwareDraws();
    var s, f := LineSetupOf(HARDWARE, r), LineStart(HARDWARE, r, ram);
    AccumulatorProgrammed(r, dmaj, dmin);
    FullMask(0x8000);
    assert LineJob(s, f, dmaj, dmin);
    LineIsExact(HARDWARE, s, f, dmaj, dmin, r.height, w, q);
  }
}
