/**
 Line mode with any minterm, a line pattern in channel B and single-dot mode (crates/machine-core/src/blitter.rs
 `execute_line`): what every bit of the memory is after a line.
 */
module BlitterTexture {
  import opened Bits
  import opened BlitterWord
  import opened Blitter
  import opened BlitterLine

  // ---- the pattern -----------------------------------------------------------------------------------

  lemma RotatedBit(x: u16, n: nat, i: nat)
    requires n < 16 && i < 16
    ensures Bit(RotateRight(x, n), i) == Bit(x, (i + n) % 16)
  {
    var k := n + i;
    LowBit(Shr(Pair(x, x), n), 16, i);
    ShrBit(Pair(x, x), n, i);
    PairBit(x, x, k);
    if k < 16 { SmallMod(k, 16); } else { ModUnique(k, 16, 1, k - 16); }
  }

  /** The position in the pattern word of the bit that pixel `k` is drawn with: it starts at the programmed shift and
      moves down one bit a pixel, round the word. */
  function PatternPlace(bsh: nat, k: nat): nat { (AsInt(bsh) - k) % 16 }

  lemma PlaceSteps(bsh: nat, k: nat, next: nat)
    requires next == k + 1
    ensures PatternPlace(bsh, next) == (PatternPlace(bsh, k) + 15) % 16
  {
  }

  lemma PlacesMeet(n: nat, i: nat, m: nat)
    requires n < 16 && i < 16 && m == (n + 15) % 16
    ensures ((i + 15) % 16 + n) % 16 == (i + m) % 16
  {
  }

  lemma TurnedBit(x: u16, n: nat, m: nat, y: u16, i: nat)
    requires n < 16 && i < 16 && m == (n + 15) % 16 && y == RotateRight(x, n)
    ensures Bit(RotateRight(y, 15), i) == Bit(RotateRight(x, m), i)
  {
    RotatedBit(y, 15, i);
    RotatedBit(x, n, (i + 15) % 16);
    RotatedBit(x, m, i);
    PlacesMeet(n, i, m);
  }

  lemma TurnTwice(x: u16, n: nat, m: nat)
    requires n < 16 && m == (n + 15) % 16
    ensures RotateRight(RotateRight(x, n), 15) == RotateRight(x, m)
  {
    var y := RotateRight(x, n);
    var u, v := RotateRight(y, 15), RotateRight(x, m);
    forall i: nat | i < 16
      ensures Bit(u, i) == Bit(v, i)
    {
      TurnedBit(x, n, m, y, i);
    }
    SameBitsSameWord(u, v);
  }

  /** What the walk needs of the rotation. */
  ghost predicate Turns(alu: Alu) {
    forall x: u16, n: nat, m: nat :: n < 16 && m == (n + 15) % 16 ==>
        alu.rotate(alu.rotate(x, n), 15) == alu.rotate(x, m)
  }

  lemma HardwareTurns()
    ensures Turns(HARDWARE)
  {
    forall x: u16, n: nat, m: nat | n < 16 && m == (n + 15) % 16
      ensures HARDWARE.rotate(HARDWARE.rotate(x, n), 15) == HARDWARE.rotate(x, m)
    {
      TurnTwice(x, n, m);
    }
  }

  /** How far the pattern pointer has moved when pixel `k` is drawn: BLTBMOD a pixel. */
  function Fetched(s: LineSetup, k: nat): int { k * Signed16(s.bmod) }

  /** Where the pattern of pixel `k` is fetched. */
  function PatternAt(s: LineSetup, bpt: u32, k: nat): u32 {
    if s.useB then Wrap32(AsInt(bpt) + Fetched(s, k)) else bpt
  }

  lemma PatternMoves(s: LineSetup, bpt: u32, k: nat, next: nat)
    requires next == k + 1
    ensures Bumped(s.useB, PatternAt(s, bpt, k), Signed16(s.bmod)) == PatternAt(s, bpt, next)
  {
    OneModuloMore(s, k, next);
    WrapStep(AsInt(bpt) + Fetched(s, k), Signed16(s.bmod));
  }

  lemma OneModuloMore(s: LineSetup, k: nat, next: nat)
    requires next == k + 1
    ensures Fetched(s, next) == Fetched(s, k) + Signed16(s.bmod)
  {
  }

  /** The walk `g` that started from `f` carries pixel `k`'s shift, pattern pointer and pattern. */
  predicate Textured(alu: Alu, s: LineSetup, f: LineFlow, g: LineFlow, p: u16, bsh: nat, k: nat) {
    && g.bsh == PatternPlace(bsh, k)
    && g.bpt == PatternAt(s, f.bpt, k)
    && (!s.useB ==> g.bdat == alu.rotate(p, PatternPlace(bsh, k)))
  }

  lemma PatternFields(alu: Alu, s: LineSetup, g: LineFlow)
    ensures var h := LineStep(alu, s, g);
            && h.bsh == (g.bsh + 15) % 16 && h.bpt == Bumped(s.useB, g.bpt, Signed16(s.bmod))
            && h.bdat == alu.rotate(LinePattern(alu, s, g), 15)
  {
  }

  lemma PatternSteps(alu: Alu, s: LineSetup, f: LineFlow, g: LineFlow, p: u16, bsh: nat, k: nat, next: nat)
    requires Textured(alu, s, f, g, p, bsh, k) && next == k + 1 && Turns(alu)
    ensures Textured(alu, s, f, LineStep(alu, s, g), p, bsh, next)
  {
    PatternFields(alu, s, g);
    PlaceSteps(bsh, k, next);
    PatternMoves(s, f.bpt, k, next);
  }

  lemma {:induction false} AlwaysTextured(alu: Alu, s: LineSetup, f: LineFlow, p: u16, bsh: nat, k: nat)
    requires Textured(alu, s, f, f, p, bsh, 0) && Turns(alu)
    ensures Textured(alu, s, f, LineSteps(alu, s, f, k), p, bsh, k)
  {
    if k > 0 {
      var g := LineSteps(alu, s, f, k - 1);
      AlwaysTextured(alu, s, f, p, bsh, k - 1);
      OneStepMore(alu, s, f, k - 1);
      PatternSteps(alu, s, f, g, p, bsh, k - 1, k);
    }
  }

  lemma HardwareTextured(s: LineSetup, f: LineFlow, p: u16, bsh: nat, k: nat)
    requires Textured(HARDWARE, s, f, f, p, bsh, 0)
    ensures Textured(HARDWARE, s, f, LineSteps(HARDWARE, s, f, k), p, bsh, k)
  {
    HardwareTurns();
    AlwaysTextured(HARDWARE, s, f, p, bsh, k);
  }

  /** The pattern bit of pixel `k`: of the word fetched for that pixel if channel B is on, of BLTBDAT otherwise. */
  predicate PatternBit(s: LineSetup, f: LineFlow, p: u16, bsh: nat, k: nat) {
    PatternIn(LineSteps(HARDWARE, s, f, k).ram, s, f.bpt, p, bsh, k)
  }

  predicate PatternIn(ram: Ram, s: LineSetup, bpt: u32, p: u16, bsh: nat, k: nat) {
    Bit(if s.useB then Peek(ram, WordAt(Wrap32(AsInt(bpt) + Fetched(s, k)))) else p, PatternPlace(bsh, k))
  }

  lemma LowestTurned(p: u16, n: nat)
    requires n < 16
    ensures Bit(RotateRight(p, n), 0) == Bit(p, n)
  {
    RotatedBit(p, n, 0);
    SmallMod(n, 16);
  }

  lemma PatternOf(s: LineSetup, f: LineFlow, g: LineFlow, p: u16, bsh: nat, k: nat)
    requires Textured(HARDWARE, s, f, g, p, bsh, k)
    ensures Bit(LinePattern(HARDWARE, s, g), 0) == PatternIn(g.ram, s, f.bpt, p, bsh, k)
  {
    var word := if s.useB then Peek(g.ram, WordAt(g.bpt)) else p;
    LowestTurned(word, PatternPlace(bsh, k));
    assert LinePattern(HARDWARE, s, g) == RotateRight(word, PatternPlace(bsh, k));
  }

  lemma PatternOfPixel(s: LineSetup, f: LineFlow, g: LineFlow, p: u16, bsh: nat, k: nat)
    requires Textured(HARDWARE, s, f, f, p, bsh, 0) && g == LineSteps(HARDWARE, s, f, k)
    ensures Bit(LinePattern(HARDWARE, s, g), 0) == PatternBit(s, f, p, bsh, k)
  {
    HardwareTextured(s, f, p, bsh, k);
    PatternOf(s, f, g, p, bsh, k);
  }

  // ---- single-dot mode ---------------------------------------------------------------------------------

  /** The row of pixel `k`, counted from the first. */
  function RowOf(s: LineSetup, dmaj: nat, dmin: nat, k: nat): int { YOf(s, k, Minor(dmaj, dmin, k)) }

  /** Whether pixel `k` is stored: every pixel, or in single-dot mode the first one of each row. */
  predicate Dotted(s: LineSetup, dmaj: nat, dmin: nat, k: nat) {
    !s.sing || k == 0 || RowOf(s, dmaj, dmin, k) != RowOf(s, dmaj, dmin, k - 1)
  }

  lemma RowChanges(s: LineSetup, p: Pen, sign: bool, k: nat, next: nat, m: int, m': int)
    requires m' == (if sign then m else m + 1) && next == k + 1
    ensures NextPen(s, p, sign).oneDot == (s.sud && sign && p.oneDot)
    ensures (YOf(s, next, m') == YOf(s, k, m)) == (s.sud && sign)
  {
  }

  lemma DotAfter(s: LineSetup, g: LineFlow)
    ensures LineStep(HARDWARE, s, g).oneDot == NextPen(s, Pen(g.cpt, g.ash, true), g.sign).oneDot
  {
  }

  lemma DotDecides(s: LineSetup, f: LineFlow, dmaj: nat, dmin: nat, k: nat)
    requires LineWalk(s, f, dmaj, dmin) && k <= dmaj && !f.oneDot
    ensures (!s.sing || !LineSteps(HARDWARE, s, f, k).oneDot) == Dotted(s, dmaj, dmin, k)
  {
    if k > 0 {
      var j := k - 1;
      var g := LineSteps(HARDWARE, s, f, j);
      AlwaysOnTrack(HARDWARE, s, f, dmaj, dmin, j);
      OneStepMore(HARDWARE, s, f, j);
      MinorSteps(dmaj, dmin, j, k);
      DotAfter(s, g);
      RowChanges(s, Pen(g.cpt, g.ash, true), g.sign, j, k, Minor(dmaj, dmin, j), Minor(dmaj, dmin, k));
    }
  }

  // ---- every bit after the line ------------------------------------------------------------------------------

  /** The entry of the minterm table that three bits select. */
  predicate Entry(lf: u8, a: bool, b: bool, c: bool) {
    Bit(lf, (if a then 4 else 0) + (if b then 2 else 0) + (if c then 1 else 0))
  }

  /** The pixels of a line as one bit of one word sees them: which are stored in its word, which are that bit, and
      their pattern bits. */
  datatype Strokes = Strokes(stored: nat -> bool, here: nat -> bool, pattern: nat -> bool)

  predicate StrokeAt(px: Strokes, s: LineSetup, f: LineFlow, p: u16, bsh: nat, dmaj: nat, dmin: nat, at: Dot, k: nat) {
    && px.stored(k) == (Dotted(s, dmaj, dmin, k) && PixelAt(s, f, dmaj, dmin, k).word == at.word)
    && px.here(k) == (PixelAt(s, f, dmaj, dmin, k).bit == at.bit)
    && px.pattern(k) == PatternBit(s, f, p, bsh, k)
  }

  ghost predicate StrokesOf(px: Strokes, s: LineSetup, f: LineFlow, p: u16, bsh: nat, dmaj: nat, dmin: nat, at: Dot) {
    forall k: nat :: StrokeAt(px, s, f, p, bsh, dmaj, dmin, at, k)
  }

  /** The bit after `n` pixels: each stored one picks the entry of the minterm table selected by whether the pixel is
      this bit, by its pattern bit, and by the bit so far. */
  predicate Drawn(lf: u8, start: bool, px: Strokes, n: nat) {
    if n == 0 then start
    else if px.stored(n - 1) then Entry(lf, px.here(n - 1), px.pattern(n - 1), Drawn(lf, start, px, n - 1))
    else Drawn(lf, start, px, n - 1)
  }

  lemma FullWord(b: bool, q: nat)
    requires q < 16
    ensures Bit(if b then 0xFFFF else 0, q) == b
  {
    AllOnes(q);
    ZeroBits(q);
  }

  /** The word a pixel is drawn with. */
  lemma PixelWord(s: LineSetup, g: LineFlow, q: nat, b: bool)
    requires s.useC && s.aWord == 0x8000 && g.ash < 16 && q < 16 && b == Bit(LinePattern(HARDWARE, s, g), 0)
    ensures Bit(LineWord(HARDWARE, s, g), q) == Entry(s.lf, q == 15 - g.ash, b, Bit(Peek(g.ram, WordAt(g.cpt)), q))
  {
    MintermBit(s.lf, Texture(0x8000, g.ash), if b then 0xFFFF else 0, Peek(g.ram, WordAt(g.cpt)), q);
    TextureBit(g.ash, q);
    FullWord(b, q);
  }

  /** One pixel. */
  lemma PixelDrawn(s: LineSetup, g: LineFlow, w: WordIndex, q: nat, b: bool)
    requires s.useC && s.aWord == 0x8000 && g.dpt == g.cpt && g.ash < 16 && q < 16
    requires b == Bit(LinePattern(HARDWARE, s, g), 0)
    ensures Bit(Peek(LineStep(HARDWARE, s, g).ram, w), q) ==
            if (!s.sing || !g.oneDot) && WordAt(g.cpt) == w then
              Entry(s.lf, q == 15 - g.ash, b, Bit(Peek(g.ram, w), q))
            else Bit(Peek(g.ram, w), q)
  {
    PixelWord(s, g, q, b);
    PeekPoke(g.ram, WordAt(g.cpt), LineWord(HARDWARE, s, g), w);
  }

  lemma StandsOnPixel(s: LineSetup, f: LineFlow, g: LineFlow, dmaj: nat, dmin: nat, k: nat)
    requires OnTrack(s, f, g, dmaj, dmin, k)
    ensures g.dpt == g.cpt && g.ash < 16 && PixelAt(s, f, dmaj, dmin, k) == Dot(WordAt(g.cpt), 15 - g.ash)
  {
  }

  /** What a line that draws needs: the walk, channel C, the single-bit texture and the pattern. */
  predicate Draws(s: LineSetup, f: LineFlow, p: u16, bsh: nat, dmaj: nat, dmin: nat) {
    && LineWalk(s, f, dmaj, dmin) && s.useC && s.aWord == 0x8000 && !f.oneDot
    && Textured(HARDWARE, s, f, f, p, bsh, 0)
  }

  lemma OneMoreDrawn(s: LineSetup, f: LineFlow, g: LineFlow, p: u16, bsh: nat, dmaj: nat, dmin: nat, k: nat, at: Dot,
                     px: Strokes)
    requires Draws(s, f, p, bsh, dmaj, dmin) && k <= dmaj && at.bit < 16 && g == LineSteps(HARDWARE, s, f, k)
    requires StrokesOf(px, s, f, p, bsh, dmaj, dmin, at)
    ensures var was := Bit(Peek(g.ram, at.word), at.bit);
            Bit(Peek(LineStep(HARDWARE, s, g).ram, at.word), at.bit) ==
            if px.stored(k) then Entry(s.lf, px.here(k), px.pattern(k), was) else was
  {
    AlwaysOnTrack(HARDWARE, s, f, dmaj, dmin, k);
    StandsOnPixel(s, f, g, dmaj, dmin, k);
    PatternOfPixel(s, f, g, p, bsh, k);
    DotDecides(s, f, dmaj, dmin, k);
    PixelDrawn(s, g, at.word, at.bit, PatternBit(s, f, p, bsh, k));
    assert StrokeAt(px, s, f, p, bsh, dmaj, dmin, at, k);
  }

  /** Pixel `k` changes the bit `at` as the table says. */
  predicate PixelStep(alu: Alu, s: LineSetup, f: LineFlow, at: Dot, px: Strokes, k: nat) {
    var g := LineSteps(alu, s, f, k);
    var was := Bit(Peek(g.ram, at.word), at.bit);
    Bit(Peek(LineStep(alu, s, g).ram, at.word), at.bit) ==
    if px.stored(k) then Entry(s.lf, px.here(k), px.pattern(k), was) else was
  }

  lemma {:induction false} DrawnByPixels(alu: Alu, s: LineSetup, f: LineFlow, at: Dot, px: Strokes, n: nat)
    requires forall k: nat :: k < n ==> PixelStep(alu, s, f, at, px, k)
    ensures Bit(Peek(LineSteps(alu, s, f, n).ram, at.word), at.bit) ==
            Drawn(s.lf, Bit(Peek(f.ram, at.word), at.bit), px, n)
  {
    if n > 0 {
      DrawnByPixels(alu, s, f, at, px, n - 1);
      OneStepMore(alu, s, f, n - 1);
      assert PixelStep(alu, s, f, at, px, n - 1);
    }
  }

  /** After `n` pixels every bit of the memory is the drawn one: any minterm, any pattern, single dots or not. */
  lemma LineIsDrawn(s: LineSetup, f: LineFlow, p: u16, bsh: nat, dmaj: nat, dmin: nat, n: nat, at: Dot, px: Strokes)
    requires Draws(s, f, p, bsh, dmaj, dmin) && n <= dmaj + 1 && at.bit < 16
    requires StrokesOf(px, s, f, p, bsh, dmaj, dmin, at)
    ensures Bit(Peek(LineSteps(HARDWARE, s, f, n).ram, at.word), at.bit) ==
            Drawn(s.lf, Bit(Peek(f.ram, at.word), at.bit), px, n)
  {
    forall k: nat | k < n
      ensures PixelStep(HARDWARE, s, f, at, px, k)
    {
      OneMoreDrawn(s, f, LineSteps(HARDWARE, s, f, k), p, bsh, dmaj, dmin, k, at, px);
    }
    DrawnByPixels(HARDWARE, s, f, at, px, n);
  }

  // ---- from the registers ----------------------------------------------------------------------------------------

  /** The register set-up of a line of `dmaj + 1` pixels; minterm, pattern and single-dot mode are free. */
  predicate WalkRegisters(r: Regs, dmaj: nat, dmin: nat) {
    && dmin <= dmaj && 2 * dmaj < 0x8000 && r.height == dmaj + 1
    && Bit(r.con0, 11) && Bit(r.con0, 9) && Bit(r.con1, 6) == (2 * dmin < dmaj)
    && r.adat == 0x8000 && r.afwm == 0xFFFF
    && r.amod == 2 * (AsInt(dmin) - dmaj) && r.bmod == 2 * dmin && r.dpt == r.cpt
    && r.apt == SetPtrLo(r.apt, Wrap16(2 * AsInt(dmin) - dmaj))
  }

  lemma WalkProgrammed(r: Regs, ram: Ram, dmaj: nat, dmin: nat)
    requires WalkRegisters(r, dmaj, dmin)
    ensures var s, f := LineSetupOf(HARDWARE, r), LineStart(HARDWARE, r, ram);
            Draws(s, f, r.bdat, r.con1 / 0x1000, dmaj, dmin)
  {
    var e := 2 * AsInt(dmin) - dmaj;
    ErrorThroughPointer(r.apt, e);
    assert e % 2 == dmaj % 2;
    FullMask(0x8000);
    SmallMod(r.con1 / 0x1000, 16);
    SmallMod(r.bpt, U32_RANGE);
  }

  /** A line from its registers, in every octant. */
  lemma TexturedLineFromRegisters(r: Regs, ram: Ram, dmaj: nat, dmin: nat, n: nat, bsh: nat, at: Dot, s: LineSetup,
                                  f: LineFlow, px: Strokes)
    requires WalkRegisters(r, dmaj, dmin) && n == dmaj + 1 && bsh == r.con1 / 0x1000 && at.bit < 16
    requires s == LineSetupOf(HARDWARE, r) && f == LineStart(HARDWARE, r, ram)
    requires StrokesOf(px, s, f, r.bdat, bsh, dmaj, dmin, at)
    ensures LineSteps(HARDWARE, s, f, n) == LineBlit(HARDWARE, r, ram)
    ensures Bit(Peek(LineSteps(HARDWARE, s, f, n).ram, at.word), at.bit) ==
            Drawn(r.con0 % 0x100, Bit(Peek(ram, at.word), at.bit), px, n)
  {
    WalkProgrammed(r, ram, dmaj, dmin);
    LineIsDrawn(s, f, r.bdat, bsh, dmaj, dmin, n, at, px);
  }

  const PATTERNED: u8 := 0xCA

  /** The table that draws the pattern where the pixel is, and keeps the rest. */
  ghost predicate DrawsPattern(lf: u8) {
    forall dot, b, was :: Entry(lf, dot, b, was) == if dot then b else was
  }

  lemma PatternedRows()
    ensures DrawsPattern(PATTERNED)
  {
    assert Bit(12, 3) && Bit(12, 2) && !Bit(12, 1) && !Bit(12, 0);
    assert Bit(PATTERNED, 4) == Bit(12, 0) && Bit(PATTERNED, 5) == Bit(12, 1);
    assert Bit(PATTERNED, 6) == Bit(12, 2) && Bit(PATTERNED, 7) == Bit(12, 3);
    assert !Bit(PATTERNED, 0) && Bit(PATTERNED, 1) && !Bit(PATTERNED, 2) && Bit(PATTERNED, 3);
  }

  /** Pixel `k - 1` is the last one stored as this bit; `k` is 0 if there is none. */
  predicate LastHit(px: Strokes, k: nat, n: nat) {
    && k <= n && (k > 0 ==> px.stored(k - 1) && px.here(k - 1))
    && forall j: nat :: k <= j < n ==> !(px.stored(j) && px.here(j))
  }

  lemma {:induction false} LastHitDecides(lf: u8, start: bool, px: Strokes, k: nat, n: nat)
    requires DrawsPattern(lf) && LastHit(px, k, n)
    ensures Drawn(lf, start, px, n) == if k == 0 then start else px.pattern(k - 1)
  {
    if k < n { LastHitDecides(lf, start, px, k, n - 1); }
  }

  /** A patterned line (minterm 0xCA, the pattern in BLTBDAT): the last pixel stored as this bit sets or clears it as
      its pattern bit says; a bit that no stored pixel is keeps its value. */
  lemma PatternedLine(r: Regs, ram: Ram, dmaj: nat, dmin: nat, n: nat, bsh: nat, at: Dot, s: LineSetup, f: LineFlow,
                      px: Strokes, k: nat)
    requires WalkRegisters(r, dmaj, dmin) && r.con0 % 0x100 == 0xCA && !Bit(r.con0, 10)
    requires s == LineSetupOf(HARDWARE, r) && f == LineStart(HARDWARE, r, ram) && bsh == r.con1 / 0x1000
    requires n == dmaj + 1 && at.bit < 16 && StrokesOf(px, s, f, r.bdat, bsh, dmaj, dmin, at) && LastHit(px, k, n)
    ensures Bit(Peek(LineSteps(HARDWARE, s, f, n).ram, at.word), at.bit) ==
            if k == 0 then Bit(Peek(ram, at.word), at.bit) else Bit(r.bdat, (AsInt(bsh) - (k - 1)) % 16)
  {
    PatternedRows();
    TexturedLineFromRegisters(r, ram, dmaj, dmin, n, bsh, at, s, f, px);
    LastHitDecides(PATTERNED, Bit(Peek(ram, at.word), at.bit), px, k, n);
    if k > 0 {
      assert StrokeAt(px, s, f, r.bdat, bsh, dmaj, dmin, at, k - 1);
      PatternFromLatch(s, f, r.bdat, bsh, k);
    }
  }

  lemma PatternFromLatch(s: LineSetup, f: LineFlow, p: u16, bsh: nat, k: nat)
    requires !s.useB && k > 0
    ensures PatternBit(s, f, p, bsh, k - 1) == Bit(p, (AsInt(bsh) - (k - 1)) % 16)
  {
  }

  // ---- what is left behind ---------------------------------------------------------------------------------------

  lemma LatchedAsh(r: Regs, f: LineFlow)
    requires f.ash < 16
    ensures var end := LineRegs(r, f);
            && end.con0 / 0x1000 == f.ash && end.con0 % 0x1000 == r.con0 % 0x1000
            && end.cpt == f.cpt && end.dpt == f.dpt
  {
    SmallMod(f.ash, 16);
    ModUnique(WithTop(r.con0, f.ash), 0x1000, f.ash, r.con0 % 0x1000);
  }

  lemma LatchedShift(r: Regs, f: LineFlow)
    requires f.bsh < 16
    ensures LineRegs(r, f).con1 / 0x1000 == f.bsh
  {
    SmallMod(f.bsh, 16);
    var c := WithSign(r.con1, f.acc >= 0x8000);
    ModUnique(WithTop(c, f.bsh), 0x1000, f.bsh, c % 0x1000);
  }

  lemma LatchedError(r: Regs, f: LineFlow)
    ensures var end := LineRegs(r, f); end.apt % U16_RANGE == f.acc && end.apt / U16_RANGE == r.apt / U16_RANGE
  {
    ModUnique(WithLow(r.apt, f.acc), U16_RANGE, r.apt / U16_RANGE, f.acc);
  }

  /** The walk after its last pixel stands on the pixel that would come next. */
  lemma EndsOnTrack(s: LineSetup, f: LineFlow, dmaj: nat, dmin: nat, n: nat)
    requires LineWalk(s, f, dmaj, dmin) && dmaj > 0 && n == dmaj + 1
    ensures OnTrack(s, f, LineSteps(HARDWARE, s, f, n), dmaj, dmin, n)
  {
    var g := LineSteps(HARDWARE, s, f, dmaj);
    AlwaysOnTrack(HARDWARE, s, f, dmaj, dmin, dmaj);
    OneStepMore(HARDWARE, s, f, dmaj);
    AccumulatorStep(s, g.acc, g.sign, dmaj, dmin, dmaj, n);
    MinorSteps(dmaj, dmin, dmaj, n);
    StandsOnNext(HARDWARE, s, f, g, dmaj, n, Minor(dmaj, dmin, dmaj), Err(dmaj, dmin, dmaj), Minor(dmaj, dmin, n),
                 Err(dmaj, dmin, n));
  }

  /** The pen after a line of more than one pixel: C and D point at the word of the pixel that would come next, and the
      A shift is its column. */
  lemma LineLeavesPen(r: Regs, ram: Ram, dmaj: nat, dmin: nat, n: nat, s: LineSetup, f: LineFlow)
    requires WalkRegisters(r, dmaj, dmin) && dmaj > 0 && n == dmaj + 1
    requires s == LineSetupOf(HARDWARE, r) && f == LineStart(HARDWARE, r, ram)
    ensures LineSteps(HARDWARE, s, f, n) == LineBlit(HARDWARE, r, ram)
    ensures var end, next := LineRegs(r, LineSteps(HARDWARE, s, f, n)), PixelAt(s, f, dmaj, dmin, n);
            && end.cpt == end.dpt && WordAt(end.cpt) == next.word && end.con0 / 0x1000 == 15 - next.bit
            && end.con0 % 0x1000 == r.con0 % 0x1000
  {
    var g := LineSteps(HARDWARE, s, f, n);
    WalkProgrammed(r, ram, dmaj, dmin);
    EndsOnTrack(s, f, dmaj, dmin, n);
    StandsOnPixel(s, f, g, dmaj, dmin, n);
    LatchedAsh(r, g);
  }

  /** Its error is in the low half of the A pointer, whose upper half is kept. */
  lemma LineLeavesError(r: Regs, ram: Ram, dmaj: nat, dmin: nat, n: nat, s: LineSetup, f: LineFlow)
    requires WalkRegisters(r, dmaj, dmin) && dmaj > 0 && n == dmaj + 1
    requires s == LineSetupOf(HARDWARE, r) && f == LineStart(HARDWARE, r, ram)
    ensures var end := LineRegs(r, LineSteps(HARDWARE, s, f, n));
            end.apt % U16_RANGE == Wrap16(Err(dmaj, dmin, n)) && end.apt / U16_RANGE == r.apt / U16_RANGE
  {
    var g := LineSteps(HARDWARE, s, f, n);
    WalkProgrammed(r, ram, dmaj, dmin);
    EndsOnTrack(s, f, dmaj, dmin, n);
    ErrorHeld(s, f, g, dmaj, dmin, n);
    LatchedError(r, g);
  }

  lemma ErrorHeld(s: LineSetup, f: LineFlow, g: LineFlow, dmaj: nat, dmin: nat, k: nat)
    requires OnTrack(s, f, g, dmaj, dmin, k)
    ensures g.acc == Wrap16(Err(dmaj, dmin, k))
  {
  }

  /** The B shift has gone back one a pixel, whatever was drawn. */
  lemma LineLeavesShift(r: Regs, ram: Ram, g: LineFlow)
    requires g == LineBlit(HARDWARE, r, ram)
    ensures LineRegs(r, g).con1 / 0x1000 == (AsInt(r.con1 / 0x1000) - r.height) % 16
  {
    var s, f, bsh := LineSetupOf(HARDWARE, r), LineStart(HARDWARE, r, ram), r.con1 / 0x1000;
    SmallMod(bsh, 16);
    ShiftSteps(HARDWARE, s, f, bsh, r.height);
    LatchedShift(r, g);
  }

  lemma {:induction false} ShiftSteps(alu: Alu, s: LineSetup, f: LineFlow, bsh: nat, k: nat)
    requires f.bsh == bsh < 16
    ensures LineSteps(alu, s, f, k).bsh == PatternPlace(bsh, k)
  {
    if k > 0 {
      ShiftSteps(alu, s, f, bsh, k - 1);
      OneStepMore(alu, s, f, k - 1);
      PlaceSteps(bsh, k - 1, k);
    }
  }

  /** Bit `q` of the word that pixel `k` is drawn with, stored or not: `b` is its pattern bit, `was` the word there. */
  predicate WordBit(lf: u8, at: Dot, b: bool, was: u16, q: nat) { Entry(lf, q == at.bit, b, Bit(was, q)) }

  lemma WordOfPixel(s: LineSetup, f: LineFlow, g: LineFlow, p: u16, bsh: nat, dmaj: nat, dmin: nat, k: nat, at: Dot,
                    b: bool)
    requires Draws(s, f, p, bsh, dmaj, dmin) && k <= dmaj && g == LineSteps(HARDWARE, s, f, k)
    requires at == PixelAt(s, f, dmaj, dmin, k) && b == PatternBit(s, f, p, bsh, k)
    ensures WordAt(g.cpt) == at.word && at.bit == 15 - g.ash && g.ash < 16 && b == Bit(LinePattern(HARDWARE, s, g), 0)
  {
    AlwaysOnTrack(HARDWARE, s, f, dmaj, dmin, k);
    StandsOnPixel(s, f, g, dmaj, dmin, k);
    PatternOfPixel(s, f, g, p, bsh, k);
  }

  lemma ZeroWord(x: u16, bits: nat -> bool)
    requires forall q: nat :: q < 16 ==> Bit(x, q) == bits(q)
    ensures (x == 0) == (forall q: nat :: q < 16 ==> !bits(q))
  {
    var zero: u16 := 0;
    forall q: nat | q < 16
      ensures !Bit(zero, q)
    {
      ZeroBits(q);
    }
    if forall q: nat :: q < 16 ==> !bits(q) { SameBitsSameWord(x, zero); }
  }

  lemma BlankWord(s: LineSetup, g: LineFlow, at: Dot, b: bool, bits: nat -> bool)
    requires s.useC && s.aWord == 0x8000 && WordAt(g.cpt) == at.word && at.bit == 15 - g.ash && g.ash < 16
    requires b == Bit(LinePattern(HARDWARE, s, g), 0)
    requires forall q: nat :: q < 16 ==> bits(q) == WordBit(s.lf, at, b, Peek(g.ram, at.word), q)
    ensures (LineWord(HARDWARE, s, g) == 0) == (forall q: nat :: q < 16 ==> !bits(q))
  {
    var d := LineWord(HARDWARE, s, g);
    forall q: nat | q < 16
      ensures Bit(d, q) == bits(q)
    {
      PixelWord(s, g, q, b);
    }
    ZeroWord(d, bits);
  }

  /** The word that pixel `k` is drawn with is zero exactly if the minterm table gives 0 for each of its bits. */
  lemma PixelIsBlank(s: LineSetup, f: LineFlow, g: LineFlow, p: u16, bsh: nat, dmaj: nat, dmin: nat, k: nat, at: Dot,
                     b: bool, bits: nat -> bool)
    requires Draws(s, f, p, bsh, dmaj, dmin) && k <= dmaj && g == LineSteps(HARDWARE, s, f, k)
    requires at == PixelAt(s, f, dmaj, dmin, k) && b == PatternBit(s, f, p, bsh, k)
    requires forall q: nat :: q < 16 ==> bits(q) == WordBit(s.lf, at, b, Peek(g.ram, at.word), q)
    ensures (LineStep(HARDWARE, s, g).lastD == 0) == (forall q: nat :: q < 16 ==> !bits(q))
  {
    WordOfPixel(s, f, g, p, bsh, dmaj, dmin, k, at, b);
    BlankWord(s, g, at, b, bits);
  }

  /** BZERO stays set exactly if every pixel's word was zero, those not stored included. */
  lemma {:induction false} LineZeroFlag(alu: Alu, s: LineSetup, f: LineFlow, n: nat)
    ensures LineSteps(alu, s, f, n).zero ==
            (f.zero && forall k: nat :: k < n ==> LineStep(alu, s, LineSteps(alu, s, f, k)).lastD == 0)
  {
    if n > 0 {
      LineZeroFlag(alu, s, f, n - 1);
      OneStepMore(alu, s, f, n - 1);
    }
  }

  lemma LatchedData(r: Regs, s: LineSetup, g: LineFlow)
    requires s.useC
    ensures var end := LineRegs(r, LineStep(HARDWARE, s, g));
            end.ddat == LineWord(HARDWARE, s, g) && end.cdat == Peek(g.ram, WordAt(g.cpt))
  {
  }

  /** The data registers hold the last pixel's words: D what it was drawn with, C what was there. */
  lemma LineLeavesData(r: Regs, ram: Ram, dmaj: nat, dmin: nat, bsh: nat, s: LineSetup, f: LineFlow, g: LineFlow,
                       at: Dot, b: bool, q: nat)
    requires WalkRegisters(r, dmaj, dmin) && bsh == r.con1 / 0x1000 && q < 16
    requires s == LineSetupOf(HARDWARE, r) && f == LineStart(HARDWARE, r, ram) && g == LineSteps(HARDWARE, s, f, dmaj)
    requires at == PixelAt(s, f, dmaj, dmin, dmaj) && b == PatternBit(s, f, r.bdat, bsh, dmaj)
    ensures LineStep(HARDWARE, s, g) == LineBlit(HARDWARE, r, ram)
    ensures var end := LineRegs(r, LineStep(HARDWARE, s, g));
            end.cdat == Peek(g.ram, at.word) && Bit(end.ddat, q) == WordBit(s.lf, at, b, end.cdat, q)
  {
    WalkProgrammed(r, ram, dmaj, dmin);
    OneStepMore(HARDWARE, s, f, dmaj);
    WordOfPixel(s, f, g, r.bdat, bsh, dmaj, dmin, dmaj, at, b);
    PixelWord(s, g, q, b);
    LatchedData(r, s, g);
  }

  /** In the second control word the sign flag follows the error term, the top four bits hold the shift, and the other
      bits are kept. */
  lemma LatchedSign(con1: u16, sign: bool, bsh: nat, i: nat)
    requires bsh < 16 && i < 12
    ensures Bit(WithTop(WithSign(con1, sign), bsh), i) == if i == 6 then sign else Bit(con1, i)
  {
    var c := WithSign(con1, sign);
    SmallMod(bsh, 16);
    LowTwelve(WithTop(c, bsh), c, i);
    SignBit(con1, c, sign, i);
  }

  lemma LowTwelve(x: nat, c: nat, i: nat)
    requires x % 0x1000 == c % 0x1000 && i < 12
    ensures Bit(x, i) == Bit(c, i)
  {
    Pow2Values();
    DivModLaw(x, 0x1000);
    DivModLaw(c, 0x1000);
    AppendBits(x / 0x1000, x % 0x1000, 12, i);
    AppendBits(c / 0x1000, c % 0x1000, 12, i);
  }

  lemma SignBit(con1: u16, c: nat, sign: bool, i: nat)
    requires c == WithSign(con1, sign) && i < 12
    ensures Bit(c, i) == if i == 6 then sign else Bit(con1, i)
  {
    var hi, lo := con1 / 0x80, con1 % 0x40;
    var was, on := con1 / 0x40 % 2, if sign then 1 else 0;
    DivModLaw(con1, 0x40);
    DivModLaw(con1 / 0x40, 2);
    BitsAround(con1, hi, was, lo, 6);
    BitsAround(c, hi, on, lo, 6);
    BitsAround(con1, hi, was, lo, i);
    BitsAround(c, hi, on, lo, i);
  }

  /** The bits of a word written in three parts, the middle one bit 6. */
  lemma BitsAround(x: nat, hi: nat, mid: nat, lo: nat, i: nat)
    requires lo < 0x40 && mid < 2 && x == (hi * 2 + mid) * 0x40 + lo
    ensures Bit(x, i) == if i < 6 then Bit(lo, i) else if i == 6 then mid == 1 else Bit(hi, i - 7)
  {
    assert Pow2(6) == 0x40;
    AppendBits(hi * 2 + mid, lo, 6, i);
    if i > 6 { assert (hi * 2 + mid) / 2 == hi; }
  }

  /** The sign flag left behind is the sign of the error that the next pixel would have. */
  lemma LineLeavesSign(r: Regs, ram: Ram, dmaj: nat, dmin: nat, n: nat, s: LineSetup, f: LineFlow, i: nat)
    requires WalkRegisters(r, dmaj, dmin) && dmaj > 0 && n == dmaj + 1 && i < 12
    requires s == LineSetupOf(HARDWARE, r) && f == LineStart(HARDWARE, r, ram)
    ensures Bit(LineRegs(r, LineSteps(HARDWARE, s, f, n)).con1, i) ==
            if i == 6 then Err(dmaj, dmin, n) < 0 else Bit(r.con1, i)
  {
    var g := LineSteps(HARDWARE, s, f, n);
    WalkProgrammed(r, ram, dmaj, dmin);
    EndsOnTrack(s, f, dmaj, dmin, n);
    ErrorHeld(s, f, g, dmaj, dmin, n);
    MinorSteps(dmaj, dmin, n, n + 1);
    SignOf(Err(dmaj, dmin, n));
    HardwareTextured(s, f, r.bdat, r.con1 / 0x1000, n);
    LatchedSign(r.con1, g.acc >= 0x8000, g.bsh, i);
  }

  /** `k` times `d`, by addition. */
  function Repeated(k: nat, d: int): int { if k == 0 then 0 else Repeated(k - 1, d) + d }

  lemma {:induction false} RepeatedIsProduct(k: nat, d: int)
    ensures Repeated(k, d) == k * d
  {
    if k > 0 {
      RepeatedIsProduct(k - 1, d);
      assert k * d == (k - 1) * d + d;
    }
  }

  lemma {:induction false} PointerSteps(alu: Alu, s: LineSetup, f: LineFlow, k: nat, d: int)
    requires d == Signed16(s.bmod)
    ensures LineSteps(alu, s, f, k).bpt == if s.useB then Wrap32(AsInt(f.bpt) + Repeated(k, d)) else f.bpt
  {
    if k == 0 {
      SmallMod(f.bpt, U32_RANGE);
    } else {
      PointerSteps(alu, s, f, k - 1, d);
      OneStepMore(alu, s, f, k - 1);
      WrapStep(AsInt(f.bpt) + Repeated(k - 1, d), d);
    }
  }

  lemma SetupModulo(alu: Alu, r: Regs, ram: Ram)
    ensures Signed16(LineSetupOf(alu, r).bmod) == Signed16(r.bmod) && LineSetupOf(alu, r).useB == Bit(r.con0, 10)
    ensures LineStart(alu, r, ram).bpt == r.bpt
  {
  }

  /** The pattern pointer has moved BLTBMOD a pixel if channel B is on, and not at all otherwise. */
  lemma LineLeavesPatternPointer(alu: Alu, r: Regs, ram: Ram, d: int)
    requires d == Signed16(r.bmod)
    ensures LineRegs(r, LineBlit(alu, r, ram)).bpt ==
            if Bit(r.con0, 10) then Wrap32(AsInt(r.bpt) + r.height * d) else r.bpt
  {
    SetupModulo(alu, r, ram);
    PointerSteps(alu, LineSetupOf(alu, r), LineStart(alu, r, ram), r.height, d);
    RepeatedIsProduct(r.height, d);
  }

  /** Without channel C nothing is stored; without channel A the error term stands still. */
  lemma {:induction false} DisabledChannels(alu: Alu, s: LineSetup, f: LineFlow, k: nat)
    ensures !s.useC ==> LineSteps(alu, s, f, k).ram == f.ram
    ensures !s.useA ==> LineSteps(alu, s, f, k).acc == f.acc
  {
    if k > 0 {
      DisabledChannels(alu, s, f, k - 1);
      OneStepMore(alu, s, f, k - 1);
    }
  }
}
