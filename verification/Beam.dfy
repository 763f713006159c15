/**
 The beam position (crates/machine-core/src/chipset.rs `tick`, `hpos`, `vpos`, `vposr`, `vhposr`,
 `clocks_until_line_boundary`): one monotonic count of colour clocks from which the raster position
 is derived, proved to refine a raster counter stepped one colour clock at a time.
 */
module Beam {
  import opened Bits

  const LINE := 227
  const U64_RANGE := 0x1_0000_0000_0000_0000
  const AGNUS_ID := 0x2000

  datatype State = State(total: nat, carry: nat, frames: nat, lof: bool, vertb: bool, streak: u32)
  datatype Advance = Advance(lines: nat, frames: nat)
  datatype Result = Result(state: State, adv: Advance)

  function SatAdd(x: nat, y: nat): nat { if x + y < U64_RANGE then x + y else U64_RANGE - 1 }

  function Hpos(s: State): nat { s.total % LINE }

  function Vpos(s: State, perFrame: nat): nat
    requires perFrame > 0
  {
    (s.total / LINE) % perFrame
  }

  function Vposr(s: State, perFrame: nat): nat
    requires perFrame > 0
  {
    (if s.lof then 0x8000 else 0) + AGNUS_ID + (Vpos(s, perFrame) / 0x100) % 2
  }

  function Vhposr(s: State, perFrame: nat): nat
    requires perFrame > 0
  {
    (Vpos(s, perFrame) % 0x100) * 0x100 + Hpos(s) % 0x100
  }

  /** LOF after `n` frame boundaries: only the parity matters. */
  function Flipped(lof: bool, n: nat): bool { if n % 2 == 1 then !lof else lof }

  lemma FlippedTwice(lof: bool, m: nat, n: nat)
    ensures Flipped(Flipped(lof, m), n) == Flipped(lof, m + n)
  {
  }

  /** Calls on end that cover a whole line or more, saturating. */
  function NextStreak(streak: u32, cc: nat): u32 {
    if cc < LINE then 0 else if streak < U32_RANGE - 1 then streak + 1 else streak
  }

  /** The state after moving to `total'` from line `l0` to `l1` and from frame `f0` to `f1`. */
  function MovedTo(s: State, cc: nat, total': nat, l0: nat, l1: nat, f0: nat, f1: nat): Result
    requires l0 <= l1 && f0 <= f1
  {
    Result(
      s.(total := total',
         frames := if f1 > f0 then SatAdd(s.frames, f1 - f0) else s.frames,
         lof := Flipped(s.lof, f1 - f0),
         vertb := s.vertb || f1 > f0,
         streak := NextStreak(s.streak, cc)),
      Advance(l1 - l0, f1 - f0))
  }

  /** Advance by whole colour clocks. */
  function Moved(s: State, cc: nat, perFrame: nat): Result
    requires perFrame > 0 && s.total < U64_RANGE
  {
    var total' := SatAdd(s.total, cc);
    MovedForward(s.total, total', perFrame);
    MovedTo(s, cc, total', s.total / LINE, total' / LINE, s.total / LINE / perFrame, total' / LINE / perFrame)
  }

  lemma MovedForward(t0: nat, t1: nat, perFrame: nat)
    requires t0 <= t1 && perFrame > 0
    ensures t0 / LINE <= t1 / LINE
    ensures t0 / LINE / perFrame <= t1 / LINE / perFrame
  {
    DivMono(t0, t1, LINE);
    DivMono(t0 / LINE, t1 / LINE, perFrame);
  }

  lemma DivMono(a: nat, b: nat, m: nat)
    requires a <= b && m > 0
    ensures a / m <= b / m
  {
    DivModLaw(a, m);
    DivModLaw(b, m);
    assert m * (a / m - b / m) == m * (a / m) - m * (b / m);
    if a / m > b / m { MulAtLeast(m, a / m - b / m); }
  }

  /** Advance by CPU clocks; a zero ratio counts as one. */
  function Ticked(s: State, clocks: nat, ratio: nat, perFrame: nat): Result
    requires perFrame > 0 && s.total < U64_RANGE
  {
    var r := if ratio == 0 then 1 else ratio;
    var sum := s.carry + clocks;
    var m := Moved(s, sum / r, perFrame);
    m.(state := m.state.(carry := sum % r))
  }

  function ClocksUntilLineBoundary(s: State, ratio: nat): u32 {
    ((LINE - Hpos(s)) * ratio - s.carry) % U32_RANGE
  }

  class Counter {
    var total: nat
    var carry: nat
    var frames: nat
    var lof: bool
    var vertb: bool
    var streak: u32
    var linesPerFrame: nat

    function St(): State
      reads this
    {
      State(total, carry, frames, lof, vertb, streak)
    }

    method Tick(clocks: u32, ratio: nat) returns (adv: Advance)
      requires linesPerFrame > 0 && total < U64_RANGE
      modifies this
      ensures linesPerFrame == old(linesPerFrame)
      ensures Result(St(), adv) == Ticked(old(St()), clocks, ratio, linesPerFrame)
    {
      var r := if ratio == 0 then 1 else ratio;
      var sum := carry + clocks;
      var cc := sum / r;
      carry := sum % r;
      streak := NextStreak(streak, cc);
      var linesBefore := total / LINE;
      MovedForward(total, SatAdd(total, cc), linesPerFrame);
      total := SatAdd(total, cc);
      var linesAfter := total / LINE;
      var framesBefore, framesAfter := linesBefore / linesPerFrame, linesAfter / linesPerFrame;
      CountFrames(framesAfter - framesBefore);
      adv := Advance(linesAfter - linesBefore, framesAfter - framesBefore);
    }

    method CountFrames(wrapped: nat)
      modifies this`frames, this`lof, this`vertb
      ensures frames == (if wrapped > 0 then SatAdd(old(frames), wrapped) else old(frames))
      ensures lof == Flipped(old(lof), wrapped)
      ensures vertb == (old(vertb) || wrapped > 0)
    {
      if wrapped > 0 {
        frames := SatAdd(frames, wrapped);
        if wrapped % 2 == 1 {
          lof := !lof;
        }
        vertb := true;
      }
    }
  }

  // ---- the reference: a raster counter stepped one colour clock at a time -------------------

  datatype Raster = Raster(h: nat, v: nat, frames: nat, lof: bool, vertb: bool, linesStarted: nat, framesStarted: nat)

  /** A new frame flips LOF and latches the vertical blank interrupt. */
  function StepRaster(r: Raster, perFrame: nat): Raster {
    if r.h + 1 < LINE then r.(h := r.h + 1)
    else if r.v + 1 < perFrame then r.(h := 0, v := r.v + 1, linesStarted := r.linesStarted + 1)
    else Raster(0, 0, r.frames + 1, !r.lof, true, r.linesStarted + 1, r.framesStarted + 1)
  }

  function StepsRaster(r: Raster, n: nat, perFrame: nat): Raster
    decreases n
  {
    if n == 0 then r else StepRaster(StepsRaster(r, n - 1, perFrame), perFrame)
  }

  /** The raster a beam state stands for, with the lines and frames counted so far. */
  function Abs(s: State, lines: nat, frames: nat, perFrame: nat): Raster
    requires perFrame > 0
  {
    Raster(Hpos(s), Vpos(s, perFrame), s.frames, s.lof, s.vertb, lines, frames)
  }

  /** Successive quotients and remainders. */
  lemma NextResidue(x: nat, m: nat)
    requires m > 0
    ensures x % m + 1 < m ==> (x + 1) % m == x % m + 1 && (x + 1) / m == x / m
    ensures x % m + 1 == m ==> (x + 1) % m == 0 && (x + 1) / m == x / m + 1
  {
    DivModLaw(x, m);
    if x % m + 1 < m {
      ModUnique(x + 1, m, x / m, x % m + 1);
    } else {
      assert m * (x / m + 1) == m * (x / m) + m;
      ModUnique(x + 1, m, x / m + 1, 0);
    }
  }

  lemma MovedIs(s: State, cc: nat, t: nat, perFrame: nat, l0: nat, l: nat, f0: nat, f: nat)
    requires perFrame > 0 && t == s.total + cc < U64_RANGE
    requires l0 == s.total / LINE && l == t / LINE && f0 == l0 / perFrame && f == l / perFrame
    ensures l0 <= l && f0 <= f && Moved(s, cc, perFrame) == MovedTo(s, cc, t, l0, l, f0, f)
  {
    MovedForward(s.total, t, perFrame);
  }

  /** Line, frame and position one colour clock later. */
  lemma NextPosition(t: nat, t1: nat, perFrame: nat, h: nat, l: nat, l1: nat, v: nat, f: nat, f1: nat)
    requires perFrame > 0 && t1 == t + 1
    requires h == t % LINE && l == t / LINE && l1 == t1 / LINE
    requires v == l % perFrame && f == l / perFrame && f1 == l1 / perFrame
    ensures h < LINE && v < perFrame
    ensures t1 % LINE == (if h + 1 == LINE then 0 else h + 1)
    ensures l1 == l + (if h + 1 == LINE then 1 else 0)
    ensures l1 % perFrame == (if h + 1 < LINE then v else if v + 1 == perFrame then 0 else v + 1)
    ensures f1 == f + (if h + 1 == LINE && v + 1 == perFrame then 1 else 0)
  {
    NextResidue(t, LINE);
    NextResidue(l, perFrame);
    DivModLaw(l, perFrame);
  }

  lemma AbsMoved(s: State, cc: nat, t: nat, perFrame: nat, h: nat, v: nat, l0: nat, l: nat, f0: nat, f: nat)
    requires perFrame > 0 && t == s.total + cc < U64_RANGE
    requires h == t % LINE && v == l % perFrame
    requires l0 == s.total / LINE && l == t / LINE && f0 == l0 / perFrame && f == l / perFrame
    ensures l0 <= l && f0 <= f
    ensures var m, k := Moved(s, cc, perFrame), MovedTo(s, cc, t, l0, l, f0, f);
            Abs(m.state, m.adv.lines, m.adv.frames, perFrame) ==
            Raster(h, v, k.state.frames, k.state.lof, k.state.vertb, k.adv.lines, k.adv.frames)
  {
    MovedIs(s, cc, t, perFrame, l0, l, f0, f);
  }

  function AbsAfter(s: State, cc: nat, perFrame: nat): Raster
    requires perFrame > 0 && s.total < U64_RANGE
  {
    var m := Moved(s, cc, perFrame);
    Abs(m.state, m.adv.lines, m.adv.frames, perFrame)
  }

  function Quo(x: nat, m: nat): nat
    requires m > 0
  {
    DivAtMost(x, m);
    x / m
  }

  function Rem(x: nat, m: nat): nat
    requires m > 0
  {
    x % m
  }

  lemma OneMoreClock(s: State, cc: nat, cc1: nat, perFrame: nat)
    requires perFrame > 0 && cc1 == cc + 1 && s.total + cc1 < U64_RANGE && s.frames + s.total + cc1 < U64_RANGE
    ensures AbsAfter(s, cc1, perFrame) == StepRaster(AbsAfter(s, cc, perFrame), perFrame)
  {
    var t, t1 := s.total + cc, s.total + cc1;
    FramesBelow(t, perFrame);
    var l0, l, l1 := Quo(s.total, LINE), Quo(t, LINE), Quo(t1, LINE);
    StepFromQuotients(s, cc, cc1, t, t1, perFrame, Rem(t, LINE), Rem(t1, LINE), Rem(l, perFrame), Rem(l1, perFrame),
                      l0, l, l1, Quo(l0, perFrame), Quo(l, perFrame), Quo(l1, perFrame));
  }

  lemma StepFromQuotients(s: State, cc: nat, cc1: nat, t: nat, t1: nat, perFrame: nat, h: nat, h1: nat, v: nat, v1: nat,
                          l0: nat, l: nat, l1: nat, f0: nat, f: nat, f1: nat)
    requires perFrame > 0 && cc1 == cc + 1 && t == s.total + cc && t1 == s.total + cc1 < U64_RANGE
    requires h == t % LINE && h1 == t1 % LINE && l0 == s.total / LINE && l == t / LINE && l1 == t1 / LINE
    requires v == l % perFrame && v1 == l1 % perFrame && f0 == l0 / perFrame && f == l / perFrame && f1 == l1 / perFrame
    requires s.frames + f + 1 < U64_RANGE
    ensures AbsAfter(s, cc1, perFrame) == StepRaster(AbsAfter(s, cc, perFrame), perFrame)
  {
    AbsMoved(s, cc, t, perFrame, h, v, l0, l, f0, f);
    AbsMoved(s, cc1, t1, perFrame, h1, v1, l0, l1, f0, f1);
    NextPosition(t, t1, perFrame, h, l, l1, v, f, f1);
    RasterStep(s, cc, cc1, t, t1, perFrame, h, v, l0, l, l1, f0, f, f1);
  }

  /** One raster step on the quotients and remainders before and after it. */
  lemma RasterStep(s: State, cc: nat, cc1: nat, t: nat, t1: nat, perFrame: nat, h: nat, v: nat,
                   l0: nat, l: nat, l': nat, f0: nat, f: nat, f': nat)
    requires l0 <= l <= l' && f0 <= f <= f' && s.frames + f + 1 < U64_RANGE
    requires h < LINE && v < perFrame
    requires l' == l + (if h + 1 == LINE then 1 else 0)
    requires f' == f + (if h + 1 == LINE && v + 1 == perFrame then 1 else 0)
    ensures var m, m1 := MovedTo(s, cc, t, l0, l, f0, f), MovedTo(s, cc1, t1, l0, l', f0, f');
            var h' := if h + 1 == LINE then 0 else h + 1;
            var v' := if h + 1 < LINE then v else if v + 1 == perFrame then 0 else v + 1;
            Raster(h', v', m1.state.frames, m1.state.lof, m1.state.vertb, m1.adv.lines, m1.adv.frames) ==
            StepRaster(Raster(h, v, m.state.frames, m.state.lof, m.state.vertb, m.adv.lines, m.adv.frames), perFrame)
  {
    FlippedTwice(s.lof, f - f0, f' - f);
  }

  lemma FewerFrames(t0: nat, t1: nat, perFrame: nat)
    requires t0 <= t1 && perFrame > 0
    ensures 0 <= t1 / LINE / perFrame - t0 / LINE / perFrame <= t1
  {
    MovedForward(t0, t1, perFrame);
    DivAtMost(t1 / LINE, perFrame);
  }

  lemma DivAtMost(x: nat, m: nat)
    requires m > 0
    ensures 0 <= x / m <= x
  {
    DivModLaw(x, m);
    if x / m > 0 {
      MulAtLeast(x / m, m);
      assert m * (x / m) == (x / m) * m;
    }
  }

  /** The derived beam refines the stepped raster: position, frame count, LOF, the latched vertical blank and the
      numbers of lines and frames started are those of `cc` single steps. */
  lemma {:induction false} BeamRefinesRaster(s: State, cc: nat, perFrame: nat)
    requires perFrame > 0 && s.total + cc < U64_RANGE && s.frames + s.total + cc < U64_RANGE
    ensures AbsAfter(s, cc, perFrame) == StepsRaster(Abs(s, 0, 0, perFrame), cc, perFrame)
    decreases cc
  {
    if cc > 0 {
      BeamRefinesRaster(s, cc - 1, perFrame);
      OneMoreClock(s, cc - 1, cc, perFrame);
    }
  }

  /** A tick of CPU clocks: with the carry it is `n` colour clocks of `r` CPU clocks each, and the rest is carried; the
      raster takes `n` steps. A ratio of 0 counts as 1. Calls of a line or more on end are counted. */
  lemma TickRefinesRaster(s: State, clocks: nat, ratio: nat, perFrame: nat, r: nat, n: nat, carry: nat)
    requires perFrame > 0 && r == (if ratio == 0 then 1 else ratio)
    requires s.carry + clocks == n * r + carry && carry < r
    requires s.total + n < U64_RANGE && s.frames + s.total + n < U64_RANGE
    ensures var m := Ticked(s, clocks, ratio, perFrame);
            && m.state.carry == carry
            && m.state.streak == (if n < 227 then 0 else if s.streak == 0xFFFF_FFFF then s.streak else s.streak + 1)
            && Abs(m.state, m.adv.lines, m.adv.frames, perFrame) == StepsRaster(Abs(s, 0, 0, perFrame), n, perFrame)
  {
    ModUnique(s.carry + clocks, r, n, carry);
    BeamRefinesRaster(s, n, perFrame);
  }

  // ---- splitting a tick --------------------------------------------------------------------

  /** Everything but the coarse-call detector. */
  predicate SameBeam(s: State, t: State) { s.(streak := 0) == t.(streak := 0) }

  /** Two moves on end are one, whatever carry is stored in between. */
  lemma MovedAdds(s: State, m: nat, n: nat, mn: nat, c: nat, perFrame: nat)
    requires perFrame > 0 && mn == m + n && s.total + mn < U64_RANGE && s.frames + s.total + mn < U64_RANGE
    ensures var x, z := Moved(s, m, perFrame), Moved(s, mn, perFrame);
            x.state.total < U64_RANGE &&
            var y := Moved(x.state.(carry := c), n, perFrame);
            && SameBeam(y.state.(carry := 0), z.state.(carry := 0))
            && x.adv.lines + y.adv.lines == z.adv.lines
            && x.adv.frames + y.adv.frames == z.adv.frames
  {
    var t1, t2 := s.total + m, s.total + mn;
    FramesBelow(t2, perFrame);
    var l0, l1, l2 := Quo(s.total, LINE), Quo(t1, LINE), Quo(t2, LINE);
    var f0, f1, f2 := Quo(l0, perFrame), Quo(l1, perFrame), Quo(l2, perFrame);
    MovedIs(s, m, t1, perFrame, l0, l1, f0, f1);
    MovedIs(s, mn, t2, perFrame, l0, l2, f0, f2);
    var x := Moved(s, m, perFrame).state.(carry := c);
    MovedIs(x, n, t2, perFrame, l1, l2, f1, f2);
    MovedToAdds(s, m, n, c, t1, t2, l0, l1, l2, f0, f1, f2);
  }

  lemma MovedToAdds(s: State, m: nat, n: nat, c: nat, t1: nat, t2: nat, l0: nat, l1: nat, l2: nat,
                    f0: nat, f1: nat, f2: nat)
    requires l0 <= l1 <= l2 && f0 <= f1 <= f2 && s.frames + f2 < U64_RANGE
    ensures var x := MovedTo(s, m, t1, l0, l1, f0, f1);
            var y := MovedTo(x.state.(carry := c), n, t2, l1, l2, f1, f2);
            var z := MovedTo(s, m + n, t2, l0, l2, f0, f2);
            && SameBeam(y.state.(carry := 0), z.state.(carry := 0))
            && x.adv.lines + y.adv.lines == z.adv.lines
            && x.adv.frames + y.adv.frames == z.adv.frames
  {
    FlippedTwice(s.lof, f1 - f0, f2 - f1);
  }

  lemma FramesBelow(t: nat, perFrame: nat)
    requires perFrame > 0
    ensures 0 <= t / LINE / perFrame <= t
  {
    DivAtMost(t / LINE, perFrame);
  }

  /** Every split of a number of CPU clocks into two ticks gives the same position, carry, frame
      count, LOF and interrupt, and the same summed lines and frames. */
  lemma TickSplits(s: State, a: nat, b: nat, ratio: nat, perFrame: nat)
    requires ratio > 0 && perFrame > 0
    requires s.total + (s.carry + a + b) / ratio < U64_RANGE
    requires s.frames + s.total + (s.carry + a + b) / ratio < U64_RANGE
    ensures (s.carry + a) / ratio <= (s.carry + a + b) / ratio
    ensures var x := Ticked(s, a, ratio, perFrame);
            x.state.total < U64_RANGE &&
            var y := Ticked(x.state, b, ratio, perFrame);
            var z := Ticked(s, a + b, ratio, perFrame);
            && SameBeam(y.state, z.state)
            && x.adv.lines + y.adv.lines == z.adv.lines
            && x.adv.frames + y.adv.frames == z.adv.frames
  {
    SplitCarry(s.carry, a, b, ratio);
    var m, c := (s.carry + a) / ratio, (s.carry + a) % ratio;
    var n, mn := (c + b) / ratio, (s.carry + a + b) / ratio;
    MovedAdds(s, m, n, mn, c, perFrame);
    assert Ticked(s, a, ratio, perFrame).state == Moved(s, m, perFrame).state.(carry := c);
  }

  // ---- LOF is the parity of the frame count ---------------------------------------------------

  predicate LofInv(s: State) { s.lof == Flipped(false, s.frames) }

  lemma LofIsFrameParity(s: State, clocks: nat, ratio: nat, perFrame: nat)
    requires perFrame > 0 && s.total < U64_RANGE && LofInv(s)
    requires s.total + s.carry + clocks < U64_RANGE && s.frames + s.total + s.carry + clocks < U64_RANGE
    ensures LofInv(Ticked(s, clocks, ratio, perFrame).state)
  {
    var r := if ratio == 0 then 1 else ratio;
    var cc := Quo(s.carry + clocks, r);
    DivAtMost(s.carry + clocks, r);
    var t := s.total + cc;
    var l0, l := Quo(s.total, LINE), Quo(t, LINE);
    var f0, f := Quo(l0, perFrame), Quo(l, perFrame);
    FewerFrames(s.total, t, perFrame);
    MovedIs(s, cc, t, perFrame, l0, l, f0, f);
    MovedKeepsLof(s, cc, t, l0, l, f0, f);
  }

  lemma MovedKeepsLof(s: State, cc: nat, t: nat, l0: nat, l: nat, f0: nat, f: nat)
    requires LofInv(s) && l0 <= l && f0 <= f && s.frames + (f - f0) < U64_RANGE
    ensures LofInv(MovedTo(s, cc, t, l0, l, f0, f).state)
  {
    FlippedTwice(false, s.frames, f - f0);
  }

  // ---- the position registers -----------------------------------------------------------------

  /** VPOSR and VHPOSR together give back the exact position, for any frame of up to 512 lines. */
  lemma PositionReadback(s: State, perFrame: nat)
    requires 0 < perFrame <= 512
    ensures (Vposr(s, perFrame) % 2) * 0x100 + Vhposr(s, perFrame) / 0x100 == Vpos(s, perFrame)
    ensures Vhposr(s, perFrame) % 0x100 == Hpos(s)
    ensures Vposr(s, perFrame) / 0x8000 == (if s.lof then 1 else 0)
    ensures Vposr(s, perFrame) / 2 % 0x4000 == 0x1000
  {
    DivModLaw(s.total / LINE, perFrame);
    ReadbackOf(s.lof, Vpos(s, perFrame), Hpos(s));
  }

  lemma ReadbackOf(lof: bool, v: nat, h: nat)
    requires v < 512 && h < 0x100
    ensures var vposr := (if lof then 0x8000 else 0) + AGNUS_ID + (v / 0x100) % 2;
            var vhposr := (v % 0x100) * 0x100 + h % 0x100;
            && (vposr % 2) * 0x100 + vhposr / 0x100 == v && vhposr % 0x100 == h
            && vposr / 0x8000 == (if lof then 1 else 0) && vposr / 2 % 0x4000 == 0x1000
  {
  }

  // ---- the line deadline ------------------------------------------------------------------------

  lemma LinesCrossed(t: nat, cc: nat)
    ensures cc < LINE - t % LINE ==> (t + cc) / LINE == t / LINE
    ensures cc == LINE - t % LINE ==> (t + cc) / LINE == t / LINE + 1
  {
    DivModLaw(t, LINE);
    if cc < LINE - t % LINE {
      ModUnique(t + cc, LINE, t / LINE, t % LINE + cc);
    } else if cc == LINE - t % LINE {
      ModUnique(t + cc, LINE, t / LINE + 1, 0);
    }
  }

  lemma ClocksToColourClocks(carry: nat, k: nat, n: nat, ratio: nat)
    requires ratio > 0 && n > 0
    ensures carry + k == n * ratio ==> (carry + k) / ratio == n
    ensures carry + k < n * ratio ==> (carry + k) / ratio < n
  {
    DivModLaw(carry + k, ratio);
    var q := (carry + k) / ratio;
    assert ratio * (q - n) == ratio * q - n * ratio;
    if carry + k == n * ratio {
      ModUnique(carry + k, ratio, n, 0);
    } else if q > n {
      MulAtLeast(ratio, q - n);
    }
  }

  /** The deadline before the 32-bit cast. */
  function Due(s: State, ratio: nat): int { (LINE - Hpos(s)) * ratio - s.carry }

  lemma DueIsPositive(s: State, ratio: nat)
    requires s.carry < ratio
    ensures Due(s, ratio) >= 1
    ensures ClocksUntilLineBoundary(s, ratio) <= Due(s, ratio)
    ensures ClocksUntilLineBoundary(s, ratio) == Due(s, ratio) <==> Due(s, ratio) < U32_RANGE
  {
    var n := LINE - Hpos(s);
    MulAtLeast(ratio, n);
    assert n * ratio == ratio * n;
    if Due(s, ratio) < U32_RANGE {
      SmallMod(Due(s, ratio), U32_RANGE);
    }
    DivModLaw(Due(s, ratio), U32_RANGE);
  }

  /** No number of clocks below the true deadline starts a line; that many start exactly one. */
  lemma DueIsExact(s: State, k: nat, ratio: nat, perFrame: nat)
    requires perFrame > 0 && s.carry < ratio && s.total + LINE < U64_RANGE && k <= Due(s, ratio)
    ensures Ticked(s, k, ratio, perFrame).adv.lines == if k < Due(s, ratio) then 0 else 1
  {
    ClocksToColourClocks(s.carry, k, LINE - Hpos(s), ratio);
    LinesAfter(s, k, ratio, perFrame, (s.carry + k) / ratio);
  }

  /** The line deadline, for every ratio: any number of clocks below it starts no line, and exactly that
      many start one line if and only if the ratio is not 0 and the true deadline fits the 32 bits it is
      returned in. (A tick takes a ratio of 0 as 1, so it leaves a carry below max(1, ratio).) */
  lemma LineDeadlineIsExact(s: State, k: nat, ratio: nat, perFrame: nat)
    requires perFrame > 0 && s.carry < (if ratio == 0 then 1 else ratio) && s.total + LINE < U64_RANGE
    ensures var told := ClocksUntilLineBoundary(s, ratio);
            && (k < told ==> Ticked(s, k, ratio, perFrame).adv.lines == 0)
            && (Ticked(s, told, ratio, perFrame).adv.lines == 1 <==> ratio > 0 && Due(s, ratio) < U32_RANGE)
  {
    if ratio == 0 {
      ZeroRatioDeadline(s, perFrame);
    } else {
      PositiveRatioDeadline(s, k, ratio, perFrame);
    }
  }

  lemma PositiveRatioDeadline(s: State, k: nat, ratio: nat, perFrame: nat)
    requires perFrame > 0 && s.carry < ratio && s.total + LINE < U64_RANGE
    ensures var told := ClocksUntilLineBoundary(s, ratio);
            && (k < told ==> Ticked(s, k, ratio, perFrame).adv.lines == 0)
            && (Ticked(s, told, ratio, perFrame).adv.lines == 1 <==> Due(s, ratio) < U32_RANGE)
  {
    var told := ClocksUntilLineBoundary(s, ratio);
    DueIsPositive(s, ratio);
    DueIsExact(s, told, ratio, perFrame);
    if k < told {
      DueIsExact(s, k, ratio, perFrame);
    }
  }

  lemma LinesAfter(s: State, k: nat, ratio: nat, perFrame: nat, cc: nat)
    requires ratio > 0 && perFrame > 0 && s.total + LINE < U64_RANGE
    requires cc == (s.carry + k) / ratio
    ensures cc < LINE - Hpos(s) ==> Ticked(s, k, ratio, perFrame).adv.lines == 0
    ensures cc == LINE - Hpos(s) ==> Ticked(s, k, ratio, perFrame).adv.lines == 1
  {
    LinesCrossed(s.total, cc);
  }

  /** A tick takes a zero ratio as one, the deadline does not: it answers 0, and no clock starts no
      line. */
  lemma ZeroRatioDeadline(s: State, perFrame: nat)
    requires perFrame > 0 && s.carry == 0 && s.total < U64_RANGE
    ensures ClocksUntilLineBoundary(s, 0) == 0
    ensures Ticked(s, 0, 0, perFrame).adv.lines == 0
  {
  }

  /** 2^31 CPU clocks per colour clock at the start of a line: the next line is 227 * 2^31 clocks away, the
      deadline says 2^31, and that many clocks are one colour clock. */
  lemma LineDeadlineTruncates(perFrame: nat)
    requires perFrame > 0
    ensures var s := State(0, 0, 0, false, false, 0);
            && Due(s, 0x8000_0000) == 227 * 0x8000_0000
            && ClocksUntilLineBoundary(s, 0x8000_0000) == 0x8000_0000
            && Ticked(s, 0x8000_0000, 0x8000_0000, perFrame).adv.lines == 0
            && Hpos(Ticked(s, 0x8000_0000, 0x8000_0000, perFrame).state) == 1
  {
    SmallMod(0, perFrame);
  }
}
