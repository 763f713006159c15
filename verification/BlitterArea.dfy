/**
 What an area blit means (crates/machine-core/src/blitter.rs `execute_area`).

 The reference below numbers the words of a transfer 0, 1, 2, ... across all rows and gives each output
 word as a function of the memory before the blit. The loops compute it whenever no word is fetched
 after the blit has overwritten it; the barrel shifter, area fill and overlapping copies follow.
 */
module BlitterArea {
  import opened Bits
  import opened BlitterWord
  import opened Blitter

  /** A transfer about to start. */
  datatype Job = Job(alu: Alu, s: Setup, f: Flow)

  function JobOf(alu: Alu, r: Regs, ram: Ram): Job { Job(alu, AreaSetup(r), AreaStart(r, ram)) }

  predicate Starting(t: Job) { t.s.width > 0 && t.f.carry == t.s.fci }

  // ---- the reference ------------------------------------------------------------------------

  /** The column of word `j`. */
  function Col(w: nat, j: nat): nat {
    if j == 0 then 0 else if Col(w, j - 1) + 1 == w then 0 else Col(w, j - 1) + 1
  }

  /** A channel's pointer at word `j`. */
  function Ptr(s: Setup, used: bool, p: u32, mod: int, j: nat): u32 {
    if j == 0 then p
    else
      var q := Bumped(used, Ptr(s, used, p, mod, j - 1), Stride(s.desc));
      if Col(s.width, j) == 0 then Bumped(used, q, mod) else q
  }

  function APtr(t: Job, j: nat): u32 { Ptr(t.s, t.s.useA, t.f.apt, t.s.amod, j) }
  function BPtr(t: Job, j: nat): u32 { Ptr(t.s, t.s.useB, t.f.bpt, t.s.bmod, j) }
  function CPtr(t: Job, j: nat): u32 { Ptr(t.s, t.s.useC, t.f.cpt, t.s.cmod, j) }
  function DPtr(t: Job, j: nat): u32 { Ptr(t.s, t.s.useD, t.f.dpt, t.s.dmod, j) }

  /** The fetched words, all taken from the memory before the blit. */
  function MaskedA(t: Job, j: nat): u16 {
    Masked(t.alu, t.s, Fetch(t.s.useA, t.f.ram, APtr(t, j), t.s.adat), Col(t.s.width, j))
  }

  function RawB(t: Job, j: nat): u16 { Fetch(t.s.useB, t.f.ram, BPtr(t, j), t.s.bdat) }
  function RawC(t: Job, j: nat): u16 { Fetch(t.s.useC, t.f.ram, CPtr(t, j), t.f.cdat) }

  function PrevA(t: Job, j: nat): u16 { if j == 0 then t.f.aPrev else MaskedA(t, j - 1) }
  function PrevB(t: Job, j: nat): u16 { if j == 0 || !t.s.useB then t.f.bPrev else RawB(t, j - 1) }
  function PrevC(t: Job, j: nat): u16 { if j == 0 then t.f.cdat else RawC(t, j - 1) }

  function ShiftedA(t: Job, j: nat): u16 { t.alu.shift(PrevA(t, j), MaskedA(t, j), t.s.ash, t.s.desc) }

  /** The word out of the logic unit, before fill. */
  function Logic(t: Job, j: nat): u16 {
    t.alu.logic(t.s.lf, ShiftedA(t, j), ChannelB(t.alu, t.s, PrevB(t, j), RawB(t, j)), RawC(t, j))
  }

  function Carry(t: Job, j: nat): bool {
    if j == 0 then t.f.carry
    else if Col(t.s.width, j) == 0 then t.s.fci
    else CarryPast(t, j - 1, Carry(t, j - 1))
  }

  /** The carry after word `j`, from the carry before it. */
  function CarryPast(t: Job, j: nat, c: bool): bool { CarryOver(t.alu, t.s, Logic(t, j), c) }

  lemma CarrySteps(t: Job, j: nat, next: nat)
    requires next == j + 1 && Col(t.s.width, next) != 0
    ensures Carry(t, next) == CarryPast(t, j, Carry(t, j))
  {
  }

  /** Output word `j`. */
  function Out(t: Job, j: nat): u16 { Output(t.alu, t.s, Logic(t, j), Carry(t, j)) }

  /** The memory after the first `j` output words. */
  function Written(t: Job, j: nat): Ram {
    if j == 0 then t.f.ram else Stored(t.s.useD, Written(t, j - 1), DPtr(t, j - 1), Out(t, j - 1))
  }

  predicate AllZero(t: Job, j: nat) { if j == 0 then t.f.zero else AllZero(t, j - 1) && Blank(t, j - 1) }
  predicate Blank(t: Job, j: nat) { Out(t, j) == 0 }
  function LastOut(t: Job, j: nat): u16 { if j == 0 then t.f.lastD else Out(t, j - 1) }

  /** The state of the loops before word `j`. */
  function Before(t: Job, j: nat): Flow {
    Flow(Written(t, j), APtr(t, j), BPtr(t, j), CPtr(t, j), DPtr(t, j),
         PrevA(t, j), PrevB(t, j), PrevC(t, j), Carry(t, j), AllZero(t, j), LastOut(t, j))
  }

  /** Output word `k` does not land on a word that step `j` still fetches or on another output word. */
  predicate Clear(t: Job, k: nat, j: nat) {
    var d := WordAt(DPtr(t, k));
    && (t.s.useA ==> d != WordAt(APtr(t, j)))
    && (t.s.useB ==> d != WordAt(BPtr(t, j)))
    && (t.s.useC ==> d != WordAt(CPtr(t, j)))
    && d != WordAt(DPtr(t, j))
  }

  /** Nothing is fetched after it was overwritten, and no word is written twice. */
  predicate HazardFree(t: Job, n: nat) {
    t.s.useD ==> forall k: nat, j: nat :: k < j < n ==> Clear(t, k, j)
  }

  // ---- the loops compute the reference -----------------------------------------------------------

  predicate Untouched(t: Job, at: WordIndex, j: nat) {
    t.s.useD ==> forall k: nat :: k < j ==> WordAt(DPtr(t, k)) != at
  }

  /** Output word `i` changes its own word alone. */
  lemma {:induction false} WrittenStep(t: Job, i: nat, next: nat, at: WordIndex)
    requires next == i + 1 && t.s.useD
    ensures Peek(Written(t, next), at) ==
            if at == WordAt(DPtr(t, i)) then Out(t, i) else Peek(Written(t, i), at)
  {
    PeekPoke(Written(t, i), WordAt(DPtr(t, i)), Out(t, i), at);
  }

  lemma {:induction false} WrittenElsewhere(t: Job, j: nat, at: WordIndex)
    requires Untouched(t, at, j)
    ensures Peek(Written(t, j), at) == Peek(t.f.ram, at)
  {
    if j > 0 {
      var i := j - 1;
      WrittenElsewhere(t, i, at);
      if t.s.useD { WrittenStep(t, i, j, at); }
    }
  }

  lemma {:induction false} WrittenAt(t: Job, n: nat, j: nat, k: nat)
    requires HazardFree(t, n) && t.s.useD && k < j <= n
    ensures Peek(Written(t, j), WordAt(DPtr(t, k))) == Out(t, k)
    decreases j
  {
    var i := j - 1;
    WrittenStep(t, i, j, WordAt(DPtr(t, k)));
    if k < i {
      assert Clear(t, k, i);
      WrittenAt(t, n, i, k);
    }
  }

  lemma FetchedUntouched(t: Job, n: nat, j: nat)
    requires HazardFree(t, n) && j < n
    ensures t.s.useA ==> Untouched(t, WordAt(APtr(t, j)), j)
    ensures t.s.useB ==> Untouched(t, WordAt(BPtr(t, j)), j)
    ensures t.s.useC ==> Untouched(t, WordAt(CPtr(t, j)), j)
  {
    if t.s.useD {
      var a, b, c := WordAt(APtr(t, j)), WordAt(BPtr(t, j)), WordAt(CPtr(t, j));
      forall k: nat | k < j
        ensures t.s.useA ==> WordAt(DPtr(t, k)) != a
        ensures t.s.useB ==> WordAt(DPtr(t, k)) != b
        ensures t.s.useC ==> WordAt(DPtr(t, k)) != c
      {
        assert Clear(t, k, j);
      }
    }
  }

  lemma FetchesOriginal(t: Job, n: nat, j: nat)
    requires HazardFree(t, n) && j < n
    ensures Fetch(t.s.useA, Written(t, j), APtr(t, j), t.s.adat) == Fetch(t.s.useA, t.f.ram, APtr(t, j), t.s.adat)
    ensures Fetch(t.s.useB, Written(t, j), BPtr(t, j), t.s.bdat) == RawB(t, j)
    ensures Fetch(t.s.useC, Written(t, j), CPtr(t, j), PrevC(t, j)) == RawC(t, j)
  {
    FetchedUntouched(t, n, j);
    if t.s.useA { WrittenElsewhere(t, j, WordAt(APtr(t, j))); }
    if t.s.useB { WrittenElsewhere(t, j, WordAt(BPtr(t, j))); }
    if t.s.useC { WrittenElsewhere(t, j, WordAt(CPtr(t, j))); }
  }

  /** One word of the inner loop, and the end of the row where it falls. */
  lemma StepAdvances(t: Job, n: nat, j: nat, i: nat)
    requires HazardFree(t, n) && Starting(t) && j < n && i == Col(t.s.width, j)
    ensures i + 1 == t.s.width ==> RowEnd(t.s, WordStep(t.alu, t.s, Before(t, j), i)) == Before(t, j + 1)
    ensures i + 1 != t.s.width ==> WordStep(t.alu, t.s, Before(t, j), i) == Before(t, j + 1)
  {
    FetchesOriginal(t, n, j);
    WordFields(t, j, i);
  }

  /** What word `j` leaves in the latches and the memory. */
  lemma WordFields(t: Job, j: nat, i: nat)
    requires i == Col(t.s.width, j)
    requires Fetch(t.s.useA, Written(t, j), APtr(t, j), t.s.adat) == Fetch(t.s.useA, t.f.ram, APtr(t, j), t.s.adat)
    requires Fetch(t.s.useB, Written(t, j), BPtr(t, j), t.s.bdat) == RawB(t, j)
    requires Fetch(t.s.useC, Written(t, j), CPtr(t, j), PrevC(t, j)) == RawC(t, j)
    ensures var g := WordStep(t.alu, t.s, Before(t, j), i);
            && g.ram == Written(t, j + 1) && g.zero == AllZero(t, j + 1) && g.lastD == Out(t, j)
            && g.aPrev == MaskedA(t, j) && g.bPrev == PrevB(t, j + 1) && g.cdat == RawC(t, j)
            && g.carry == CarryOver(t.alu, t.s, Logic(t, j), Carry(t, j))
  {
  }

  lemma {:induction false} RowAdvances(t: Job, n: nat, j: nat, i: nat, m: nat, end: nat)
    requires HazardFree(t, n) && Starting(t) && end == j + m <= n && m > 0
    requires i == Col(t.s.width, j) && i + m == t.s.width
    ensures RowEnd(t.s, WordSteps(t.alu, t.s, Before(t, j), i, m)) == Before(t, end) && Col(t.s.width, end) == 0
    decreases m
  {
    StepAdvances(t, n, j, i);
    var next := WordStep(t.alu, t.s, Before(t, j), i);
    if m == 1 {
      assert WordSteps(t.alu, t.s, next, i + 1, 0) == next;
    } else {
      RowAdvances(t, n, j + 1, i + 1, m - 1, end);
    }
  }

  lemma OneRowLess(rows: nat, w: nat)
    requires rows > 0
    ensures rows * w == w + (rows - 1) * w && (rows - 1) * w >= 0
  {
    MulMono(w, 0, rows - 1);
    assert w * (rows - 1) == (rows - 1) * w;
  }

  lemma {:induction false} RowsAdvance(t: Job, n: nat, j: nat, rows: nat, left: nat)
    requires HazardFree(t, n) && Starting(t) && left == rows * t.s.width && n == j + left && Col(t.s.width, j) == 0
    ensures Rows(t.alu, t.s, Before(t, j), rows) == Before(t, n)
    decreases rows
  {
    if rows > 0 {
      var w := t.s.width;
      OneRowLess(rows, w);
      var next := j + w;
      RowAdvances(t, n, j, 0, w, next);
      RowsAdvance(t, n, next, rows - 1, left - w);
    }
  }

  /** A hazard-free area blit: every output word is the reference word, every other word keeps its
      value, and BZERO tells whether all outputs were zero. */
  lemma AreaMeaning(t: Job, rows: nat, n: nat)
    requires n == rows * t.s.width && Starting(t) && HazardFree(t, n)
    ensures Rows(t.alu, t.s, t.f, rows) == Before(t, n)
    ensures t.s.useD ==> forall k: nat :: k < n ==> Peek(Before(t, n).ram, WordAt(DPtr(t, k))) == Out(t, k)
    ensures forall at: WordIndex :: Untouched(t, at, n) ==> Peek(Before(t, n).ram, at) == Peek(t.f.ram, at)
  {
    assert Before(t, 0) == t.f;
    RowsAdvance(t, n, 0, rows, n);
    if t.s.useD {
      forall k: nat | k < n
        ensures Peek(Before(t, n).ram, WordAt(DPtr(t, k))) == Out(t, k)
      {
        WrittenAt(t, n, n, k);
      }
    }
    forall at: WordIndex | Untouched(t, at, n)
      ensures Peek(Before(t, n).ram, at) == Peek(t.f.ram, at)
    {
      WrittenElsewhere(t, n, at);
    }
  }

  lemma {:induction false} ZeroFlag(t: Job, n: nat)
    ensures AllZero(t, n) == (t.f.zero && forall k: nat :: k < n ==> Blank(t, k))
  {
    if n > 0 { ZeroFlag(t, n - 1); }
  }

  // ---- rows and columns -----------------------------------------------------------------------------

  /** Word `j` is column `i` of row `r`. */
  predicate IsCell(w: nat, j: nat, r: nat, i: nat) { i < w && j == r * w + i }

  lemma {:induction false} CellColumn(w: nat, j: nat, r: nat, i: nat)
    requires IsCell(w, j, r, i)
    ensures Col(w, j) == i
    decreases j
  {
    if i > 0 {
      CellColumn(w, j - 1, r, i - 1);
    } else if r > 0 {
      OneRowLess(r, w);
      CellColumn(w, j - 1, r - 1, w - 1);
    }
  }

  lemma CellOf(w: nat, j: nat, h: nat) returns (r: nat, i: nat)
    requires j < h * w && w > 0
    ensures IsCell(w, j, r, i) && r < h
  {
    r, i := j / w, j % w;
    DivModLaw(j, w);
    if r >= h { MulMono(w, h, r); }
  }

  lemma CellInside(w: nat, h: nat, j: nat, r: nat, i: nat)
    requires IsCell(w, j, r, i) && r < h
    ensures j < h * w && r * w + w <= h * w
  {
    MulMono(w, r + 1, h);
    assert w * (r + 1) == r * w + w;
  }
}
