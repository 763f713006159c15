/**
 Rectangle copies (crates/machine-core/src/blitter.rs `execute_area`): an ascending blit to a lower
 address and a descending blit to a higher one are both memmove, however much source and destination
 overlap.
 */
module BlitterCopy {
  import opened Bits
  import opened BlitterWord
  import opened Blitter
  import opened BlitterArea
  import opened BlitterHazards
  import opened BlitterStreams

  // ---- a plain copy ----------------------------------------------------------------------------

  /** D = A with no shift, full masks, and one non-negative even modulo `m` for both channels. */
  ghost predicate PlainCopy(t: Job, m: nat) {
    && CopiesThrough(t) && t.s.ash == 0 && t.s.afwm == 0xFFFF && t.s.alwm == 0xFFFF
    && !t.s.useB && !t.s.useC && Starting(t)
    && t.s.amod == t.s.dmod == Turned(t.s.desc, m) && m % 2 == 0
  }

  predicate Inside(t: Job, m: nat, n: nat) {
    LaneInside(t.s.desc, t.s.width, n, Lane(t.f.apt, m)) && LaneInside(t.s.desc, t.s.width, n, Lane(t.f.dpt, m))
  }

  lemma PointersAt(t: Job, m: nat, n: nat, j: nat)
    requires PlainCopy(t, m) && Inside(t, m, n) && j < n
    ensures var d := Along(t.s.width, m, j);
            && 0 <= Place(t.s.desc, t.f.apt, d) < CHIP_RAM_SIZE && 0 <= Place(t.s.desc, t.f.dpt, d) < CHIP_RAM_SIZE
            && APtr(t, j) == Place(t.s.desc, t.f.apt, d) && DPtr(t, j) == Place(t.s.desc, t.f.dpt, d)
  {
    LaneAt(t.s, n, Lane(t.f.apt, m), t.s.amod, j);
    LaneAt(t.s, n, Lane(t.f.dpt, m), t.s.dmod, j);
  }

  lemma CopyIsHazardFree(t: Job, m: nat, rows: nat, n: nat)
    requires n == rows * t.s.width && rows > 0 && PlainCopy(t, m) && Inside(t, m, n)
    requires Behind(t.s.desc, Lane(t.f.dpt, m), Lane(t.f.apt, m))
    ensures HazardFree(t, n)
  {
    var d, a := Lane(t.f.dpt, m), Lane(t.f.apt, m);
    LanesAreHazardFree(t, rows, n, Lanes(a, a, a, d));
  }

  lemma CopiesWord(t: Job, m: nat, j: nat)
    requires PlainCopy(t, m)
    ensures Out(t, j) == Peek(t.f.ram, WordAt(APtr(t, j)))
  {
    CopyOutputs(t, j);
    FullMask(Peek(t.f.ram, WordAt(APtr(t, j))));
  }

  /** Word by word: each destination word is the original source word, every other word is unchanged. */
  lemma CopyMovesWords(t: Job, m: nat, rows: nat, n: nat)
    requires n == rows * t.s.width && PlainCopy(t, m) && Inside(t, m, n)
    requires Behind(t.s.desc, Lane(t.f.dpt, m), Lane(t.f.apt, m))
    ensures var after := Rows(t.alu, t.s, t.f, rows).ram;
            && (forall j: nat :: j < n ==> Peek(after, WordAt(DPtr(t, j))) == Peek(t.f.ram, WordAt(APtr(t, j))))
            && (forall at: WordIndex :: Untouched(t, at, n) ==> Peek(after, at) == Peek(t.f.ram, at))
  {
    if rows > 0 { CopyIsHazardFree(t, m, rows, n); } else { assert n == 0; }
    AreaMeaning(t, rows, n);
    forall j: nat | j < n
      ensures Out(t, j) == Peek(t.f.ram, WordAt(APtr(t, j)))
    {
      CopiesWord(t, m, j);
    }
  }

  // ---- the rectangle --------------------------------------------------------------------------------

  /** Counting cells from the far corner. */
  lemma OffsetFlips(s: Shape, r: nat, i: nat)
    requires r < s.h && i < s.w
    ensures Last(s) - Offset(s.w, s.m, s.h - 1 - r, s.w - 1 - i) == Offset(s.w, s.m, r, i)
  {
    var row := 2 * s.w + s.m;
    assert (s.h - 1 - r) * row == (s.h - 1) * row - r * row;
  }

  /** The rectangle lies in the RAM. */
  predicate Fits(s: Shape, p: int) { s.w > 0 && s.h > 0 && 0 <= p && p + Last(s) < CHIP_RAM_SIZE }

  function Cell(s: Shape, p: int, r: nat, i: nat): WordIndex
    requires Fits(s, p) && r < s.h && i < s.w
  {
    OffsetBounds(s, r, i);
    (p + Offset(s.w, s.m, r, i)) / 2
  }

  predicate InRect(s: Shape, p: int, at: WordIndex)
    requires Fits(s, p)
  {
    exists r: nat, i: nat :: r < s.h && i < s.w && Cell(s, p, r, i) == at
  }

  /** Memmove: the destination rectangle is the original source rectangle, nothing else changed. */
  predicate Moved(s: Shape, src: int, dst: int, before: Ram, after: Ram)
    requires Fits(s, src) && Fits(s, dst)
  {
    && (forall r: nat, i: nat :: r < s.h && i < s.w ==>
          Peek(after, Cell(s, dst, r, i)) == Peek(before, Cell(s, src, r, i)))
    && (forall at: WordIndex :: !InRect(s, dst, at) ==> Peek(after, at) == Peek(before, at))
  }

  /** The pointers a blit of that rectangle starts from: the far corner when descending. */
  function Corner(s: Shape, desc: bool, p: int): int
    requires s.w > 0 && s.h > 0
  {
    if desc then p + Last(s) else p
  }

  ghost predicate CopyJob(t: Job, s: Shape, src: int, dst: int) {
    && PlainCopy(t, s.m) && s.w == t.s.width && s.h > 0 && Fits(s, src) && Fits(s, dst)
    && t.f.apt == Corner(s, t.s.desc, src) && t.f.dpt == Corner(s, t.s.desc, dst)
    && (if t.s.desc then dst >= src else dst <= src)
  }

  /** The cell that word `j` of the transfer covers. */
  lemma JobCell(t: Job, s: Shape, src: int, dst: int, n: nat, j: nat, r: nat, i: nat)
    requires CopyJob(t, s, src, dst) && Inside(t, s.m, n) && j < n
    requires r < s.h && i < s.w
    requires if t.s.desc then IsCell(s.w, j, s.h - 1 - r, s.w - 1 - i) else IsCell(s.w, j, r, i)
    ensures WordAt(APtr(t, j)) == Cell(s, src, r, i) && WordAt(DPtr(t, j)) == Cell(s, dst, r, i)
  {
    PointersAt(t, s.m, n, j);
    WordInside(APtr(t, j));
    WordInside(DPtr(t, j));
    if t.s.desc {
      AlongIsOffset(s.w, s.m, j, s.h - 1 - r, s.w - 1 - i);
      OffsetFlips(s, r, i);
    } else {
      AlongIsOffset(s.w, s.m, j, r, i);
    }
  }

  lemma JobInside(t: Job, s: Shape, src: int, dst: int, n: nat)
    requires CopyJob(t, s, src, dst) && n == s.h * s.w
    ensures Inside(t, s.m, n)
  {
    MulMono(s.w, 0, s.h - 1);
    OneRowLess(s.h, s.w);
    AlongIsOffset(s.w, s.m, n - 1, s.h - 1, s.w - 1);
    OffsetBounds(s, 0, 0);
    OffsetBounds(s, s.h - 1, s.w - 1);
  }

  /** The word of the transfer that covers a cell. */
  lemma CellWord(t: Job, s: Shape, src: int, dst: int, n: nat, r: nat, i: nat) returns (j: nat)
    requires CopyJob(t, s, src, dst) && Inside(t, s.m, n) && n == s.h * s.w && r < s.h && i < s.w
    ensures j < n && WordAt(APtr(t, j)) == Cell(s, src, r, i) && WordAt(DPtr(t, j)) == Cell(s, dst, r, i)
  {
    var r', i' := if t.s.desc then s.h - 1 - r else r, if t.s.desc then s.w - 1 - i else i;
    MulMono(s.w, 0, r');
    j := r' * s.w + i';
    CellInside(s.w, s.h, j, r', i');
    JobCell(t, s, src, dst, n, j, r, i);
  }

  lemma WordInRect(t: Job, s: Shape, src: int, dst: int, n: nat, j: nat)
    requires CopyJob(t, s, src, dst) && Inside(t, s.m, n) && n == s.h * s.w && j < n
    ensures InRect(s, dst, WordAt(DPtr(t, j)))
  {
    var r, i := CellOf(s.w, j, s.h);
    if t.s.desc {
      JobCell(t, s, src, dst, n, j, s.h - 1 - r, s.w - 1 - i);
      assert Cell(s, dst, s.h - 1 - r, s.w - 1 - i) == WordAt(DPtr(t, j));
    } else {
      JobCell(t, s, src, dst, n, j, r, i);
    }
  }

  /** Both directions are memmove. */
  lemma CopyIsMemmove(t: Job, s: Shape, src: int, dst: int)
    requires CopyJob(t, s, src, dst)
    ensures Moved(s, src, dst, t.f.ram, Rows(t.alu, t.s, t.f, s.h).ram)
  {
    MulMono(s.w, 0, s.h);
    var n := s.h * s.w;
    JobInside(t, s, src, dst, n);
    CopyMovesWords(t, s.m, s.h, n);
    CellsMoved(t, s, src, dst, n, Rows(t.alu, t.s, t.f, s.h).ram);
  }

  lemma CellsMoved(t: Job, s: Shape, src: int, dst: int, n: nat, after: Ram)
    requires CopyJob(t, s, src, dst) && Inside(t, s.m, n) && n == s.h * s.w
    requires forall j: nat :: j < n ==> Peek(after, WordAt(DPtr(t, j))) == Peek(t.f.ram, WordAt(APtr(t, j)))
    requires forall at: WordIndex :: Untouched(t, at, n) ==> Peek(after, at) == Peek(t.f.ram, at)
    ensures Moved(s, src, dst, t.f.ram, after)
  {
    forall r: nat, i: nat | r < s.h && i < s.w
      ensures Peek(after, Cell(s, dst, r, i)) == Peek(t.f.ram, Cell(s, src, r, i))
    {
      var j := CellWord(t, s, src, dst, n, r, i);
    }
    forall at: WordIndex | !InRect(s, dst, at)
      ensures Peek(after, at) == Peek(t.f.ram, at)
    {
      forall k: nat | k < n
        ensures WordAt(DPtr(t, k)) != at
      {
        WordInRect(t, s, src, dst, n, k);
      }
      assert Untouched(t, at, n);
    }
  }

  // ---- from the registers ---------------------------------------------------------------------------------

  /** USEA | USED with D = A, and BLTCON1 clear or DESC alone. */
  const BLTCON0_COPY: u16 := 0x09F0
  const BLTCON1_DESC: u16 := 2

  predicate CopyRegisters(r: Regs, desc: bool, s: Shape, src: int, dst: int) {
    && r.con0 == BLTCON0_COPY && r.con1 == (if desc then BLTCON1_DESC else 0)
    && r.afwm == 0xFFFF && r.alwm == 0xFFFF
    && r.amod == r.dmod == s.m && s.m % 2 == 0 && r.width == s.w && r.height == s.h
    && Fits(s, src) && Fits(s, dst)
    && r.apt == Corner(s, desc, src) && r.dpt == Corner(s, desc, dst)
  }

  lemma CopyControl()
    ensures Bit(BLTCON0_COPY, 11) && !Bit(BLTCON0_COPY, 10) && !Bit(BLTCON0_COPY, 9) && Bit(BLTCON0_COPY, 8)
    ensures Bit(BLTCON1_DESC, 1) && !Bit(BLTCON1_DESC, 2) && !Bit(BLTCON1_DESC, 3) && !Bit(BLTCON1_DESC, 4)
  {
    assert Bit(BLTCON0_COPY, 8) == Bit(9, 0) && Bit(BLTCON0_COPY, 9) == Bit(9, 1);
    assert Bit(BLTCON0_COPY, 10) == Bit(9, 2) && Bit(BLTCON0_COPY, 11) == Bit(9, 3);
  }

  /** An overlapping copy, as the driver programs it: ascending onto a lower address, descending onto
      a higher one. */
  lemma OverlappingCopy(r: Regs, ram: Ram, desc: bool, s: Shape, src: int, dst: int)
    requires CopyRegisters(r, desc, s, src, dst)
    requires if desc then dst >= src else dst <= src
    ensures Moved(s, src, dst, ram, AreaBlit(HARDWARE, r, ram).ram)
  {
    CopyControl();
    ZeroBits(1);
    ZeroBits(2);
    ZeroBits(3);
    ZeroBits(4);
    var t := JobOf(HARDWARE, r, ram);
    assert t.s.desc == desc;
    assert PlainCopy(t, s.m);
    CopyIsMemmove(t, s, src, dst);
  }
}
