/**
 Area mode from the registers, bit by bit (crates/machine-core/src/blitter.rs `execute_area`): where each channel's
 words lie, and what every bit of the destination becomes, for any minterm, any enabled channels, any shifts and
 masks, with and without fill.

 A transfer is one bit stream: its words in the order they are visited, each from the left going up and from the
 right going down.
 */
module BlitterLogic {
  import opened Bits
  import opened BlitterWord
  import opened Blitter
  import opened BlitterArea
  import opened BlitterHazards
  import opened BlitterStreams
  import opened BlitterRegisters

  // ---- addresses -------------------------------------------------------------------------------------

  /** Byte distance of word `j` of a channel from its first word: two per word, and at each row end the modulo with
      bit 0 cleared. */
  function Distance(mod: i16, w: nat, j: nat): int
    requires w > 0
  {
    2 * j + (AsInt(mod) - mod % 2) * (j / w)
  }

  /** The pointer of word `j`, going up or down, modulo 2^32. */
  function Pointer(p: u32, mod: i16, desc: bool, w: nat, j: nat): u32
    requires w > 0
  {
    (if desc then AsInt(p) - Distance(mod, w, j) else AsInt(p) + Distance(mod, w, j)) % 0x1_0000_0000
  }

  /** The word in chip RAM a pointer selects: bit 0 ignored, 21 bits decoded, big-endian. */
  function Held(ram: Ram, p: u32): u16 {
    var a := p / 2 * 2 % 0x20_0000;
    256 * AsInt(ram[a]) + AsInt(ram[a + 1])
  }

  lemma HeldIsPeek(ram: Ram, p: u32)
    ensures Held(ram, p) == Peek(ram, WordAt(p))
  {
    HalvedMod(p / 2 * 2, WORDS);
    assert p / 2 * 2 % (2 * WORDS) == 2 * (p / 2 % WORDS);
  }

  lemma ColumnOf(w: nat, j: nat)
    requires w > 0
    ensures Col(w, j) == j % w
  {
    DivModLaw(j, w);
    assert IsCell(w, j, j / w, j % w) by { assert w * (j / w) == (j / w) * w; }
    CellColumn(w, j, j / w, j % w);
  }

  lemma RowBefore(w: nat, j: nat, q: nat, r: nat)
    requires w > 0 && j > 0 && j == w * q + r && r < w
    ensures (j - 1) / w == if r == 0 then q - 1 else q
  {
    if r == 0 {
      assert w * (q - 1) == w * q - w;
      ModUnique(j - 1, w, q - 1, w - 1);
    } else {
      ModUnique(j - 1, w, q, r - 1);
    }
  }

  lemma RowsPassed(w: nat, j: nat)
    requires w > 0
    ensures Col(w, j) == j % w
    ensures j > 0 ==> j / w == (j - 1) / w + (if Col(w, j) == 0 then 1 else 0)
  {
    ColumnOf(w, j);
    DivModLaw(j, w);
    if j > 0 { RowBefore(w, j, j / w, j % w); }
  }

  lemma OneWordOn(mod: i16, w: nat, j: nat)
    requires w > 0 && j > 0
    ensures Distance(mod, w, j) == Distance(mod, w, j - 1) + 2 + if Col(w, j) == 0 then Even(mod) else 0
  {
    RowsPassed(w, j);
    var e, k := AsInt(mod) - mod % 2, (j - 1) / w;
    assert e * (k + 1) == e * k + e;
  }

  lemma WrapsTwice(x: int, d: int)
    ensures Wrap32(AsInt(Wrap32(x)) + d) == Wrap32(x + d)
  {
    SmallMod(Wrap32(x), U32_RANGE);
    Congruent(U32_RANGE, Wrap32(x), x, d);
  }

  /** One step of a pointer, with the modulo where a row ends. */
  lemma OneStepOn(s: Setup, q: u32, x: int, dir: int, end: bool)
    requires q == Wrap32(x)
    ensures var q' := Bumped(true, q, Stride(s.desc));
            (if end then Bumped(true, q', dir) else q') == Wrap32(x + Stride(s.desc) + if end then dir else 0)
  {
    WrapsTwice(x, Stride(s.desc));
    WrapsTwice(x + Stride(s.desc), dir);
  }

  /** Stepping word by word, with the modulo at each row end, reaches that pointer, whatever wraps on the way. */
  lemma {:induction false} PointerReached(s: Setup, p: u32, mod: i16, dir: int, j: nat)
    requires s.width > 0 && dir == Directed(s.desc, mod)
    ensures Ptr(s, true, p, dir, j) == Pointer(p, mod, s.desc, s.width, j)
  {
    if j == 0 {
      assert Distance(mod, s.width, 0) == 0 by { SmallMod(0, s.width); }
      SmallMod(p, U32_RANGE);
    } else {
      PointerReached(s, p, mod, dir, j - 1);
      OneWordOn(mod, s.width, j);
      var d := Distance(mod, s.width, j - 1);
      OneStepOn(s, Pointer(p, mod, s.desc, s.width, j - 1), if s.desc then AsInt(p) - d else AsInt(p) + d, dir,
                Col(s.width, j) == 0);
    }
  }

  // ---- the source streams ---------------------------------------------------------------------------------

  predicate UseA(r: Regs) { Bit(r.con0, 11) }
  predicate UseB(r: Regs) { Bit(r.con0, 10) }
  predicate UseC(r: Regs) { Bit(r.con0, 9) }
  predicate UseD(r: Regs) { Bit(r.con0, 8) }
  predicate Desc(r: Regs) { Bit(r.con1, 1) }

  /** Word `j` of a channel: fetched when the channel is on, its data register otherwise. */
  function Source(on: bool, ram: Ram, p: u32, mod: i16, latch: u16, desc: bool, w: nat, j: nat): u16
    requires w > 0
  {
    if on then Held(ram, Pointer(p, mod, desc, w, j)) else latch
  }

  /** Bit `q` of the A stream, masked by BLTAFWM at the start and BLTALWM at the end of each row. */
  predicate ABit(r: Regs, ram: Ram, q: nat)
    requires r.width > 0
  {
    var j, p, w := q / 16, q % 16, r.width;
    && ScanBit(Source(UseA(r), ram, r.apt, r.amod, r.adat, Desc(r), w, j), p, Desc(r))
    && (j % w == 0 ==> ScanBit(r.afwm, p, Desc(r))) && (j % w == w - 1 ==> ScanBit(r.alwm, p, Desc(r)))
  }

  /** Bit `q` of the B stream as it stands in memory or in BLTBDAT. */
  predicate BBit(r: Regs, ram: Ram, q: nat)
    requires r.width > 0
  {
    ScanBit(Source(UseB(r), ram, r.bpt, r.bmod, r.bdat, Desc(r), r.width, q / 16), q % 16, Desc(r))
  }

  predicate CBit(r: Regs, ram: Ram, q: nat)
    requires r.width > 0
  {
    ScanBit(Source(UseC(r), ram, r.cpt, r.cmod, r.cdat, Desc(r), r.width, q / 16), q % 16, Desc(r))
  }

  /** Bit `q` out of the logic unit: the entry of the minterm table selected by bit `q - ash` of A, bit `q - bsh` of
      a fetched B (bit `q` of a disabled one) and bit `q` of C; streams are 0 before their start. */
  predicate LogicBit(r: Regs, ram: Ram, q: nat)
    requires r.width > 0
  {
    var ash, bsh := r.con0 / 4096, r.con1 / 4096;
    var a := q >= ash && ABit(r, ram, q - ash);
    var b := if UseB(r) then q >= bsh && BBit(r, ram, q - bsh) else BBit(r, ram, q);
    var c := CBit(r, ram, q);
    Bit(r.con0 % 256, (if a then 4 else 0) + (if b then 2 else 0) + (if c then 1 else 0))
  }

  // ---- the reference computes them ----------------------------------------------------------------------------

  lemma FetchedWords(r: Regs, ram: Ram, j: nat)
    requires r.width > 0
    ensures var t := JobOf(HARDWARE, r, ram);
            && Fetch(t.s.useA, ram, APtr(t, j), t.s.adat) ==
                 Source(UseA(r), ram, r.apt, r.amod, r.adat, Desc(r), r.width, j)
            && RawB(t, j) == Source(UseB(r), ram, r.bpt, r.bmod, r.bdat, Desc(r), r.width, j)
            && RawC(t, j) == Source(UseC(r), ram, r.cpt, r.cmod, r.cdat, Desc(r), r.width, j)
            && (t.s.useD ==> DPtr(t, j) == Pointer(r.dpt, r.dmod, Desc(r), r.width, j))
  {
    var t := JobOf(HARDWARE, r, ram);
    if UseA(r) { PointerReached(t.s, r.apt, r.amod, t.s.amod, j); HeldIsPeek(ram, APtr(t, j)); }
    if UseB(r) { PointerReached(t.s, r.bpt, r.bmod, t.s.bmod, j); HeldIsPeek(ram, BPtr(t, j)); }
    if UseC(r) { PointerReached(t.s, r.cpt, r.cmod, t.s.cmod, j); HeldIsPeek(ram, CPtr(t, j)); }
    if UseD(r) { PointerReached(t.s, r.dpt, r.dmod, t.s.dmod, j); }
  }

  lemma WordAndPlace(q: nat, j: nat, p: nat)
    requires p < 16 && q == 16 * j + p
    ensures q / 16 == j && q % 16 == p
  {
  }

  lemma AStream(r: Regs, ram: Ram, q: nat, j: nat, p: nat)
    requires r.width > 0 && p < 16 && q == 16 * j + p
    ensures ScanBit(MaskedA(JobOf(HARDWARE, r, ram), j), p, Desc(r)) == ABit(r, ram, q)
  {
    var t := JobOf(HARDWARE, r, ram);
    WordAndPlace(q, j, p);
    FetchedWords(r, ram, j);
    RowsPassed(r.width, j);
    MaskedBit(t.s, Fetch(t.s.useA, ram, APtr(t, j), t.s.adat), Col(r.width, j), if Desc(r) then p else 15 - p);
  }

  lemma NoBits(p: nat, desc: bool)
    requires p < 16
    ensures !ScanBit(0, p, desc)
  {
    ZeroBits(if desc then p else 15 - p);
  }

  /** Bit `p` of word `j` behind the shifter of channel A, and of channel B. */
  lemma ShiftedAStream(r: Regs, ram: Ram, q: nat, j: nat, p: nat, ash: nat)
    requires r.width > 0 && p < 16 && q == 16 * j + p && ash == r.con0 / 4096
    ensures ScanBit(ShiftedA(JobOf(HARDWARE, r, ram), j), p, Desc(r)) == (q >= ash && ABit(r, ram, q - ash))
  {
    var t := JobOf(HARDWARE, r, ram);
    ShiftDelays(PrevA(t, j), MaskedA(t, j), ash, Desc(r), p);
    if p >= ash {
      AStream(r, ram, q - ash, j, p - ash);
    } else if j > 0 {
      AStream(r, ram, q - ash, j - 1, 16 + p - ash);
    } else {
      NoBits(16 + p - ash, Desc(r));
    }
  }

  lemma BStream(r: Regs, ram: Ram, q: nat, j: nat, p: nat)
    requires r.width > 0 && p < 16 && q == 16 * j + p
    ensures ScanBit(RawB(JobOf(HARDWARE, r, ram), j), p, Desc(r)) == BBit(r, ram, q)
    ensures ScanBit(RawC(JobOf(HARDWARE, r, ram), j), p, Desc(r)) == CBit(r, ram, q)
  {
    WordAndPlace(q, j, p);
    FetchedWords(r, ram, j);
  }

  lemma ShiftedBStream(r: Regs, ram: Ram, q: nat, j: nat, p: nat, bsh: nat)
    requires r.width > 0 && p < 16 && q == 16 * j + p && bsh == r.con1 / 4096
    ensures var t := JobOf(HARDWARE, r, ram);
            ScanBit(ChannelB(t.alu, t.s, PrevB(t, j), RawB(t, j)), p, Desc(r)) ==
            if UseB(r) then q >= bsh && BBit(r, ram, q - bsh) else BBit(r, ram, q)
  {
    var t := JobOf(HARDWARE, r, ram);
    if !UseB(r) {
      BStream(r, ram, q, j, p);
    } else {
      ShiftDelays(PrevB(t, j), RawB(t, j), bsh, Desc(r), p);
      if p >= bsh {
        BStream(r, ram, q - bsh, j, p - bsh);
      } else if j > 0 {
        BStream(r, ram, q - bsh, j - 1, 16 + p - bsh);
      } else {
        NoBits(16 + p - bsh, Desc(r));
      }
    }
  }

  /** Bit `p` of word `j` as it leaves the logic unit. */
  lemma LogicStream(r: Regs, ram: Ram, q: nat, j: nat, p: nat)
    requires r.width > 0 && p < 16 && q == 16 * j + p
    ensures ScanBit(Logic(JobOf(HARDWARE, r, ram), j), p, Desc(r)) == LogicBit(r, ram, q)
  {
    var t := JobOf(HARDWARE, r, ram);
    var b := ChannelB(t.alu, t.s, PrevB(t, j), RawB(t, j));
    ShiftedAStream(r, ram, q, j, p, r.con0 / 4096);
    ShiftedBStream(r, ram, q, j, p, r.con1 / 4096);
    BStream(r, ram, q, j, p);
    MintermBit(t.s.lf, ShiftedA(t, j), b, RawC(t, j), if Desc(r) then p else 15 - p);
  }

  // ---- the destination ------------------------------------------------------------------------------------------

  /** A transfer with the destination on, in which nothing is fetched after it was overwritten and no word is written
      twice. */
  predicate Undisturbed(r: Regs, ram: Ram, n: nat) {
    r.width > 0 && n == r.height * r.width && UseD(r) && HazardFree(JobOf(HARDWARE, r, ram), n)
  }

  function DestWord(r: Regs, ram: Ram, j: nat): u16
    requires r.width > 0
  {
    Held(AreaBlit(HARDWARE, r, ram).ram, Pointer(r.dpt, r.dmod, Desc(r), r.width, j))
  }

  lemma DestIsOut(r: Regs, ram: Ram, n: nat, j: nat)
    requires Undisturbed(r, ram, n) && j < n
    ensures DestWord(r, ram, j) == Out(JobOf(HARDWARE, r, ram), j)
  {
    var t := JobOf(HARDWARE, r, ram);
    AreaMeaning(t, r.height, n);
    FetchedWords(r, ram, j);
    HeldIsPeek(AreaBlit(HARDWARE, r, ram).ram, Pointer(r.dpt, r.dmod, Desc(r), r.width, j));
  }

  predicate FillOn(r: Regs) { Desc(r) && (Bit(r.con1, 3) || Bit(r.con1, 4)) }

  /** Without fill every destination bit is the table entry its three source bits select. */
  lemma AreaIsLogic(r: Regs, ram: Ram, n: nat, q: nat)
    requires Undisturbed(r, ram, n) && !FillOn(r) && q < 16 * n
    ensures ScanBit(DestWord(r, ram, q / 16), q % 16, Desc(r)) == LogicBit(r, ram, q)
  {
    DestIsOut(r, ram, n, q / 16);
    LogicStream(r, ram, q, q / 16, q % 16);
  }

  /** Whether an odd number of the `k` bits from bit `q` on is set. */
  predicate OddRun(bit: nat -> bool, q: nat, k: nat) {
    if k == 0 then false else OddRun(bit, q, k - 1) != bit(q + (k - 1))
  }

  /** The bits as they leave the logic unit. */
  function LogicBits(r: Regs, ram: Ram): nat -> bool
    requires r.width > 0
  {
    (q: nat) => LogicBit(r, ram, q)
  }

  lemma RowBitIsLogic(r: Regs, ram: Ram, base: nat, ws: seq<u16>, p: nat)
    requires r.width > 0 && Desc(r) && ws == RowWords(JobOf(HARDWARE, r, ram), base, r.width) && p < 16 * r.width
    ensures RowBit(ws, p) == LogicBit(r, ram, 16 * base + p)
  {
    WordOfRowIsLogic(r, ram, base, ws, p / 16, p % 16, 16 * base + p);
  }

  lemma RowBitsAreLogic(r: Regs, ram: Ram, base: nat, start: nat, ws: seq<u16>, bit: nat -> bool)
    requires r.width > 0 && Desc(r) && ws == RowWords(JobOf(HARDWARE, r, ram), base, r.width)
    requires start == 16 * base && bit == LogicBits(r, ram)
    ensures forall p: nat :: p < 16 * r.width ==> RowBit(ws, p) == bit(start + p)
  {
    forall p: nat | p < 16 * r.width
      ensures RowBit(ws, p) == bit(start + p)
    {
      RowBitIsLogic(r, ram, base, ws, p);
    }
  }

  lemma WordOfRowIsLogic(r: Regs, ram: Ram, base: nat, ws: seq<u16>, i: nat, k: nat, q: nat)
    requires r.width > 0 && Desc(r) && ws == RowWords(JobOf(HARDWARE, r, ram), base, r.width)
    requires i < r.width && k < 16 && q == 16 * (base + i) + k
    ensures Bit(ws[i], k) == LogicBit(r, ram, q)
  {
    RowWordAt(JobOf(HARDWARE, r, ram), base, r.width, i);
    LogicStream(r, ram, q, base + i, k);
  }

  lemma {:induction false} OddRightIsOddRun(bit: nat -> bool, start: nat, ws: seq<u16>, p: nat)
    requires p <= 16 * |ws| && forall k: nat :: k < p ==> RowBit(ws, k) == bit(start + k)
    ensures OddRight(ws, p) == OddRun(bit, start, p)
    decreases p
  {
    if p > 0 { OddRightIsOddRun(bit, start, ws, p - 1); }
  }

  lemma FilledWord(r: Regs, ram: Ram, n: nat, row: nat, base: nat, j: nat, p: nat, ws: seq<u16>)
    requires Undisturbed(r, ram, n) && FillOn(r) && row < r.height && base == row * r.width && p < 16 * r.width
    requires j == base + p / 16 && ws == RowWords(JobOf(HARDWARE, r, ram), base, r.width)
    ensures Bit(DestWord(r, ram, j), p % 16) ==
            Combined(RowBit(ws, p), Bit(r.con1, 2) != OddRight(ws, p), Bit(r.con1, 3))
  {
    var t := JobOf(HARDWARE, r, ram);
    HardwareFills();
    CellInside(r.width, r.height, j, row, p / 16);
    DestIsOut(r, ram, n, j);
    FillIsPrefixParity(t, r.height, n, row, base, p / 16, j, p % 16, p);
    AreaMeaning(t, r.height, n);
  }

  /** A filled bit: the logic bit OR (inclusive) or XOR (exclusive) the programmed carry XOR the parity of the logic
      bits from the start of the row. */
  predicate FilledBit(inclusive: bool, fci: bool, bit: nat -> bool, start: nat, p: nat) {
    var carry := fci != OddRun(bit, start, p);
    if inclusive then bit(start + p) || carry else bit(start + p) != carry
  }

  lemma FilledRow(ws: seq<u16>, inclusive: bool, fci: bool, bit: nat -> bool, start: nat, p: nat)
    requires p < 16 * |ws| && forall k: nat :: k < 16 * |ws| ==> RowBit(ws, k) == bit(start + k)
    ensures Combined(RowBit(ws, p), fci != OddRight(ws, p), inclusive) == FilledBit(inclusive, fci, bit, start, p)
  {
    OddRightIsOddRun(bit, start, ws, p);
  }

  lemma RowIsFilled(r: Regs, ram: Ram, base: nat, start: nat, ws: seq<u16>, p: nat, bit: nat -> bool)
    requires r.width > 0 && Desc(r) && ws == RowWords(JobOf(HARDWARE, r, ram), base, r.width) && p < 16 * r.width
    requires start == 16 * base && bit == LogicBits(r, ram)
    ensures Combined(RowBit(ws, p), Bit(r.con1, 2) != OddRight(ws, p), Bit(r.con1, 3)) ==
            FilledBit(Bit(r.con1, 3), Bit(r.con1, 2), bit, start, p)
  {
    RowBitsAreLogic(r, ram, base, start, ws, bit);
    FilledRow(ws, Bit(r.con1, 3), Bit(r.con1, 2), bit, start, p);
  }

  /** With fill (IFE inclusive, EFE alone exclusive), every bit of a row, counted from the right, is the filled logic
      bit; the carry starts anew on each row. */
  lemma AreaIsFill(r: Regs, ram: Ram, n: nat, row: nat, base: nat, j: nat, p: nat)
    requires Undisturbed(r, ram, n) && FillOn(r) && row < r.height && base == row * r.width && p < 16 * r.width
    requires j == base + p / 16
    ensures Bit(DestWord(r, ram, j), p % 16) ==
            FilledBit(Bit(r.con1, 3), Bit(r.con1, 2), LogicBits(r, ram), 16 * base, p)
  {
    var ws := RowWords(JobOf(HARDWARE, r, ram), base, r.width);
    FilledWord(r, ram, n, row, base, j, p, ws);
    RowIsFilled(r, ram, base, 16 * base, ws, p, LogicBits(r, ram));
  }

  // ---- what is left behind -----------------------------------------------------------------------------------------

  lemma WholeRows(h: nat, w: nat, n: nat)
    requires w > 0 && n == h * w
    ensures n / w == h && n % w == 0
  {
    assert n == w * h + 0;
    ModUnique(n, w, h, 0);
  }

  lemma {:induction false} IdlePointer(s: Setup, p: u32, mod: int, j: nat)
    ensures Ptr(s, false, p, mod, j) == p
  {
    if j > 0 { IdlePointer(s, p, mod, j - 1); }
  }

  lemma EndPointers(r: Regs, ram: Ram, n: nat)
    requires r.width > 0
    ensures var t := JobOf(HARDWARE, r, ram);
            && APtr(t, n) == (if UseA(r) then Pointer(r.apt, r.amod, Desc(r), r.width, n) else r.apt)
            && BPtr(t, n) == (if UseB(r) then Pointer(r.bpt, r.bmod, Desc(r), r.width, n) else r.bpt)
            && CPtr(t, n) == (if UseC(r) then Pointer(r.cpt, r.cmod, Desc(r), r.width, n) else r.cpt)
            && DPtr(t, n) == (if UseD(r) then Pointer(r.dpt, r.dmod, Desc(r), r.width, n) else r.dpt)
  {
    var t := JobOf(HARDWARE, r, ram);
    if UseA(r) { PointerReached(t.s, r.apt, r.amod, t.s.amod, n); } else { IdlePointer(t.s, r.apt, t.s.amod, n); }
    if UseB(r) { PointerReached(t.s, r.bpt, r.bmod, t.s.bmod, n); } else { IdlePointer(t.s, r.bpt, t.s.bmod, n); }
    if UseC(r) { PointerReached(t.s, r.cpt, r.cmod, t.s.cmod, n); } else { IdlePointer(t.s, r.cpt, t.s.cmod, n); }
    if UseD(r) { PointerReached(t.s, r.dpt, r.dmod, t.s.dmod, n); } else { IdlePointer(t.s, r.dpt, t.s.dmod, n); }
  }

  /** A word that is no destination word keeps its value. */
  lemma OtherWordKept(r: Regs, ram: Ram, n: nat, p: u32)
    requires Undisturbed(r, ram, n)
    requires forall k: nat :: k < n ==> WordAt(Pointer(r.dpt, r.dmod, Desc(r), r.width, k)) != WordAt(p)
    ensures Held(AreaBlit(HARDWARE, r, ram).ram, p) == Held(ram, p)
  {
    var t := JobOf(HARDWARE, r, ram);
    AreaMeaning(t, r.height, n);
    forall k: nat | k < n
      ensures WordAt(DPtr(t, k)) != WordAt(p)
    {
      FetchedWords(r, ram, k);
    }
    HeldIsPeek(ram, p);
    HeldIsPeek(AreaBlit(HARDWARE, r, ram).ram, p);
  }

  /** The state of the loops after the last word. */
  lemma BlitIsBefore(r: Regs, ram: Ram, n: nat)
    requires Undisturbed(r, ram, n)
    ensures AreaBlit(HARDWARE, r, ram) == Before(JobOf(HARDWARE, r, ram), n)
  {
    AreaMeaning(JobOf(HARDWARE, r, ram), r.height, n);
  }

  /** The pointers of the enabled channels stand behind the last row, modulo included, and the others have not
      moved. */
  lemma AreaLeavesPointers(r: Regs, ram: Ram, n: nat)
    requires Undisturbed(r, ram, n)
    ensures var end := AreaRegs(r, AreaBlit(HARDWARE, r, ram));
            && end.apt == (if UseA(r) then Pointer(r.apt, r.amod, Desc(r), r.width, n) else r.apt)
            && end.bpt == (if UseB(r) then Pointer(r.bpt, r.bmod, Desc(r), r.width, n) else r.bpt)
            && end.cpt == (if UseC(r) then Pointer(r.cpt, r.cmod, Desc(r), r.width, n) else r.cpt)
            && end.dpt == Pointer(r.dpt, r.dmod, Desc(r), r.width, n)
            && end == r.(apt := end.apt, bpt := end.bpt, cpt := end.cpt, dpt := end.dpt,
                         cdat := end.cdat, ddat := end.ddat, zero := end.zero)
  {
    BlitIsBefore(r, ram, n);
    EndPointers(r, ram, n);
  }

  lemma BlanksAreZeros(r: Regs, ram: Ram, n: nat)
    requires Undisturbed(r, ram, n)
    ensures AllZero(JobOf(HARDWARE, r, ram), n) == (r.zero && forall k: nat :: k < n ==> DestWord(r, ram, k) == 0)
  {
    var t := JobOf(HARDWARE, r, ram);
    ZeroFlag(t, n);
    forall k: nat | k < n
      ensures Blank(t, k) == (DestWord(r, ram, k) == 0)
    {
      DestIsOut(r, ram, n, k);
    }
  }

  /** BZERO stays set if and only if every word was zero. */
  lemma AreaLeavesZero(r: Regs, ram: Ram, n: nat)
    requires Undisturbed(r, ram, n)
    ensures AreaRegs(r, AreaBlit(HARDWARE, r, ram)).zero ==
            (r.zero && forall k: nat :: k < n ==> DestWord(r, ram, k) == 0)
  {
    BlitIsBefore(r, ram, n);
    BlanksAreZeros(r, ram, n);
  }

  lemma LastWordLatched(r: Regs, ram: Ram, n: nat)
    requires Undisturbed(r, ram, n) && n > 0
    ensures AreaBlit(HARDWARE, r, ram).lastD == Out(JobOf(HARDWARE, r, ram), n - 1)
    ensures AreaBlit(HARDWARE, r, ram).cdat == RawC(JobOf(HARDWARE, r, ram), n - 1)
  {
    BlitIsBefore(r, ram, n);
  }

  /** BLTDDAT holds the last word. */
  lemma AreaLeavesData(r: Regs, ram: Ram, n: nat, last: nat)
    requires Undisturbed(r, ram, n) && n == last + 1
    ensures AreaRegs(r, AreaBlit(HARDWARE, r, ram)).ddat == DestWord(r, ram, last)
  {
    LastWordLatched(r, ram, n);
    DestIsOut(r, ram, n, last);
  }

  /** BLTCDAT holds the last C word. */
  lemma AreaLeavesC(r: Regs, ram: Ram, n: nat, last: nat)
    requires Undisturbed(r, ram, n) && n == last + 1
    ensures AreaRegs(r, AreaBlit(HARDWARE, r, ram)).cdat ==
            Source(UseC(r), ram, r.cpt, r.cmod, r.cdat, Desc(r), r.width, last)
  {
    LastWordLatched(r, ram, n);
    FetchedWords(r, ram, last);
  }
}
