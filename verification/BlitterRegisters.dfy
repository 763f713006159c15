/**
 The shifter and fill theorems from the blitter's registers (crates/machine-core/src/blitter.rs
 `execute_area`): which control bits select them, and what the first- and last-word masks let through.
 */
module BlitterRegisters {
  import opened Bits
  import opened BlitterWord
  import opened Blitter
  import opened BlitterArea
  import opened BlitterHazards
  import opened BlitterStreams
  import opened BlitterCopy

  // ---- masks -------------------------------------------------------------------------------------

  /** The first word of a row passes the first-word mask, the last word the last-word mask; a row of one
      word passes both. */
  lemma MaskedBit(s: Setup, raw: u16, i: nat, k: nat)
    ensures Bit(Masked(HARDWARE, s, raw, i), k) ==
            (Bit(raw, k) && (i == 0 ==> Bit(s.afwm, k)) && (i + 1 == s.width ==> Bit(s.alwm, k)))
  {
    var m := if i == 0 then And16(raw, s.afwm) else raw;
    AndBit(raw, s.afwm, k);
    AndBit(m, s.alwm, k);
  }

  /** A source bit of the stream: a fetched bit that its word's masks let through. */
  lemma SourceBitIsMasked(t: Job, q: nat, j: nat, p: nat)
    requires t.alu == HARDWARE && p < 16 && q == 16 * j + p
    ensures var raw := Fetch(t.s.useA, t.f.ram, APtr(t, j), t.s.adat);
            var i := Col(t.s.width, j);
            SourceBit(t, q) == (&& ScanBit(raw, p, t.s.desc)
                                && (i == 0 ==> ScanBit(t.s.afwm, p, t.s.desc))
                                && (i + 1 == t.s.width ==> ScanBit(t.s.alwm, p, t.s.desc)))
  {
    assert q / 16 == j && q % 16 == p;
    MaskedBit(t.s, Fetch(t.s.useA, t.f.ram, APtr(t, j), t.s.adat), Col(t.s.width, j), if t.s.desc then p else 15 - p);
  }

  // ---- addresses -----------------------------------------------------------------------------------

  /** A channel as its registers place it: modulos are even, and not negative here. */
  predicate LaneOf(r: Regs, desc: bool, n: nat, ptr: u32, mod: i16, l: Lane) {
    l == Lane(ptr, l.m) && Even(mod) == l.m && LaneInside(desc, r.width, n, l)
  }

  /** Every enabled channel lies in the RAM, and the destination follows or avoids each enabled source. */
  predicate Addresses(r: Regs, n: nat, ls: Lanes) {
    var desc := Bit(r.con1, 1);
    && r.width > 0 && n == r.height * r.width
    && LaneOf(r, desc, n, r.dpt, r.dmod, ls.d)
    && (Bit(r.con0, 11) ==> LaneOf(r, desc, n, r.apt, r.amod, ls.a) && Safe(desc, ls.d, ls.a, r.width, r.height))
    && (Bit(r.con0, 10) ==> LaneOf(r, desc, n, r.bpt, r.bmod, ls.b) && Safe(desc, ls.d, ls.b, r.width, r.height))
    && (Bit(r.con0, 9) ==> LaneOf(r, desc, n, r.cpt, r.cmod, ls.c) && Safe(desc, ls.d, ls.c, r.width, r.height))
  }

  lemma AddressesAreHazardFree(alu: Alu, r: Regs, ram: Ram, n: nat, ls: Lanes)
    requires Addresses(r, n, ls)
    ensures HazardFree(JobOf(alu, r, ram), n)
  {
    LanesAreHazardFree(JobOf(alu, r, ram), r.height, n, ls);
  }

  // ---- the shifter ---------------------------------------------------------------------------------

  /** A control word with a shift of `ash` in front of the copy bits. */
  lemma ShiftControl(ash: nat, con0: u16)
    requires ash < 16 && con0 == ash * 0x1000 + BLTCON0_COPY
    ensures Bit(con0, 11) && !Bit(con0, 10) && !Bit(con0, 9) && Bit(con0, 8)
    ensures con0 / 0x1000 == ash && con0 % 0x100 == COPY_A
  {
    Pow2Values();
    CopyControl();
    AppendBits(ash, BLTCON0_COPY, 12, 11);
    AppendBits(ash, BLTCON0_COPY, 12, 10);
    AppendBits(ash, BLTCON0_COPY, 12, 9);
    AppendBits(ash, BLTCON0_COPY, 12, 8);
  }

  lemma DirectionControl(desc: bool, con1: u16)
    requires con1 == if desc then BLTCON1_DESC else 0
    ensures Bit(con1, 1) == desc && !Bit(con1, 2) && !Bit(con1, 3) && !Bit(con1, 4)
  {
    CopyControl();
    ZeroBits(1);
    ZeroBits(2);
    ZeroBits(3);
    ZeroBits(4);
  }

  lemma ShiftJob(r: Regs, ram: Ram, ash: nat, desc: bool)
    requires ash < 16 && r.con0 == ash * 0x1000 + BLTCON0_COPY && r.con1 == (if desc then BLTCON1_DESC else 0)
    ensures var t := JobOf(HARDWARE, r, ram); CopiesThrough(t) && t.s.ash == ash && t.s.desc == desc
  {
    ShiftControl(ash, r.con0);
    DirectionControl(desc, r.con1);
  }

  /** A shifted copy as it is programmed, any number of rows, either direction. */
  lemma {:induction false} ShiftFromRegisters(r: Regs, ram: Ram, ash: nat, desc: bool, n: nat, ls: Lanes, q: nat)
    requires ash < 16 && r.con0 == ash * 0x1000 + BLTCON0_COPY && r.con1 == (if desc then BLTCON1_DESC else 0)
    requires Addresses(r, n, ls) && q < 16 * n
    ensures var t := JobOf(HARDWARE, r, ram);
            var word := Peek(AreaBlit(HARDWARE, r, ram).ram, WordAt(DPtr(t, q / 16)));
            ScanBit(word, q % 16, desc) == (q >= ash && SourceBit(t, q - ash))
  {
    ShiftJob(r, ram, ash, desc);
    AddressesAreHazardFree(HARDWARE, r, ram, n, ls);
    ShifterDelaysStream(JobOf(HARDWARE, r, ram), r.height, n, q);
  }

  // ---- fill -----------------------------------------------------------------------------------------

  /** DESC with IFE or EFE, and FCI. */
  function FillControl(exclusive: bool, fci: bool): u16 {
    BLTCON1_DESC + (if exclusive then 0x10 else 0x08) + (if fci then 0x04 else 0)
  }

  lemma FillControlBits(exclusive: bool, fci: bool)
    ensures var c := FillControl(exclusive, fci);
            Bit(c, 1) && Bit(c, 2) == fci && Bit(c, 3) == !exclusive && Bit(c, 4) == exclusive
  {
    assert Bit(0x0A, 1) && !Bit(0x0A, 2) && Bit(0x0A, 3) && !Bit(0x0A, 4);
    assert Bit(0x0E, 1) && Bit(0x0E, 2) && Bit(0x0E, 3) && !Bit(0x0E, 4);
    assert Bit(0x12, 1) && !Bit(0x12, 2) && !Bit(0x12, 3) && Bit(0x12, 4);
    assert Bit(0x16, 1) && Bit(0x16, 2) && !Bit(0x16, 3) && Bit(0x16, 4);
  }

  /** An area fill as it is programmed: bit `p` from the right of row `row` is bit `k` of the row's word `i`,
      which is word `j` of the transfer. */
  lemma FillFromRegisters(r: Regs, ram: Ram, exclusive: bool, fci: bool, n: nat, ls: Lanes, row: nat, base: nat,
                          i: nat, j: nat, k: nat, p: nat)
    requires r.con1 == FillControl(exclusive, fci) && Bit(r.con0, 8)
    requires Addresses(r, n, ls)
    requires row < r.height && base == row * r.width && i < r.width && j == base + i && k < 16 && p == 16 * i + k
    ensures var t := JobOf(HARDWARE, r, ram);
            var word := Peek(AreaBlit(HARDWARE, r, ram).ram, WordAt(DPtr(t, j)));
            var ws := RowWords(t, base, r.width);
            var carry := fci != OddRight(ws, p);
            Bit(word, k) == if exclusive then RowBit(ws, p) != carry else RowBit(ws, p) || carry
  {
    FillControlBits(exclusive, fci);
    HardwareFills();
    AddressesAreHazardFree(HARDWARE, r, ram, n, ls);
    FillIsPrefixParity(JobOf(HARDWARE, r, ram), r.height, n, row, base, i, j, k, p);
  }

  lemma HardwareFills()
    ensures FillsAs(HARDWARE)
  {
  }

  /** A fill in place: A and D enabled, one pointer, one modulo. */
  lemma InPlaceAddresses(r: Regs, n: nat, l: Lane)
    requires Bit(r.con0, 11) && !Bit(r.con0, 10) && !Bit(r.con0, 9) && Even(r.amod) == Even(r.dmod) && r.apt == r.dpt
    requires r.width > 0 && n == r.height * r.width && n > 0 && LaneOf(r, Bit(r.con1, 1), n, r.dpt, r.dmod, l)
    ensures Addresses(r, n, Lanes(l, l, l, l))
  {
  }
}
