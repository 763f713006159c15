/**
 Two consequences of the area reference: the barrel shifter acts on the whole transfer as one bit
 stream, and area fill is prefix parity along each row.
 */
module BlitterStreams {
  import opened Bits
  import opened BlitterWord
  import opened Blitter
  import opened BlitterArea

  // ---- the barrel shifter -----------------------------------------------------------------------

  /** D = A, with A and D enabled and no fill. */
  ghost predicate CopiesThrough(t: Job) {
    && t.alu == HARDWARE && t.s.useA && t.s.useD && t.s.lf == COPY_A && !Filling(t.s)
    && t.s.ash < 16 && t.f.aPrev == 0
  }

  /** Bit `q` of the masked source words, all rows end to end. */
  predicate SourceBit(t: Job, q: nat) { ScanBit(MaskedA(t, q / 16), q % 16, t.s.desc) }

  lemma CopyOutputs(t: Job, j: nat)
    requires CopiesThrough(t)
    ensures Out(t, j) == ShiftCombine(PrevA(t, j), MaskedA(t, j), t.s.ash, t.s.desc)
  {
    CopiesA(ShiftedA(t, j), ChannelB(t.alu, t.s, PrevB(t, j), RawB(t, j)), RawC(t, j));
  }

  lemma SourceBitAt(t: Job, q: nat, j: nat, p: nat)
    requires p < 16 && q == 16 * j + p
    ensures SourceBit(t, q) == ScanBit(MaskedA(t, j), p, t.s.desc)
  {
    assert q / 16 == j && q % 16 == p;
  }

  /** Bit `k` of word `j`, shifted by `ash` behind the word before it. */
  lemma ShiftedBit(t: Job, out: u16, ash: nat, j: nat, k: nat, q: nat)
    requires ash < 16 && k < 16 && q == 16 * j + k && t.f.aPrev == 0
    requires out == ShiftCombine(PrevA(t, j), MaskedA(t, j), ash, t.s.desc)
    ensures ScanBit(out, k, t.s.desc) == (q >= ash && SourceBit(t, q - ash))
  {
    ShiftDelays(PrevA(t, j), MaskedA(t, j), ash, t.s.desc, k);
    if k >= ash {
      SourceBitAt(t, q - ash, j, k - ash);
    } else if j > 0 {
      SourceBitAt(t, q - ash, j - 1, 16 + k - ash);
    } else {
      ZeroBits(if t.s.desc then 16 + k - ash else ash - k - 1);
    }
  }

  /** The destination words, read in the order they were written, are the masked source words shifted
      by `ash` as one bit string: to the right going up, to the left going down, with bits carried
      across word and row ends. */
  lemma ShifterDelaysStream(t: Job, rows: nat, n: nat, q: nat)
    requires n == rows * t.s.width && Starting(t) && HazardFree(t, n)
    requires CopiesThrough(t) && q < 16 * n
    ensures var word := Peek(Rows(t.alu, t.s, t.f, rows).ram, WordAt(DPtr(t, q / 16)));
            ScanBit(word, q % 16, t.s.desc) == (q >= t.s.ash && SourceBit(t, q - t.s.ash))
  {
    AreaMeaning(t, rows, n);
    CopyOutputs(t, q / 16);
    ShiftedBit(t, Out(t, q / 16), t.s.ash, q / 16, q % 16, q);
  }

  // ---- fill ------------------------------------------------------------------------------------------

  /** `n` words of a row as they leave the logic unit, rightmost first. */
  function RowWords(t: Job, base: nat, n: nat): (ws: seq<u16>)
    ensures |ws| == n
  {
    if n == 0 then [] else RowWords(t, base, n - 1) + [LogicAt(t, base, n - 1)]
  }

  function LogicAt(t: Job, base: nat, i: nat): u16 { Logic(t, base + i) }

  lemma {:induction false} RowWordAt(t: Job, base: nat, n: nat, i: nat)
    requires i < n
    ensures RowWords(t, base, n)[i] == LogicAt(t, base, i)
    decreases n
  {
    if i < n - 1 { RowWordAt(t, base, n - 1, i); }
  }

  /** Bit `p` from the right of a row. */
  predicate RowBit(ws: seq<u16>, p: nat)
    requires p < 16 * |ws|
  {
    Bit(ws[p / 16], p % 16)
  }

  /** Whether an odd number of row bits right of `p` is set. */
  predicate OddRight(ws: seq<u16>, p: nat)
    requires p <= 16 * |ws|
  {
    if p == 0 then false else OddRight(ws, p - 1) != RowBit(ws, p - 1)
  }

  lemma {:induction false} OddRightInWord(ws: seq<u16>, i: nat, k: nat, start: nat, p: nat)
    requires k <= 16 && i < |ws| && start == 16 * i && p == start + k
    ensures OddRight(ws, p) == (OddRight(ws, start) != OddBelow(ws[i], k))
    decreases k
  {
    if k > 0 {
      OddRightInWord(ws, i, k - 1, start, p - 1);
      assert (p - 1) / 16 == i && (p - 1) % 16 == k - 1;
    }
  }

  /** A fill, whatever the logic unit computes before it. */
  ghost predicate Fills(t: Job) { FillsAs(t.alu) && t.s.useD && Filling(t.s) }

  lemma FillOperators(alu: Alu, s: Setup, m: u16, carry: bool)
    requires FillsAs(alu) && Filling(s)
    ensures Output(alu, s, m, carry) == Filled(m, carry, s.ife)
    ensures CarryOver(alu, s, m, carry) == (carry != OddBelow(m, 16))
  {
  }

  lemma {:induction false} ColumnInRow(w: nat, base: nat, i: nat, j: nat)
    requires Col(w, base) == 0 && i < w && j == base + i
    ensures Col(w, j) == i
    decreases i
  {
    if i > 0 { ColumnInRow(w, base, i - 1, j - 1); }
  }

  /** The carry entering word `i` of a row. */
  predicate RowCarry(ws: seq<u16>, fci: bool, i: nat)
    requires i <= |ws|
  {
    if i == 0 then fci else RowCarry(ws, fci, i - 1) != OddBelow(ws[i - 1], 16)
  }

  /** The same for any fill operators. */
  function CarryIn(alu: Alu, s: Setup, ws: seq<u16>, i: nat): bool
    requires i <= |ws|
  {
    if i == 0 then s.fci else CarryOver(alu, s, ws[i - 1], CarryIn(alu, s, ws, i - 1))
  }

  lemma {:induction false} CarryOfRow(t: Job, base: nat, ws: seq<u16>, i: nat, j: nat)
    requires Starting(t) && Col(t.s.width, base) == 0
    requires i < t.s.width && j == base + i && ws == RowWords(t, base, t.s.width)
    ensures Carry(t, j) == CarryIn(t.alu, t.s, ws, i)
    decreases i
  {
    ColumnInRow(t.s.width, base, i, j);
    if i > 0 {
      var j' := j - 1;
      CarryOfRow(t, base, ws, i - 1, j');
      RowWordAt(t, base, t.s.width, i - 1);
      CarrySteps(t, j', j);
    }
  }

  lemma {:induction false} CarryInIsRowCarry(alu: Alu, s: Setup, ws: seq<u16>, i: nat)
    requires FillsAs(alu) && Filling(s) && i <= |ws|
    ensures CarryIn(alu, s, ws, i) == RowCarry(ws, s.fci, i)
    decreases i
  {
    if i > 0 {
      CarryInIsRowCarry(alu, s, ws, i - 1);
      FillOperators(alu, s, ws[i - 1], CarryIn(alu, s, ws, i - 1));
    }
  }

  /** It is the programmed carry and the parity of the row so far. */
  lemma {:induction false} CarryIsParity(ws: seq<u16>, fci: bool, i: nat, start: nat)
    requires i <= |ws| && start == 16 * i
    ensures RowCarry(ws, fci, i) == (fci != OddRight(ws, start))
    decreases i
  {
    if i > 0 {
      CarryIsParity(ws, fci, i - 1, start - 16);
      OddRightInWord(ws, i - 1, 16, start - 16, start);
    }
  }

  lemma WordFilled(ws: seq<u16>, fci: bool, ife: bool, i: nat, k: nat, p: nat)
    requires i < |ws| && k < 16 && p == 16 * i + k
    ensures Bit(Filled(ws[i], RowCarry(ws, fci, i), ife), k) == Combined(RowBit(ws, p), fci != OddRight(ws, p), ife)
  {
    var start := 16 * i;
    CarryIsParity(ws, fci, i, start);
    OddRightInWord(ws, i, k, start, p);
    FillBit(ws[i], RowCarry(ws, fci, i), ife, 16, k);
    assert p / 16 == i && p % 16 == k;
  }

  lemma OutputOfRow(t: Job, base: nat, ws: seq<u16>, i: nat, j: nat)
    requires Starting(t) && Col(t.s.width, base) == 0 && ws == RowWords(t, base, t.s.width)
    requires i < t.s.width && j == base + i
    ensures Out(t, j) == Output(t.alu, t.s, ws[i], CarryIn(t.alu, t.s, ws, i))
  {
    CarryOfRow(t, base, ws, i, j);
    RowWordAt(t, base, t.s.width, i);
  }

  lemma OutputFilled(t: Job, base: nat, ws: seq<u16>, i: nat, j: nat)
    requires Fills(t) && Starting(t) && Col(t.s.width, base) == 0 && ws == RowWords(t, base, t.s.width)
    requires i < t.s.width && j == base + i
    ensures Out(t, j) == Filled(ws[i], RowCarry(ws, t.s.fci, i), t.s.ife)
  {
    OutputOfRow(t, base, ws, i, j);
    CarryInIsRowCarry(t.alu, t.s, ws, i);
    FillOperators(t.alu, t.s, ws[i], CarryIn(t.alu, t.s, ws, i));
  }

  /** Every bit of every row after a fill: the row bit OR (inclusive) or XOR (exclusive) the carry-in
      XOR the parity of the row bits to its right, restarting on each row. Bit `p` from the right of
      row `r` is bit `k` of the row's word `i`, which is word `j` of the transfer. */
  lemma FillIsPrefixParity(t: Job, rows: nat, n: nat, r: nat, base: nat, i: nat, j: nat, k: nat, p: nat)
    requires n == rows * t.s.width && Starting(t) && HazardFree(t, n) && Fills(t)
    requires r < rows && base == r * t.s.width && i < t.s.width && j == base + i && k < 16 && p == 16 * i + k
    ensures var word := Peek(Rows(t.alu, t.s, t.f, rows).ram, WordAt(DPtr(t, j)));
            var ws := RowWords(t, base, t.s.width);
            Bit(word, k) == Combined(RowBit(ws, p), t.s.fci != OddRight(ws, p), t.s.ife)
  {
    var ws := RowWords(t, base, t.s.width);
    CellInside(t.s.width, rows, j, r, i);
    CellColumn(t.s.width, base, r, 0);
    OutputFilled(t, base, ws, i, j);
    WordFilled(ws, t.s.fci, t.s.ife, i, k, p);
    AreaMeaning(t, rows, n);
  }
}
