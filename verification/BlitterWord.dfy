/**
 The blitter's word-level operators (crates/machine-core/src/blitter.rs `minterm`, `shift_combine`,
 `apply_fill`, `read_word`, `write_word`) and what each of them does to a single bit.
 */
module BlitterWord {
  import opened Bits

  // ---- chip RAM -----------------------------------------------------------------------------

  const CHIP_RAM_SIZE := 0x20_0000
  const WORDS := 0x10_0000
  type Ram = s: seq<u8> | |s| == CHIP_RAM_SIZE witness seq(CHIP_RAM_SIZE, _ => 0)
  type WordIndex = x: int | 0 <= x < WORDS

  /** The word a guest pointer selects: bit 0 is ignored and the rest masked into chip RAM. */
  function WordAt(ptr: u32): WordIndex { ptr / 2 % WORDS }

  function Peek(ram: Ram, at: WordIndex): u16 {
    Joined(ram[2 * at], ram[2 * at + 1])
  }

  function Joined(hi: u8, lo: u8): u16 { 256 * hi + lo }

  function Poke(ram: Ram, at: WordIndex, v: u16): Ram {
    ram[2 * at := v / 256][2 * at + 1 := v % 256]
  }

  lemma PeekPoke(ram: Ram, at: WordIndex, v: u16, other: WordIndex)
    ensures Peek(Poke(ram, at, v), other) == if other == at then v else Peek(ram, other)
  {
  }

  /** The words determine every byte. */
  lemma SameWordsSameBytes(x: Ram, y: Ram)
    requires forall w: WordIndex :: Peek(x, w) == Peek(y, w)
    ensures x == y
  {
    forall i | 0 <= i < CHIP_RAM_SIZE
      ensures x[i] == y[i]
    {
      var w: WordIndex := i / 2;
      assert Peek(x, w) == Peek(y, w);
      assert i == 2 * w || i == 2 * w + 1;
    }
  }

  method ReadWord(ram: array<u8>, ptr: u32) returns (v: u16)
    requires ram.Length == CHIP_RAM_SIZE
    ensures v == Peek(ram[..], WordAt(ptr))
  {
    var off := 2 * WordAt(ptr);
    v := Joined(ram[off], ram[off + 1]);
  }

  method WriteWord(ram: array<u8>, ptr: u32, v: u16)
    requires ram.Length == CHIP_RAM_SIZE
    modifies ram
    ensures ram[..] == Poke(old(ram[..]), WordAt(ptr), v)
  {
    var off := 2 * WordAt(ptr);
    ram[off] := v / 256;
    ram[off + 1] := v % 256;
  }

  // ---- 16-bit words -------------------------------------------------------------------------------

  lemma Pow16()
    ensures Pow2(16) == U16_RANGE
  {
    Pow2Values();
  }

  /** A truncating cast to 16 bits. */
  function Trunc16(x: nat): u16 { Pow16(); LowRange(x, 16); Low(x, 16) }
  function And16(x: u16, y: u16): u16 { Pow16(); AndRange(x, y, 16); And(x, y) }
  function Or16(x: u16, y: u16): u16 { Pow16(); OrRange(x, y, 16); Or(x, y) }
  function Xor16(x: u16, y: u16): u16 { Pow16(); XorRange(x, y, 16); Xor(x, y) }
  function Not16(x: u16): u16 { Pow16(); NotRange(x, 16); Not(x, 16) }

  lemma SameBitsSameWord(x: u16, y: u16)
    requires forall k: nat :: k < 16 ==> Bit(x, k) == Bit(y, k)
    ensures x == y
  {
    Pow16();
    Extensional(x, y, 16);
  }

  lemma FullMask(x: u16)
    ensures And16(x, 0xFFFF) == x
  {
    forall k: nat | k < 16
      ensures Bit(And16(x, 0xFFFF), k) == Bit(x, k)
    {
      AndBit(x, 0xFFFF, k);
      AllOnes(k);
    }
    SameBitsSameWord(And16(x, 0xFFFF), x);
  }

  lemma AllOnes(k: nat)
    requires k < 16
    ensures Bit(0xFFFF, k)
  {
    NotBit(0, 16, k);
    ZeroBits(k);
    assert Not(0, 16) == 0xFFFF by {
      assert Not(0, 4) == 15;
      assert Not(0, 8) == 255;
      assert Not(0, 12) == 4095;
    }
  }

  // ---- minterm -----------------------------------------------------------------------------------------

  /** One row of the truth table: contributes where all three inputs are set. */
  function Term(on: bool, x: u16, y: u16, z: u16): u16 {
    if on then And16(And16(x, y), z) else 0
  }

  /** The four rows of the table in which input `a` is set. */
  function Half(l3: bool, l2: bool, l1: bool, l0: bool, a: u16, b: u16, c: u16): u16 {
    var nb, nc := Not16(b), Not16(c);
    Or16(Or16(Term(l3, a, b, c), Term(l2, a, b, nc)), Or16(Term(l1, a, nb, c), Term(l0, a, nb, nc)))
  }

  function Minterm(lf: u8, a: u16, b: u16, c: u16): u16 {
    Or16(Half(Bit(lf, 7), Bit(lf, 6), Bit(lf, 5), Bit(lf, 4), a, b, c),
         Half(Bit(lf, 3), Bit(lf, 2), Bit(lf, 1), Bit(lf, 0), Not16(a), b, c))
  }

  lemma TermBit(on: bool, x: u16, y: u16, z: u16, k: nat)
    ensures Bit(Term(on, x, y, z), k) == (on && Bit(x, k) && Bit(y, k) && Bit(z, k))
  {
    AndBit(x, y, k);
    AndBit(And16(x, y), z, k);
    ZeroBits(k);
  }

  lemma Or4Bit(p: u16, q: u16, r: u16, s: u16, k: nat)
    ensures Bit(Or16(Or16(p, q), Or16(r, s)), k) == (Bit(p, k) || Bit(q, k) || Bit(r, k) || Bit(s, k))
  {
    OrBit(p, q, k);
    OrBit(r, s, k);
    OrBit(Or16(p, q), Or16(r, s), k);
  }

  function Row(a: bool, b: bool, c: bool): nat {
    (if a then 4 else 0) + (if b then 2 else 0) + (if c then 1 else 0)
  }

  lemma HalfBit(l3: bool, l2: bool, l1: bool, l0: bool, a: u16, b: u16, c: u16, k: nat)
    requires k < 16
    ensures Bit(Half(l3, l2, l1, l0, a, b, c), k) ==
            (Bit(a, k) && if Bit(b, k) then if Bit(c, k) then l3 else l2 else if Bit(c, k) then l1 else l0)
  {
    var nb, nc := Not16(b), Not16(c);
    NotBit(b, 16, k);
    NotBit(c, 16, k);
    TermBit(l3, a, b, c, k);
    TermBit(l2, a, b, nc, k);
    TermBit(l1, a, nb, c, k);
    TermBit(l0, a, nb, nc, k);
    Or4Bit(Term(l3, a, b, c), Term(l2, a, b, nc), Term(l1, a, nb, c), Term(l0, a, nb, nc), k);
  }

  /** Each output bit is the entry of the table `lf` that the three input bits select. */
  lemma MintermBit(lf: u8, a: u16, b: u16, c: u16, k: nat)
    requires k < 16
    ensures Bit(Minterm(lf, a, b, c), k) == Bit(lf, Row(Bit(a, k), Bit(b, k), Bit(c, k)))
  {
    var na := Not16(a);
    NotBit(a, 16, k);
    HalfBit(Bit(lf, 7), Bit(lf, 6), Bit(lf, 5), Bit(lf, 4), a, b, c, k);
    HalfBit(Bit(lf, 3), Bit(lf, 2), Bit(lf, 1), Bit(lf, 0), na, b, c, k);
    OrBit(Half(Bit(lf, 7), Bit(lf, 6), Bit(lf, 5), Bit(lf, 4), a, b, c),
          Half(Bit(lf, 3), Bit(lf, 2), Bit(lf, 1), Bit(lf, 0), na, b, c), k);
  }

  const COPY_A: u8 := 0xF0
  const A_OR_C: u8 := 0xFA

  lemma TableRows()
    ensures Bit(COPY_A, 7) && Bit(COPY_A, 6) && Bit(COPY_A, 5) && Bit(COPY_A, 4)
    ensures !Bit(COPY_A, 3) && !Bit(COPY_A, 2) && !Bit(COPY_A, 1) && !Bit(COPY_A, 0)
    ensures Bit(A_OR_C, 7) && Bit(A_OR_C, 6) && Bit(A_OR_C, 5) && Bit(A_OR_C, 4)
    ensures Bit(A_OR_C, 3) && !Bit(A_OR_C, 2) && Bit(A_OR_C, 1) && !Bit(A_OR_C, 0)
  {
    assert Bit(15, 3) && Bit(15, 2) && Bit(15, 1) && Bit(15, 0);
    assert Bit(COPY_A, 3) == Bit(30, 0) && Bit(COPY_A, 4) == Bit(15, 0) && Bit(COPY_A, 5) == Bit(15, 1);
    assert Bit(COPY_A, 6) == Bit(15, 2) && Bit(COPY_A, 7) == Bit(15, 3);
    assert Bit(A_OR_C, 4) == Bit(15, 0) && Bit(A_OR_C, 5) == Bit(15, 1);
    assert Bit(A_OR_C, 6) == Bit(15, 2) && Bit(A_OR_C, 7) == Bit(15, 3);
  }

  lemma CopiesA(a: u16, b: u16, c: u16)
    ensures Minterm(COPY_A, a, b, c) == a
  {
    TableRows();
    forall k: nat | k < 16
      ensures Bit(Minterm(COPY_A, a, b, c), k) == Bit(a, k)
    {
      MintermBit(COPY_A, a, b, c, k);
    }
    SameBitsSameWord(Minterm(COPY_A, a, b, c), a);
  }

  lemma MergesAIntoC(a: u16, b: u16, c: u16, k: nat)
    requires k < 16
    ensures Bit(Minterm(A_OR_C, a, b, c), k) == (Bit(a, k) || Bit(c, k))
  {
    TableRows();
    MintermBit(A_OR_C, a, b, c, k);
  }

  // ---- barrel shifter --------------------------------------------------------------------------------------

  function Pair(hi: u16, lo: u16): nat { Or(Shl(hi, 16), lo) }

  function ShiftCombine(prev: u16, cur: u16, n: nat, desc: bool): u16 {
    if n == 0 then cur
    else if desc then Trunc16(Shr(Low(Shl(Pair(cur, prev), n), 32), 16))
    else Trunc16(Shr(Pair(prev, cur), n))
  }

  lemma PairBit(hi: u16, lo: u16, k: nat)
    ensures Bit(Pair(hi, lo), k) == if k < 16 then Bit(lo, k) else Bit(hi, k - 16)
  {
    OrBit(Shl(hi, 16), lo, k);
    ShlBit(hi, 16, k);
    if k >= 16 {
      Pow16();
      BitsAboveAreZero(lo, 16, k);
    }
  }

  /** Bit `q` of a word in the order the shifter sees it: from the left going up, from the right going down. */
  predicate ScanBit(word: u16, q: nat, desc: bool)
    requires q < 16
  {
    Bit(word, if desc then q else 15 - q)
  }

  /** In scan order the shifter delays the stream by `n` bits: the first `n` come from the word before. */
  lemma ShiftDelays(prev: u16, cur: u16, n: nat, desc: bool, q: nat)
    requires n < 16 && q < 16
    ensures ScanBit(ShiftCombine(prev, cur, n, desc), q, desc) ==
            if q >= n then ScanBit(cur, q - n, desc) else ScanBit(prev, 16 + q - n, desc)
  {
    if n > 0 && desc {
      var pair := Pair(cur, prev);
      LowBit(Shr(Low(Shl(pair, n), 32), 16), 16, q);
      ShrBit(Low(Shl(pair, n), 32), 16, q);
      LowBit(Shl(pair, n), 32, 16 + q);
      ShlBit(pair, n, 16 + q);
      PairBit(cur, prev, 16 + q - n);
    } else if n > 0 {
      var k: nat := 15 - q;
      var pair := Pair(prev, cur);
      LowBit(Shr(pair, n), 16, k);
      ShrBit(pair, n, k);
      PairBit(prev, cur, n + k);
    }
  }

  // ---- fill --------------------------------------------------------------------------------------------------

  /** Fill of the low `w` bits, from bit 0 up; the carry flips after every set bit. */
  function Fill(d: nat, carry: bool, inclusive: bool, w: nat): nat
    decreases d, w
  {
    if w == 0 then 0
    else FillOne(d % 2 == 1, carry, inclusive) + 2 * Fill(d / 2, carry != (d % 2 == 1), inclusive, w - 1)
  }

  predicate Combined(bit: bool, carry: bool, inclusive: bool) {
    if inclusive then bit || carry else bit != carry
  }

  function FillOne(bit: bool, carry: bool, inclusive: bool): nat {
    if Combined(bit, carry, inclusive) then 1 else 0
  }

  /** Whether an odd number of the low `k` bits is set. */
  predicate OddBelow(d: nat, k: nat) {
    if k == 0 then false else OddBelow(d, k - 1) != Bit(d, k - 1)
  }

  lemma {:induction false} OddBelowHalves(d: nat, k: nat)
    ensures OddBelow(d, k + 1) == ((d % 2 == 1) != OddBelow(d / 2, k))
  {
    if k > 0 {
      OddBelowHalves(d, k - 1);
      assert Bit(d, k) == Bit(d / 2, k - 1);
    } else {
      assert OddBelow(d, 1) == (OddBelow(d, 0) != Bit(d, 0));
    }
  }

  lemma {:induction false} FillBit(d: nat, carry: bool, inclusive: bool, w: nat, k: nat)
    requires k < w
    ensures Bit(Fill(d, carry, inclusive, w), k) == Combined(Bit(d, k), carry != OddBelow(d, k), inclusive)
    decreases w
  {
    var rest := Fill(d / 2, carry != (d % 2 == 1), inclusive, w - 1);
    assert Fill(d, carry, inclusive, w) / 2 == rest;
    if k > 0 {
      FillBit(d / 2, carry != (d % 2 == 1), inclusive, w - 1, k - 1);
      OddBelowHalves(d, k - 1);
    }
  }

  lemma {:induction false} FillRange(d: nat, carry: bool, inclusive: bool, w: nat)
    ensures Fill(d, carry, inclusive, w) < Pow2(w)
    decreases w
  {
    if w > 0 { FillRange(d / 2, carry != (d % 2 == 1), inclusive, w - 1); }
  }

  function Filled(d: u16, carry: bool, inclusive: bool): u16 {
    Pow16();
    FillRange(d, carry, inclusive, 16);
    Fill(d, carry, inclusive, 16)
  }

  /** The fill loop. Inclusive fill wins when both kinds are requested. */
  method ApplyFill(d: u16, carryIn: bool, ife: bool, efe: bool) returns (out: u16, carry: bool)
    requires ife || efe
    ensures out == Filled(d, carryIn, ife)
    ensures carry == (carryIn != OddBelow(d, 16))
  {
    out, carry := d, carryIn;
    for bit := 0 to 16
      invariant carry == (carryIn != OddBelow(d, bit))
      invariant forall k: nat :: k < 16 ==>
          Bit(out, k) == if k < bit then Combined(Bit(d, k), carryIn != OddBelow(d, k), ife) else Bit(d, k)
    {
      OneBitIs16(bit);
      var mask: u16 := OneBit(bit);
      ghost var was := out;
      if carry {
        if ife {
          out := Or16(out, mask);
        } else if efe {
          out := Xor16(out, mask);
        }
      }
      forall k: nat | k < 16
        ensures Bit(out, k) == if k == bit then Combined(Bit(was, k), carry, ife) else Bit(was, k)
      {
        OneBitBit(bit, k);
        OrBit(was, mask, k);
        XorBit(was, mask, k);
      }
      if BitSet(d, mask, bit) {
        carry := !carry;
      }
    }
    forall k: nat | k < 16
      ensures Bit(out, k) == Bit(Filled(d, carryIn, ife), k)
    {
      FillBit(d, carryIn, ife, 16, k);
    }
    SameBitsSameWord(out, Filled(d, carryIn, ife));
  }

  lemma OneBitIs16(k: nat)
    requires k < 16
    ensures OneBit(k) < U16_RANGE
  {
    Pow16();
    ShlRange(1, k, 1);
    Pow2Mono(k + 1, 16);
  }

  /** `d & mask != 0` for the one-bit mask of bit `k`. */
  predicate BitSet(d: u16, mask: u16, k: nat)
    requires k < 16 && mask == OneBit(k)
    ensures BitSet(d, mask, k) == Bit(d, k)
  {
    MaskTest(d, k);
    And16(d, mask) != 0
  }

  lemma MaskTest(d: u16, k: nat)
    requires k < 16
    ensures (And(d, OneBit(k)) != 0) == Bit(d, k)
  {
    AndBit(d, OneBit(k), k);
    OneBitBit(k, k);
    ZeroBits(k);
    if !Bit(d, k) {
      forall i: nat | i < 16
        ensures Bit(And(d, OneBit(k)), i) == Bit(0, i)
      {
        AndBit(d, OneBit(k), i);
        OneBitBit(k, i);
        ZeroBits(i);
      }
      OneBitIs16(k);
      SameBitsSameWord(And16(d, OneBit(k)), 0);
    }
  }
}
