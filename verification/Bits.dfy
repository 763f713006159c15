/**
 Machine words as natural numbers, with the shift and bitwise operators written out bit by bit.

 Every theorem about a symbolic bit position (bit-fields, the barrel shifter, area fill, line pixels)
 is proved through `Bit`, which makes each operator a statement about single bits.
 */
module Bits {

  type u8 = x: int | 0 <= x < 0x100
  type u16 = x: int | 0 <= x < 0x1_0000
  type u32 = x: int | 0 <= x < 0x1_0000_0000

  const U16_RANGE := 0x1_0000
  const U32_RANGE := 0x1_0000_0000

  type i16 = x: int | -0x8000 <= x < 0x8000

  /** Truncating casts, and the signed reading of the low 16 bits. */
  function Wrap16(x: int): u16 { x % U16_RANGE }
  function Wrap32(x: int): u32 { x % U32_RANGE }
  function Signed16(x: int): i16 { var y := x % U16_RANGE; if y >= 0x8000 then y - U16_RANGE else y }

  /** A word read as an unbounded integer. */
  function AsInt(x: int): int { x }

  function Pow2(n: nat): (r: nat)
    ensures r >= 1
  {
    if n == 0 then 1 else 2 * Pow2(n - 1)
  }

  /** Bit `k` of `x`, bit 0 being the least significant. */
  predicate Bit(x: nat, k: nat) {
    if k == 0 then x % 2 == 1 else Bit(x / 2, k - 1)
  }

  /** `x >> n` */
  function Shr(x: nat, n: nat): nat {
    if n == 0 then x else Shr(x / 2, n - 1)
  }

  /** `x << n`, not truncated */
  function Shl(x: nat, n: nat): nat {
    if n == 0 then x else 2 * Shl(x, n - 1)
  }

  /** The low `w` bits of `x`: the effect of a truncating cast or of masking with `2^w - 1`. */
  function Low(x: nat, w: nat): nat {
    if w == 0 then 0 else x % 2 + 2 * Low(x / 2, w - 1)
  }

  function And(x: nat, y: nat): nat {
    if x == 0 || y == 0 then 0
    else (if x % 2 == 1 && y % 2 == 1 then 1 else 0) + 2 * And(x / 2, y / 2)
  }

  function Or(x: nat, y: nat): nat
    decreases x + y
  {
    if x == 0 && y == 0 then 0
    else (if x % 2 == 1 || y % 2 == 1 then 1 else 0) + 2 * Or(x / 2, y / 2)
  }

  function Xor(x: nat, y: nat): nat
    decreases x + y
  {
    if x == 0 && y == 0 then 0
    else (if x % 2 != y % 2 then 1 else 0) + 2 * Xor(x / 2, y / 2)
  }

  /** Bitwise complement within `w` bits. */
  function Not(x: nat, w: nat): nat {
    if w == 0 then 0 else (1 - x % 2) + 2 * Not(x / 2, w - 1)
  }

  /** The word whose only set bit is bit `k`. */
  function OneBit(k: nat): nat { Shl(1, k) }

  // ---- one bit at a time ----------------------------------------------

  lemma {:induction false} ZeroBits(k: nat)
    ensures !Bit(0, k)
  {
    if k > 0 { ZeroBits(k - 1); }
  }

  lemma {:induction false} ShrBit(x: nat, n: nat, k: nat)
    ensures Bit(Shr(x, n), k) == Bit(x, n + k)
  {
    if n > 0 { ShrBit(x / 2, n - 1, k); }
  }

  lemma {:induction false} ShlBit(x: nat, n: nat, k: nat)
    ensures Bit(Shl(x, n), k) == (k >= n && Bit(x, k - n))
  {
    if n > 0 {
      assert Shl(x, n) / 2 == Shl(x, n - 1);
      if k > 0 { ShlBit(x, n - 1, k - 1); }
    }
  }

  lemma {:induction false} LowBit(x: nat, w: nat, k: nat)
    ensures Bit(Low(x, w), k) == (k < w && Bit(x, k))
  {
    if w == 0 {
      ZeroBits(k);
    } else {
      assert Low(x, w) / 2 == Low(x / 2, w - 1) && Low(x, w) % 2 == x % 2;
      if k > 0 { LowBit(x / 2, w - 1, k - 1); }
    }
  }

  lemma {:induction false} AndBit(x: nat, y: nat, k: nat)
    ensures Bit(And(x, y), k) == (Bit(x, k) && Bit(y, k))
  {
    if x == 0 || y == 0 {
      ZeroBits(k);
    } else if k > 0 {
      assert And(x, y) / 2 == And(x / 2, y / 2);
      AndBit(x / 2, y / 2, k - 1);
    }
  }

  lemma {:induction false} OrBit(x: nat, y: nat, k: nat)
    ensures Bit(Or(x, y), k) == (Bit(x, k) || Bit(y, k))
    decreases x + y, k
  {
    if x == 0 && y == 0 {
      ZeroBits(k);
    } else {
      var h := Or(x / 2, y / 2);
      assert Or(x, y) == (if x % 2 == 1 || y % 2 == 1 then 1 else 0) + 2 * h;
      if k > 0 { OrBit(x / 2, y / 2, k - 1); }
    }
  }

  lemma {:induction false} XorBit(x: nat, y: nat, k: nat)
    ensures Bit(Xor(x, y), k) == (Bit(x, k) != Bit(y, k))
    decreases x + y, k
  {
    if x == 0 && y == 0 {
      ZeroBits(k);
    } else if k > 0 {
      assert Xor(x, y) / 2 == Xor(x / 2, y / 2);
      XorBit(x / 2, y / 2, k - 1);
    }
  }

  lemma {:induction false} NotBit(x: nat, w: nat, k: nat)
    ensures Bit(Not(x, w), k) == (k < w && !Bit(x, k))
  {
    if w == 0 {
      ZeroBits(k);
    } else {
      assert Not(x, w) / 2 == Not(x / 2, w - 1) && Not(x, w) % 2 == 1 - x % 2;
      if k > 0 { NotBit(x / 2, w - 1, k - 1); }
    }
  }

  lemma {:induction false} OneBitBit(n: nat, k: nat)
    ensures Bit(OneBit(n), k) == (k == n)
  {
    ShlBit(1, n, k);
    if k > n {
      ZeroBits(k - n - 1);
    }
  }

  /** A number written behind another, `j` bits wide. */
  lemma {:induction false} AppendBits(v: nat, b: nat, j: nat, k: nat)
    requires b < Pow2(j)
    ensures Bit(v * Pow2(j) + b, k) == if k < j then Bit(b, k) else Bit(v, k - j)
    decreases j
  {
    if j > 0 {
      var x := v * Pow2(j) + b;
      assert v * Pow2(j) == 2 * (v * Pow2(j - 1));
      assert x / 2 == v * Pow2(j - 1) + b / 2 && x % 2 == b % 2;
      if k > 0 { AppendBits(v, b / 2, j - 1, k - 1); }
    }
  }

  // ---- ranges -------------------------------------------------------------

  lemma {:induction false} Pow2Add(a: nat, b: nat)
    ensures Pow2(a + b) == Pow2(a) * Pow2(b)
  {
    if a > 0 { Pow2Add(a - 1, b); }
  }

  lemma {:induction false} Pow2Mono(a: nat, b: nat)
    requires a <= b
    ensures Pow2(a) <= Pow2(b)
    decreases b - a
  {
    if a < b { Pow2Mono(a, b - 1); }
  }

  lemma {:induction false} LowRange(x: nat, w: nat)
    ensures Low(x, w) < Pow2(w)
  {
    if w > 0 { LowRange(x / 2, w - 1); }
  }

  lemma {:induction false} NotRange(x: nat, w: nat)
    ensures Not(x, w) < Pow2(w)
  {
    if w > 0 { NotRange(x / 2, w - 1); }
  }

  lemma {:induction false} AndRange(x: nat, y: nat, w: nat)
    requires x < Pow2(w) || y < Pow2(w)
    ensures And(x, y) < Pow2(w)
  {
    if x == 0 || y == 0 {
    } else if w > 0 {
      AndRange(x / 2, y / 2, w - 1);
    }
  }

  lemma {:induction false} OrRange(x: nat, y: nat, w: nat)
    requires x < Pow2(w) && y < Pow2(w)
    ensures Or(x, y) < Pow2(w)
    decreases w
  {
    if x == 0 && y == 0 {
    } else if w > 0 {
      OrRange(x / 2, y / 2, w - 1);
    }
  }

  lemma {:induction false} XorRange(x: nat, y: nat, w: nat)
    requires x < Pow2(w) && y < Pow2(w)
    ensures Xor(x, y) < Pow2(w)
    decreases w
  {
    if x == 0 && y == 0 {
    } else if w > 0 {
      XorRange(x / 2, y / 2, w - 1);
    }
  }

  lemma {:induction false} ShlRange(x: nat, n: nat, w: nat)
    requires x < Pow2(w)
    ensures Shl(x, n) < Pow2(w + n)
  {
    if n > 0 { ShlRange(x, n - 1, w); }
  }

  lemma {:induction false} BitsAboveAreZero(x: nat, w: nat, k: nat)
    requires x < Pow2(w) && k >= w
    ensures !Bit(x, k)
  {
    if w == 0 {
      ZeroBits(k);
    } else {
      BitsAboveAreZero(x / 2, w - 1, k - 1);
    }
  }

  /** Two words below `2^w` that agree on every bit are the same word. */
  lemma {:induction false} Extensional(x: nat, y: nat, w: nat)
    requires x < Pow2(w) && y < Pow2(w)
    requires forall k: nat :: k < w ==> Bit(x, k) == Bit(y, k)
    ensures x == y
  {
    if w > 0 {
      assert Bit(x, 0) == Bit(y, 0);
      forall k: nat | k < w - 1
        ensures Bit(x / 2, k) == Bit(y / 2, k)
      {
        assert Bit(x, k + 1) == Bit(y, k + 1);
      }
      Extensional(x / 2, y / 2, w - 1);
    }
  }

  lemma HalvedMod(x: nat, h: nat)
    requires h > 0
    ensures x % (2 * h) == x % 2 + 2 * (x / 2 % h)
  {
    var q, r := x / 2 / h, x / 2 % h;
    DivModLaw(x / 2, h);
    assert 2 * (h * q) == (2 * h) * q;
    ModUnique(x, 2 * h, q, 2 * r + x % 2);
  }

  lemma {:induction false} MulAtLeast(m: int, k: int)
    requires m > 0 && k >= 1
    ensures m * k >= m
  {
    if k > 1 {
      MulAtLeast(m, k - 1);
      assert m * k == m * (k - 1) + m;
    }
  }

  lemma {:induction false} MulMono(m: nat, a: nat, b: nat)
    requires a <= b
    ensures m * a <= m * b
    decreases b
  {
    if a < b {
      MulMono(m, a, b - 1);
      assert m * b == m * (b - 1) + m;
    }
  }

  lemma ModUnique(x: int, m: int, q: int, r: int)
    requires m > 0 && 0 <= r < m && x == m * q + r
    ensures x % m == r && x / m == q
  {
    var q', r' := x / m, x % m;
    DivModLaw(x, m);
    assert m * (q - q') == m * q - m * q';
    if q > q' {
      MulAtLeast(m, q - q');
    } else if q < q' {
      MulAtLeast(m, q' - q);
    }
  }

  lemma DivModLaw(x: int, m: int)
    requires m > 0
    ensures x == m * (x / m) + x % m && 0 <= x % m < m
  {
  }

  /** Dividing in two pieces with the remainder carried is dividing once. */
  lemma SplitCarry(c: nat, a: nat, b: nat, ratio: nat)
    requires ratio > 0
    ensures (c + a) / ratio + ((c + a) % ratio + b) / ratio == (c + a + b) / ratio
    ensures ((c + a) % ratio + b) % ratio == (c + a + b) % ratio
  {
    var q, r := (c + a) / ratio, (c + a) % ratio;
    DivModLaw(c + a, ratio);
    DivModLaw(r + b, ratio);
    var q2 := (r + b) / ratio;
    assert ratio * (q + q2) == ratio * q + ratio * q2;
    ModUnique(c + a + b, ratio, q + q2, (r + b) % ratio);
  }

  /** Congruent numbers stay congruent when shifted. */
  lemma Congruent(n: nat, x: int, y: int, j: int)
    requires n > 0 && x % n == y % n
    ensures (x + j) % n == (y + j) % n
  {
    var q := y / n - x / n;
    assert y == x + n * q by {
      assert x == n * (x / n) + x % n;
      assert y == n * (y / n) + y % n;
      assert n * q == n * (y / n) - n * (x / n);
    }
    var z := x + j;
    assert y + j == n * (z / n + q) + z % n by {
      assert z == n * (z / n) + z % n;
      assert n * (z / n + q) == n * (z / n) + n * q;
    }
    ModUnique(y + j, n, z / n + q, z % n);
  }

  /** Distinct offsets below `n` reach distinct residues. */
  lemma DistinctResidues(n: nat, a: int, i: int, j: int)
    requires n > 0 && 0 <= i < n && 0 <= j < n && i != j
    ensures (a + i) % n != (a + j) % n
  {
    if (a + i) % n == (a + j) % n {
      Congruent(n, a + i, a + j, -a);
      SmallMod(i, n);
      SmallMod(j, n);
    }
  }

  lemma SmallMod(x: int, n: int)
    requires 0 <= x < n
    ensures x % n == x && x / n == 0
  {
  }

  lemma Pow2Values()
    ensures Pow2(4) == 16 && Pow2(5) == 32 && Pow2(8) == 0x100 && Pow2(12) == 0x1000
    ensures Pow2(16) == U16_RANGE
    ensures Pow2(20) == 0x10_0000 && Pow2(24) == 0x100_0000
    ensures Pow2(32) == U32_RANGE
  {
    assert Pow2(4) == 16;
    assert Pow2(8) == 0x100;
    assert Pow2(12) == 0x1000;
    assert Pow2(16) == U16_RANGE;
    assert Pow2(20) == 0x10_0000;
    assert Pow2(24) == 0x100_0000;
    assert Pow2(28) == 0x1000_0000;
  }
}
