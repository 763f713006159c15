/**
 Shifts, multiplication and division (crates/m68k-vp/src/interp.rs, the `Shift` and `MulDivOp` arms of
 `execute_block`), stated as arithmetic on the operands.

 A left shift multiplies by 2^n, a right shift divides by 2^n and rounds down. The arithmetic right shift does so
 on the signed operand only for longs shifted by less than 32: `AsrIsFloorExactly` says where it does.
 */
module VpScale {
  import opened Bits
  import opened VpIr
  import opened VpPasses
  import opened VpAlu

  // ---- powers of two ---------------------------------------------------------------------------

  lemma DivDiv(x: int, b: int, c: int)
    requires b > 0 && c > 0
    ensures b * c > 0 && x / b / c == x / (b * c)
  {
    var q, r := x / b, x % b;
    DivModLaw(x, b);
    DivModLaw(q, c);
    var s := b * (q % c) + r;
    assert b * q == b * (c * (q / c)) + b * (q % c);
    assert b * (c * (q / c)) == (b * c) * (q / c);
    MulMono(b, q % c, c - 1);
    assert b * (c - 1) == b * c - b;
    ModUnique(x, b * c, q / c, s);
  }

  lemma {:induction false} ShiftedIsQuotient(a: u32, k: nat)
    ensures Shifted(a, k) == a / Pow2(k)
  {
    if k > 0 {
      ShiftedIsQuotient(a / 2, k - 1);
      DivDiv(a, 2, Pow2(k - 1));
    }
  }

  lemma MultipleOfRadix(x: int, n: nat, size: Size)
    requires n >= Width(size)
    ensures x * Pow2(n) == Radix(size) * (x * Pow2(n - Width(size)))
    ensures Unsigned(x * Pow2(n), size) == 0 && x * Pow2(n) / Radix(size) == x * Pow2(n - Width(size))
  {
    Sizes(size);
    Pow2Add(Width(size), n - Width(size));
    var p := Pow2(n - Width(size));
    assert Pow2(n) == Radix(size) * p;
    assert x * (Radix(size) * p) == Radix(size) * (x * p);
    ModUnique(x * Pow2(n), Radix(size), x * p, 0);
  }

  lemma BelowPower(x: nat, n: nat, size: Size)
    requires x < Radix(size) && n >= Width(size)
    ensures x / Pow2(n) == 0
  {
    Sizes(size);
    Pow2Mono(Width(size), n);
    SmallMod(x, Pow2(n));
  }

  // ---- the result of a left shift ------------------------------------------------------------------

  /** The bit that leaves the operand last is the lowest bit beyond the operand size. */
  lemma LeftCarry(x: nat, n: nat, size: Size)
    requires x < Radix(size)
    ensures (0 < n <= Width(size) && (x / Pow2(Width(size) - n)) % 2 == 1) <==> (x * Pow2(n) / Radix(size)) % 2 == 1
  {
    var w := Width(size);
    Sizes(size);
    if n == 0 {
      SmallMod(x, Radix(size));
    } else if n <= w {
      var p, q := Pow2(n), Pow2(w - n);
      Pow2Add(n, w - n);
      QuotientOfMultiple(x, p, q);
    } else {
      MultipleOfRadix(x, n, size);
      var h := Pow2(n - w - 1);
      assert x * Pow2(n - w) == 2 * (x * h);
    }
  }

  lemma QuotientOfMultiple(x: nat, p: int, q: int)
    requires p > 0 && q > 0
    ensures p * q > 0 && x * p / (p * q) == x / q
  {
    DivModLaw(x, q);
    assert x * p == (q * (x / q)) * p + (x % q) * p;
    assert (q * (x / q)) * p == (p * q) * (x / q);
    MulMono(p, x % q, q - 1);
    assert p * (q - 1) == p * q - p;
    ModUnique(x * p, p * q, x / q, (x % q) * p);
  }

  /** One step of the overflow probe: the operand doubled. */
  lemma DoublingFits(x: int, size: Size)
    requires 0 <= x < Radix(size)
    ensures var y := (x * 2) % Radix(size);
            && (Signed(y, size) == 2 * Signed(x, size) <==> Fits(2 * Signed(x, size), size))
            && ((Signed(y, size) < 0) == (Signed(x, size) < 0) && (Signed(y, size) != 0 || x == 0)
                ==> Signed(y, size) == 2 * Signed(x, size))
  {
    var n := Radix(size);
    if 2 * x < n { SmallMod(x * 2, n); } else { ModUnique(x * 2, n, 1, x * 2 - n); }
    SmallMod(x, n);
  }

  lemma TimesPositive(x: int, p: int)
    requires p >= 1
    ensures (x < 0 ==> x * p <= x) && (x == 0 ==> x * p == 0) && (x > 0 ==> x * p >= x)
  {
    if x > 0 { MulAtLeast(x, p); } else if x < 0 { MulAtLeast(-x, p); assert (-x) * p == -(x * p); }
  }

  lemma SameProduct(x: int, y: int, p: int, size: Size)
    requires y == x % Radix(size)
    ensures Unsigned(x * p, size) == Unsigned(y * p, size)
  {
    var n, q := Radix(size), x / Radix(size);
    DivModLaw(x, n);
    assert x * p == n * (q * p) + y * p;
    DivModLaw(y * p, n);
    assert x * p == n * (q * p + y * p / n) + (y * p) % n;
    ModUnique(x * p, n, q * p + y * p / n, (y * p) % n);
  }

  lemma ProbeStep(x: int, y: int, p: int, r: int, size: Size)
    requires 0 <= x < Radix(size) && y == (x * 2) % Radix(size) && p >= 1 && Fits(r, size)
    ensures (Signed(x, size) < 0) == (r < 0) && r == Signed(y, size) * p <==> r == 2 * Signed(x, size) * p
  {
    var sx, sy := Signed(x, size), Signed(y, size);
    DoublingFits(x, size);
    TimesPositive(sy, p);
    TimesPositive(2 * sx, p);
    if r == 2 * sx * p {
      assert Fits(2 * sx, size);
    }
  }

  /** No bit that passes through the sign position differs from the final sign, if and only if the signed
      operand times 2^n is the signed result `r`. */
  lemma {:induction false} OverflowExactly(x: int, n: nat, p: int, r: int, size: Size)
    requires 0 <= x < size.Range() && p == Pow2(n) && r == Signed(x * p, size)
    ensures !AslOverflow(x, n, r < 0, size) <==> r == Signed(x, size) * p
    decreases n
  {
    Sizes(size);
    if n > 0 {
      var y, h := (x * 2) % Radix(size), Pow2(n - 1);
      ProductOfDouble(x, y, h, size);
      OverflowExactly(y, n - 1, h, r, size);
      ProbeStep(x, y, h, r, size);
      SignTest(x, size);
      SmallMod(x, Radix(size));
    } else {
      SmallMod(x, Radix(size));
    }
  }

  lemma ProductOfDouble(x: int, y: int, h: int, size: Size)
    requires y == (x * 2) % Radix(size)
    ensures Signed(x * (2 * h), size) == Signed(y * h, size) && Signed(x, size) * (2 * h) == 2 * Signed(x, size) * h
  {
    SameProduct(x * 2, y, h, size);
    assert x * (2 * h) == (x * 2) * h;
    SignedResidue(x * (2 * h), y * h, size);
  }

  // ---- left shifts -----------------------------------------------------------------------------------

  function LeftOf(arith: bool, x: int, n: nat, size: Size): Sum
    requires x >= 0
  {
    var p := x * Pow2(n);
    var carry := (p / Radix(size)) % 2 == 1;
    Sum(Unsigned(p, size), Bundle(carry, Signed(p, size) < 0, Unsigned(p, size) == 0,
                                  arith && Signed(p, size) != Signed(x, size) * Pow2(n), carry))
  }

  lemma LeftResult(x: int, n: nat, size: Size)
    requires 0 <= x < Radix(size)
    ensures (if n >= Width(size) then 0 else (x * Pow2(n)) % Radix(size)) == Unsigned(x * Pow2(n), size)
  {
    if n >= Width(size) { MultipleOfRadix(x, n, size); }
  }

  lemma LeftOverflow(x: int, n: nat, size: Size)
    requires 0 <= x < Radix(size)
    ensures size.Range() == Radix(size)
    ensures AslOverflow(x, if n < Width(size) then n else Width(size), Signed(x * Pow2(n), size) < 0, size) <==>
            Signed(x * Pow2(n), size) != Signed(x, size) * Pow2(n)
  {
    Sizes(size);
    var w := Width(size);
    if n < w {
      OverflowExactly(x, n, Pow2(n), Signed(x * Pow2(n), size), size);
    } else {
      MultipleOfRadix(x, n, size);
      MultipleOfRadix(x, w, size);
      OverflowExactly(x, w, Pow2(w), 0, size);
      TimesPositive(Signed(x, size), Pow2(n));
      TimesPositive(Signed(x, size), Pow2(w));
    }
  }

  lemma LeftMeans(arith: bool, a: u32, n: nat, size: Size)
    ensures ShiftResult(true, arith, a, n, size) == LeftOf(arith, Unsigned(a, size), n, size)
  {
    var x := Unsigned(a, size);
    Sizes(size);
    LeftResult(x, n, size);
    LeftCarry(x, n, size);
    LeftOverflow(x, n, size);
    LeftFlags(arith, x, n, size, Unsigned(x * Pow2(n), size));
  }

  lemma ResultSign(r: u32, p: int, size: Size)
    requires r == Unsigned(p, size)
    ensures LogicFlags(r, size) == Bundle(false, Signed(p, size) < 0, Unsigned(p, size) == 0, false, false)
    ensures r >= size.SignBit() <==> Signed(p, size) < 0
  {
    Sizes(size);
    LogicMeans(r, size);
    SmallMod(r, Radix(size));
    SignedResidue(r, p, size);
    SignTest(p, size);
  }

  lemma WithCarry(n: bool, z: bool, v: bool, c: bool)
    ensures Bundle(false, n, z, false, false) | FlagIf(c, F_C | F_X) | FlagIf(v, F_V) == Bundle(c, n, z, v, c)
    ensures Bundle(false, n, z, false, false) | FlagIf(c, F_C | F_X) == Bundle(c, n, z, false, c)
  {
  }

  lemma LeftFlags(arith: bool, x: int, n: nat, size: Size, r: u32)
    requires 0 <= x < Radix(size) && r == Unsigned(x * Pow2(n), size)
    ensures var out := (x * Pow2(n) / Radix(size)) % 2 == 1;
            var v := arith && Signed(x * Pow2(n), size) != Signed(x, size) * Pow2(n);
            LogicFlags(r, size) | FlagIf(out, F_C | F_X) | FlagIf(v, F_V) == LeftOf(arith, x, n, size).flags
    ensures r >= size.SignBit() <==> Signed(x * Pow2(n), size) < 0
  {
    var p := x * Pow2(n);
    ResultSign(r, p, size);
    WithCarry(Signed(p, size) < 0, Unsigned(p, size) == 0, arith && Signed(p, size) != Signed(x, size) * Pow2(n),
              (p / Radix(size)) % 2 == 1);
  }

  // ---- right shifts ----------------------------------------------------------------------------------

  /** The quotient a right shift leaves: that of the signed operand for an arithmetic shift of a long by less
      than 32, of the unsigned operand otherwise. */
  function RightQuotient(arith: bool, x: int, n: nat, size: Size): int
    requires x >= 0
  {
    (if arith && size.L? && n < 32 then Signed(x, size) else x) / Pow2(n)
  }

  function RightOf(arith: bool, x: int, n: nat, size: Size): Sum
    requires x >= 0
  {
    var q := RightQuotient(arith, x, n, size);
    var carry := (2 * x / Pow2(n)) % 2 == 1;
    Sum(Unsigned(q, size), Bundle(carry, Signed(q, size) < 0, Unsigned(q, size) == 0, false, carry))
  }

  lemma RightCarry(x: nat, n: nat, size: Size)
    requires x < Radix(size)
    ensures (0 < n <= Width(size) && (x / Pow2(n - 1)) % 2 == 1) <==> (2 * x / Pow2(n)) % 2 == 1
  {
    if n > 0 {
      QuotientOfMultiple(x, 2, Pow2(n - 1));
      if n > Width(size) { BelowPower(x, n - 1, size); }
    }
  }

  lemma QuotientBelow(x: nat, p: int)
    requires p >= 1
    ensures 0 <= x / p <= x
  {
    DivModLaw(x, p);
    if x / p > x {
      MulMono(p, x + 1, x / p);
      assert p * (x + 1) == p * x + p;
      TimesPositive(x, p);
    }
  }

  lemma PlainRight(x: u32, n: nat, size: Size)
    requires x < Radix(size) && n < Width(size)
    ensures Shifted(x, n) == x / Pow2(n) == Unsigned(x / Pow2(n), size) == Unsigned(Wrap32(x / Pow2(n)), size)
  {
    ShiftedIsQuotient(x, n);
    QuotientBelow(x, Pow2(n));
    SmallMod(x / Pow2(n), Radix(size));
    SmallMod(x / Pow2(n), U32_RANGE);
  }

  lemma RightResult(arith: bool, x: u32, n: nat, size: Size)
    requires x < Radix(size)
    ensures var k := if n < 31 then n else 31;
            (if n >= Width(size) then 0
             else if arith then Wrap32(Signed32(x) / Pow2(k)) % Radix(size) else Shifted(x, k))
            == Unsigned(RightQuotient(arith, x, n, size), size)
  {
    SmallMod(x, Radix(size));
    SmallMod(x, U32_RANGE);
    if n >= Width(size) {
      BelowPower(x, n, size);
    } else {
      PlainRight(x, n, size);
      if arith && size.L? { SmallMod(Wrap32(Signed(x, size) / Pow2(n)), Radix(size)); }
    }
  }

  lemma RightMeans(arith: bool, a: u32, n: nat, size: Size)
    ensures ShiftResult(false, arith, a, n, size) == RightOf(arith, Unsigned(a, size), n, size)
  {
    var x := Unsigned(a, size);
    var q := RightQuotient(arith, x, n, size);
    Sizes(size);
    RightResult(arith, x, n, size);
    RightCarry(x, n, size);
    ResultSign(Unsigned(q, size), q, size);
    WithCarry(Signed(q, size) < 0, Unsigned(q, size) == 0, false, (2 * x / Pow2(n)) % 2 == 1);
  }

  lemma LessMultiple(x: int, p: int, t: int)
    requires p > 0
    ensures (x - p * t) / p == x / p - t
  {
    DivModLaw(x, p);
    assert p * (x / p - t) == p * (x / p) - p * t;
    ModUnique(x - p * t, p, x / p - t, x % p);
  }

  lemma ShortQuotients(x: int, n: nat, w: nat, r: int)
    requires 0 < n < w && r == Pow2(w)
    ensures (x / Pow2(n)) % r != ((x - r) / Pow2(n)) % r
  {
    var p, t, q := Pow2(n), Pow2(w - n), x / Pow2(n);
    Pow2Add(n, w - n);
    LessMultiple(x, p, t);
    Pow2Mono(w - n, w - 1);
    DistinctResidues(r, q - t, 0, t);
  }

  lemma LongQuotients(x: int, n: nat, size: Size)
    requires 0 <= x < Radix(size) && n >= Width(size)
    ensures x / Pow2(n) == 0 && (x - Radix(size)) / Pow2(n) == -1
  {
    Sizes(size);
    Pow2Mono(Width(size), n);
    ModUnique(x - Radix(size), Pow2(n), -1, x - Radix(size) + Pow2(n));
    BelowPower(x, n, size);
  }

  /** Dividing the signed and the unsigned reading of a negative operand gives results that differ within the
      operand size. */
  lemma NegativeQuotients(x: int, n: nat, size: Size)
    requires 0 <= x < Radix(size) && n > 0
    ensures Unsigned(x / Pow2(n), size) != Unsigned((x - Radix(size)) / Pow2(n), size)
  {
    if n < Width(size) {
      Sizes(size);
      ShortQuotients(x, n, Width(size), Radix(size));
    } else {
      LongQuotients(x, n, size);
      ModUnique(-1, Radix(size), -1, Radix(size) - 1);
    }
  }

  /** The arithmetic quotient is the floor of the signed operand over 2^n, if and only if the operand is not
      negative, the count is 0, or a long is shifted by less than 32. */
  lemma QuotientIsFloor(x: int, n: nat, size: Size)
    requires 0 <= x < Radix(size)
    ensures Unsigned(RightQuotient(true, x, n, size), size) == Unsigned(Signed(x, size) / Pow2(n), size) <==>
            Signed(x, size) >= 0 || n == 0 || (size.L? && n < 32)
  {
    SmallMod(x, Radix(size));
    if Signed(x, size) < 0 {
      if n > 0 {
        NegativeQuotients(x, n, size);
      } else if !size.L? {
        ModUnique(x - Radix(size), Radix(size), -1, x);
      }
    }
  }

  // ---- the shift ops ------------------------------------------------------------------------------------

  lemma LeftApplied(i: Instr, m: Machine)
    requires i.op.Shift? && i.op.left
    ensures var x := Unsigned(m.arch.regs[i.op.dst], i.op.size);
            Applied(m, Step(M68K, i, m), i.op.dst, i.op.size, i.op.flags,
                    LeftOf(i.op.arith, x, i.op.count, i.op.size), true)
  {
    LeftMeans(i.op.arith, m.arch.regs[i.op.dst], i.op.count, i.op.size);
  }

  lemma RightApplied(i: Instr, m: Machine)
    requires i.op.Shift? && !i.op.left
    ensures var x := Unsigned(m.arch.regs[i.op.dst], i.op.size);
            Applied(m, Step(M68K, i, m), i.op.dst, i.op.size, i.op.flags,
                    RightOf(i.op.arith, x, i.op.count, i.op.size), true)
  {
    RightMeans(i.op.arith, m.arch.regs[i.op.dst], i.op.count, i.op.size);
  }

  lemma ResultPut(m: Machine, n: Machine, dst: Reg, size: Size, asked: Flags, s: Sum, v: int)
    requires Applied(m, n, dst, size, asked, s, true) && s.result == Unsigned(v, size)
    ensures Put(m.arch, n.arch, dst, v, size)
  {
    SetSizedPuts(m.arch, dst, s.result, size);
    SmallMod(s.result, Radix(size));
    PutSame(m.arch, n.arch, dst, s.result, v, size);
  }

  /** A left shift multiplies by 2^n modulo the operand size. C and X are the lowest bit beyond the size; an
      arithmetic shift sets V exactly when the signed product does not fit. */
  lemma LeftShiftMultiplies(i: Instr, m: Machine)
    requires i.op.Shift? && i.op.left
    ensures var x, n := Unsigned(m.arch.regs[i.op.dst], i.op.size), Step(M68K, i, m);
            var product := x * Pow2(i.op.count);
            var carry := (product / Radix(i.op.size)) % 2 == 1;
            && Put(m.arch, n.arch, i.op.dst, product, i.op.size)
            && Codes(i.op.flags, m.flags, n.flags, carry, Signed(product, i.op.size) < 0,
                     Unsigned(product, i.op.size) == 0,
                     i.op.arith && Signed(product, i.op.size) != Signed(x, i.op.size) * Pow2(i.op.count), carry)
  {
    var x := Unsigned(m.arch.regs[i.op.dst], i.op.size);
    var p, s := x * Pow2(i.op.count), LeftOf(i.op.arith, x, i.op.count, i.op.size);
    LeftApplied(i, m);
    ResultPut(m, Step(M68K, i, m), i.op.dst, i.op.size, i.op.flags, s, p);
    var carry := (p / Radix(i.op.size)) % 2 == 1;
    Collected(carry, Signed(p, i.op.size) < 0, Unsigned(p, i.op.size) == 0,
              i.op.arith && Signed(p, i.op.size) != Signed(x, i.op.size) * Pow2(i.op.count), carry,
              i.op.flags, m.flags);
  }

  /** A right shift divides by 2^n and rounds down: the signed operand of an arithmetic shift of a long by less
      than 32, the unsigned one otherwise. C and X are the last bit shifted out. */
  lemma RightShiftDivides(i: Instr, m: Machine)
    requires i.op.Shift? && !i.op.left
    ensures var x, n := Unsigned(m.arch.regs[i.op.dst], i.op.size), Step(M68K, i, m);
            var q := (if i.op.arith && i.op.size.L? && i.op.count < 32 then Signed(x, i.op.size) else x)
                     / Pow2(i.op.count);
            var carry := (2 * x / Pow2(i.op.count)) % 2 == 1;
            && Put(m.arch, n.arch, i.op.dst, q, i.op.size)
            && Codes(i.op.flags, m.flags, n.flags, carry, Signed(q, i.op.size) < 0, Unsigned(q, i.op.size) == 0,
                     false, carry)
  {
    var x := Unsigned(m.arch.regs[i.op.dst], i.op.size);
    var q, s := RightQuotient(i.op.arith, x, i.op.count, i.op.size), RightOf(i.op.arith, x, i.op.count, i.op.size);
    RightApplied(i, m);
    ResultPut(m, Step(M68K, i, m), i.op.dst, i.op.size, i.op.flags, s, q);
    var carry := (2 * x / Pow2(i.op.count)) % 2 == 1;
    Collected(carry, Signed(q, i.op.size) < 0, Unsigned(q, i.op.size) == 0, false, carry, i.op.flags, m.flags);
  }

  /** An arithmetic right shift is the floor of the signed operand over 2^n, if and only if the operand is not
      negative, the count is 0, or a long is shifted by less than 32. */
  lemma AsrIsFloorExactly(i: Instr, m: Machine)
    requires i.op.Shift? && !i.op.left && i.op.arith
    ensures var a, n := m.arch.regs[i.op.dst], Step(M68K, i, m);
            Unsigned(n.arch.regs[i.op.dst], i.op.size) ==
              Unsigned(Signed(a, i.op.size) / Pow2(i.op.count), i.op.size) <==>
            Signed(a, i.op.size) >= 0 || i.op.count == 0 || (i.op.size.L? && i.op.count < 32)
  {
    var x := Unsigned(m.arch.regs[i.op.dst], i.op.size);
    RightShiftDivides(i, m);
    SmallMod(x, Radix(i.op.size));
    SignedResidue(m.arch.regs[i.op.dst], x, i.op.size);
    QuotientIsFloor(x, i.op.count, i.op.size);
  }

  // ---- multiplication and division ----------------------------------------------------------------------------

  /** Only `dst` changes, and no condition code. */
  predicate OnlyReg(m: Machine, n: Machine, dst: Reg) {
    n.flags == m.flags && n.arch.mem == m.arch.mem && forall r: Reg :: r != dst ==> n.arch.regs[r] == m.arch.regs[r]
  }

  function Abs(x: int): int { if x < 0 then -x else x }

  lemma ProductBelow(x: nat, y: nat, n: nat)
    requires x <= n && y <= n
    ensures 0 <= x * y <= n * n
  {
    MulMono(x, y, n);
    MulMono(n, x, n);
    assert n * x == x * n;
  }

  lemma SignedProduct(x: int, y: int)
    ensures x * y == Abs(x) * Abs(y) || x * y == -(Abs(x) * Abs(y))
  {
    if x < 0 { assert x * y == -((-x) * y); }
    if y < 0 { assert Abs(x) * y == -(Abs(x) * (-y)); }
  }

  /** `mulu` and `muls`: the whole product of the two low words. */
  lemma MulIsProduct(i: Instr, m: Machine)
    requires i.op.MulDivOp? && (i.op.md.MulU? || i.op.md.MulS?)
    ensures var a, b, n := m.arch.regs[i.op.dst], m.arch.regs[i.op.src], Step(M68K, i, m);
            && OnlyReg(m, n, i.op.dst)
            && (i.op.md.MulU? ==> n.arch.regs[i.op.dst] == Unsigned(a, W) * Unsigned(b, W))
            && (i.op.md.MulS? ==> Signed(n.arch.regs[i.op.dst], L) == Signed(a, W) * Signed(b, W))
  {
    var a, b := m.arch.regs[i.op.dst], m.arch.regs[i.op.src];
    if i.op.md.MulU? {
      ProductBelow(Unsigned(a, W), Unsigned(b, W), 65535);
      SmallMod(Unsigned(a, W) * Unsigned(b, W), U32_RANGE);
    } else {
      var p := Signed(a, W) * Signed(b, W);
      ProductBelow(Abs(Signed(a, W)), Abs(Signed(b, W)), 32768);
      SignedProduct(Signed(a, W), Signed(b, W));
      SignedWrap(p);
    }
  }

  lemma SignedWrap(p: int)
    requires -0x8000_0000 <= p < 0x8000_0000
    ensures Signed(Wrap32(p), L) == p
  {
    if p >= 0 { SmallMod(p, U32_RANGE); } else { ModUnique(p, U32_RANGE, -1, p + U32_RANGE); }
    SmallMod(Wrap32(p), U32_RANGE);
  }

  /** A dividend below 65536 times the divisor has a 16-bit quotient, and no other has. */
  lemma QuotientFits(a: nat, v: nat, n: int)
    requires v > 0 && n > 0
    ensures a / v < n <==> a < n * v
  {
    DivModLaw(a, v);
    if a / v < n { MulMono(v, a / v, n - 1); assert v * (n - 1) == v * n - v; }
    else { MulMono(v, n, a / v); }
  }

  lemma Unpacked(q: int, p: int, r: u32)
    requires 0 <= q < 65536 && 0 <= p < 65536 && r == Wrap32(p * 65536 + q)
    ensures r % 65536 == q && r / 65536 == p
  {
    SmallMod(p * 65536 + q, U32_RANGE);
    ModUnique(r, 65536, p, q);
  }

  lemma DivuResult(a: u32, b: u32, v: int, r: u32)
    requires v == Unsigned(b, W) && r == MulDivResult(DivU, a, b)
    ensures if a < 65536 * v then (r % 65536) * v + r / 65536 == a && r / 65536 < v else r == a
  {
    if v > 0 {
      var q, p := a / v, a % v;
      QuotientFits(a, v, 65536);
      DivModLaw(a, v);
      if a < 65536 * v {
        QuotientBelow(a, v);
        Unpacked(q, p, r);
        assert (r % 65536) * v == v * q;
      }
    }
  }

  /** `divu`: quotient in the low half, remainder in the high half; nothing happens when the divisor is 0 or the
      quotient does not fit. */
  lemma DivuDivides(i: Instr, m: Machine)
    requires i.op.MulDivOp? && i.op.md.DivU?
    ensures var a, v, n := m.arch.regs[i.op.dst], Unsigned(m.arch.regs[i.op.src], W), Step(M68K, i, m);
            var r := n.arch.regs[i.op.dst];
            && OnlyReg(m, n, i.op.dst)
            && (if a < 65536 * v then (r % 65536) * v + r / 65536 == a && r / 65536 < v else r == a)
  {
    var a, b, n := m.arch.regs[i.op.dst], m.arch.regs[i.op.src], Step(M68K, i, m);
    DivuResult(a, b, Unsigned(b, W), n.arch.regs[i.op.dst]);
  }

  lemma SignedMultiples(q: int, b: int)
    ensures (-q) * b == -(q * b) && q * (-b) == -(q * b) && (-q) * (-b) == q * b
  {
  }

  /** Truncating division by magnitudes. */
  lemma TruncMagnitude(n: int, v: int)
    requires v != 0
    ensures var q := Abs(n) / Abs(v);
            && TruncDiv(n, v) == (if (n < 0) == (v < 0) then q else -q)
            && TruncDiv(n, v) * v == (if n < 0 then -(Abs(v) * q) else Abs(v) * q)
  {
    var a, b := Abs(n), Abs(v);
    var q := a / b;
    SignedMultiples(q, b);
    assert q * b == b * q;
  }

  lemma TruncLaw(n: int, v: int)
    requires v != 0
    ensures TruncDiv(n, v) * v + TruncRem(n, v) == n && Abs(TruncRem(n, v)) < Abs(v)
    ensures TruncRem(n, v) == 0 || (TruncRem(n, v) < 0) == (n < 0)
  {
    TruncMagnitude(n, v);
    DivModLaw(Abs(n), Abs(v));
  }

  /** Whether the quotient of two numbers, rounded towards zero, is a signed word: up to 32767 for equal signs,
      down to -32768 for different ones. */
  predicate WordQuotient(n: int, v: int) {
    v != 0 && Abs(n) < (if (n < 0) == (v < 0) then 32768 else 32769) * Abs(v)
  }

  lemma WordQuotientExactly(n: int, v: int)
    requires v != 0
    ensures -32768 <= TruncDiv(n, v) <= 32767 <==> WordQuotient(n, v)
  {
    TruncMagnitude(n, v);
    QuotientBelow(Abs(n), Abs(v));
    QuotientFits(Abs(n), Abs(v), 32768);
    QuotientFits(Abs(n), Abs(v), 32769);
  }

  lemma PackedHalves(q: int, r: int, x: int)
    requires -32768 <= q <= 32767 && -32768 <= r <= 32767 && x == (r % 65536) * 65536 + q % 65536
    ensures Signed(x, W) == q && Signed(x / 65536, W) == r
  {
    ModUnique(x, 65536, r % 65536, q % 65536);
    SmallMod(r % 65536, 65536);
    WordResidue(q);
    WordResidue(r);
  }

  lemma WordResidue(q: int)
    requires -32768 <= q <= 32767
    ensures q % 65536 == if q < 0 then q + 65536 else q
  {
    if q < 0 { ModUnique(q, 65536, -1, q + 65536); }
  }

  /** `divs`: the same for signed operands, rounded towards zero, so that the remainder has the sign of the
      dividend. */
  lemma DivsDivides(i: Instr, m: Machine)
    requires i.op.MulDivOp? && i.op.md.DivS?
    ensures var a, v, n := m.arch.regs[i.op.dst], Signed(m.arch.regs[i.op.src], W), Step(M68K, i, m);
            var r := n.arch.regs[i.op.dst];
            var d, quotient, remainder := Signed(a, L), Signed(r, W), Signed(r / 65536, W);
            && OnlyReg(m, n, i.op.dst)
            && (if WordQuotient(d, v) then
                  && quotient * v + remainder == d && Abs(remainder) < Abs(v)
                  && (remainder == 0 || (remainder < 0) == (d < 0))
                else r == a)
  {
    var a, v, n := m.arch.regs[i.op.dst], Signed(m.arch.regs[i.op.src], W), Step(M68K, i, m);
    DivsResult(a, m.arch.regs[i.op.src], Signed(a, L), v, n.arch.regs[i.op.dst]);
  }

  lemma DivsShape(a: u32, b: u32, d: int, v: int)
    requires d == Signed(a, L) && v == Signed(b, W)
    ensures MulDivResult(DivS, a, b) ==
            if WordQuotient(d, v) then (TruncRem(d, v) % 65536) * 65536 + TruncDiv(d, v) % 65536 else a
  {
    SmallMod(a, U32_RANGE);
    assert v == Signed16(b) && d == Signed32(a);
    if v != 0 { WordQuotientExactly(d, v); }
  }

  lemma DivsResult(a: u32, b: u32, d: int, v: int, r: u32)
    requires d == Signed(a, L) && v == Signed(b, W) && r == MulDivResult(DivS, a, b)
    ensures if WordQuotient(d, v) then
              && Signed(r, W) * v + Signed(r / 65536, W) == d && Abs(Signed(r / 65536, W)) < Abs(v)
              && (Signed(r / 65536, W) == 0 || (Signed(r / 65536, W) < 0) == (d < 0))
            else r == a
  {
    DivsShape(a, b, d, v);
    if WordQuotient(d, v) {
      var q, p := TruncDiv(d, v), TruncRem(d, v);
      TruncLaw(d, v);
      WordQuotientExactly(d, v);
      PackedHalves(q, p, r);
    }
  }
}
