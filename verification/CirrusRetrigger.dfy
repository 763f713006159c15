/**
 Exactly when re-triggering a one-row transfer of the Cirrus engine continues it
 (crates/machine-core/src/cirrus.rs `execute_blit`, `blit_addr`, `set_blit_addr`).

 Between two triggers the address counters are cut to 21 bits; inside one trigger they are not. For an
 opaque transfer the two agree, whatever the VRAM holds and whatever the raster op, if and only if no
 byte that only the wrapped counters reach makes a difference.
 */
module CirrusRetrigger {
  import opened Bits
  import opened Cirrus

  predicate In(len: nat, at: int) { 0 <= at < len }

  predicate Wraps(back: bool, at: nat, w: nat) { !In(ADDR_RANGE, Onward(back, at, w)) }

  /** Byte `x` of the second piece, from a counter that stood at `at` before the first. */
  function Second(back: bool, at: nat, w1: nat, x: nat): int { Onward(back, Wrapped(Onward(back, at, w1)), x) }

  /** What a caller can check beforehand: direction, counters, VRAM length and the two widths. */
  datatype Plan = Plan(back: bool, dst: nat, src: nat, len: nat, w1: nat, w2: nat) {
    predicate Valid() {
      dst < ADDR_RANGE && src < ADDR_RANGE && w1 >= 1 && w2 >= 1 && w1 + w2 <= 2048 && w1 + w2 <= len
    }

    /** The destination counter does not wrap over the first piece, or its wrapped bytes lie past the VRAM. */
    predicate DstSafe() {
      Wraps(back, dst, w1) ==> forall x: nat :: x < w2 ==> !In(len, Second(back, dst, w1, x))
    }

    /** The source counter does not wrap over the first piece, or no byte of the second piece is both
        written to the VRAM and fetched from it through the wrapped counter. */
    predicate SrcSafe() {
      Wraps(back, src, w1) ==>
        forall x: nat :: x < w2 ==> !(In(len, Second(back, dst, w1, x)) && In(len, Second(back, src, w1, x)))
    }

    predicate Safe() { DstSafe() && SrcSafe() }
  }

  function PlanOf(v: View, w1: nat, w2: nat): Plan { Plan(v.p.back, v.dst, v.src, |v.vram|, w1, w2) }

  // ---- the condition in closed form --------------------------------------------------------------

  /** Going up: the destination must not wrap, and the source only past the last byte written. */
  lemma SafeGoingUp(t: Plan)
    requires t.Valid() && !t.back
    ensures t.Safe() <==> t.dst + t.w1 < ADDR_RANGE && (t.src + t.w1 < ADDR_RANGE || t.dst + t.w1 >= t.len)
  {
    WrapUp(t.dst, t.w1);
    WrapUp(t.src, t.w1);
    assert Second(false, t.dst, t.w1, 0) == Wrapped(t.dst + t.w1);
    assert Second(false, t.src, t.w1, 0) == Wrapped(t.src + t.w1);
  }

  lemma WrapUp(at: nat, w: nat)
    requires at < ADDR_RANGE && 1 <= w <= 2048
    ensures Wrapped(at + w) == if at + w < ADDR_RANGE then at + w else at + w - ADDR_RANGE
  {
  }

  lemma WrapDown(at: nat, w: nat)
    requires at < ADDR_RANGE && 1 <= w <= 2048
    ensures Wrapped(at - w) == if at >= w then at - w else at - w + ADDR_RANGE
  {
  }

  function Max(a: int, b: int): int { if a > b then a else b }
  function Min(a: int, b: int): int { if a < b then a else b }

  /** Going down: each counter must not wrap, or must come back past the VRAM, and for the source it is
      enough that the bytes of the second piece that can be fetched and those that are stored do not meet. */
  lemma SafeGoingDown(t: Plan)
    requires t.Valid() && t.back
    ensures var d, s := Wrapped(t.dst - t.w1), Wrapped(t.src - t.w1);
            t.Safe() <==>
            && (t.dst >= t.w1 || d - (t.w2 - 1) >= t.len)
            && (t.src >= t.w1 || Max(0, Max(d, s) - t.len + 1) > Min(t.w2 - 1, d))
  {
    WrapDown(t.dst, t.w1);
    WrapDown(t.src, t.w1);
    var d, s := Wrapped(t.dst - t.w1), Wrapped(t.src - t.w1);
    if t.dst < t.w1 {
      assert In(t.len, Second(true, t.dst, t.w1, t.w2 - 1)) <==> d - (t.w2 - 1) < t.len;
    }
    var x := Max(0, Max(d, s) - t.len + 1);
    if t.src < t.w1 && x <= Min(t.w2 - 1, d) {
      assert In(t.len, Second(true, t.dst, t.w1, x)) && In(t.len, Second(true, t.src, t.w1, x));
    }
  }

  // ---- safe plans join ----------------------------------------------------------------------------

  /** The wrapped and the unwrapped second piece transfer byte `x` alike. */
  lemma ByteJoins(v: Vram, p: Params, t: Plan, x: nat)
    requires p.Valid() && !p.transparent && p.back == t.back && |v| == t.len && t.Valid() && t.Safe() && x < t.w2
    ensures CopyByte(v, p, Second(t.back, t.dst, t.w1, 0), Second(t.back, t.src, t.w1, 0), x) ==
            CopyByte(v, p, Onward(t.back, t.dst, t.w1), Onward(t.back, t.src, t.w1), x)
  {
    if t.back {
      WrapDown(t.dst, t.w1);
      WrapDown(t.src, t.w1);
      assert Second(true, t.dst, t.w1, x) == Onward(true, Second(true, t.dst, t.w1, 0), x);
      assert Second(true, t.src, t.w1, x) == Onward(true, Second(true, t.src, t.w1, 0), x);
    } else {
      SafeGoingUp(t);
      WrapUp(t.dst, t.w1);
      WrapUp(t.src, t.w1);
    }
  }

  lemma {:induction false} RowJoins(v: Vram, p: Params, t: Plan, x: nat, n: nat)
    requires p.Valid() && !p.transparent && p.back == t.back && |v| == t.len && t.Valid() && t.Safe()
    requires x + n == t.w2
    ensures CopyRow(v, p, Second(t.back, t.dst, t.w1, 0), Second(t.back, t.src, t.w1, 0), x, n) ==
            CopyRow(v, p, Onward(t.back, t.dst, t.w1), Onward(t.back, t.src, t.w1), x, n)
    decreases n
  {
    if n > 0 {
      ByteJoins(v, p, t, x);
      RowJoins(CopyByte(v, p, Onward(t.back, t.dst, t.w1), Onward(t.back, t.src, t.w1), x), p, t, x + 1, n - 1);
    }
  }

  /** The counters always end alike. */
  lemma CountersMeet(back: bool, at: nat, w1: nat, w2: nat, w: nat)
    requires w == w1 + w2
    ensures Wrapped(Onward(back, Wrapped(Onward(back, at, w1)), w2)) == Wrapped(Onward(back, at, w))
  {
    var first := Onward(back, at, w1);
    var step := if back then -AsInt(w2) else w2;
    Congruent(ADDR_RANGE, Wrapped(first), first, step);
  }

  predicate Joins(v: View, w1: nat, w2: nat, w: nat)
    requires v.p.Valid()
  {
    Run(Run(v, w1), w2) == Run(v, w)
  }

  lemma SafeJoins(v: View, w1: nat, w2: nat, w: nat)
    requires v.p.Valid() && !v.p.transparent && w == w1 + w2
    requires PlanOf(v, w1, w2).Valid() && PlanOf(v, w1, w2).Safe()
    ensures Joins(v, w1, w2, w)
  {
    CountersMeet(v.p.back, v.dst, w1, w2, w);
    CountersMeet(v.p.back, v.src, w1, w2, w);
    RowsJoin(v.vram, v.p, v.dst, v.src, w1, w2, w);
    RowJoins(CopyRow(v.vram, v.p, v.dst, v.src, 0, w1), v.p, PlanOf(v, w1, w2), 0, w2);
  }

  // ---- unsafe plans do not ---------------------------------------------------------------------------

  function Zeros(n: nat): Vram { seq(n, _ => 0) }

  /** A cell that no byte of the row is stored to keeps its value. */
  lemma {:induction false} RowMisses(v: Vram, p: Params, dst: int, src: int, x: nat, n: nat, at: nat)
    requires p.Valid() && at < |v|
    requires forall y: nat :: x <= y < x + n ==> Onward(p.back, dst, y) != at
    ensures CopyRow(v, p, dst, src, x, n)[at] == v[at]
    decreases n
  {
    if n > 0 {
      assert Onward(p.back, dst, x) != at;
      RowMisses(CopyByte(v, p, dst, src, x), p, dst, src, x + 1, n - 1, at);
    }
  }

  /** The byte stored at position `x0` is still there at the end of the row. */
  lemma RowStores(v: Vram, p: Params, dst: int, src: int, x0: nat, n: nat, mid: Vram)
    requires p.Valid() && x0 < n && 0 <= Onward(p.back, dst, x0) < |v|
    requires mid == CopyRow(v, p, dst, src, 0, x0)
    ensures var at := Onward(p.back, dst, x0);
            CopyRow(v, p, dst, src, 0, n)[at] == CopyByte(mid, p, dst, src, x0)[at]
  {
    var at := Onward(p.back, dst, x0);
    var left := n - x0;
    RowSplits(v, p, dst, src, 0, x0, left);
    RowMisses(CopyByte(mid, p, dst, src, x0), p, dst, src, x0 + 1, left - 1, at);
  }

  const ROP_ONES: u8 := 0x0E
  const ROP_XOR: u8 := 0x59

  /** An unsafe destination: filling zeroed memory with ones reaches byte `x0` only through the wrap. */
  lemma DstDiffers(v: View, w1: nat, w2: nat, w: nat, x0: nat)
    requires v.p.Valid() && !v.p.transparent && v.p.rop == ROP_ONES && w == w1 + w2
    requires PlanOf(v, w1, w2).Valid() && v.vram == Zeros(|v.vram|)
    requires Wraps(v.p.back, v.dst, w1) && x0 < w2 && In(|v.vram|, Second(v.p.back, v.dst, w1, x0))
    ensures !Joins(v, w1, w2, w)
  {
    var at := Second(v.p.back, v.dst, w1, x0);
    SecondIsElsewhere(v.p.back, v.dst, w1, w2, x0);
    RowMisses(v.vram, v.p, v.dst, v.src, 0, w, at);
    var mid := Run(v, w1);
    RowStores(mid.vram, v.p, mid.dst, mid.src, x0, w2, CopyRow(mid.vram, v.p, mid.dst, mid.src, 0, x0));
  }

  /** A wrapped counter never comes back to a byte of the unwrapped transfer. */
  lemma SecondIsElsewhere(back: bool, at: nat, w1: nat, w2: nat, x0: nat)
    requires at < ADDR_RANGE && w1 >= 1 && w1 + w2 <= 2048 && x0 < w2 && Wraps(back, at, w1)
    ensures forall y: nat :: y < w1 + w2 ==> Onward(back, at, y) != Second(back, at, w1, x0)
  {
    if back { WrapDown(at, w1); } else { WrapUp(at, w1); }
  }

  /** Memory that is zero except for one byte. */
  predicate LoneByte(v: Vram, at: nat) { at < |v| && v == Zeros(|v|)[at := 0xFF] }

  /** XOR with zeros changes nothing. */
  lemma {:induction false} XorIdles(v: Vram, p: Params, dst: int, src: int, x: nat, n: nat, lone: nat)
    requires p.Valid() && !p.transparent && p.rop == ROP_XOR && LoneByte(v, lone)
    requires forall y: nat :: x <= y < x + n ==> Onward(p.back, src, y) != lone
    ensures CopyRow(v, p, dst, src, x, n) == v
    decreases n
  {
    if n > 0 {
      assert Onward(p.back, src, x) != lone;
      assert Source(v, p.back, src, x) == 0;
      assert CopyByte(v, p, dst, src, x) == v;
      XorIdles(v, p, dst, src, x + 1, n - 1, lone);
    }
  }

  /** An unsafe source: the lone byte is fetched only through the wrapped counter. */
  lemma SrcDiffers(v: View, w1: nat, w2: nat, w: nat, x0: nat)
    requires v.p.Valid() && !v.p.transparent && v.p.rop == ROP_XOR && w == w1 + w2
    requires PlanOf(v, w1, w2).Valid() && Wraps(v.p.back, v.src, w1) && x0 < w2
    requires In(|v.vram|, Second(v.p.back, v.dst, w1, x0)) && In(|v.vram|, Second(v.p.back, v.src, w1, x0))
    requires LoneByte(v.vram, Second(v.p.back, v.src, w1, x0))
    ensures !Joins(v, w1, w2, w)
  {
    var m, p := v.vram, v.p;
    var lone := Second(p.back, v.src, w1, x0);
    SecondIsElsewhere(p.back, v.src, w1, w2, x0);
    XorIdles(m, p, v.dst, v.src, 0, w, lone);
    XorIdles(m, p, v.dst, v.src, 0, w1, lone);
    LoneByteShows(m, p, Run(v, w1).dst, Run(v, w1).src, w2, x0);
  }

  /** A transfer that fetches the lone byte changes the memory. */
  lemma LoneByteShows(m: Vram, p: Params, dst: nat, src: nat, n: nat, x0: nat)
    requires p.Valid() && !p.transparent && p.rop == ROP_XOR && x0 < n
    requires In(|m|, Onward(p.back, dst, x0)) && In(|m|, Onward(p.back, src, x0))
    requires LoneByte(m, Onward(p.back, src, x0))
    ensures CopyRow(m, p, dst, src, 0, n) != m
  {
    var at := Onward(p.back, dst, x0);
    XorIdles(m, p, dst, src, 0, x0, Onward(p.back, src, x0));
    RowStores(m, p, dst, src, x0, n, m);
    assert Source(m, p.back, src, x0) == 0xFF;
    assert ApplyRop(ROP_XOR, 0xFF, m[at]) != m[at];
  }

  // ---- the exact condition ------------------------------------------------------------------------------

  /** The same transfer with other contents and another raster op. */
  function With(v: View, m: Vram, rop: u8): View { v.(vram := m, p := v.p.(rop := rop)) }

  ghost predicate AlwaysJoins(v: View, w1: nat, w2: nat, w: nat)
    requires v.p.Valid()
  {
    forall m: Vram, rop: u8 :: |m| == |v.vram| ==> Joins(With(v, m, rop), w1, w2, w)
  }

  lemma JoinsExactly(v: View, w1: nat, w2: nat, w: nat)
    requires v.p.Valid() && !v.p.transparent && w == w1 + w2 && PlanOf(v, w1, w2).Valid()
    ensures AlwaysJoins(v, w1, w2, w) <==> PlanOf(v, w1, w2).Safe()
  {
    var t := PlanOf(v, w1, w2);
    if t.Safe() {
      forall m: Vram, rop: u8 | |m| == |v.vram|
        ensures Joins(With(v, m, rop), w1, w2, w)
      {
        SafeJoins(With(v, m, rop), w1, w2, w);
      }
    } else {
      UnsafeDiffers(v, w1, w2, w);
    }
  }

  lemma UnsafeDiffers(v: View, w1: nat, w2: nat, w: nat)
    requires v.p.Valid() && !v.p.transparent && w == w1 + w2
    requires PlanOf(v, w1, w2).Valid() && !PlanOf(v, w1, w2).Safe()
    ensures !AlwaysJoins(v, w1, w2, w)
  {
    var t := PlanOf(v, w1, w2);
    var zeros := Zeros(t.len);
    if !t.DstSafe() {
      var x0: nat :| x0 < w2 && In(t.len, Second(t.back, t.dst, w1, x0));
      DstDiffers(With(v, zeros, ROP_ONES), w1, w2, w, x0);
    } else {
      var x0: nat :| x0 < w2 && In(t.len, Second(t.back, t.dst, w1, x0)) && In(t.len, Second(t.back, t.src, w1, x0));
      var lone := Second(t.back, t.src, w1, x0);
      SrcDiffers(With(v, zeros[lone := 0xFF], ROP_XOR), w1, w2, w, x0);
    }
  }

  // ---- and in triggers -------------------------------------------------------------------------------------

  function Loaded(e: Engine, m: Vram, rop: u8): Engine { Engine(m, e.gr[ROP := rop]) }

  predicate Continues(e: Engine, w1: nat, w2: nat, w: nat)
    requires 1 <= w1 <= 2048 && 1 <= w2 <= 2048 && 1 <= w <= 2048
  {
    ViewOf(Trigger(Trigger(e, w1), w2)) == ViewOf(Trigger(e, w))
  }

  /** Width `w1` and then only the width reprogrammed to `w2` leaves the VRAM and both counters of one
      trigger of width `w1 + w2`, for every VRAM contents and every raster op, if and only if the plan is
      safe. */
  lemma RetriggerContinuesExactly(e: Engine, w1: nat, w2: nat, w: nat)
    requires LastRow(e.gr) == 0 && !Decoded(e.gr).transparent
    requires w1 >= 1 && w2 >= 1 && w1 + w2 == w <= 2048 && w <= |e.vram|
    ensures (forall m: Vram, rop: u8 :: |m| == |e.vram| ==> Continues(Loaded(e, m, rop), w1, w2, w)) <==>
            PlanOf(ViewOf(e), w1, w2).Safe()
  {
    var v := ViewOf(e);
    CountersInRange(e);
    forall m: Vram, rop: u8 | |m| == |e.vram|
      ensures Continues(Loaded(e, m, rop), w1, w2, w) == Joins(With(v, m, rop), w1, w2, w)
    {
      LoadedView(e, m, rop);
      TriggersAreRuns(Loaded(e, m, rop), w1, w2, w);
    }
    JoinsExactly(v, w1, w2, w);
  }

  lemma LoadedView(e: Engine, m: Vram, rop: u8)
    ensures ViewOf(Loaded(e, m, rop)) == With(ViewOf(e), m, rop) && LastRow(Loaded(e, m, rop).gr) == LastRow(e.gr)
  {
    var g := e.gr[ROP := rop];
    assert g[TRANSPARENT_COMPARE..TRANSPARENT_COMPARE + 4] == e.gr[TRANSPARENT_COMPARE..TRANSPARENT_COMPARE + 4];
    assert g[TRANSPARENT_MASK..TRANSPARENT_MASK + 4] == e.gr[TRANSPARENT_MASK..TRANSPARENT_MASK + 4];
  }

  lemma TriggersAreRuns(e: Engine, w1: nat, w2: nat, w: nat)
    requires LastRow(e.gr) == 0 && w1 >= 1 && w2 >= 1 && w1 + w2 == w <= 2048 && w <= |e.vram|
    ensures Continues(e, w1, w2, w) == Joins(ViewOf(e), w1, w2, w)
  {
    OneRowTrigger(e, w1);
    OneRowTrigger(Trigger(e, w1), w2);
    OneRowTrigger(e, w);
  }
}
