/**
 `movem` save and restore: a store through -(An) followed by a load through (An)+ with the
 bit-reversed mask is the identity on every selected register and on An
 (crates/m68k-vp/src/decoder.rs `decode_movem`, interp.rs `resolve_ea`).
 */
module VpMovem {
  import opened Bits
  import opened VpIr
  import opened VpPasses
  import opened VpDecoder

  /** The micro-ops run in order. */
  function RunOps(sem: Semantics, ops: seq<Instr>, a: Arch): Arch {
    if ops == [] then a else RunOps(sem, ops[1..], sem.effect(ops[0], a))
  }

  function Store(an: Reg, r: Reg, a: Arch): Arch {
    var sp := Wrap32(a.regs[an] - L.Bytes());
    Arch(a.regs[an := sp], WriteU32(a.mem, sp, a.regs[r]))
  }

  function Load(an: Reg, r: Reg, a: Arch): Arch {
    var regs := a.regs[an := Wrap32(a.regs[an] + L.Bytes())];
    a.(regs := regs[r := ReadU32(a.mem, a.regs[an])])
  }

  function StoreAll(rs: seq<Reg>, an: Reg, a: Arch): Arch {
    if rs == [] then a else StoreAll(rs[1..], an, Store(an, rs[0], a))
  }

  function LoadAll(rs: seq<Reg>, an: Reg, a: Arch): Arch {
    if rs == [] then a else LoadAll(rs[1..], an, Load(an, rs[0], a))
  }

  /** The two transfers of a `movem` and the `nop` of its empty list mean what they should. */
  ghost predicate MovesLongs(sem: Semantics) {
    && (forall i: Instr, an: Reg, r: Reg, a: Arch ::
          IsTransfer(i, true, an, r) ==> sem.effect(i, a) == Store(an, r, a))
    && (forall i: Instr, an: Reg, r: Reg, a: Arch ::
          IsTransfer(i, false, an, r) ==> sem.effect(i, a) == Load(an, r, a))
    && (forall i: Instr, a: Arch :: i.op == Nop ==> sem.effect(i, a) == a)
  }

  predicate IsTransfer(i: Instr, store: bool, an: Reg, r: Reg) { i.op == MovemOp(store, an, r) }

  lemma SetSizedLong(regs: Regs, r: Reg, v: u32)
    ensures SetSized(regs, r, v, L) == regs[r := v]
  {
    assert regs[r] % U32_RANGE == regs[r] && v % U32_RANGE == v;
  }

  lemma OneStore(i: Instr, an: Reg, r: Reg, a: Arch)
    requires IsTransfer(i, true, an, r)
    ensures Effect(i, a) == Store(an, r, a)
  {
  }

  lemma OneLoad(i: Instr, an: Reg, r: Reg, a: Arch)
    requires IsTransfer(i, false, an, r)
    ensures Effect(i, a) == Load(an, r, a)
  {
    var ea := PostInc(an);
    SetSizedLong(EaRegs(a.regs, ea, L), r, ReadSized(a.mem, EaAddr(a.regs, ea, L), L));
  }

  lemma M68kMovesLongs()
    ensures MovesLongs(M68K)
  {
    forall i: Instr, an: Reg, r: Reg, a: Arch | IsTransfer(i, true, an, r)
      ensures M68K.effect(i, a) == Store(an, r, a)
    {
      OneStore(i, an, r, a);
    }
    forall i: Instr, an: Reg, r: Reg, a: Arch | IsTransfer(i, false, an, r)
      ensures M68K.effect(i, a) == Load(an, r, a)
    {
      OneLoad(i, an, r, a);
    }
  }

  lemma {:induction false} OpsAreStores(sem: Semantics, ops: seq<Instr>, rs: seq<Reg>, an: Reg, a: Arch)
    requires MovesLongs(sem) && |ops| == |rs|
    requires forall i :: 0 <= i < |ops| ==> IsTransfer(ops[i], true, an, rs[i])
    ensures RunOps(sem, ops, a) == StoreAll(rs, an, a)
    decreases |ops|
  {
    if ops != [] {
      assert sem.effect(ops[0], a) == Store(an, rs[0], a);
      OpsAreStores(sem, ops[1..], rs[1..], an, Store(an, rs[0], a));
    }
  }

  lemma {:induction false} OpsAreLoads(sem: Semantics, ops: seq<Instr>, rs: seq<Reg>, an: Reg, a: Arch)
    requires MovesLongs(sem) && |ops| == |rs|
    requires forall i :: 0 <= i < |ops| ==> IsTransfer(ops[i], false, an, rs[i])
    ensures RunOps(sem, ops, a) == LoadAll(rs, an, a)
    decreases |ops|
  {
    if ops != [] {
      assert sem.effect(ops[0], a) == Load(an, rs[0], a);
      OpsAreLoads(sem, ops[1..], rs[1..], an, Load(an, rs[0], a));
    }
  }

  /** The expansion of a `movem`, the empty list's `Nop` included, is its list of transfers. */
  lemma MovemIsTransfers(sem: Semantics, store: bool, an: Reg, list: RegList, pc: u32, a: Arch)
    requires MovesLongs(sem)
    ensures RunOps(sem, MovemOps(store, an, list, pc), a) ==
            if store then StoreAll(Transfers(store, list), an, a) else LoadAll(Transfers(store, list), an, a)
  {
    var sel, ops := Transfers(store, list), MovemOps(store, an, list, pc);
    if sel == [] {
      assert RunOps(sem, ops[1..], sem.effect(ops[0], a)) == a;
    } else if store {
      OpsAreStores(sem, ops, sel, an, a);
    } else {
      OpsAreLoads(sem, ops, sel, an, a);
    }
  }

  // ---- longs in masked memory --------------------------------------------------------

  /** Reading a long depends on the address only modulo the buffer length. */
  lemma ReadU32Congruent(m: Mem, x: int, y: int)
    requires Idx(x, |m|) == Idx(y, |m|)
    ensures ReadU32(m, x) == ReadU32(m, y)
  {
    IdxCongruent(x, y, 1, |m|);
    IdxCongruent(x, y, 2, |m|);
    IdxCongruent(x, y, 3, |m|);
  }

  lemma WriteU32Bytes(m: Mem, a: int, v: u32)
    requires |m| >= 8
    ensures var m' := WriteU32(m, a, v);
            && |m'| == |m|
            && ReadU8(m', a) == v / U16_RANGE / 256 && ReadU8(m', a + 1) == v / U16_RANGE % 256
            && ReadU8(m', a + 2) == v % U16_RANGE / 256 && ReadU8(m', a + 3) == v % U16_RANGE % 256
  {
    DistinctBytes(|m|, a, 0, 1);
    DistinctBytes(|m|, a, 0, 2);
    DistinctBytes(|m|, a, 0, 3);
    DistinctBytes(|m|, a, 1, 2);
    DistinctBytes(|m|, a, 1, 3);
    DistinctBytes(|m|, a, 2, 3);
  }

  lemma WriteU32Frame(m: Mem, a: int, v: u32, d: nat)
    requires |m| >= 8 && 4 <= d < |m|
    ensures ReadU8(WriteU32(m, a, v), a + d) == ReadU8(m, a + d)
  {
    DistinctBytes(|m|, a, 0, d);
    DistinctBytes(|m|, a, 1, d);
    DistinctBytes(|m|, a, 2, d);
    DistinctBytes(|m|, a, 3, d);
  }

  lemma StoredLong(m: Mem, a: int, v: u32)
    requires |m| >= 8
    ensures ReadU32(WriteU32(m, a, v), a) == v
  {
    WriteU32Bytes(m, a, v);
  }

  /** The long at `a` in two memories that agree on its four bytes. */
  lemma SameLong(m: Mem, m': Mem, a: int)
    requires |m| == |m'|
    requires forall x: int :: a <= x < a + 4 ==> ReadU8(m, x) == ReadU8(m', x)
    ensures ReadU32(m, a) == ReadU32(m', a)
  {
    assert ReadU8(m, a) == ReadU8(m', a);
    assert ReadU8(m, a + 1) == ReadU8(m', a + 1);
    assert ReadU8(m, a + 2) == ReadU8(m', a + 2);
    assert ReadU8(m, a + 3) == ReadU8(m', a + 3);
  }

  // ---- storing and loading a list of registers ------------------------------------------

  /** Everything but the `4 * n` bytes below `top` is the same in both memories. */
  ghost predicate KeptAbove(m: Mem, m': Mem, top: int, n: nat) {
    |m'| == |m| && forall x: int :: top <= x < top + |m| - 4 * n ==> ReadU8(m', x) == ReadU8(m, x)
  }

  /** The long below `top` is the first register of the list, the one below that the second, ... */
  predicate SavedRegs(m: Mem, regs: Regs, rs: seq<Reg>, top: int) {
    rs == [] || (ReadU32(m, top - 4) == regs[rs[0]] && SavedRegs(m, regs, rs[1..], top - 4))
  }

  lemma {:induction false} SavedAt(m: Mem, regs: Regs, rs: seq<Reg>, top: int, i: nat)
    requires SavedRegs(m, regs, rs, top) && i < |rs|
    ensures ReadU32(m, top - 4 * (i + 1)) == regs[rs[i]]
    decreases i
  {
    if i > 0 { SavedAt(m, regs, rs[1..], top - 4, i - 1); }
  }

  lemma {:induction false} SavedIgnoresAn(m: Mem, regs: Regs, rs: seq<Reg>, top: int, an: Reg, v: u32)
    requires an !in rs && SavedRegs(m, regs[an := v], rs, top)
    ensures SavedRegs(m, regs, rs, top)
    decreases |rs|
  {
    if rs != [] {
      assert rs[0] != an;
      SavedIgnoresAn(m, regs, rs[1..], top - 4, an, v);
    }
  }

  /** `b` is `a` after the registers `rs` were stored downwards from `top`, and nothing else was written. */
  ghost predicate Stored(rs: seq<Reg>, an: Reg, a: Arch, b: Arch, top: int) {
    && b.regs == a.regs[an := Wrap32(top - 4 * |rs|)]
    && KeptAbove(a.mem, b.mem, top, |rs|)
    && SavedRegs(b.mem, a.regs, rs, top)
  }

  /** Stores go downwards and leave everything else alone. */
  lemma {:induction false} StoreAllSpec(rs: seq<Reg>, an: Reg, a: Arch, top: int)
    requires |a.mem| >= 8 && 4 * |rs| <= |a.mem| && an !in rs
    requires a.regs[an] == Wrap32(top)
    ensures Stored(rs, an, a, StoreAll(rs, an, a), top)
    decreases |rs|
  {
    if rs == [] {
      assert a.regs[an := Wrap32(top)] == a.regs;
    } else {
      var a1, rest := Store(an, rs[0], a), rs[1..];
      StoreMovesAn(an, rs[0], a, top);
      StoreAllSpec(rest, an, a1, top - 4);
      OneMoreStored(rs, rest, an, a, a1, StoreAll(rest, an, a1), top, top - 4);
    }
  }

  lemma OneMoreStored(rs: seq<Reg>, rest: seq<Reg>, an: Reg, a: Arch, a1: Arch, b: Arch, top: int, next: int)
    requires |a.mem| >= 8 && 4 * |rs| <= |a.mem| && an !in rs && rs != [] && rest == rs[1..] && next == top - 4
    requires a.regs[an] == Wrap32(top) && a1 == Store(an, rs[0], a)
    requires a1.regs == a.regs[an := Wrap32(next)] && |a1.mem| == |a.mem| && Stored(rest, an, a1, b, next)
    ensures Stored(rs, an, a, b, top)
  {
    SavedIgnoresAn(b.mem, a.regs, rest, next, an, Wrap32(next));
    FirstStoreSurvives(a, a1, b, an, rs[0], top, |rs|);
  }

  lemma StoreMovesAn(an: Reg, r: Reg, a: Arch, top: int)
    requires |a.mem| >= 8 && a.regs[an] == Wrap32(top)
    ensures Store(an, r, a).regs == a.regs[an := Wrap32(top - 4)]
    ensures |Store(an, r, a).mem| == |a.mem|
  {
    SameWrap(top, 4);
    WriteU32Bytes(a.mem, Wrap32(top - 4), a.regs[r]);
  }

  lemma SameWrap(top: int, d: int)
    ensures Wrap32(Wrap32(top) - d) == Wrap32(top - d)
    ensures Wrap32(Wrap32(top) + d) == Wrap32(top + d)
  {
    Congruent(U32_RANGE, Wrap32(top), top, -d);
    Congruent(U32_RANGE, Wrap32(top), top, d);
  }

  /** The later stores leave the first long and everything above it alone. */
  lemma FirstStoreSurvives(a: Arch, a1: Arch, b: Arch, an: Reg, r: Reg, top: int, n: nat)
    requires |a.mem| >= 8 && 1 <= n && 4 * n <= |a.mem|
    requires a.regs[an] == Wrap32(top) && a1 == Store(an, r, a) && |a1.mem| == |a.mem|
    requires KeptAbove(a1.mem, b.mem, top - 4, n - 1)
    ensures KeptAbove(a.mem, b.mem, top, n)
    ensures ReadU32(b.mem, top - 4) == a.regs[r]
  {
    var sp := Wrap32(top - 4);
    SameWrap(top, 4);
    WrappedAddress(a.mem, top - 4);
    StoredLong(a.mem, sp, a.regs[r]);
    SameLong(a1.mem, b.mem, top - 4);
    ReadU32Congruent(a1.mem, sp, top - 4);
    forall x: int | top <= x < top + |a.mem| - 4 * n
      ensures ReadU8(b.mem, x) == ReadU8(a.mem, x)
    {
      AboveStoreKept(a.mem, sp, a.regs[r], top - 4, x - (top - 4), x);
    }
  }

  /** A byte past the stored long, addressed from the unwrapped address `at` of the store. */
  lemma AboveStoreKept(m: Mem, sp: u32, v: u32, at: int, d: int, x: int)
    requires |m| >= 8 && 4 <= d < |m| && x == at + d && Idx(sp, |m|) == Idx(at, |m|)
    ensures |WriteU32(m, sp, v)| == |m| && ReadU8(WriteU32(m, sp, v), x) == ReadU8(m, x)
  {
    IdxCongruent(sp, at, d, |m|);
    WriteU32Frame(m, sp, v, d);
  }

  predicate Distinct(rs: seq<Reg>) {
    forall i, j :: 0 <= i < j < |rs| ==> rs[i] != rs[j]
  }

  /** The first register of the list holds the long at `base`, the second the one above it, ... */
  predicate LoadedRegs(m: Mem, regs: Regs, rs: seq<Reg>, base: int) {
    rs == [] || (regs[rs[0]] == ReadU32(m, base) && LoadedRegs(m, regs, rs[1..], base + 4))
  }

  lemma {:induction false} LoadedAt(m: Mem, regs: Regs, rs: seq<Reg>, base: int, i: nat)
    requires LoadedRegs(m, regs, rs, base) && i < |rs|
    ensures regs[rs[i]] == ReadU32(m, base + 4 * i)
    decreases i
  {
    if i > 0 { LoadedAt(m, regs, rs[1..], base + 4, i - 1); }
  }

  /** Loads go upwards: register `i` of the list receives the long at `base + 4 * i`. */
  lemma {:induction false} LoadAllSpec(rs: seq<Reg>, an: Reg, a: Arch, base: int)
    requires an !in rs && Distinct(rs) && a.regs[an] == Wrap32(base)
    ensures var b := LoadAll(rs, an, a);
            && b.mem == a.mem
            && b.regs[an] == Wrap32(base + 4 * |rs|)
            && LoadedRegs(a.mem, b.regs, rs, base)
            && (forall r: Reg :: r !in rs && r != an ==> b.regs[r] == a.regs[r])
    decreases |rs|
  {
    if rs != [] {
      var a1 := Load(an, rs[0], a);
      SameWrap(base, 4);
      WrappedAddress(a.mem, base);
      ReadU32Congruent(a.mem, Wrap32(base), base);
      assert rs[0] != an;
      LoadAllSpec(rs[1..], an, a1, base + 4);
      assert rs[0] !in rs[1..];
    }
  }

  // ---- the two register lists ----------------------------------------------------------

  /** The list of the load is the list of the store, bit-reversed. */
  predicate ReversedList(s: RegList, l: RegList) {
    forall k :: 0 <= k < |l| ==> l[k] == s[15 - k]
  }

  function Reverse(s: seq<Reg>): seq<Reg> { if s == [] then [] else Reverse(s[1..]) + [s[0]] }

  lemma {:induction false} ReverseLength(s: seq<Reg>)
    ensures |Reverse(s)| == |s|
  {
    if s != [] { ReverseLength(s[1..]); }
  }

  lemma {:induction false} ReverseAt(s: seq<Reg>, i: nat)
    requires i < |s|
    ensures |Reverse(s)| == |s| && Reverse(s)[i] == s[|s| - 1 - i]
  {
    ReverseLength(s[1..]);
    if i < |s| - 1 { ReverseAt(s[1..], i); }
  }

  lemma {:induction false} ReverseSnoc(s: seq<Reg>, r: Reg)
    ensures Reverse(s + [r]) == [r] + Reverse(s)
  {
    if s != [] {
      assert (s + [r])[1..] == s[1..] + [r];
      ReverseSnoc(s[1..], r);
    } else {
      assert Reverse([r]) == [r];
    }
  }

  lemma {:induction false} StoreListIsReversed(s: RegList, l: RegList, n: nat)
    requires n <= |s| && ReversedList(s, l)
    ensures Selected(false, l, |l| - n) + Reverse(Selected(true, s, n)) == Transfers(false, l)
  {
    if n > 0 {
      StoreListIsReversed(s, l, n - 1);
      assert l[|l| - n] == s[n - 1];
      var shorter := Selected(true, s, n - 1);
      if s[n - 1] {
        ReverseSnoc(shorter, RegForBit(true, n - 1));
      } else {
        assert Selected(true, s, n) == shorter;
      }
    }
  }

  lemma {:induction false} LoadListAscends(l: RegList, n: nat)
    requires n <= |l|
    ensures var up := Selected(false, l, n);
            && |up| <= n
            && (forall x :: x in up ==> x < n && l[x])
            && (forall i, j :: 0 <= i < j < |up| ==> up[i] < up[j])
            && (forall k: Reg :: k < n && l[k] ==> k in up)
  {
    if n > 0 {
      LoadListAscends(l, n - 1);
      var shorter := Selected(false, l, n - 1);
      assert forall i :: 0 <= i < |shorter| ==> shorter[i] in shorter;
    }
  }

  /** The load list names exactly the selected registers, in ascending order; the store list is the
      load list backwards. */
  lemma ListsMirror(s: RegList, l: RegList)
    requires ReversedList(s, l)
    ensures var down, up := Transfers(true, s), Transfers(false, l);
            && |down| == |up| <= 16
            && Distinct(up)
            && (forall r: Reg :: r in up <==> l[r])
            && (forall i :: 0 <= i < |up| ==> down[i] == up[|up| - 1 - i])
  {
    var down, up := Transfers(true, s), Transfers(false, l);
    assert up == Reverse(down) by { StoreListIsReversed(s, l, |s|); }
    LoadListAscends(l, |l|);
    ReverseLength(down);
    forall i | 0 <= i < |up|
      ensures down[i] == up[|up| - 1 - i]
    {
      ReverseAt(down, |up| - 1 - i);
    }
  }

  // ---- save then restore -------------------------------------------------------------------

  /** The 64 bytes below `top` are the same in both memories. */
  ghost predicate SameBelow(m: Mem, m': Mem, top: int) {
    |m| == |m'| && forall x: int :: top - 64 <= x < top ==> ReadU8(m', x) == ReadU8(m, x)
  }

  lemma MirrorImage(m: Mem, m': Mem, regs: Regs, regs': Regs, down: seq<Reg>, up: seq<Reg>, top: int, base: int)
    requires |m| == |m'| && |down| == |up| <= 16 && base == top - 4 * |down|
    requires forall i :: 0 <= i < |up| ==> down[i] == up[|up| - 1 - i]
    requires SavedRegs(m, regs, down, top)
    requires SameBelow(m, m', top)
    requires LoadedRegs(m', regs', up, base)
    ensures forall r :: r in up ==> regs'[r] == regs[r]
  {
    forall i | 0 <= i < |up|
      ensures regs'[up[i]] == regs[up[i]]
    {
      LongsAgree(m, m', regs, down, top, base, i);
      LoadedAt(m', regs', up, base, i);
      assert down[|up| - 1 - i] == up[i];
    }
  }

  lemma LongsAgree(m: Mem, m': Mem, regs: Regs, down: seq<Reg>, top: int, base: int, i: nat)
    requires |m| == |m'| && i < |down| <= 16 && base == top - 4 * |down|
    requires SavedRegs(m, regs, down, top)
    requires SameBelow(m, m', top)
    ensures ReadU32(m', base + 4 * i) == regs[down[|down| - 1 - i]]
  {
    SavedAt(m, regs, down, top, |down| - 1 - i);
    SameLong(m, m', base + 4 * i);
  }

  lemma NotInMirror(down: seq<Reg>, up: seq<Reg>, an: Reg)
    requires |down| == |up| && forall i :: 0 <= i < |up| ==> down[i] == up[|up| - 1 - i]
    requires an !in up
    ensures an !in down
  {
    forall i | 0 <= i < |down|
      ensures down[i] != an
    {
      assert up[|up| - 1 - i] in up;
    }
  }

  lemma WrapSmall(v: u32, x: int)
    requires x == v
    ensures Wrap32(x) == v
  {
    SmallMod(v, U32_RANGE);
  }

  /** What a save leaves behind. */
  lemma SavedLongs(sem: Semantics, an: Reg, s: RegList, pc: u32, a: Arch, down: seq<Reg>, saved: Arch)
    returns (base: int)
    requires MovesLongs(sem) && |a.mem| >= 64 && down == Transfers(true, s) && |down| <= 16 && an !in down
    requires saved == RunOps(sem, MovemOps(true, an, s, pc), a)
    ensures base == a.regs[an] - 4 * |down| && saved.regs[an] == Wrap32(base)
    ensures SavedRegs(saved.mem, a.regs, down, a.regs[an])
  {
    var top: int := a.regs[an];
    base := top - 4 * |down|;
    MovemIsTransfers(sem, true, an, s, pc, a);
    StoredFromAn(down, an, a, saved, top);
  }

  lemma StoredFromAn(down: seq<Reg>, an: Reg, a: Arch, saved: Arch, top: int)
    requires |a.mem| >= 64 && |down| <= 16 && an !in down && top == a.regs[an] && saved == StoreAll(down, an, a)
    ensures saved.regs[an] == Wrap32(top - 4 * |down|) && SavedRegs(saved.mem, a.regs, down, top)
  {
    WrapSmall(a.regs[an], top);
    StoreAllSpec(down, an, a, top);
  }

  /** What a restore brings back. */
  lemma RestoredLongs(sem: Semantics, an: Reg, l: RegList, pc: u32, mid: Arch, up: seq<Reg>, base: int, b: Arch)
    requires MovesLongs(sem) && up == Transfers(false, l) && Distinct(up) && an !in up
    requires mid.regs[an] == Wrap32(base)
    requires b == RunOps(sem, MovemOps(false, an, l, pc), mid)
    ensures b.regs[an] == Wrap32(base + 4 * |up|) && b.mem == mid.mem
    ensures LoadedRegs(mid.mem, b.regs, up, base)
    ensures forall r: Reg :: r !in up && r != an ==> b.regs[r] == mid.regs[r]
  {
    MovemIsTransfers(sem, false, an, l, pc, mid);
    LoadAllSpec(up, an, mid, base);
  }

  /** What was saved is what is restored, whatever happened in between outside the 64 bytes. */
  lemma RestoredIsSaved(an: Reg, down: seq<Reg>, up: seq<Reg>, a: Arch, saved: Arch, mid: Arch, b: Arch, base: int)
    requires |down| == |up| <= 16 && forall i :: 0 <= i < |up| ==> down[i] == up[|up| - 1 - i]
    requires base == a.regs[an] - 4 * |down| && SavedRegs(saved.mem, a.regs, down, a.regs[an])
    requires SameBelow(saved.mem, mid.mem, a.regs[an])
    requires b.regs[an] == Wrap32(base + 4 * |up|) && LoadedRegs(mid.mem, b.regs, up, base)
    ensures b.regs[an] == a.regs[an] && forall r :: r in up ==> b.regs[r] == a.regs[r]
  {
    WrapSmall(a.regs[an], base + 4 * |up|);
    MirrorImage(saved.mem, mid.mem, a.regs, b.regs, down, up, a.regs[an], base);
  }

  lemma SaveRestoreLists(sem: Semantics, an: Reg, s: RegList, l: RegList, pc: u32, pc': u32,
                         a: Arch, saved: Arch, mid: Arch, b: Arch, down: seq<Reg>, up: seq<Reg>)
    requires MovesLongs(sem) && |a.mem| >= 64 && down == Transfers(true, s) && up == Transfers(false, l)
    requires |down| == |up| <= 16 && Distinct(up) && an !in up && an !in down
    requires forall i :: 0 <= i < |up| ==> down[i] == up[|up| - 1 - i]
    requires saved == RunOps(sem, MovemOps(true, an, s, pc), a)
    requires mid.regs[an] == saved.regs[an] && SameBelow(saved.mem, mid.mem, a.regs[an])
    requires b == RunOps(sem, MovemOps(false, an, l, pc'), mid)
    ensures b.regs[an] == a.regs[an] && b.mem == mid.mem && forall r :: r in up ==> b.regs[r] == a.regs[r]
    ensures forall r: Reg :: r !in up && r != an ==> b.regs[r] == mid.regs[r]
  {
    var base := SavedLongs(sem, an, s, pc, a, down, saved);
    RestoredLongs(sem, an, l, pc', mid, up, base, b);
    RestoredIsSaved(an, down, up, a, saved, mid, b, base);
  }

  /** Save the registers of `l` through -(An), do anything that keeps An and the 64 bytes below it,
      restore through (An)+: every saved register and An have the values they had before the save,
      and the restore touches nothing else. */
  lemma SaveRestore(sem: Semantics, an: Reg, s: RegList, l: RegList, pc: u32, pc': u32,
                    a: Arch, saved: Arch, mid: Arch, b: Arch)
    requires MovesLongs(sem) && |a.mem| >= 64
    requires ReversedList(s, l) && !l[an]
    requires saved == RunOps(sem, MovemOps(true, an, s, pc), a)
    requires mid.regs[an] == saved.regs[an] && SameBelow(saved.mem, mid.mem, a.regs[an])
    requires b == RunOps(sem, MovemOps(false, an, l, pc'), mid)
    ensures forall r: Reg :: l[r] ==> b.regs[r] == a.regs[r]
    ensures b.regs[an] == a.regs[an]
    ensures forall r: Reg :: !l[r] && r != an ==> b.regs[r] == mid.regs[r]
    ensures b.mem == mid.mem
  {
    var down, up := Transfers(true, s), Transfers(false, l);
    ListsMirror(s, l);
    NotInMirror(down, up, an);
    SaveRestoreLists(sem, an, s, l, pc, pc', a, saved, mid, b, down, up);
  }
}
