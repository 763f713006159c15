/**
 The block interpreter and the two passes that rewrite a decoded block
 (crates/m68k-vp/src/interp.rs `execute_block`, crates/m68k-vp/src/passes.rs).

 The passes are loops over a block's instruction array; each is proved against a specification that
 says, index by index, what the rewritten array holds. `OptimizedAgrees` is the correctness of the
 pair of passes: a rewritten block does to D, A, memory and PC what the decoded block does.
 */
module VpPasses {
  import opened Bits
  import opened VpIr

  datatype Machine = Machine(arch: Arch, flags: Flags)

  /** The meaning of single ops. Block execution, the passes and the run loop are stated for any op
      meaning that satisfies `Respectful`; `M68K` is the one the interpreter implements. */
  datatype Semantics = Semantics(effect: (Instr, Arch) -> Arch, newFlags: (Op, Regs, Flags) -> Flags)

  const M68K: Semantics := Semantics((i, a) => Effect(i, a), (op: Op, regs: Regs, f: Flags) => NewFlags(op, regs, f))

  datatype BlockExit = BlockExit(machine: Machine, retired: nat, nextPc: u32)

  /** The program counter a block-terminating op leaves. */
  function Target(i: Instr, m: Machine): u32
    requires i.op.Terminates()
  {
    match i.op
    case Bsr(target) => target
    case Bne(target, fallthrough) => if m.flags & F_Z == 0 then target else fallthrough
    case Rts => ReadU32(m.arch.mem, m.arch.regs[A7])
  }

  function Step(sem: Semantics, i: Instr, m: Machine): Machine {
    Machine(sem.effect(i, m.arch), sem.newFlags(i.op, m.arch.regs, m.flags))
  }

  /** Run the ops from index `k` up to and including the first control transfer. Falling off the end
      of a block (the op limit) goes back to the block's own entry. */
  function ExecFrom(sem: Semantics, b: Block, k: nat, m: Machine): BlockExit
    requires k <= |b.instrs|
    decreases |b.instrs| - k
  {
    if k == |b.instrs| then BlockExit(m, 0, b.entryPc)
    else
      var i := b.instrs[k];
      var r := if i.retire then 1 else 0;
      if i.op.Terminates() then BlockExit(Step(sem, i, m), r, Target(i, m))
      else
        var rest := ExecFrom(sem, b, k + 1, Step(sem, i, m));
        rest.(retired := rest.retired + r)
  }

  /** The straight-line dispatch loop. */
  method ExecuteBlock(sem: Semantics, b: Block, m0: Machine) returns (m: Machine, retired: nat, nextPc: u32)
    ensures BlockExit(m, retired, nextPc) == ExecFrom(sem, b, 0, m0)
  {
    m, retired := m0, 0;
    var k := 0;
    while k < |b.instrs|
      invariant 0 <= k <= |b.instrs|
      invariant var rest := ExecFrom(sem, b, k, m);
                rest.(retired := rest.retired + retired) == ExecFrom(sem, b, 0, m0)
    {
      var i := b.instrs[k];
      if i.retire {
        retired := retired + 1;
      }
      if i.op.Terminates() {
        nextPc := Target(i, m);
        m := Step(sem, i, m);
        return;
      }
      m := Step(sem, i, m);
      k := k + 1;
    }
    nextPc := b.entryPc;
  }

  // ---- flag liveness -------------------------------------------------------

  /** The flags the backward scan holds as needed just before instruction `k`. */
  function LiveAt(s: seq<Instr>, k: nat): Flags
    requires k <= |s|
    decreases |s| - k
  {
    if k == |s| then F_NONE
    else if s[k].op.Bne? then F_Z
    else if s[k].op.ProducesFlags() then F_NONE
    else LiveAt(s, k + 1)
  }

  function Narrow(i: Instr, needed: Flags): Instr {
    if i.op.ProducesFlags() then i.(op := i.op.(flags := i.op.flags & needed)) else i
  }

  /** The instructions from index `k` on, each asked only for the flags the ones after it need. */
  function NarrowedFrom(s: seq<Instr>, k: nat): (r: seq<Instr>)
    requires k <= |s|
    ensures |r| == |s| - k
    decreases |s| - k
  {
    if k == |s| then [] else [Narrow(s[k], LiveAt(s, k + 1))] + NarrowedFrom(s, k + 1)
  }

  function Narrowed(s: seq<Instr>): seq<Instr> { NarrowedFrom(s, 0) }

  lemma {:induction false} NarrowedAt(s: seq<Instr>, k: nat, j: nat)
    requires k <= j < |s|
    ensures NarrowedFrom(s, k)[j - k] == Narrow(s[j], LiveAt(s, j + 1))
    decreases j - k
  {
    if k < j { NarrowedAt(s, k + 1, j); }
  }

  /** The backward scan, rewriting the block's ops in place. */
  method FlagLiveness(instrs: array<Instr>, count: nat)
    requires count <= instrs.Length
    modifies instrs
    ensures instrs[..count] == Narrowed(old(instrs[..count]))
    ensures instrs[count..] == old(instrs[count..])
  {
    ghost var was := instrs[..count];
    var needed := F_NONE;
    var k := count;
    while k > 0
      invariant 0 <= k <= count && needed == LiveAt(was, k)
      invariant instrs[..count] == was[..k] + NarrowedFrom(was, k)
      invariant instrs[count..] == old(instrs[count..])
    {
      k := k - 1;
      ghost var before := instrs[..count];
      var i := instrs[k];
      assert i == before[k] == was[k];
      ScanStep(was, k, k + 1, before);
      if i.op.Bne? {
        needed := F_Z;
      } else if i.op.ProducesFlags() {
        instrs[k] := Narrow(i, needed);
        needed := F_NONE;
      }
    }
  }

  /** One instruction of the backward scan. */
  lemma ScanStep(s: seq<Instr>, k: nat, next: nat, before: seq<Instr>)
    requires k < |s| && next == k + 1 && before == s[..next] + NarrowedFrom(s, next)
    ensures LiveAt(s, k) == (if s[k].op.Bne? then F_Z else if s[k].op.ProducesFlags() then F_NONE else LiveAt(s, next))
    ensures |before| == |s| && before[k := Narrow(s[k], LiveAt(s, next))] == s[..k] + NarrowedFrom(s, k)
    ensures !s[k].op.ProducesFlags() ==> before == s[..k] + NarrowedFrom(s, k)
  {
    var x, rest := Narrow(s[k], LiveAt(s, next)), NarrowedFrom(s, next);
    assert s[..next] == s[..k] + [s[k]];
    ReplaceMiddle(s[..k], s[k], x, rest);
  }

  lemma ReplaceMiddle(front: seq<Instr>, x: Instr, y: Instr, back: seq<Instr>)
    ensures (front + [x] + back)[|front| := y] == front + ([y] + back)
  {
    var l, r := (front + [x] + back)[|front| := y], front + ([y] + back);
    assert |l| == |r|;
    forall i | 0 <= i < |l|
      ensures l[i] == r[i]
    {
    }
  }

  // ---- peepholes -------------------------------------------------------------

  predicate SelfLea(i: Instr) { i.op.Lea? && i.op.ea.Ind? && i.op.ea.r == i.op.dst }

  function Folded(s: seq<Instr>): (r: seq<Instr>)
    ensures |r| == |s|
  {
    seq(|s|, k requires 0 <= k < |s| => if SelfLea(s[k]) then s[k].(op := Nop) else s[k])
  }

  method Peephole(instrs: array<Instr>, count: nat)
    requires count <= instrs.Length
    modifies instrs
    ensures instrs[..count] == Folded(old(instrs[..count]))
    ensures instrs[count..] == old(instrs[count..])
  {
    ghost var was := instrs[..count];
    for k := 0 to count
      invariant forall j :: 0 <= j < k ==> instrs[j] == Folded(was)[j]
      invariant forall j :: k <= j < count ==> instrs[j] == was[j]
      invariant instrs[count..] == old(instrs[count..])
    {
      if SelfLea(instrs[k]) {
        instrs[k] := instrs[k].(op := Nop);
      }
    }
  }

  function Optimized(b: Block): (r: Block)
    ensures |r.instrs| == |b.instrs| && r.entryPc == b.entryPc
  {
    b.(instrs := Folded(Narrowed(b.instrs)))
  }

  method RunPasses(b: Block) returns (r: Block)
    ensures r == Optimized(b)
  {
    var n := |b.instrs|;
    var arena := new Instr[n](k requires 0 <= k < n => b.instrs[k]);
    assert arena[..n] == b.instrs;
    FlagLiveness(arena, n);
    Peephole(arena, n);
    r := Block(arena[..n], b.entryPc);
  }

  // ---- what the passes leave, instruction by instruction -----------------------------------------------

  predicate IsAlu(op: Op) { op.AluBinReg? || op.AluImm? || op.AluUnary? || op.Shift? }

  /** A `bne` from index `k` on comes before the next op that sets flags. */
  ghost predicate BranchAhead(s: seq<Instr>, k: nat) {
    exists j :: k <= j < |s| && s[j].op.Bne? && forall l :: k <= l < j ==> !IsAlu(s[l].op)
  }

  lemma {:induction false} LiveIsBranchAhead(s: seq<Instr>, k: nat)
    requires k <= |s|
    ensures LiveAt(s, k) == if BranchAhead(s, k) then 0x04 else 0
    decreases |s| - k
  {
    if k < |s| {
      LiveIsBranchAhead(s, k + 1);
      if !s[k].op.Bne? && !IsAlu(s[k].op) && BranchAhead(s, k + 1) {
        var j :| k + 1 <= j < |s| && s[j].op.Bne? && forall l :: k + 1 <= l < j ==> !IsAlu(s[l].op);
        assert forall l :: k <= l < j ==> !IsAlu(s[l].op);
      }
    }
  }

  /** The two passes together: the op before a `bne` that decides it is asked for Z alone, every other flag-producing op
      for nothing; a `lea (An),An` becomes a no-op; everything else is left as it was decoded. */
  lemma RewrittenExactly(b: Block, k: nat)
    requires k < |b.instrs|
    ensures var i, o := b.instrs[k], Optimized(b).instrs[k];
            if IsAlu(i.op) then
              o == i.(op := i.op.(flags := i.op.flags & if BranchAhead(b.instrs, k + 1) then 0x04 else 0))
            else if i.op.Lea? && i.op.ea.Ind? && i.op.ea.r == i.op.dst then o == i.(op := Nop)
            else o == i
  {
    RewrittenAt(b.instrs, k);
    LiveIsBranchAhead(b.instrs, k + 1);
  }

  // ---- the passes preserve what a block does ------------------------------------

  /** The decoder asks every flag-producing op for all flags. */
  predicate AsksForAllFlags(s: seq<Instr>) {
    forall k :: 0 <= k < |s| && s[k].op.ProducesFlags() ==> s[k].op.flags == F_ALL
  }

  /** Whether the Z flag on entry to instruction `k` can decide a branch: a `bne` with two different
      successors comes before any op of the block that writes Z. */
  predicate NeedsZ(s: seq<Instr>, k: nat)
    requires k <= |s|
    decreases |s| - k
  {
    k < |s| &&
    var op := s[k].op;
    if op.Bne? then op.target != op.fallthrough
    else !op.Terminates() && !op.ProducesFlags() && !op.MoveqImm? && NeedsZ(s, k + 1)
  }

  predicate SameZ(f: Flags, g: Flags) { f & F_Z == g & F_Z }

  /** Two block exits that differ at most in the condition codes. */
  predicate SameExit(x: BlockExit, y: BlockExit) {
    x.machine.arch == y.machine.arch && x.retired == y.retired && x.nextPc == y.nextPc
  }

  lemma {:induction false} NeededIsLive(s: seq<Instr>, k: nat)
    requires k <= |s|
    ensures NeedsZ(s, k) ==> LiveAt(s, k) == F_Z
    decreases |s| - k
  {
    if k < |s| { NeededIsLive(s, k + 1); }
  }

  function Rewrite(i: Instr, needed: Flags): Instr {
    var n := Narrow(i, needed);
    if SelfLea(n) then n.(op := Nop) else n
  }

  lemma RewrittenAt(s: seq<Instr>, k: nat)
    requires k < |s|
    ensures |Narrowed(s)| == |s| && Folded(Narrowed(s))[k] == Rewrite(s[k], LiveAt(s, k + 1))
  {
    NarrowedAt(s, 0, k);
  }

  /** Only flag-producing ops and self-referential `lea`s are rewritten at all. */
  lemma RewriteShape(i: Instr, needed: Flags)
    ensures var o := Rewrite(i, needed);
            && o.retire == i.retire
            && o.op.Terminates() == i.op.Terminates()
            && (i.op.Terminates() ==> o == i)
            && (!i.op.ProducesFlags() ==> o == i || (SelfLea(i) && o == i.(op := Nop)))
            && (i.op.ProducesFlags() ==> o == Narrow(i, needed))
  {
  }

  // ---- what the passes rely on in the meaning of single ops ----------------------------

  ghost predicate RewriteKeepsEffect(sem: Semantics) {
    forall i: Instr, needed: Flags, a: Arch ::
      sem.effect(Rewrite(i, needed), a) == sem.effect(i, a)
  }

  /** A flag-producing op asked for all flags, and the same op asked only for Z, leave the same Z. */
  ghost predicate MaskKeepsZ(sem: Semantics) {
    forall i: Instr, regs: Regs, f: Flags, g: Flags
      {:trigger sem.newFlags(i.op, regs, f), sem.newFlags(Narrow(i, F_Z).op, regs, g)} ::
      i.op.ProducesFlags() && i.op.flags == F_ALL ==>
        SameZ(sem.newFlags(i.op, regs, f), sem.newFlags(Narrow(i, F_Z).op, regs, g))
  }

  ghost predicate MoveqSetsZ(sem: Semantics) {
    forall op: Op, regs: Regs, f: Flags, g: Flags {:trigger sem.newFlags(op, regs, f), sem.newFlags(op, regs, g)} ::
      op.MoveqImm? ==> SameZ(sem.newFlags(op, regs, f), sem.newFlags(op, regs, g))
  }

  ghost predicate OthersKeepFlags(sem: Semantics) {
    forall op: Op, regs: Regs, f: Flags ::
      !op.ProducesFlags() && !op.MoveqImm? ==> sem.newFlags(op, regs, f) == f
  }

  ghost predicate Respectful(sem: Semantics) {
    RewriteKeepsEffect(sem) && MaskKeepsZ(sem) && MoveqSetsZ(sem) && OthersKeepFlags(sem)
  }

  /** No op's effect on registers and memory depends on its flag mask. */
  lemma MaskKeepsEffect(i: Instr, needed: Flags, a: Arch)
    ensures Effect(Narrow(i, needed), a) == Effect(i, a)
  {
    match i.op
    case AluBinReg(op, dst, src, size, flags) =>
    case AluImm(subtract, dst, imm, size, flags) =>
    case AluUnary(un, dst, size, flags) =>
    case Shift(left, arith, dst, count, size, flags) =>
    case _ => assert Narrow(i, needed) == i;
  }

  lemma SelfLeaIsNop(i: Instr, a: Arch)
    requires SelfLea(i)
    ensures Effect(i, a) == a
  {
    assert a.regs[i.op.dst := a.regs[i.op.dst]] == a.regs;
  }

  lemma RewrittenEffect(i: Instr, needed: Flags, a: Arch)
    ensures Effect(Rewrite(i, needed), a) == Effect(i, a)
  {
    RewriteShape(i, needed);
    if i.op.ProducesFlags() {
      MaskKeepsEffect(i, needed, a);
    } else if SelfLea(i) {
      SelfLeaIsNop(i, a);
    }
  }

  lemma MaskedFlags(f: Flags, g: Flags, c: Flags)
    ensures SameZ((f & !F_ALL) | (c & F_ALL), (g & !(F_ALL & F_Z)) | (c & (F_ALL & F_Z)))
    ensures SameZ((f & !(F_N | F_Z | F_V | F_C)) | c, (g & !(F_N | F_Z | F_V | F_C)) | c)
  {
  }

  lemma NarrowedZ(i: Instr, regs: Regs, f: Flags, g: Flags)
    requires i.op.ProducesFlags() && i.op.flags == F_ALL
    ensures SameZ(NewFlags(i.op, regs, f), NewFlags(Narrow(i, F_Z).op, regs, g))
  {
    var c := Computed(i.op, regs);
    assert Computed(Narrow(i, F_Z).op, regs) == c;
    MaskedFlags(f, g, c);
  }

  lemma MoveqZ(op: Op, regs: Regs, f: Flags, g: Flags)
    requires op.MoveqImm?
    ensures SameZ(NewFlags(op, regs, f), NewFlags(op, regs, g))
  {
    MaskedFlags(f, g, LogicFlags(Wrap32(op.imm), L));
  }

  /** The interpreter's ops meet what the passes rely on. */
  lemma M68kIsRespectful()
    ensures Respectful(M68K)
  {
    forall i: Instr, needed: Flags, a: Arch
      ensures M68K.effect(Rewrite(i, needed), a) == M68K.effect(i, a)
    {
      RewrittenEffect(i, needed, a);
    }
    forall i: Instr, regs: Regs, f: Flags, g: Flags | i.op.ProducesFlags() && i.op.flags == F_ALL
      ensures SameZ(M68K.newFlags(i.op, regs, f), M68K.newFlags(Narrow(i, F_Z).op, regs, g))
    {
      NarrowedZ(i, regs, f, g);
    }
    forall op: Op, regs: Regs, f: Flags, g: Flags | op.MoveqImm?
      ensures SameZ(M68K.newFlags(op, regs, f), M68K.newFlags(op, regs, g))
    {
      MoveqZ(op, regs, f, g);
    }
  }

  // ---- correctness of the passes ----------------------------------------------------------

  /** What the rewritten op leaves in Z where the rest of the block depends on it. */
  lemma RewriteKeepsZ(sem: Semantics, s: seq<Instr>, k: nat, regs: Regs, f: Flags, g: Flags)
    requires Respectful(sem)
    requires k < |s| && AsksForAllFlags(s) && !s[k].op.Terminates()
    requires NeedsZ(s, k) ==> SameZ(f, g)
    requires NeedsZ(s, k + 1)
    ensures SameZ(sem.newFlags(s[k].op, regs, f), sem.newFlags(Rewrite(s[k], LiveAt(s, k + 1)).op, regs, g))
  {
    NeededIsLive(s, k + 1);
    RewriteShape(s[k], F_Z);
  }

  /** Started in states that differ at most in the flags (and agree on Z if the block can read the Z
      it was entered with), the decoded block and the rewritten block leave the same registers,
      memory, retired count and next PC. */
  lemma {:induction false} OptimizedAgrees(sem: Semantics, b: Block, k: nat, a: Arch, f: Flags, g: Flags)
    requires Respectful(sem)
    requires k <= |b.instrs| && AsksForAllFlags(b.instrs)
    requires NeedsZ(b.instrs, k) ==> SameZ(f, g)
    ensures SameExit(ExecFrom(sem, b, k, Machine(a, f)), ExecFrom(sem, Optimized(b), k, Machine(a, g)))
    decreases |b.instrs| - k
  {
    if k < |b.instrs| {
      var i := b.instrs[k];
      var needed := LiveAt(b.instrs, k + 1);
      RewrittenAt(b.instrs, k);
      var o := Rewrite(i, needed);
      RewriteShape(i, needed);
      assert sem.effect(o, a) == sem.effect(i, a);
      if !i.op.Terminates() {
        var f', g' := sem.newFlags(i.op, a.regs, f), sem.newFlags(o.op, a.regs, g);
        if NeedsZ(b.instrs, k + 1) {
          RewriteKeepsZ(sem, b.instrs, k, a.regs, f, g);
        }
        OptimizedAgrees(sem, b, k + 1, sem.effect(i, a), f', g');
      }
    }
  }

  /** The converse: where the entry Z is needed, two entry states that differ only in Z part ways. */
  lemma {:induction false} EntryZDecides(sem: Semantics, b: Block, k: nat, a: Arch, f: Flags, g: Flags)
    requires Respectful(sem)
    requires k <= |b.instrs| && AsksForAllFlags(b.instrs)
    requires NeedsZ(b.instrs, k) && !SameZ(f, g)
    ensures ExecFrom(sem, b, k, Machine(a, f)).nextPc != ExecFrom(sem, Optimized(b), k, Machine(a, g)).nextPc
    decreases |b.instrs| - k
  {
    var i := b.instrs[k];
    var needed := LiveAt(b.instrs, k + 1);
    RewrittenAt(b.instrs, k);
    var o := Rewrite(i, needed);
    RewriteShape(i, needed);
    if i.op.Bne? {
      ZIsOneBit(f);
      ZIsOneBit(g);
    } else {
      assert sem.effect(o, a) == sem.effect(i, a);
      EntryZDecides(sem, b, k + 1, sem.effect(i, a), f, g);
    }
  }

  lemma ZIsOneBit(f: Flags)
    ensures f & F_Z == 0 || f & F_Z == F_Z
  {
  }

  /** A block whose rewritten form is right whatever flags it is entered with. */
  ghost predicate FlagBlind(sem: Semantics, b: Block) {
    forall a: Arch, f: Flags, g: Flags ::
      SameExit(ExecFrom(sem, b, 0, Machine(a, f)), ExecFrom(sem, Optimized(b), 0, Machine(a, g)))
  }

  /** The liveness scan starts from "nothing needed" at the block end, so it is right for a block
      entered with arbitrary flags exactly when no `bne` of the block reads the Z it was entered
      with. */
  lemma PassesAreExact(sem: Semantics, b: Block)
    requires Respectful(sem)
    requires AsksForAllFlags(b.instrs)
    ensures FlagBlind(sem, b) <==> !NeedsZ(b.instrs, 0)
  {
    if !NeedsZ(b.instrs, 0) {
      forall a: Arch, f: Flags, g: Flags
        ensures SameExit(ExecFrom(sem, b, 0, Machine(a, f)), ExecFrom(sem, Optimized(b), 0, Machine(a, g)))
      {
        OptimizedAgrees(sem, b, 0, a, f, g);
      }
    } else {
      var a := Arch(seq(16, _ => 0), [0]);
      EntryZDecides(sem, b, 0, a, F_Z, F_NONE);
      assert !SameExit(ExecFrom(sem, b, 0, Machine(a, F_Z)), ExecFrom(sem, Optimized(b), 0, Machine(a, F_NONE)));
    }
  }
}
