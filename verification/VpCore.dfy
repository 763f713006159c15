/**
 The run loop and the direct-mapped block cache (crates/m68k-vp/src/interp.rs `BlockCache`, `VpCore`).

 `RefRun` is a run with no cache and no passes: every block is decoded afresh and executed as decoded.
 `VpCore.Run` is the real loop: cached, narrowed and folded blocks. Its contract says that it computes
 what `RefRun` computes, and `RunSession` extends that to any sequence of runs and cache flushes.
 */
module VpCore {
  import opened Bits
  import opened Wrappers
  import opened VpIr
  import opened VpPasses

  const CACHE_SLOTS := 32

  /** `decode_block` as a pure function of memory and entry point, with the number of bytes from the
      entry point that it reads; `None` stands for the decoder's panic on an unsupported opcode.
      `sem` is the meaning of the ops it emits. */
  datatype Decoder = Decoder(block: (Mem, u32) -> Option<Block>, span: (Mem, u32) -> nat, sem: Semantics)

  ghost predicate CodeKept(dec: Decoder, m: Mem, m': Mem, pc: u32) {
    |m| == |m'| && forall k: int :: pc <= k < pc + dec.span(m, pc) ==> ReadU8(m, k) == ReadU8(m', k)
  }

  /** The shape `decode_block` gives every block: control transfers only at the end, the last op of
      the last instruction retires, flag-producing ops ask for all flags. */
  predicate GoodBlock(b: Block) {
    && |b.instrs| > 0
    && (forall k :: 0 <= k < |b.instrs| - 1 ==> !b.instrs[k].op.Terminates())
    && b.instrs[|b.instrs| - 1].retire
    && AsksForAllFlags(b.instrs)
  }

  ghost predicate DecodesWell(dec: Decoder) {
    forall m: Mem, pc: u32 :: dec.block(m, pc).Some? ==> GoodBlock(dec.block(m, pc).value)
  }

  /** The decoder looks only at the bytes of its span. */
  ghost predicate DecodesLocally(dec: Decoder) {
    forall m: Mem, m': Mem, pc: u32 {:trigger CodeKept(dec, m, m', pc)} ::
      CodeKept(dec, m, m', pc) ==> dec.block(m', pc) == dec.block(m, pc)
  }

  lemma {:induction false} GoodBlockRetires(sem: Semantics, b: Block, k: nat, m: Machine)
    requires GoodBlock(b) && k < |b.instrs|
    ensures ExecFrom(sem, b, k, m).retired >= 1
    decreases |b.instrs| - k
  {
    if k < |b.instrs| - 1 {
      GoodBlockRetires(sem, b, k + 1, Step(sem, b.instrs[k], m));
    }
  }

  // ---- the reference run ---------------------------------------------------------

  datatype Exit = WatchedPc(pc: u32) | BudgetExhausted | Panic

  /** `decoded` collects the entry points decoded so far. */
  datatype Outcome = Outcome(machine: Machine, pc: u32, executed: nat, exit: Exit, decoded: set<u32>)

  /** Decode, execute, repeat; one instruction budget, one watch list. The retired count is a 32-bit
      counter whose overflow panics. */
  function RefRun(dec: Decoder, m: Machine, pc: u32, executed: nat, budget: u32, watch: set<u32>,
                  decoded: set<u32>): Outcome
    requires DecodesWell(dec)
    decreases budget - executed
  {
    if pc in watch then Outcome(m, pc, executed, WatchedPc(pc), decoded)
    else if executed >= budget then Outcome(m, pc, executed, BudgetExhausted, decoded)
    else
      match dec.block(m.arch.mem, pc)
      case None => Outcome(m, pc, executed, Panic, decoded)
      case Some(b) =>
        var x := ExecFrom(dec.sem, b, 0, m);
        GoodBlockRetires(dec.sem, b, 0, m);
        if executed + x.retired >= U32_RANGE then Outcome(m, pc, executed, Panic, decoded)
        else RefRun(dec, x.machine, x.nextPc, executed + x.retired, budget, watch, decoded + {pc})
  }

  /** What is asked of the program, step by step along the reference run: no block reached reads the
      Z it was entered with, and no block changes a code byte of a block decoded so far. */
  ghost predicate Benign(dec: Decoder, m: Machine, pc: u32, executed: nat, budget: u32,
                         watch: set<u32>, decoded: set<u32>)
    requires DecodesWell(dec)
    decreases budget - executed
  {
    pc in watch || executed >= budget ||
    match dec.block(m.arch.mem, pc)
    case None => true
    case Some(b) =>
      var x := ExecFrom(dec.sem, b, 0, m);
      GoodBlockRetires(dec.sem, b, 0, m);
      && !NeedsZ(b.instrs, 0)
      && (forall t :: t in decoded + {pc} ==> CodeKept(dec, m.arch.mem, x.machine.arch.mem, t))
      && (executed + x.retired < U32_RANGE ==>
            Benign(dec, x.machine, x.nextPc, executed + x.retired, budget, watch, decoded + {pc}))
  }

  predicate SameOutcome(x: Outcome, arch: Arch, pc: u32, executed: nat, exit: Exit) {
    x.machine.arch == arch && x.pc == pc && x.executed == executed && x.exit == exit
  }

  // ---- the cache ----------------------------------------------------------------------

  datatype Slot = Slot(tag: u32, valid: bool, block: Block)
  type Slots = s: seq<Slot> | |s| == CACHE_SLOTS witness seq(CACHE_SLOTS, _ => Slot(0, false, Block([], 0)))

  function SlotIndex(pc: u32): nat { (pc / 2) % CACHE_SLOTS }

  /** Every valid slot holds the rewritten form of what decoding its tag would give now. */
  ghost predicate Coherent(dec: Decoder, slots: Slots, m: Mem, decoded: set<u32>) {
    forall i :: 0 <= i < CACHE_SLOTS && slots[i].valid ==>
      var t := slots[i].tag;
      && t in decoded
      && dec.block(m, t).Some?
      && slots[i].block == Optimized(dec.block(m, t).value)
  }

  /** A store that keeps the code bytes of every decoded block keeps the cache coherent. */
  lemma StoresKeepCoherence(dec: Decoder, slots: Slots, m: Mem, m': Mem, decoded: set<u32>)
    requires DecodesLocally(dec) && Coherent(dec, slots, m, decoded)
    requires forall t :: t in decoded ==> CodeKept(dec, m, m', t)
    ensures Coherent(dec, slots, m', decoded)
  {
    forall i | 0 <= i < CACHE_SLOTS && slots[i].valid
      ensures dec.block(m', slots[i].tag) == dec.block(m, slots[i].tag)
    {
      assert CodeKept(dec, m, m', slots[i].tag);
    }
  }

  class VpCore {
    const dec: Decoder
    var regs: Regs
    var flags: Flags
    var pc: u32
    var slots: Slots

    constructor (dec: Decoder)
      ensures this.dec == dec
      ensures forall i :: 0 <= i < CACHE_SLOTS ==> !slots[i].valid
    {
      this.dec := dec;
      regs := seq(16, _ => 0);
      flags := F_NONE;
      pc := 0;
      slots := seq(CACHE_SLOTS, _ => Slot(0, false, Block([], 0)));
    }

    ghost predicate CacheValid(m: Mem, decoded: set<u32>)
      reads this
    {
      DecodesWell(dec) && DecodesLocally(dec) && Respectful(dec.sem) && Coherent(dec, slots, m, decoded)
    }

    /** Drop every cached block. */
    method FlushCache()
      modifies this`slots
      ensures forall i :: 0 <= i < CACHE_SLOTS ==> !slots[i].valid
    {
      var i := 0;
      while i < CACHE_SLOTS
        invariant 0 <= i <= CACHE_SLOTS
        invariant forall j :: 0 <= j < i ==> !slots[j].valid
      {
        slots := slots[i := slots[i].(valid := false)];
        i := i + 1;
      }
    }

    /** A hit returns the slot's block; a miss decodes, rewrites and replaces the slot. */
    method GetOrDecode(m: Mem, entry: u32, ghost decoded: set<u32>) returns (b: Option<Block>)
      requires CacheValid(m, decoded)
      modifies this`slots
      ensures CacheValid(m, decoded + {entry})
      ensures b.Some? == dec.block(m, entry).Some?
      ensures b.Some? ==> b.value == Optimized(dec.block(m, entry).value)
    {
      var i := SlotIndex(entry);
      if !slots[i].valid || slots[i].tag != entry {
        match dec.block(m, entry)
        case None => return None;
        case Some(plain) =>
          var block := RunPasses(plain);
          slots := slots[i := Slot(entry, true, block)];
      }
      b := Some(slots[i].block);
    }

    /** Execute the block at the PC out of the cache. `f` are the flags of the reference run, which
        may differ from this core's. */
    method ExecuteCached(m: Mem, ghost f: Flags, ghost seen: set<u32>)
      returns (ok: bool, m': Machine, retired: nat, nextPc: u32)
      requires CacheValid(m, seen)
      requires dec.block(m, pc).Some? ==> !NeedsZ(dec.block(m, pc).value.instrs, 0)
      modifies this`slots
      ensures CacheValid(m, seen + {pc})
      ensures ok == dec.block(m, pc).Some?
      ensures ok ==> SameExit(ExecFrom(dec.sem, dec.block(m, pc).value, 0, Machine(Arch(regs, m), f)),
                              BlockExit(m', retired, nextPc))
    {
      var cached := GetOrDecode(m, pc, seen);
      if cached.None? {
        return false, Machine(Arch(regs, m), flags), 0, pc;
      }
      OptimizedAgrees(dec.sem, dec.block(m, pc).value, 0, Arch(regs, m), f, flags);
      ok := true;
      m', retired, nextPc := ExecuteBlock(dec.sem, cached.value, Machine(Arch(regs, m), flags));
    }

    /** Run until the budget is spent or the PC is watched. `f0` are the flags of the reference run. */
    method Run(mem: VpMemory, budget: u32, watch: set<u32>, ghost f0: Flags, ghost decoded: set<u32>)
      returns (executed: nat, exit: Exit)
      requires CacheValid(mem.buf, decoded)
      requires Benign(dec, Machine(Arch(regs, mem.buf), f0), pc, 0, budget, watch, decoded)
      modifies this, mem
      ensures var x := RefRun(dec, Machine(Arch(old(regs), old(mem.buf)), f0), old(pc), 0, budget, watch, decoded);
              && SameOutcome(x, Arch(regs, mem.buf), pc, executed, exit)
              && (exit != Panic ==> CacheValid(mem.buf, x.decoded))
    {
      executed := 0;
      ghost var f, seen := f0, decoded;
      ghost var goal := RefRun(dec, Machine(Arch(regs, mem.buf), f0), pc, 0, budget, watch, decoded);
      while true
        invariant CacheValid(mem.buf, seen)
        invariant Benign(dec, Machine(Arch(regs, mem.buf), f), pc, executed, budget, watch, seen)
        invariant RefRun(dec, Machine(Arch(regs, mem.buf), f), pc, executed, budget, watch, seen) == goal
        decreases budget - executed
      {
        if pc in watch {
          return executed, WatchedPc(pc);
        }
        if executed >= budget {
          return executed, BudgetExhausted;
        }
        var ok, m, retired, nextPc := ExecuteCached(mem.buf, f, seen);
        if !ok {
          return executed, Panic;
        }
        ghost var plain := dec.block(mem.buf, pc).value;
        ghost var x := ExecFrom(dec.sem, plain, 0, Machine(Arch(regs, mem.buf), f));
        GoodBlockRetires(dec.sem, plain, 0, Machine(Arch(regs, mem.buf), f));
        if executed + retired >= U32_RANGE {
          return executed, Panic;
        }
        StoresKeepCoherence(dec, slots, mem.buf, m.arch.mem, seen + {pc});
        f, seen := x.machine.flags, seen + {pc};
        executed := executed + retired;
        regs, flags := m.arch.regs, m.flags;
        mem.buf := m.arch.mem;
        pc := nextPc;
      }
    }
  }

  // ---- sessions: any sequence of runs and flushes ------------------------------------

  datatype Command = RunFor(budget: u32, watch: set<u32>) | Flush

  datatype Report = Report(executed: nat, exit: Exit)

  datatype SessionEnd = SessionEnd(machine: Machine, pc: u32, reports: seq<Report>)

  /** The reference session knows no cache: a flush only forgets which blocks were decoded, so that their
      code may change from then on. A panic ends the session. */
  function RefSession(dec: Decoder, m: Machine, pc: u32, cmds: seq<Command>, decoded: set<u32>): SessionEnd
    requires DecodesWell(dec)
    decreases |cmds|
  {
    if cmds == [] then SessionEnd(m, pc, [])
    else if cmds[0].Flush? then RefSession(dec, m, pc, cmds[1..], {})
    else
      var x := RefRun(dec, m, pc, 0, cmds[0].budget, cmds[0].watch, decoded);
      if x.exit == Panic then SessionEnd(x.machine, x.pc, [Report(x.executed, x.exit)])
      else
        var rest := RefSession(dec, x.machine, x.pc, cmds[1..], x.decoded);
        rest.(reports := [Report(x.executed, x.exit)] + rest.reports)
  }

  ghost predicate BenignSession(dec: Decoder, m: Machine, pc: u32, cmds: seq<Command>, decoded: set<u32>)
    requires DecodesWell(dec)
    decreases |cmds|
  {
    cmds == [] ||
    if cmds[0].Flush? then BenignSession(dec, m, pc, cmds[1..], {})
    else
      && Benign(dec, m, pc, 0, cmds[0].budget, cmds[0].watch, decoded)
      && var x := RefRun(dec, m, pc, 0, cmds[0].budget, cmds[0].watch, decoded);
         x.exit == Panic || BenignSession(dec, x.machine, x.pc, cmds[1..], x.decoded)
  }

  /** What is done and what is still to come make up the whole session. */
  predicate Continues(goal: SessionEnd, done: seq<Report>, rest: SessionEnd) {
    goal == rest.(reports := done + rest.reports)
  }

  lemma OneMoreReport(goal: SessionEnd, done: seq<Report>, r: Report, rest: SessionEnd)
    requires Continues(goal, done, rest.(reports := [r] + rest.reports))
    ensures Continues(goal, done + [r], rest)
  {
    assert done + ([r] + rest.reports) == done + [r] + rest.reports;
  }

  /** A core with any flags and an empty cache, driven through any sequence of runs and flushes, ends
      with the registers, memory, PC and reports of the reference session. */
  method RunSession(core: VpCore, mem: VpMemory, cmds: seq<Command>, ghost f0: Flags)
    returns (reports: seq<Report>)
    requires DecodesWell(core.dec) && DecodesLocally(core.dec) && Respectful(core.dec.sem)
    requires forall i :: 0 <= i < CACHE_SLOTS ==> !core.slots[i].valid
    requires BenignSession(core.dec, Machine(Arch(core.regs, mem.buf), f0), core.pc, cmds, {})
    modifies core, mem
    ensures var e := RefSession(core.dec, Machine(Arch(old(core.regs), old(mem.buf)), f0), old(core.pc), cmds, {});
            && Arch(core.regs, mem.buf) == e.machine.arch
            && core.pc == e.pc
            && reports == e.reports
  {
    reports := [];
    var k := 0;
    ghost var m, seen, left := Machine(Arch(core.regs, mem.buf), f0), {}, cmds;
    ghost var goal := RefSession(core.dec, m, core.pc, cmds, {});
    while k < |cmds|
      invariant 0 <= k <= |cmds| && left == cmds[k..] && m.arch == Arch(core.regs, mem.buf)
      invariant core.CacheValid(mem.buf, seen)
      invariant BenignSession(core.dec, m, core.pc, left, seen)
      invariant Continues(goal, reports, RefSession(core.dec, m, core.pc, left, seen))
    {
      assert left[0] == cmds[k];
      left := left[1..];
      if cmds[k].Flush? {
        core.FlushCache();
        seen := {};
      } else {
        ghost var x := RefRun(core.dec, m, core.pc, 0, cmds[k].budget, cmds[k].watch, seen);
        var executed, exit := core.Run(mem, cmds[k].budget, cmds[k].watch, m.flags, seen);
        if exit == Panic {
          reports := reports + [Report(executed, exit)];
          return;
        }
        OneMoreReport(goal, reports, Report(executed, exit), RefSession(core.dec, x.machine, x.pc, left, x.decoded));
        reports := reports + [Report(executed, exit)];
        m, seen := x.machine, x.decoded;
      }
      k := k + 1;
    }
  }

  // ---- why the flag condition is needed --------------------------------------------------

  const SUBQ := Instr(AluImm(true, 0, 1, L, F_ALL), 0, 2, true)

  function CompareBlock(p: u32): Block { Block([SUBQ, Instr(Bsr(p), 2, 2, true)], 0) }
  function BranchBlock(p: u32, q: u32, r: u32): Block { Block([Instr(Bne(q, r), p, 2, true)], p) }
  function DecrementToZero(): Machine { Machine(Arch(seq(16, k => if k == 0 then 1 else 0), seq(64, _ => 0)), F_NONE) }

  /** As decoded, the `subq` leaves Z set. */
  lemma DecodedLeavesZ(p: u32)
    ensures ExecFrom(M68K, CompareBlock(p), 0, DecrementToZero()).machine.flags & F_Z == F_Z
  {
    var m0, b := DecrementToZero(), CompareBlock(p);
    var m1 := Step(M68K, SUBQ, m0);
    assert Wrap32(1) == 1;
    assert SubFlags(1, 1, L).flags & F_Z == F_Z;
    assert m1.flags & F_Z == F_Z;
    assert ExecFrom(M68K, b, 1, m1).machine == Step(M68K, b.instrs[1], m1);
  }

  /** Rewritten, it writes no flag, because nothing after it in its block needs one. */
  lemma RewrittenLeavesNone(p: u32)
    ensures ExecFrom(M68K, Optimized(CompareBlock(p)), 0, DecrementToZero()).machine.flags == F_NONE
  {
    var m0, b := DecrementToZero(), CompareBlock(p);
    assert LiveAt(b.instrs, 1) == F_NONE;
    RewrittenAt(b.instrs, 0);
    RewrittenAt(b.instrs, 1);
    var o := Narrow(SUBQ, F_NONE);
    assert Optimized(b).instrs[0] == o && Optimized(b).instrs[1] == b.instrs[1];
    var n1 := Step(M68K, o, m0);
    assert n1.flags == F_NONE;
    assert ExecFrom(M68K, Optimized(b), 1, n1).machine == Step(M68K, b.instrs[1], n1);
  }

  /** The next block branches on the Z it is entered with, rewritten or not. */
  lemma BranchReadsZ(p: u32, q: u32, r: u32, m: Machine)
    ensures ExecFrom(M68K, BranchBlock(p, q, r), 0, m).nextPc == if m.flags & F_Z == 0 then q else r
    ensures Optimized(BranchBlock(p, q, r)) == BranchBlock(p, q, r)
  {
    RewrittenAt(BranchBlock(p, q, r).instrs, 0);
  }

  /** Z set by `subq` in one block and read by the `bne` that starts the next one: the liveness scan
      drops the Z write of the first block, so the rewritten run branches where the decoded run does
      not. D0 starts at 1, so `subq #1` makes it zero. */
  lemma SplitCompareAndBranchDiverges(p: u32, q: u32, r: u32)
    requires q != r
    ensures var first, second, m0 := CompareBlock(p), BranchBlock(p, q, r), DecrementToZero();
            && ExecFrom(M68K, second, 0, ExecFrom(M68K, first, 0, m0).machine).nextPc == r
            && ExecFrom(M68K, Optimized(second), 0, ExecFrom(M68K, Optimized(first), 0, m0).machine).nextPc == q
  {
    DecodedLeavesZ(p);
    RewrittenLeavesNone(p);
    BranchReadsZ(p, q, r, ExecFrom(M68K, CompareBlock(p), 0, DecrementToZero()).machine);
    BranchReadsZ(p, q, r, ExecFrom(M68K, Optimized(CompareBlock(p)), 0, DecrementToZero()).machine);
  }
}
