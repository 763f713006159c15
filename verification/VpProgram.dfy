/**
 Whole runs against the program (crates/m68k-vp/src/interp.rs `VpCore::run`): a run that retires `n`
 instructions leaves the machine of `n` single instructions, and it agrees with them at every block boundary
 if and only if no block it executes was cut off at the op limit short of its own entry.
 */
module VpProgram {
  import opened Bits
  import opened Wrappers
  import opened VpIr
  import opened VpPasses
  import opened VpCore
  import opened VpDecoder
  import opened VpMovem
  import opened VpStepping

  // ---- code that stays put within a block ----------------------------------------------------------

  /** Along `n` instructions from `p`, decoded from the image `code`: when an instruction's turn comes, the
      memory still holds the bytes it was decoded from. */
  ghost predicate KeepsOwnCode(isa: Isa, code: Mem, p: Point, n: nat)
    decreases n
  {
    n > 0 ==>
      && SameCode(code, p.machine.arch.mem, p.pc, isa.span(code, p.pc))
      && (isa.one(code, p.pc).Some? ==> KeepsOwnCode(isa, code, RunOne(isa.sem, isa.one(code, p.pc).value, p), n - 1))
  }

  lemma {:induction false} LiveIsImage(isa: Isa, code: Mem, p: Point, n: nat)
    requires Local(isa) && KeepsOwnCode(isa, code, p, n)
    ensures Steps(isa, p, n) == StepsIn(isa, code, p, n)
    decreases n
  {
    if n > 0 {
      assert isa.one(p.machine.arch.mem, p.pc) == isa.one(code, p.pc);
      match isa.one(code, p.pc)
      case None =>
      case Some(d) => LiveIsImage(isa, code, RunOne(isa.sem, d, p), n - 1);
    }
  }

  // ---- along a run -------------------------------------------------------------------------------------

  /** Where a run stands between two blocks. */
  datatype Leg = Leg(p: Point, executed: nat, budget: u32, watch: set<u32>)

  predicate Over(g: Leg) { g.p.pc in g.watch || g.executed >= g.budget }

  function Entered(isa: Isa, g: Leg): Option<Block> { BlockAt(isa, g.p.machine.arch.mem, g.p.pc) }

  function ExitOf(isa: Isa, g: Leg): BlockExit
    requires Entered(isa, g).Some?
  {
    ExecFrom(isa.sem, Entered(isa, g).value, 0, g.p.machine)
  }

  /** The leg after the next block, unless the 32-bit count overflows. */
  function NextLeg(isa: Isa, g: Leg): (h: Leg)
    requires !Over(g) && Entered(isa, g).Some?
    ensures h.executed > g.executed && h.budget == g.budget
  {
    var x := ExitOf(isa, g);
    RetiresSome(isa, g);
    g.(p := Point(x.machine, x.nextPc), executed := g.executed + x.retired)
  }

  lemma RetiresSome(isa: Isa, g: Leg)
    requires Entered(isa, g).Some?
    ensures ExitOf(isa, g).retired >= 1
  {
    DecodedBlocksAreGood(isa.one, g.p.machine.arch.mem, g.p.pc, [], g.p.pc);
    GoodBlockRetires(isa.sem, Entered(isa, g).value, 0, g.p.machine);
  }

  predicate Ends(isa: Isa, g: Leg) {
    Over(g) || Entered(isa, g).None? || g.executed + ExitOf(isa, g).retired >= U32_RANGE
  }

  /** The next block ends in a control transfer, or its next address is its own entry. */
  predicate AtHome(isa: Isa, g: Leg)
    requires Entered(isa, g).Some?
  {
    || EndsInTransfer(Entered(isa, g).value.instrs)
    || Successor(isa.one, g.p.machine.arch.mem, g.p.pc, []) == g.p.pc
  }

  /** Every block of the run ends in a control transfer or comes back to its own entry. */
  predicate Follows(isa: Isa, g: Leg)
    decreases g.budget - g.executed
  {
    !Ends(isa, g) ==> AtHome(isa, g) && Follows(isa, NextLeg(isa, g))
  }

  /** No block of the run overwrites an instruction of its own that is still to come. */
  ghost predicate OwnCodeKept(isa: Isa, g: Leg)
    decreases g.budget - g.executed
  {
    !Ends(isa, g) ==>
      && KeepsOwnCode(isa, g.p.machine.arch.mem, g.p, ExitOf(isa, g).retired)
      && OwnCodeKept(isa, NextLeg(isa, g))
  }

  /** After every block the run stands where single instructions from the block's entry do. */
  predicate Tracks(isa: Isa, g: Leg)
    decreases g.budget - g.executed
  {
    !Ends(isa, g) ==>
      && Steps(isa, g.p, ExitOf(isa, g).retired) == Some(NextLeg(isa, g).p)
      && Tracks(isa, NextLeg(isa, g))
  }

  lemma BlockTracks(isa: Isa, g: Leg)
    requires Local(isa) && Entered(isa, g).Some?
    requires KeepsOwnCode(isa, g.p.machine.arch.mem, g.p, ExitOf(isa, g).retired)
    ensures var x := ExitOf(isa, g);
            Steps(isa, g.p, x.retired) == Some(Point(x.machine, x.nextPc)) <==> AtHome(isa, g)
  {
    LiveIsImage(isa, g.p.machine.arch.mem, g.p, ExitOf(isa, g).retired);
    BlockFollowsProgram(isa, g.p.machine.arch.mem, g.p.pc, g.p.machine);
  }

  /** A run agrees with the program at every block boundary if and only if no block of it was cut off short
      of its own entry. */
  lemma {:induction false} TracksExactly(isa: Isa, g: Leg)
    requires Local(isa) && OwnCodeKept(isa, g)
    ensures Tracks(isa, g) <==> Follows(isa, g)
    decreases g.budget - g.executed
  {
    if !Ends(isa, g) {
      BlockTracks(isa, g);
      TracksExactly(isa, NextLeg(isa, g));
    }
  }

  /** The reference run of a leg. */
  function RunOf(isa: Isa, g: Leg, decoded: set<u32>): Outcome {
    BlocksDecodeWell(isa);
    RefRun(Dec(isa), g.p.machine, g.p.pc, g.executed, g.budget, g.watch, decoded)
  }

  lemma RunOfNext(isa: Isa, g: Leg, decoded: set<u32>)
    ensures Ends(isa, g) ==>
              var x := RunOf(isa, g, decoded);
              x.machine == g.p.machine && x.pc == g.p.pc && x.executed == g.executed
    ensures !Ends(isa, g) ==> RunOf(isa, g, decoded) == RunOf(isa, NextLeg(isa, g), decoded + {g.p.pc})
  {
  }

  /** A run that follows the program and retires `n` instructions is `n` single instructions. */
  lemma {:induction false} RunIsSteps(isa: Isa, g: Leg, decoded: set<u32>)
    requires Tracks(isa, g)
    ensures var x := RunOf(isa, g, decoded);
            x.executed >= g.executed && Steps(isa, g.p, x.executed - g.executed) == Some(Point(x.machine, x.pc))
    decreases g.budget - g.executed
  {
    RunOfNext(isa, g, decoded);
    if !Ends(isa, g) {
      var h := NextLeg(isa, g);
      RunIsSteps(isa, h, decoded + {g.p.pc});
      var x := RunOf(isa, h, decoded + {g.p.pc});
      StepsAdd(isa, g.p, ExitOf(isa, g).retired, h.p, x.executed - h.executed, x.executed - g.executed);
    }
  }

  // ---- the interpreter's own ops -----------------------------------------------------------------------------

  /** What a run of the program asks of it: the conditions of the cached run, no block cut off short of its
      own entry, and no block that overwrites its own instructions ahead of time. */
  ghost predicate Sound(isa: Isa, g: Leg) {
    && Local(isa) && Respectful(isa.sem) && DecodesWell(Dec(isa))
    && Benign(Dec(isa), g.p.machine, g.p.pc, g.executed, g.budget, g.watch, {})
    && Follows(isa, g) && OwnCodeKept(isa, g)
  }

  lemma SoundRun(isa: Isa, g: Leg)
    requires Sound(isa, g) && g.executed == 0
    ensures DecodesLocally(Dec(isa))
    ensures var x := RunOf(isa, g, {}); Steps(isa, g.p, x.executed) == Some(Point(x.machine, x.pc))
  {
    BlocksDecodeLocally(isa);
    TracksExactly(isa, g);
    RunIsSteps(isa, g, {});
  }

  /** The cached, rewritten run of a program: the machine it leaves is that of as many single instructions,
      decoded afresh and executed one by one. */
  method RunProgram(core: VpCore, mem: VpMemory, isa: Isa, budget: u32, watch: set<u32>, ghost g: Leg)
    returns (executed: nat, exit: Exit)
    requires core.dec == Dec(isa) && Sound(isa, g) && forall i :: 0 <= i < CACHE_SLOTS ==> !core.slots[i].valid
    requires g.p.machine.arch == Arch(core.regs, mem.buf) && g.p.pc == core.pc
    requires g.executed == 0 && g.budget == budget && g.watch == watch
    modifies core, mem
    ensures var end := Steps(isa, g.p, executed);
            end.Some? && end.value.machine.arch == Arch(core.regs, mem.buf) && end.value.pc == core.pc
  {
    SoundRun(isa, g);
    executed, exit := core.Run(mem, budget, watch, g.p.machine.flags, {});
  }

  /** The interpreter's own ops and a decoder that reads only its span meet what the run loop relies on. */
  lemma M68kIsReady(isa: Isa)
    requires isa.sem == M68K && Local(isa)
    ensures Respectful(isa.sem) && DecodesWell(Dec(isa)) && DecodesLocally(Dec(isa))
  {
    M68kIsRespectful();
    BlocksDecodeWell(isa);
    BlocksDecodeLocally(isa);
  }

  /** The session theorem for the interpreter's own ops and a decoder built from single instructions. */
  method RunM68kSession(core: VpCore, mem: VpMemory, isa: Isa, cmds: seq<Command>, ghost f0: Flags)
    returns (reports: seq<Report>)
    requires core.dec == Dec(isa) && isa.sem == M68K && Local(isa)
    requires forall i :: 0 <= i < CACHE_SLOTS ==> !core.slots[i].valid
    requires DecodesWell(Dec(isa))
    requires BenignSession(Dec(isa), Machine(Arch(core.regs, mem.buf), f0), core.pc, cmds, {})
    modifies core, mem
    ensures var e := RefSession(Dec(isa), Machine(Arch(old(core.regs), old(mem.buf)), f0), old(core.pc), cmds, {});
            Arch(core.regs, mem.buf) == e.machine.arch && core.pc == e.pc && reports == e.reports
  {
    M68kIsReady(isa);
    reports := RunSession(core, mem, cmds, f0);
  }

  /** Save and restore with the interpreter's own ops. */
  lemma M68kSaveRestore(an: Reg, s: RegList, l: RegList, pc: u32, pc': u32, a: Arch, saved: Arch, mid: Arch, b: Arch)
    requires |a.mem| >= 64 && ReversedList(s, l) && !l[an]
    requires saved == RunOps(M68K, MovemOps(true, an, s, pc), a)
    requires mid.regs[an] == saved.regs[an] && SameBelow(saved.mem, mid.mem, a.regs[an])
    requires b == RunOps(M68K, MovemOps(false, an, l, pc'), mid)
    ensures forall r: Reg :: l[r] ==> b.regs[r] == a.regs[r]
    ensures b.regs[an] == a.regs[an] && b.mem == mid.mem
    ensures forall r: Reg :: !l[r] && r != an ==> b.regs[r] == mid.regs[r]
  {
    M68kMovesLongs();
    SaveRestore(M68K, an, s, l, pc, pc', a, saved, mid, b);
  }

  // ---- a block that does not follow the program --------------------------------------------------------------

  /** Every address holds a two-byte no-op. */
  function OnlyNops(m: Mem, pc: u32): Option<Decoded> { Some(Decoded([Instr(Nop, pc, 2, true)], 2, false)) }

  function NopIsa(): Isa { Isa(OnlyNops, (m: Mem, pc: u32) => 2, M68K) }

  lemma {:induction false} NopBlock(m: Mem, pc: u32, acc: seq<Instr>, left: nat)
    requires |acc| < MAX_OPS && left == MAX_OPS - |acc| && forall i :: 0 <= i < |acc| ==> acc[i].op == Nop
    ensures var s := DecodeFrom(NopIsa().one, m, pc, acc);
            s.Some? && |s.value| == MAX_OPS && forall i :: 0 <= i < MAX_OPS ==> s.value[i].op == Nop
    ensures Length(NopIsa().one, m, pc, acc) == left
    ensures Successor(NopIsa().one, m, pc, acc) == Wrap32(pc + 2 * left)
    decreases left
  {
    var acc', next := acc + [Instr(Nop, pc, 2, true)], Wrap32(pc + 2);
    if |acc'| < MAX_OPS {
      NopBlock(m, next, acc', left - 1);
      Congruent(U32_RANGE, next, pc + 2, 2 * (left - 1));
    }
  }

  /** 64 no-ops in a row: the block goes back to its entry, the program is 128 bytes further on. */
  lemma StraightLineLoops(m: Machine, entry: u32)
    ensures var b := BlockAt(NopIsa(), m.arch.mem, entry);
            && b.Some? && |b.value.instrs| == 64
            && ExecFrom(M68K, b.value, 0, m).retired == 64
            && ExecFrom(M68K, b.value, 0, m).nextPc == entry
            && StepsIn(NopIsa(), m.arch.mem, Point(m, entry), 64).Some?
            && StepsIn(NopIsa(), m.arch.mem, Point(m, entry), 64).value.pc == Wrap32(entry + 128) != entry
  {
    NopBlock(m.arch.mem, entry, [], MAX_OPS);
    BlockRuns(NopIsa(), m.arch.mem, entry, [], entry, m);
    Elsewhere(entry);
  }

  lemma Elsewhere(entry: u32)
    ensures Wrap32(entry + 128) != entry
  {
  }
}
