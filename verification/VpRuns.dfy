/**
 When a run stops (crates/m68k-vp/src/interp.rs `VpCore::run`): at the first block boundary where the PC is watched or
 the budget is spent, the watch list first; otherwise it panics in the block that follows.
 */
module VpRuns {
  import opened Bits
  import opened Wrappers
  import opened VpIr
  import opened VpPasses
  import opened VpCore

  /** Where a run stands between two blocks. */
  datatype Boundary = Boundary(machine: Machine, pc: u32, executed: nat)

  /** The next boundary: none if the block does not decode or the 32-bit count of instructions overflows. */
  function Next(dec: Decoder, at: Boundary): Option<Boundary> {
    match dec.block(at.machine.arch.mem, at.pc)
    case None => None
    case Some(b) =>
      var x := ExecFrom(dec.sem, b, 0, at.machine);
      if at.executed + x.retired > 0xFFFF_FFFF then None
      else Some(Boundary(x.machine, x.nextPc, at.executed + x.retired))
  }

  /** The boundary after `k` blocks. */
  function After(dec: Decoder, from: Boundary, k: nat): Option<Boundary> {
    if k == 0 then Some(from)
    else
      match After(dec, from, k - 1)
      case None => None
      case Some(at) => Next(dec, at)
  }

  /** The run goes on from boundary `k`. */
  predicate GoesOn(dec: Decoder, from: Boundary, k: nat, budget: u32, watch: set<u32>) {
    var at := After(dec, from, k);
    at.Some? && at.value.pc !in watch && at.value.executed < budget
  }

  /** `x` is how a run from `from` ends at boundary `k`. */
  ghost predicate StopsAt(dec: Decoder, from: Boundary, k: nat, budget: u32, watch: set<u32>, x: Outcome) {
    && (forall j: nat :: j < k ==> GoesOn(dec, from, j, budget, watch))
    && After(dec, from, k) == Some(Boundary(x.machine, x.pc, x.executed))
    && (x.pc in watch ==> x.exit == WatchedPc(x.pc))
    && (x.pc !in watch && x.executed >= budget ==> x.exit == BudgetExhausted)
    && (GoesOn(dec, from, k, budget, watch) ==> x.exit == Panic && After(dec, from, k + 1).None?)
  }

  lemma {:induction false} OneBlockOn(dec: Decoder, from: Boundary, next: Boundary, k: nat)
    requires Next(dec, from) == Some(next)
    ensures After(dec, next, k) == After(dec, from, k + 1)
  {
    if k == 0 { assert After(dec, from, 0) == Some(from); } else { OneBlockOn(dec, from, next, k - 1); }
  }

  lemma StopsLater(dec: Decoder, from: Boundary, next: Boundary, k: nat, budget: u32, watch: set<u32>, x: Outcome)
    requires Next(dec, from) == Some(next) && GoesOn(dec, from, 0, budget, watch)
    requires StopsAt(dec, next, k, budget, watch, x)
    ensures StopsAt(dec, from, k + 1, budget, watch, x)
  {
    OneBlockOn(dec, from, next, k);
    OneBlockOn(dec, from, next, k + 1);
    forall j: nat | j < k + 1
      ensures GoesOn(dec, from, j, budget, watch)
    {
      if j > 0 {
        assert GoesOn(dec, next, j - 1, budget, watch);
        OneBlockOn(dec, from, next, j - 1);
      }
    }
  }

  /** Every run stops at its first boundary that is watched, or spent, or followed by a block that panics. */
  lemma {:induction false} RunStopsFirst(dec: Decoder, m: Machine, pc: u32, executed: nat, budget: u32,
                                         watch: set<u32>, decoded: set<u32>) returns (k: nat)
    requires DecodesWell(dec)
    ensures StopsAt(dec, Boundary(m, pc, executed), k, budget, watch,
                    RefRun(dec, m, pc, executed, budget, watch, decoded))
    decreases budget - executed
  {
    var from, x := Boundary(m, pc, executed), RefRun(dec, m, pc, executed, budget, watch, decoded);
    k := 0;
    assert After(dec, from, 0) == Some(from);
    if GoesOn(dec, from, 0, budget, watch) {
      assert After(dec, from, 1) == Next(dec, from);
      if Next(dec, from).Some? {
        var next := Next(dec, from).value;
        GoodBlockRetires(dec.sem, dec.block(m.arch.mem, pc).value, 0, m);
        var j := RunStopsFirst(dec, next.machine, next.pc, next.executed, budget, watch, decoded + {pc});
        StopsLater(dec, from, next, j, budget, watch, x);
        k := j + 1;
      }
    }
  }
}
