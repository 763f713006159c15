/**
 Block decoding and the `movem` expansion (crates/m68k-vp/src/decoder.rs).

 `decode_one` stays a parameter except for `movem`, which is written out: it expands to one micro-op
 per selected register, of which only the last retires.
 */
module VpDecoder {
  import opened Bits
  import opened Wrappers
  import opened VpIr
  import opened VpPasses
  import opened VpCore

  const MAX_OPS := 64

  datatype Decoded = Decoded(ops: seq<Instr>, len: nat, terminator: bool)

  type DecodeOne = (Mem, u32) -> Option<Decoded>

  function Retired(s: seq<Instr>): nat {
    if s == [] then 0 else (if s[0].retire then 1 else 0) + Retired(s[1..])
  }

  /** What one source instruction expands to: at least one micro-op, only the last one retires, and
      only a single micro-op can transfer control. */
  predicate OneInstruction(d: Decoded) {
    && 1 <= |d.ops|
    && (forall k :: 0 <= k < |d.ops| ==> d.ops[k].retire == (k == |d.ops| - 1))
    && (forall k :: 0 <= k < |d.ops| ==> d.ops[k].op.Terminates() == d.terminator)
    && (d.terminator ==> |d.ops| == 1)
    && AsksForAllFlags(d.ops)
  }

  ghost predicate OneByOne(one: DecodeOne) {
    forall m: Mem, pc: u32 :: one(m, pc).Some? ==> OneInstruction(one(m, pc).value)
  }

  /** Decode instructions from `pc` behind the ops already in `acc`, until a control transfer or the
      op limit. Overflowing the arena panics. */
  function DecodeFrom(one: DecodeOne, m: Mem, pc: u32, acc: seq<Instr>): Option<seq<Instr>>
    requires OneByOne(one) && |acc| < MAX_OPS
    decreases MAX_OPS - |acc|
  {
    match one(m, pc)
    case None => None
    case Some(d) =>
      var acc' := acc + d.ops;
      if |acc'| > MAX_OPS then None
      else if d.terminator || |acc'| == MAX_OPS then Some(acc')
      else DecodeFrom(one, m, Wrap32(pc + d.len), acc')
  }

  method DecodeBlock(one: DecodeOne, m: Mem, entry: u32) returns (b: Option<Block>)
    requires OneByOne(one)
    ensures b == match DecodeFrom(one, m, entry, []) case None => None case Some(s) => Some(Block(s, entry))
  {
    var pc: u32, acc := entry, [];
    while true
      invariant |acc| < MAX_OPS
      invariant DecodeFrom(one, m, pc, acc) == DecodeFrom(one, m, entry, [])
      decreases MAX_OPS - |acc|
    {
      match one(m, pc)
      case None => return None;
      case Some(d) =>
        acc := acc + d.ops;
        if |acc| > MAX_OPS {
          return None;
        }
        pc := Wrap32(pc + d.len);
        if d.terminator || |acc| == MAX_OPS {
          return Some(Block(acc, entry));
        }
    }
  }

  predicate GoodPrefix(s: seq<Instr>) {
    && (forall k :: 0 <= k < |s| ==> !s[k].op.Terminates())
    && (s != [] ==> s[|s| - 1].retire)
    && AsksForAllFlags(s)
  }

  /** Blocks built this way have the shape the run loop relies on. */
  lemma {:induction false} DecodedBlocksAreGood(one: DecodeOne, m: Mem, pc: u32, acc: seq<Instr>, entry: u32)
    requires OneByOne(one) && |acc| < MAX_OPS && GoodPrefix(acc)
    ensures DecodeFrom(one, m, pc, acc).Some? ==> GoodBlock(Block(DecodeFrom(one, m, pc, acc).value, entry))
    decreases MAX_OPS - |acc|
  {
    match one(m, pc)
    case None =>
    case Some(d) =>
      var acc' := acc + d.ops;
      assert OneInstruction(d);
      assert acc'[|acc'| - 1] == d.ops[|d.ops| - 1];
      if |acc'| < MAX_OPS && !d.terminator {
        DecodedBlocksAreGood(one, m, Wrap32(pc + d.len), acc', entry);
      }
  }

  // ---- movem -----------------------------------------------------------------------

  /** Bit `k` of the register list: reversed for -(An), direct for (An)+. */
  function RegForBit(predec: bool, k: nat): Reg
    requires k < 16
  {
    if predec then 15 - k else k
  }

  /** The register list word, bit 0 first. */
  type RegList = s: seq<bool> | |s| == 16 witness seq(16, _ => false)

  /** The registers selected by the first `n` bits of the list, in processing order. */
  function Selected(predec: bool, list: RegList, n: nat): seq<Reg>
    requires n <= |list|
  {
    if n == 0 then []
    else Selected(predec, list, n - 1) + (if list[n - 1] then [RegForBit(predec, n - 1)] else [])
  }

  function Transfers(predec: bool, list: RegList): seq<Reg> { Selected(predec, list, |list|) }

  function MovemOp(store: bool, an: Reg, r: Reg): Op {
    if store then MoveMem(FromReg(r), PreDec(an), L) else LoadReg(r, PostInc(an), L)
  }

  function MovemOps(store: bool, an: Reg, list: RegList, pc: u32): (ops: seq<Instr>) {
    var sel := Transfers(store, list);
    if sel == [] then [Instr(Nop, pc, 4, true)]
    else seq(|sel|, i requires 0 <= i < |sel| =>
               Instr(MovemOp(store, an, sel[i]), pc, 4, i + 1 == |sel|))
  }

  method SelectRegisters(store: bool, list: RegList) returns (selected: seq<Reg>)
    ensures selected == Transfers(store, list)
  {
    selected := [];
    for k := 0 to |list|
      invariant selected == Selected(store, list, k)
    {
      if list[k] {
        selected := selected + [RegForBit(store, k)];
      }
    }
  }

  method DecodeMovem(store: bool, an: Reg, list: RegList, pc: u32) returns (ops: seq<Instr>)
    ensures ops == MovemOps(store, an, list, pc)
  {
    var selected := SelectRegisters(store, list);
    if |selected| == 0 {
      return [Instr(Nop, pc, 4, true)];
    }
    ops := [];
    for i := 0 to |selected|
      invariant |ops| == i
      invariant forall j :: 0 <= j < i ==>
        ops[j] == Instr(MovemOp(store, an, selected[j]), pc, 4, j + 1 == |selected|)
    {
      ops := ops + [Instr(MovemOp(store, an, selected[i]), pc, 4, i + 1 == |selected|)];
    }
  }

  lemma {:induction false} RetiredOnce(s: seq<Instr>)
    requires |s| >= 1 && forall k :: 0 <= k < |s| ==> s[k].retire == (k == |s| - 1)
    ensures Retired(s) == 1
  {
    if |s| > 1 { RetiredOnce(s[1..]); }
  }

  /** A `movem` retires exactly one instruction, whatever its register list, the empty one included. */
  lemma MovemRetiresOnce(store: bool, an: Reg, list: RegList, pc: u32)
    ensures Retired(MovemOps(store, an, list, pc)) == 1
    ensures OneInstruction(Decoded(MovemOps(store, an, list, pc), 4, false))
  {
    var ops := MovemOps(store, an, list, pc);
    assert OneInstruction(Decoded(ops, 4, false));
    RetiredOnce(ops);
  }
}
