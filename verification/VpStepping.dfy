/**
 Block execution against the program it was decoded from (crates/m68k-vp/src/decoder.rs `decode_block`,
 crates/m68k-vp/src/interp.rs `execute_block`, `VpCore::run`).

 The reference here knows no blocks: it decodes one instruction at the PC, executes it, and goes on at the
 target of a control transfer or at the next address. A block does the same if and only if it ends in a
 control transfer or its next address happens to be its own entry, because a block cut off at the op limit
 goes back to its entry.
 */
module VpStepping {
  import opened Bits
  import opened Wrappers
  import opened VpIr
  import opened VpPasses
  import opened VpCore
  import opened VpDecoder

  // ---- a decoder built from single instructions --------------------------------------------------

  type OneDecoder = f: DecodeOne | OneByOne(f) ghost witness (m: Mem, pc: u32) => None

  /** Single-instruction decoding, the number of bytes each decode looks at, and what the ops mean. */
  datatype Isa = Isa(one: OneDecoder, span: (Mem, u32) -> nat, sem: Semantics)

  /** Both memories hold the same `n` bytes from `pc` on. */
  ghost predicate SameCode(m: Mem, m': Mem, pc: int, n: nat) {
    |m| == |m'| && forall k: int :: pc <= k < pc + n ==> ReadU8(m, k) == ReadU8(m', k)
  }

  /** Decoding looks only at the bytes of its span. */
  ghost predicate Local(isa: Isa) {
    forall m: Mem, m': Mem, pc: u32 {:trigger SameCode(m, m', pc, isa.span(m, pc))} ::
      SameCode(m, m', pc, isa.span(m, pc)) ==> isa.one(m', pc) == isa.one(m, pc)
  }

  function Most(a: nat, b: nat): nat { if a > b then a else b }

  /** How many bytes from `pc` on the block decoder looks at. */
  function SpanFrom(isa: Isa, m: Mem, pc: u32, acc: seq<Instr>): nat
    requires |acc| < MAX_OPS
    decreases MAX_OPS - |acc|
  {
    match isa.one(m, pc)
    case None => isa.span(m, pc)
    case Some(d) =>
      assert OneInstruction(d);
      var acc' := acc + d.ops;
      if |acc'| >= MAX_OPS || d.terminator then isa.span(m, pc)
      else Most(isa.span(m, pc), d.len + SpanFrom(isa, m, Wrap32(pc + d.len), acc'))
  }

  function BlockAt(isa: Isa, m: Mem, pc: u32): Option<Block> {
    match DecodeFrom(isa.one, m, pc, [])
    case None => None
    case Some(s) => Some(Block(s, pc))
  }

  function Dec(isa: Isa): Decoder {
    Decoder((m: Mem, pc: u32) => BlockAt(isa, m, pc), (m: Mem, pc: u32) => SpanFrom(isa, m, pc, []), isa.sem)
  }

  lemma BlocksDecodeWell(isa: Isa)
    ensures DecodesWell(Dec(isa))
  {
    forall m: Mem, pc: u32 | Dec(isa).block(m, pc).Some?
      ensures GoodBlock(Dec(isa).block(m, pc).value)
    {
      DecodedBlocksAreGood(isa.one, m, pc, [], pc);
    }
  }

  /** Addresses a multiple of 2^32 apart are the same byte. */
  lemma SameByteMod32(m: Mem, k: int, q: int)
    ensures ReadU8(m, k + U32_RANGE * q) == ReadU8(m, k)
  {
    DivModLaw(k, U32_RANGE);
    assert U32_RANGE * (k / U32_RANGE + q) == U32_RANGE * (k / U32_RANGE) + U32_RANGE * q;
    ModUnique(k + U32_RANGE * q, U32_RANGE, k / U32_RANGE + q, Wrap32(k));
  }

  /** What is left of the same code after an instruction of `len` bytes, at the wrapped next address. */
  lemma RestOfCode(m: Mem, m': Mem, pc: u32, len: nat, n: nat, next: u32)
    requires SameCode(m, m', pc, len + n) && next == Wrap32(pc + len)
    ensures SameCode(m, m', next, n)
  {
    var q := (pc + len) / U32_RANGE;
    DivModLaw(pc + len, U32_RANGE);
    forall k: int | next <= k < next + n
      ensures ReadU8(m, k) == ReadU8(m', k)
    {
      SameByteMod32(m, k, q);
      SameByteMod32(m', k, q);
    }
  }

  lemma LessCode(m: Mem, m': Mem, pc: int, n: nat, less: nat)
    requires SameCode(m, m', pc, n) && less <= n
    ensures SameCode(m, m', pc, less)
  {
  }

  lemma {:induction false} SameDecoding(isa: Isa, m: Mem, m': Mem, pc: u32, acc: seq<Instr>)
    requires Local(isa) && |acc| < MAX_OPS && SameCode(m, m', pc, SpanFrom(isa, m, pc, acc))
    ensures DecodeFrom(isa.one, m', pc, acc) == DecodeFrom(isa.one, m, pc, acc)
    decreases MAX_OPS - |acc|
  {
    LessCode(m, m', pc, SpanFrom(isa, m, pc, acc), isa.span(m, pc));
    assert isa.one(m', pc) == isa.one(m, pc);
    match isa.one(m, pc)
    case None =>
    case Some(d) =>
      assert OneInstruction(d);
      var acc' := acc + d.ops;
      if |acc'| < MAX_OPS && !d.terminator {
        var next := Wrap32(pc + d.len);
        var n := SpanFrom(isa, m, next, acc');
        LessCode(m, m', pc, SpanFrom(isa, m, pc, acc), d.len + n);
        RestOfCode(m, m', pc, d.len, n, next);
        SameDecoding(isa, m, m', next, acc');
      }
  }

  lemma BlocksDecodeLocally(isa: Isa)
    requires Local(isa)
    ensures DecodesLocally(Dec(isa))
  {
    forall m: Mem, m': Mem, pc: u32 | CodeKept(Dec(isa), m, m', pc)
      ensures Dec(isa).block(m', pc) == Dec(isa).block(m, pc)
    {
      assert SameCode(m, m', pc, SpanFrom(isa, m, pc, []));
      SameDecoding(isa, m, m', pc, []);
    }
  }

  // ---- one instruction at a time ---------------------------------------------------------------------

  datatype Point = Point(machine: Machine, pc: u32)

  /** Execute one decoded instruction: on to its target, or to the next address. */
  function RunOne(sem: Semantics, d: Decoded, p: Point): Point {
    var x := ExecFrom(sem, Block(d.ops, p.pc), 0, p.machine);
    Point(x.machine, if d.terminator then x.nextPc else Wrap32(p.pc + d.len))
  }

  /** `n` instructions decoded from the memory image `code`; `None` where one does not decode. */
  function StepsIn(isa: Isa, code: Mem, p: Point, n: nat): Option<Point>
    decreases n
  {
    if n == 0 then Some(p)
    else
      match isa.one(code, p.pc)
      case None => None
      case Some(d) => StepsIn(isa, code, RunOne(isa.sem, d, p), n - 1)
  }

  /** `n` instructions, each decoded from the memory as it is when its turn comes. */
  function Steps(isa: Isa, p: Point, n: nat): Option<Point>
    decreases n
  {
    if n == 0 then Some(p)
    else
      match isa.one(p.machine.arch.mem, p.pc)
      case None => None
      case Some(d) => Steps(isa, RunOne(isa.sem, d, p), n - 1)
  }

  lemma {:induction false} StepsAdd(isa: Isa, p: Point, m: nat, q: Point, n: nat, mn: nat)
    requires Steps(isa, p, m) == Some(q) && mn == m + n
    ensures Steps(isa, p, mn) == Steps(isa, q, n)
    decreases m
  {
    if m > 0 {
      var d := isa.one(p.machine.arch.mem, p.pc).value;
      StepsAdd(isa, RunOne(isa.sem, d, p), m - 1, q, n, mn - 1);
    }
  }

  // ---- a block is its instructions -------------------------------------------------------------------------

  /** The micro-ops of one instruction at position `k` of a block, from its `i`th on. */
  lemma {:induction false} PartRuns(sem: Semantics, b: Block, k: nat, d: Decoded, pc: u32, i: nat, m: Machine)
    requires OneInstruction(d) && !d.terminator && i <= |d.ops| && k + |d.ops| <= |b.instrs|
    requires b.instrs[k..k + |d.ops|] == d.ops
    ensures var part := ExecFrom(sem, Block(d.ops, pc), i, m);
            var rest := ExecFrom(sem, b, k + |d.ops|, part.machine);
            && part.retired == (if i < |d.ops| then 1 else 0)
            && ExecFrom(sem, b, k + i, m) == rest.(retired := rest.retired + part.retired)
    decreases |d.ops| - i
  {
    if i < |d.ops| {
      assert b.instrs[k + i] == b.instrs[k..k + |d.ops|][i] == d.ops[i];
      PartRuns(sem, b, k, d, pc, i + 1, Step(sem, d.ops[i], m));
    }
  }

  /** A control transfer ends the block. */
  lemma TransferEnds(sem: Semantics, b: Block, k: nat, d: Decoded, p: Point)
    requires OneInstruction(d) && d.terminator && k < |b.instrs| && b.instrs[k] == d.ops[0]
    ensures var x := ExecFrom(sem, b, k, p.machine);
            x.retired == 1 && RunOne(sem, d, p) == Point(x.machine, x.nextPc)
  {
  }

  /** The number of instructions in the block decoded from `pc` on, and the address after the last. */
  function Length(one: OneDecoder, m: Mem, pc: u32, acc: seq<Instr>): nat
    requires |acc| < MAX_OPS
    decreases MAX_OPS - |acc|
  {
    match one(m, pc)
    case None => 0
    case Some(d) =>
      assert OneInstruction(d);
      var acc' := acc + d.ops;
      if |acc'| >= MAX_OPS || d.terminator then 1 else 1 + Length(one, m, Wrap32(pc + d.len), acc')
  }

  function Successor(one: OneDecoder, m: Mem, pc: u32, acc: seq<Instr>): u32
    requires |acc| < MAX_OPS
    decreases MAX_OPS - |acc|
  {
    match one(m, pc)
    case None => pc
    case Some(d) =>
      assert OneInstruction(d);
      var acc' := acc + d.ops;
      if |acc'| >= MAX_OPS || d.terminator then Wrap32(pc + d.len) else Successor(one, m, Wrap32(pc + d.len), acc')
  }

  predicate EndsInTransfer(s: seq<Instr>) { s != [] && s[|s| - 1].op.Terminates() }

  lemma {:induction false} DecodeExtends(one: OneDecoder, m: Mem, pc: u32, acc: seq<Instr>)
    requires |acc| < MAX_OPS && DecodeFrom(one, m, pc, acc).Some?
    ensures var s := DecodeFrom(one, m, pc, acc).value;
            var d := one(m, pc).value;
            |acc| + |d.ops| <= |s| && s[..|acc|] == acc && s[|acc|..|acc| + |d.ops|] == d.ops
    decreases MAX_OPS - |acc|
  {
    var d := one(m, pc).value;
    assert OneInstruction(d);
    var acc' := acc + d.ops;
    if |acc'| < MAX_OPS && !d.terminator {
      var s := DecodeFrom(one, m, pc, acc).value;
      DecodeExtends(one, m, Wrap32(pc + d.len), acc');
      assert s[..|acc|] == s[..|acc'|][..|acc|];
      assert s[|acc|..|acc'|] == s[..|acc'|][|acc|..];
    }
  }

  /** What a block leaves, started at its op `k`, against what its instructions leave from there on. */
  predicate Matches(x: BlockExit, y: Option<Point>, n: nat, transfers: bool, entry: u32, successor: u32) {
    && x.retired == n && y.Some? && y.value.machine == x.machine
    && if transfers then y.value.pc == x.nextPc else x.nextPc == entry && y.value.pc == successor
  }

  /** The last instruction of a block: a control transfer, or the one at the op limit. */
  lemma LastRuns(isa: Isa, code: Mem, b: Block, k: nat, d: Decoded, p: Point)
    requires OneInstruction(d) && isa.one(code, p.pc) == Some(d) && k + |d.ops| == |b.instrs|
    requires b.instrs[k..k + |d.ops|] == d.ops
    ensures Matches(ExecFrom(isa.sem, b, k, p.machine), StepsIn(isa, code, p, 1), 1, EndsInTransfer(b.instrs),
                    b.entryPc, Wrap32(p.pc + d.len))
  {
    assert b.instrs[|b.instrs| - 1] == b.instrs[k..k + |d.ops|][|d.ops| - 1] == d.ops[|d.ops| - 1];
    assert StepsIn(isa, code, p, 1) == StepsIn(isa, code, RunOne(isa.sem, d, p), 0);
    if d.terminator {
      TransferEnds(isa.sem, b, k, d, p);
    } else {
      PartRuns(isa.sem, b, k, d, p.pc, 0, p.machine);
    }
  }

  lemma {:induction false} BlockRuns(isa: Isa, code: Mem, pc: u32, acc: seq<Instr>, entry: u32, m: Machine)
    requires |acc| < MAX_OPS && DecodeFrom(isa.one, code, pc, acc).Some?
    ensures var s := DecodeFrom(isa.one, code, pc, acc).value;
            var n := Length(isa.one, code, pc, acc);
            && |acc| < |s|
            && Matches(ExecFrom(isa.sem, Block(s, entry), |acc|, m), StepsIn(isa, code, Point(m, pc), n), n,
                       EndsInTransfer(s), entry, Successor(isa.one, code, pc, acc))
    decreases MAX_OPS - |acc|
  {
    var s, d := DecodeFrom(isa.one, code, pc, acc).value, isa.one(code, pc).value;
    assert OneInstruction(d);
    DecodeExtends(isa.one, code, pc, acc);
    var acc', p, b := acc + d.ops, Point(m, pc), Block(s, entry);
    if d.terminator || |acc'| == MAX_OPS {
      LastRuns(isa, code, b, |acc|, d, p);
    } else {
      PartRuns(isa.sem, b, |acc|, d, pc, 0, m);
      var q := RunOne(isa.sem, d, p);
      BlockRuns(isa, code, q.pc, acc', entry, q.machine);
    }
  }

  /** The block's exit is where the program is after as many instructions, if and only if the block ends in
      a control transfer or its next address is its own entry. */
  lemma BlockFollowsProgram(isa: Isa, code: Mem, entry: u32, m: Machine)
    requires BlockAt(isa, code, entry).Some?
    ensures var b := BlockAt(isa, code, entry).value;
            var x := ExecFrom(isa.sem, b, 0, m);
            StepsIn(isa, code, Point(m, entry), x.retired) == Some(Point(x.machine, x.nextPc)) <==>
            EndsInTransfer(b.instrs) || Successor(isa.one, code, entry, []) == entry
  {
    BlockRuns(isa, code, entry, [], entry, m);
  }
}
