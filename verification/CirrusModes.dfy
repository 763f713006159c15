/**
 All modes of the Cirrus BitBLT engine (crates/machine-core/src/cirrus.rs `start_blit`, `feed_system_blit`,
 `execute_blit`, `linear_blit_source`): plain copies, 8x8 patterns, solid fills, monochrome sources expanded
 to colour from a pattern, from a bit stream in VRAM or from the host, and host-fed copies.

 A driver fills a run wider than one tile by blitting the tile and then triggering again with only the width
 reprogrammed. That continues the transfer in every mode.
 */
module CirrusModes {
  import opened Bits
  import opened Wrappers
  import opened Cirrus

  const MODE_EXT := 0x33
  const SYSTEM_BLIT_CAPACITY := 8192

  // ---- what the registers select ---------------------------------------------------------------

  datatype Mode = Mode(p: Params, pattern: bool, expand: bool, solid: bool, invert: bool,
                       fg: seq<u8>, bg: seq<u8>, src: nat, system: Option<Vram>, pitch: nat)
  {
    predicate Valid() { p.Valid() && |fg| == 4 && |bg| == 4 }
    /** Colour expansion from one continuous bit stream in VRAM. */
    predicate Streams() { expand && !pattern && system.None? }
    /** Bytes of one pattern row, and of the pixels one stream byte expands to. */
    function Tile(): nat { 8 * p.pixel }
  }

  function RoundUpTo(x: nat, k: nat): nat
    requires k > 0
  {
    MulMono(k, 0, (x + k - 1) / k);
    (x + k - 1) / k * k
  }

  predicate SystemSource(gr: Gr) { G(gr, MODE) / 4 % 2 == 1 }

  /** Bytes per row that the host supplies. */
  function SystemPitch(gr: Gr, width: nat): nat {
    var pixel := Decoded(gr).pixel;
    if G(gr, MODE) / 128 == 0 then RoundUpTo(width, 4)
    else RoundUpTo((width + pixel - 1) / pixel, if G(gr, MODE_EXT) % 2 == 1 then 32 else 8) / 8
  }

  function ModeOf(gr: Gr, system: Option<Vram>, width: nat): (m: Mode)
    ensures m.Valid()
  {
    var mode, ext := G(gr, MODE), G(gr, MODE_EXT);
    var pattern, expand := mode / 64 % 2 == 1, mode / 128 == 1;
    Mode(Decoded(gr), pattern, expand, pattern && expand && mode / 8 % 2 == 0 && ext / 4 % 2 == 1, ext / 2 % 2 == 1,
         [gr[0x01], gr[0x11], gr[0x13], gr[0x15]], [gr[0x00], gr[0x10], gr[0x12], gr[0x14]],
         Addr(gr, SRC_ADDR_LO), system, if system.Some? then SystemPitch(gr, width) else 0)
  }

  // ---- one byte ------------------------------------------------------------------------------------

  function ByteAt(v: Vram, at: int): bv8 { if 0 <= at < |v| then v[at] else 0 }

  predicate BitOf(b: bv8, n: nat)
    requires n < 8
  {
    (b >> n) & 1 != 0
  }

  /** The running position in a stream: the byte, and how many of its pixels' bytes are done. */
  datatype Tap = Tap(at: int, count: nat)

  predicate TapOk(m: Mode, t: Tap)
    requires m.Valid()
  {
    t.count < m.Tile()
  }

  function Column(m: Mode, x: nat): nat
    requires m.Valid()
  {
    x / m.p.pixel % 8
  }

  lemma TapColumn(m: Mode, t: Tap)
    requires m.Valid() && TapOk(m, t)
    ensures 0 <= t.count / m.p.pixel < 8
  {
    DivModLaw(t.count, m.p.pixel);
    if t.count / m.p.pixel >= 8 { MulMono(m.p.pixel, 8, t.count / m.p.pixel); }
  }

  /** The monochrome source bit of byte `x` of row `y`. */
  predicate ExpandBit(m: Mode, v: Vram, y: nat, x: nat, t: Tap)
    requires m.Valid() && m.expand && TapOk(m, t)
  {
    TapColumn(m, t);
    if m.pattern then BitOf(ByteAt(v, m.src + y % 8), 7 - Column(m, x))
    else if m.system.Some? then BitOf(ByteAt(m.system.value, y * m.pitch + x / m.p.pixel / 8), 7 - Column(m, x))
    else BitOf(ByteAt(v, t.at), 7 - t.count / m.p.pixel)
  }

  /** The source byte of a transfer without colour expansion. */
  function Linear(m: Mode, v: Vram, srcLine: int, y: nat, x: nat): bv8
    requires m.Valid()
  {
    if m.pattern then ByteAt(v, m.src / 4 * 4 + y % 8 * m.Tile() + x % m.Tile())
    else if m.system.Some? then ByteAt(m.system.value, y * m.pitch + x)
    else Source(v, m.p.back, srcLine, x)
  }

  function SourceByte(m: Mode, v: Vram, srcLine: int, y: nat, x: nat, t: Tap): bv8
    requires m.Valid() && TapOk(m, t)
  {
    var component := x % m.p.pixel;
    if m.solid then m.fg[component] as bv8
    else if m.expand then (if ExpandBit(m, v, y, x, t) then m.fg[component] as bv8 else m.bg[component] as bv8)
    else Linear(m, v, srcLine, y, x)
  }

  predicate LinearMatches(m: Mode, v: Vram, srcLine: int, y: nat, at: nat, c: nat)
    requires m.Valid() && c < 4
  {
    var mask := m.p.mask[c] as bv8;
    Linear(m.(pattern := false), v, srcLine, y, at + c) & !mask == (m.p.compare[c] as bv8) & !mask
  }

  /** Whether transparency skips byte `x`. */
  predicate Skips(m: Mode, v: Vram, srcLine: int, y: nat, x: nat, t: Tap)
    requires m.Valid() && TapOk(m, t)
  {
    m.p.transparent &&
    if m.expand then ExpandBit(m, v, y, x, t) == m.invert
    else !m.pattern && forall c :: 0 <= c < m.p.pixel ==> LinearMatches(m, v, srcLine, y, PixelBase(m.p, x), c)
  }

  function ModeByte(m: Mode, v: Vram, dstLine: int, srcLine: int, y: nat, x: nat, t: Tap): (r: Vram)
    requires m.Valid() && TapOk(m, t)
    ensures |r| == |v|
  {
    var dst := Onward(m.p.back, dstLine, x);
    if dst < 0 || dst >= |v| || Skips(m, v, srcLine, y, x, t) then v
    else v[dst := ApplyRop(m.p.rop, SourceByte(m, v, srcLine, y, x, t), v[dst])]
  }

  function NextTap(m: Mode, t: Tap): (r: Tap)
    requires m.Valid() && TapOk(m, t)
    ensures TapOk(m, r)
  {
    if !m.Streams() then t
    else if t.count + 1 == m.Tile() then Tap(Onward(m.p.back, t.at, 1), 0)
    else t.(count := t.count + 1)
  }

  /** A row that ends inside a stream byte rounds up to the next. */
  function RowTap(m: Mode, t: Tap): (r: Tap)
    requires m.Valid() && TapOk(m, t)
    ensures TapOk(m, r)
  {
    if m.Streams() && t.count != 0 then Tap(Onward(m.p.back, t.at, 1), 0) else t
  }

  // ---- rows ----------------------------------------------------------------------------------------------

  datatype Flow = Flow(v: Vram, t: Tap)

  function ModeRow(m: Mode, s: Flow, dstLine: int, srcLine: int, y: nat, x: nat, n: nat): (r: Flow)
    requires m.Valid() && TapOk(m, s.t)
    ensures |r.v| == |s.v| && TapOk(m, r.t)
    decreases n
  {
    if n == 0 then s
    else
      var next := Flow(ModeByte(m, s.v, dstLine, srcLine, y, x, s.t), NextTap(m, s.t));
      ModeRow(m, next, dstLine, srcLine, y, x + 1, n - 1)
  }

  function ModeRows(m: Mode, s: Flow, r: Rect, y: nat): (s': Flow)
    requires m.Valid() && TapOk(m, s.t) && y <= r.rows
    ensures |s'.v| == |s.v|
    decreases r.rows - y
  {
    if y == r.rows then s
    else
      var row := ModeRow(m, s, Line(m.p.back, r.dst, r.dstPitch, y), Line(m.p.back, r.src, r.srcPitch, y), y, 0,
                         r.width);
      ModeRows(m, row.(t := RowTap(m, row.t)), r, y + 1)
  }

  /** Where the source counter stops: patterns and host data do not move it. */
  function SourceEnd(m: Mode, r: Rect, t: Tap): int
    requires r.rows > 0
  {
    if m.pattern || m.system.Some? then r.src
    else if m.expand then t.at
    else Onward(m.p.back, r.src, Span(r.rows - 1, r.srcPitch, r.width))
  }

  function CountersIn(gr: Gr, m: Mode, r: Rect, t: Tap): Gr
    requires r.rows > 0
  {
    SetAddr(SetAddr(gr, DST_ADDR_LO, Onward(m.p.back, r.dst, Span(r.rows - 1, r.dstPitch, r.width))),
            SRC_ADDR_LO, SourceEnd(m, r, t))
  }

  /** One transfer in any mode; `system` holds the host's bytes, if it supplied them. */
  function BlitIn(e: Engine, system: Option<Vram>): Engine {
    var r := Rectangle(e.vram, e.gr);
    var m := ModeOf(e.gr, system, r.width);
    var s := ModeRows(m, Flow(e.vram, Tap(r.src, 0)), r, 0);
    Engine(s.v, CountersIn(e.gr, m, r, s.t))
  }

  // ---- the loops --------------------------------------------------------------------------------------------

  /** A host-fed transfer in flight. */
  datatype Pending = Pending(expected: nat, filled: nat, data: Vram)

  function Product(a: nat, b: nat): nat {
    MulMono(a, 0, b);
    a * b
  }

  /** How many bytes the host must supply, at least one. */
  function Expected(gr: Gr): nat {
    var n := Product(SystemPitch(gr, Width(gr)), LastRow(gr) + 1);
    if n == 0 then 1 else n
  }

  /** The bytes a host-fed transfer has been given, zeros beyond the capacity of the buffer. */
  predicate Buffered(p: Pending, fed: Vram) {
    && p.filled == |fed| < p.expected && |p.data| == 8192
    && forall i :: 0 <= i < 8192 ==> p.data[i] == if i < |fed| then fed[i] else 0
  }

  /** What the engine takes of the host's bytes. */
  function Taken(fed: Vram): Vram { if |fed| <= 8192 then fed else fed[..8192] }

  class Chip {
    var vram: Vram
    var gr: Gr
    var pending: Option<Pending>

    /** Start a transfer, or wait for the host's bytes. */
    method StartBlit()
      modifies this
      ensures G(old(gr), 0x30) / 4 % 2 == 1 ==>
                && vram == old(vram) && gr == old(gr)
                && pending.Some? && pending.value.expected == Expected(gr) && Buffered(pending.value, [])
      ensures G(old(gr), 0x30) / 4 % 2 == 0 ==>
                Engine(vram, gr) == BlitIn(old(Engine(vram, gr)), None) && pending == old(pending)
    {
      if SystemSource(gr) {
        pending := Some(Pending(Expected(gr), 0, seq(SYSTEM_BLIT_CAPACITY, _ => 0)));
      } else {
        ExecuteBlit(None);
      }
    }

    /** One byte from the host; the last one runs the transfer. */
    method FeedSystemBlit(byte: bv8, ghost fed: Vram)
      requires pending.Some? ==> Buffered(pending.value, fed)
      modifies this
      ensures old(pending).None? ==> vram == old(vram) && gr == old(gr) && pending.None?
      ensures old(pending).Some? && |fed| + 1 < old(pending).value.expected ==>
                && vram == old(vram) && gr == old(gr)
                && pending.Some? && pending.value.expected == old(pending).value.expected
                && Buffered(pending.value, fed + [byte])
      ensures old(pending).Some? && |fed| + 1 >= old(pending).value.expected ==>
                Engine(vram, gr) == BlitIn(old(Engine(vram, gr)), Some(Taken(fed + [byte]))) && pending.None?
    {
      if pending.None? {
        return;
      }
      var p := pending.value;
      if p.filled < SYSTEM_BLIT_CAPACITY {
        p := p.(data := p.data[p.filled := byte]);
      }
      p := p.(filled := p.filled + 1);
      pending := Some(p);
      if p.filled < p.expected {
        return;
      }
      var len := if p.expected < SYSTEM_BLIT_CAPACITY then p.expected else SYSTEM_BLIT_CAPACITY;
      pending := None;
      assert p.data[..len] == Taken(fed + [byte]);
      ExecuteBlit(Some(p.data[..len]));
    }

    method ExecuteBlit(system: Option<Vram>)
      modifies this`vram, this`gr
      ensures Engine(vram, gr) == BlitIn(old(Engine(vram, gr)), system)
    {
      var r := Rectangle(vram, gr);
      var m := ModeOf(gr, system, r.width);
      var t := Tap(r.src, 0);
      ghost var goal := ModeRows(m, Flow(vram, t), r, 0);
      for y := 0 to r.rows
        invariant gr == old(gr) && TapOk(m, t)
        invariant ModeRows(m, Flow(vram, t), r, y) == goal
      {
        var dstLine, srcLine := Line(m.p.back, r.dst, r.dstPitch, y), Line(m.p.back, r.src, r.srcPitch, y);
        t := ExecuteRow(m, dstLine, srcLine, y, r.width, t);
        t := RowTap(m, t);
      }
      gr := CountersIn(gr, m, r, t);
    }

    method ExecuteRow(m: Mode, dstLine: int, srcLine: int, y: nat, width: nat, t0: Tap) returns (t: Tap)
      requires m.Valid() && TapOk(m, t0)
      modifies this`vram
      ensures Flow(vram, t) == ModeRow(m, Flow(old(vram), t0), dstLine, srcLine, y, 0, width)
    {
      t := t0;
      ghost var goal := ModeRow(m, Flow(vram, t), dstLine, srcLine, y, 0, width);
      for x := 0 to width
        invariant TapOk(m, t) && ModeRow(m, Flow(vram, t), dstLine, srcLine, y, x, width - x) == goal
      {
        var dst := Onward(m.p.back, dstLine, x);
        if 0 <= dst < |vram| {
          var skipped := Skips(m, vram, srcLine, y, x, t);
          if !skipped {
            vram := vram[dst := ApplyRop(m.p.rop, SourceByte(m, vram, srcLine, y, x, t), vram[dst])];
          }
        }
        t := NextTap(m, t);
      }
    }
  }

  // ---- plain transfers ----------------------------------------------------------------------------------------

  predicate PlainMode(m: Mode) { !m.pattern && !m.expand && !m.solid && m.system.None? }

  lemma PlainByte(m: Mode, v: Vram, dstLine: int, srcLine: int, y: nat, x: nat, t: Tap)
    requires m.Valid() && PlainMode(m) && TapOk(m, t)
    ensures ModeByte(m, v, dstLine, srcLine, y, x, t) == CopyByte(v, m.p, dstLine, srcLine, x) && NextTap(m, t) == t
  {
    var base := PixelBase(m.p, x);
    forall c | 0 <= c < m.p.pixel
      ensures LinearMatches(m, v, srcLine, y, base, c) == ComponentMatches(v, m.p, srcLine, base, c)
    {
    }
  }

  lemma {:induction false} PlainRow(m: Mode, s: Flow, dstLine: int, srcLine: int, y: nat, x: nat, n: nat)
    requires m.Valid() && PlainMode(m) && TapOk(m, s.t)
    ensures ModeRow(m, s, dstLine, srcLine, y, x, n) == Flow(CopyRow(s.v, m.p, dstLine, srcLine, x, n), s.t)
    decreases n
  {
    if n > 0 {
      PlainByte(m, s.v, dstLine, srcLine, y, x, s.t);
      PlainRow(m, s.(v := CopyByte(s.v, m.p, dstLine, srcLine, x)), dstLine, srcLine, y, x + 1, n - 1);
    }
  }

  lemma {:induction false} PlainRows(m: Mode, s: Flow, r: Rect, y: nat)
    requires m.Valid() && PlainMode(m) && TapOk(m, s.t) && y <= r.rows
    ensures ModeRows(m, s, r, y) == Flow(CopyRows(s.v, m.p, r, y), s.t)
    decreases r.rows - y
  {
    if y < r.rows {
      var dstLine, srcLine := Line(m.p.back, r.dst, r.dstPitch, y), Line(m.p.back, r.src, r.srcPitch, y);
      PlainRow(m, s, dstLine, srcLine, y, 0, r.width);
      PlainRows(m, s.(v := CopyRow(s.v, m.p, dstLine, srcLine, 0, r.width)), r, y + 1);
    }
  }

  /** Without pattern, expansion or host data the engine is the plain one. */
  lemma PlainBlit(e: Engine)
    requires Plain(e.gr)
    ensures BlitIn(e, None) == Blit(e)
  {
    var r := Rectangle(e.vram, e.gr);
    PlainRows(ModeOf(e.gr, None, r.width), Flow(e.vram, Tap(r.src, 0)), r, 0);
  }
}
