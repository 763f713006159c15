/**
 The Cirrus BitBLT engine (crates/machine-core/src/cirrus.rs `execute_blit` and the register helpers
 around it) for plain VRAM-to-VRAM copies: any raster op, either direction, with or without source
 transparency. `CirrusModes` has the other modes and the loops.

 The address registers are counters: a completed transfer leaves them where it stopped, and a driver
 that reprograms only the width and triggers again continues the transfer.
 */
module Cirrus {
  import opened Bits

  type Vram = seq<bv8>

  // ---- the graphics-controller register file --------------------------------------------

  const GR_COUNT := 0x40
  type Gr = s: seq<u8> | |s| == GR_COUNT witness seq(GR_COUNT, _ => 0)

  const WIDTH_LO := 0x20
  const HEIGHT_LO := 0x22
  const DST_PITCH_LO := 0x24
  const SRC_PITCH_LO := 0x26
  const DST_ADDR_LO := 0x28
  const SRC_ADDR_LO := 0x2C
  const MODE := 0x30
  const ROP := 0x32
  const TRANSPARENT_COMPARE := 0x34
  const TRANSPARENT_MASK := 0x38
  const ADDR_RANGE := 0x20_0000

  function G(gr: Gr, i: nat): nat
    requires i < GR_COUNT
  {
    gr[i]
  }

  function Width(gr: Gr): nat { (G(gr, WIDTH_LO + 1) % 8) * 256 + G(gr, WIDTH_LO) + 1 }
  function LastRow(gr: Gr): nat { (G(gr, HEIGHT_LO + 1) % 4) * 256 + G(gr, HEIGHT_LO) }

  function Pitch(gr: Gr, low: nat): nat
    requires low + 1 < GR_COUNT
  {
    (G(gr, low + 1) % 32) * 256 + G(gr, low)
  }

  function Addr(gr: Gr, low: nat): nat
    requires low + 2 < GR_COUNT
  {
    G(gr, low) + G(gr, low + 1) * 256 + (G(gr, low + 2) % 32) * 0x1_0000
  }

  /** Store a 21-bit address, keeping the upper bits of its third register. */
  function SetAddr(gr: Gr, low: nat, addr: int): Gr
    requires low + 2 < GR_COUNT
  {
    var a := addr % ADDR_RANGE;
    gr[low := a % 256][low + 1 := a / 256 % 256][low + 2 := G(gr, low + 2) / 32 * 32 + a / 0x1_0000]
  }

  function SetWidth(gr: Gr, w: nat): Gr
    requires 1 <= w <= 2048
  {
    gr[WIDTH_LO := (w - 1) % 256][WIDTH_LO + 1 := G(gr, WIDTH_LO + 1) / 8 * 8 + (w - 1) / 256]
  }

  /** Neither system-source nor pattern nor colour expansion. */
  predicate Plain(gr: Gr) { G(gr, MODE) / 4 % 2 == 0 && G(gr, MODE) / 64 % 2 == 0 && G(gr, MODE) / 128 == 0 }

  /** What a plain transfer takes from the mode, raster-op and transparency registers. */
  datatype Params = Params(back: bool, transparent: bool, pixel: nat, rop: u8, compare: seq<u8>, mask: seq<u8>) {
    predicate Valid() { 1 <= pixel <= 4 && |compare| == 4 && |mask| == 4 }
  }

  function Decoded(gr: Gr): (p: Params)
    ensures p.Valid()
  {
    var m := G(gr, MODE);
    Params(m % 2 == 1, m / 8 % 2 == 1, m / 16 % 4 + 1, gr[ROP],
           gr[TRANSPARENT_COMPARE..TRANSPARENT_COMPARE + 4], gr[TRANSPARENT_MASK..TRANSPARENT_MASK + 4])
  }

  function ApplyRop(rop: u8, s: bv8, d: bv8): bv8 {
    match rop
    case 0x00 => 0
    case 0x05 => s & d
    case 0x06 => d
    case 0x09 => s & !d
    case 0x0B => !d
    case 0x0D => s
    case 0x0E => 0xFF
    case 0x50 => !s & d
    case 0x59 => s ^ d
    case 0x6D => s | d
    case 0x90 => !s & !d
    case 0x95 => !(s ^ d)
    case 0xAD => s | !d
    case 0xD0 => !s
    case 0xD6 => !s | d
    case 0xDA => !s | !d
    case _ => s
  }

  // ---- one byte of a transfer ---------------------------------------------------------------

  /** An address `x` bytes along a line in the direction of travel. */
  function Onward(back: bool, line: int, x: nat): int { if back then line - x else line + x }

  /** Byte `x` of a line; a wild address reads as 0. */
  function Source(v: Vram, back: bool, line: int, x: nat): bv8 {
    var at := Onward(back, line, x);
    if 0 <= at < |v| then v[at] else 0
  }

  predicate ComponentMatches(v: Vram, p: Params, line: int, base: nat, c: nat)
    requires p.Valid() && c < 4
  {
    var mask := p.mask[c] as bv8;
    Source(v, p.back, line, base + c) & !mask == (p.compare[c] as bv8) & !mask
  }

  /** Whether the source pixel starting at byte `base` matches the transparency colour. */
  predicate Matches(v: Vram, p: Params, line: int, base: nat)
    requires p.Valid()
  {
    forall c :: 0 <= c < p.pixel ==> ComponentMatches(v, p, line, base, c)
  }

  /** Transfer byte `x` of a row. */
  function CopyByte(v: Vram, p: Params, dstLine: int, srcLine: int, x: nat): (r: Vram)
    requires p.Valid()
    ensures |r| == |v|
  {
    var dst := Onward(p.back, dstLine, x);
    if dst < 0 || dst >= |v| then v
    else if p.transparent && Matches(v, p, srcLine, PixelBase(p, x)) then v
    else v[dst := ApplyRop(p.rop, Source(v, p.back, srcLine, x), v[dst])]
  }

  function PixelBase(p: Params, x: nat): nat
    requires p.Valid()
  {
    x - x % p.pixel
  }

  /** Transfer `n` bytes of a row, from byte `x` on. */
  function CopyRow(v: Vram, p: Params, dstLine: int, srcLine: int, x: nat, n: nat): (r: Vram)
    requires p.Valid()
    ensures |r| == |v|
    decreases n
  {
    if n == 0 then v
    else CopyRow(CopyByte(v, p, dstLine, srcLine, x), p, dstLine, srcLine, x + 1, n - 1)
  }

  /** The line `y` rows on, saturating at address 0 when going backwards. */
  function Line(back: bool, start: nat, pitch: nat, y: nat): int {
    if back then (if start >= y * pitch then start - y * pitch else 0) else start + y * pitch
  }

  function RowWidth(v: Vram, gr: Gr): nat {
    var most := if |v| == 0 then 1 else |v|;
    if Width(gr) < most then Width(gr) else most
  }

  /** The rectangle as the registers describe it at the trigger. */
  datatype Rect = Rect(dst: nat, src: nat, dstPitch: nat, srcPitch: nat, width: nat, rows: nat)

  function Rectangle(v: Vram, gr: Gr): Rect {
    Rect(Addr(gr, DST_ADDR_LO), Addr(gr, SRC_ADDR_LO), Pitch(gr, DST_PITCH_LO), Pitch(gr, SRC_PITCH_LO),
         RowWidth(v, gr), LastRow(gr) + 1)
  }

  function CopyRows(v: Vram, p: Params, r: Rect, y: nat): (v': Vram)
    requires p.Valid() && y <= r.rows
    ensures |v'| == |v|
    decreases r.rows - y
  {
    if y == r.rows then v
    else
      CopyRows(CopyRow(v, p, Line(p.back, r.dst, r.dstPitch, y), Line(p.back, r.src, r.srcPitch, y), 0, r.width),
               p, r, y + 1)
  }

  /** How far a counter moves over a whole rectangle. */
  function Span(lastRow: nat, pitch: nat, width: nat): nat {
    MulMono(pitch, 0, lastRow);
    lastRow * pitch + width
  }

  datatype Engine = Engine(vram: Vram, gr: Gr)

  function CountersAfter(gr: Gr, back: bool, r: Rect): Gr
    requires r.rows > 0
  {
    SetAddr(SetAddr(gr, DST_ADDR_LO, Onward(back, r.dst, Span(r.rows - 1, r.dstPitch, r.width))),
            SRC_ADDR_LO, Onward(back, r.src, Span(r.rows - 1, r.srcPitch, r.width)))
  }

  /** One trigger: the transfer, then both address counters moved past it. */
  function Blit(e: Engine): Engine {
    var p, r := Decoded(e.gr), Rectangle(e.vram, e.gr);
    Engine(CopyRows(e.vram, p, r, 0), CountersAfter(e.gr, p.back, r))
  }

  // ---- the registers read back --------------------------------------------------------------------

  lemma AddrReadsBack(gr: Gr, low: nat, addr: int)
    requires low + 2 < GR_COUNT
    ensures Addr(SetAddr(gr, low, addr), low) == addr % ADDR_RANGE
  {
    var a := addr % ADDR_RANGE;
    assert a == a % 256 + a / 256 % 256 * 256 + a / 0x1_0000 * 0x1_0000;
    var hi := G(gr, low + 2) / 32 * 32 + a / 0x1_0000;
    assert hi % 32 == a / 0x1_0000;
  }

  lemma WidthReadsBack(gr: Gr, w: nat)
    requires 1 <= w <= 2048
    ensures Width(SetWidth(gr, w)) == w
  {
  }

  /** Registers other than the width and the two addresses: what a re-trigger keeps. */
  predicate SameTransfer(g: Gr, h: Gr) {
    forall i :: 0 <= i < GR_COUNT && !IsReloaded(i) ==> g[i] == h[i]
  }

  predicate IsReloaded(i: nat) {
    || WIDTH_LO <= i < WIDTH_LO + 2
    || DST_ADDR_LO <= i < DST_ADDR_LO + 3
    || SRC_ADDR_LO <= i < SRC_ADDR_LO + 3
  }

  lemma SameParameters(g: Gr, h: Gr)
    requires SameTransfer(g, h)
    ensures Decoded(g) == Decoded(h) && LastRow(g) == LastRow(h)
  {
    assert g[TRANSPARENT_COMPARE..TRANSPARENT_COMPARE + 4] == h[TRANSPARENT_COMPARE..TRANSPARENT_COMPARE + 4];
    assert g[TRANSPARENT_MASK..TRANSPARENT_MASK + 4] == h[TRANSPARENT_MASK..TRANSPARENT_MASK + 4];
  }

  // ---- re-triggering ---------------------------------------------------------------------------------

  lemma {:induction false} RowSplits(v: Vram, p: Params, dst: int, src: int, x: nat, m: nat, n: nat)
    requires p.Valid()
    ensures CopyRow(v, p, dst, src, x, m + n) == CopyRow(CopyRow(v, p, dst, src, x, m), p, dst, src, x + m, n)
    decreases m
  {
    if m > 0 {
      RowSplits(CopyByte(v, p, dst, src, x), p, dst, src, x + 1, m - 1, n);
    }
  }

  lemma BaseShifts(p: Params, w: nat, x: nat)
    requires p.Valid() && w % p.pixel == 0
    ensures PixelBase(p, w + x) == w + PixelBase(p, x)
  {
    var b := p.pixel;
    DivModLaw(w, b);
    DivModLaw(x, b);
    assert b * (w / b + x / b) == b * (w / b) + b * (x / b);
    ModUnique(w + x, b, w / b + x / b, x % b);
  }

  lemma ComponentShifts(v: Vram, p: Params, src: int, src': int, far: nat, base: nat, c: nat)
    requires p.Valid() && c < 4 && Onward(p.back, src, far) == Onward(p.back, src', base)
    ensures ComponentMatches(v, p, src, far, c) == ComponentMatches(v, p, src', base, c)
  {
    assert Source(v, p.back, src, far + c) == Source(v, p.back, src', base + c);
  }

  lemma MatchShifts(v: Vram, p: Params, src: int, src': int, far: nat, base: nat)
    requires p.Valid() && Onward(p.back, src, far) == Onward(p.back, src', base)
    ensures Matches(v, p, src, far) == Matches(v, p, src', base)
  {
    forall c: nat | c < p.pixel
      ensures ComponentMatches(v, p, src, far, c) == ComponentMatches(v, p, src', base, c)
    {
      ComponentShifts(v, p, src, src', far, base, c);
    }
  }

  /** The bytes of a transfer from `w` on are the bytes of a transfer that starts `w` further on, as
      long as pixels still start on the same bytes. */
  lemma ByteShifts(v: Vram, p: Params, dst: int, src: int, w: nat, x: nat)
    requires p.Valid() && (p.transparent ==> w % p.pixel == 0)
    ensures CopyByte(v, p, dst, src, w + x) == CopyByte(v, p, Onward(p.back, dst, w), Onward(p.back, src, w), x)
  {
    if p.transparent {
      BaseShifts(p, w, x);
      MatchShifts(v, p, src, Onward(p.back, src, w), PixelBase(p, w + x), PixelBase(p, x));
    }
  }

  lemma {:induction false} RowShifts(v: Vram, p: Params, dst: int, src: int, w: nat, x: nat, n: nat)
    requires p.Valid() && (p.transparent ==> w % p.pixel == 0)
    ensures CopyRow(v, p, dst, src, w + x, n) ==
            CopyRow(v, p, Onward(p.back, dst, w), Onward(p.back, src, w), x, n)
    decreases n
  {
    if n > 0 {
      ByteShifts(v, p, dst, src, w, x);
      RowShifts(CopyByte(v, p, dst, src, w + x), p, dst, src, w, x + 1, n - 1);
    }
  }

  /** A one-row trigger in full. */
  lemma OneRowBlit(e: Engine)
    requires LastRow(e.gr) == 0
    ensures var p, r := Decoded(e.gr), Rectangle(e.vram, e.gr);
            && Blit(e).vram == CopyRow(e.vram, p, r.dst, r.src, 0, r.width)
            && Addr(Blit(e).gr, DST_ADDR_LO) == Onward(p.back, r.dst, r.width) % ADDR_RANGE
            && Addr(Blit(e).gr, SRC_ADDR_LO) == Onward(p.back, r.src, r.width) % ADDR_RANGE
            && SameTransfer(e.gr, Blit(e).gr)
  {
    var p, r := Decoded(e.gr), Rectangle(e.vram, e.gr);
    var row := CopyRow(e.vram, p, r.dst, r.src, 0, r.width);
    assert CopyRows(row, p, r, 1) == row;
    var dst, src := Onward(p.back, r.dst, r.width), Onward(p.back, r.src, r.width);
    assert Span(0, r.dstPitch, r.width) == r.width && Span(0, r.srcPitch, r.width) == r.width;
    CountersReadBack(e.gr, dst, src);
  }

  /** Without saturation the counters stop just past the last row of the rectangle. */
  lemma CountersPassLastRow(back: bool, start: nat, pitch: nat, rows: nat, width: nat)
    requires rows > 0 && (back ==> start >= (rows - 1) * pitch)
    ensures Onward(back, start, Span(rows - 1, pitch, width)) == Onward(back, Line(back, start, pitch, rows - 1), width)
  {
  }

  lemma CountersReadBack(gr: Gr, dst: int, src: int)
    ensures var g := SetAddr(SetAddr(gr, DST_ADDR_LO, dst), SRC_ADDR_LO, src);
            && Addr(g, DST_ADDR_LO) == dst % ADDR_RANGE && Addr(g, SRC_ADDR_LO) == src % ADDR_RANGE
            && SameTransfer(gr, g)
  {
    var g1 := SetAddr(gr, DST_ADDR_LO, dst);
    AddrReadsBack(gr, DST_ADDR_LO, dst);
    AddrReadsBack(g1, SRC_ADDR_LO, src);
    assert Addr(SetAddr(g1, SRC_ADDR_LO, src), DST_ADDR_LO) == Addr(g1, DST_ADDR_LO);
  }

  lemma SetWidthKeeps(gr: Gr, w: nat)
    requires 1 <= w <= 2048
    ensures SameTransfer(gr, SetWidth(gr, w))
    ensures Addr(SetWidth(gr, w), DST_ADDR_LO) == Addr(gr, DST_ADDR_LO)
    ensures Addr(SetWidth(gr, w), SRC_ADDR_LO) == Addr(gr, SRC_ADDR_LO)
    ensures Width(SetWidth(gr, w)) == w
  {
    WidthReadsBack(gr, w);
  }

  /** Program the width alone, then trigger. */
  function Trigger(e: Engine, w: nat): Engine
    requires 1 <= w <= 2048
  {
    Blit(e.(gr := SetWidth(e.gr, w)))
  }

  /** What a one-row transfer depends on and changes. */
  datatype View = View(vram: Vram, p: Params, dst: nat, src: nat)

  function ViewOf(e: Engine): View {
    View(e.vram, Decoded(e.gr), Addr(e.gr, DST_ADDR_LO), Addr(e.gr, SRC_ADDR_LO))
  }

  lemma CountersInRange(e: Engine)
    ensures ViewOf(e).dst < ADDR_RANGE && ViewOf(e).src < ADDR_RANGE
  {
  }

  function Wrapped(addr: int): nat { addr % ADDR_RANGE }

  /** `w` bytes of one row transferred, both counters left past them. */
  function Run(v: View, w: nat): View
    requires v.p.Valid()
  {
    View(CopyRow(v.vram, v.p, v.dst, v.src, 0, w), v.p,
         Wrapped(Onward(v.p.back, v.dst, w)), Wrapped(Onward(v.p.back, v.src, w)))
  }

  /** A one-row trigger of width `w` that fits the VRAM. */
  lemma OneRowTrigger(e: Engine, w: nat)
    requires LastRow(e.gr) == 0 && 1 <= w <= 2048 && w <= |e.vram|
    ensures ViewOf(Trigger(e, w)) == Run(ViewOf(e), w) && LastRow(Trigger(e, w).gr) == 0
  {
    var e' := e.(gr := SetWidth(e.gr, w));
    SetWidthKeeps(e.gr, w);
    SameParameters(e.gr, e'.gr);
    OneRowBlit(e');
    SameParameters(e'.gr, Blit(e').gr);
  }

  /** No 21-bit wrap of either counter over `w` bytes. */
  predicate CountersStay(v: View, w: nat) {
    && 0 <= Onward(v.p.back, v.dst, w) < ADDR_RANGE
    && 0 <= Onward(v.p.back, v.src, w) < ADDR_RANGE
  }

  lemma CounterJoins(back: bool, at: nat, w1: nat, w2: nat, w: nat)
    requires 0 <= Onward(back, at, w1) < ADDR_RANGE && w == w1 + w2
    ensures Wrapped(Onward(back, at, w1)) == Onward(back, at, w1)
    ensures Onward(back, Onward(back, at, w1), w2) == Onward(back, at, w)
  {
    SmallMod(Onward(back, at, w1), ADDR_RANGE);
  }

  lemma RowsJoin(v: Vram, p: Params, dst: int, src: int, w1: nat, w2: nat, w: nat)
    requires p.Valid() && (p.transparent ==> w1 % p.pixel == 0) && w == w1 + w2
    ensures CopyRow(CopyRow(v, p, dst, src, 0, w1), p, Onward(p.back, dst, w1), Onward(p.back, src, w1), 0, w2) ==
            CopyRow(v, p, dst, src, 0, w)
  {
    RowSplits(v, p, dst, src, 0, w1, w2);
    RowShifts(CopyRow(v, p, dst, src, 0, w1), p, dst, src, w1, 0, w2);
  }

  /** Two transfers on end are one, provided the counters did not wrap between them and pixels still
      start on the same bytes. */
  lemma RunsJoin(v: View, w1: nat, w2: nat, w: nat)
    requires v.p.Valid() && CountersStay(v, w1) && w == w1 + w2
    requires v.p.transparent ==> w1 % v.p.pixel == 0
    ensures Run(Run(v, w1), w2) == Run(v, w)
  {
    CounterJoins(v.p.back, v.dst, w1, w2, w);
    CounterJoins(v.p.back, v.src, w1, w2, w);
    RowsJoin(v.vram, v.p, v.dst, v.src, w1, w2, w);
  }

  /** Re-triggering continues a transfer: width `w1`, then only the width reprogrammed to `w2`, leaves
      the VRAM and both address counters of one trigger of width `w1 + w2`. */
  lemma RetriggerContinues(e: Engine, w1: nat, w2: nat, w: nat)
    requires LastRow(e.gr) == 0 && w1 >= 1 && w2 >= 1 && w1 + w2 == w <= 2048 && w <= |e.vram|
    requires CountersStay(ViewOf(e), w1)
    requires Decoded(e.gr).transparent ==> w1 % Decoded(e.gr).pixel == 0
    ensures ViewOf(Trigger(Trigger(e, w1), w2)) == ViewOf(Trigger(e, w))
  {
    OneRowTrigger(e, w1);
    NextPiece(e, Trigger(e, w1), w1, w2, w);
    OneRowTrigger(e, w);
  }

  /** One more piece after `w1` bytes already transferred. */
  lemma NextPiece(e: Engine, mid: Engine, w1: nat, w2: nat, w: nat)
    requires LastRow(mid.gr) == 0 && ViewOf(mid) == Run(ViewOf(e), w1)
    requires 1 <= w2 <= 2048 && w2 <= |e.vram| && w == w1 + w2
    requires CountersStay(ViewOf(e), w1)
    requires Decoded(e.gr).transparent ==> w1 % Decoded(e.gr).pixel == 0
    ensures ViewOf(Trigger(mid, w2)) == Run(ViewOf(e), w) && LastRow(Trigger(mid, w2).gr) == 0
  {
    OneRowTrigger(mid, w2);
    RunsJoin(ViewOf(e), w1, w2, w);
  }

  // ---- any number of pieces -----------------------------------------------------------------------------

  function Sum(ws: seq<nat>): nat { if ws == [] then 0 else Sum(ws[..|ws| - 1]) + ws[|ws| - 1] }

  predicate Pieces(ws: seq<nat>) { forall i :: 0 <= i < |ws| ==> ws[i] >= 1 }

  function Triggers(e: Engine, ws: seq<nat>): Engine
    requires Pieces(ws) && Sum(ws) <= 2048
  {
    if ws == [] then e
    else Trigger(Triggers(e, ws[..|ws| - 1]), ws[|ws| - 1])
  }

  /** Pieces after which a transfer may be continued. */
  predicate Joinable(v: View, ws: seq<nat>)
    requires v.p.Valid()
  {
    CountersStay(v, Sum(ws)) && (v.p.transparent ==> forall i :: 0 <= i < |ws| ==> ws[i] % v.p.pixel == 0)
  }

  lemma JoinableBefore(v: View, ws: seq<nat>)
    requires v.p.Valid() && v.dst < ADDR_RANGE && v.src < ADDR_RANGE && ws != [] && Joinable(v, ws)
    ensures Joinable(v, ws[..|ws| - 1])
    ensures v.p.transparent ==> Sum(ws) % v.p.pixel == 0
  {
    WholePixels(ws, v.p.pixel, v.p.transparent);
  }

  /** The same for any number of pieces, which is how a driver fills a run wider than one tile. */
  lemma {:induction false} RetriggersContinue(e: Engine, ws: seq<nat>)
    requires LastRow(e.gr) == 0 && Pieces(ws) && Sum(ws) <= 2048 && Sum(ws) <= |e.vram|
    requires ws != [] ==> Joinable(ViewOf(e), ws[..|ws| - 1])
    ensures LastRow(Triggers(e, ws).gr) == 0
    ensures ws != [] ==> ViewOf(Triggers(e, ws)) == Run(ViewOf(e), Sum(ws))
    decreases |ws|
  {
    if ws != [] {
      var front, last := ws[..|ws| - 1], ws[|ws| - 1];
      LastPiece(e, ws, front, last);
      if front == [] {
        OneRowTrigger(e, last);
      } else {
        CountersInRange(e);
        JoinableBefore(ViewOf(e), front);
        RetriggersContinue(e, front);
        NextPiece(e, Triggers(e, front), Sum(front), last, Sum(ws));
      }
    }
  }

  lemma {:induction false} LastPiece(e: Engine, ws: seq<nat>, front: seq<nat>, last: nat)
    requires Pieces(ws) && Sum(ws) <= 2048 && ws != [] && front == ws[..|ws| - 1] && last == ws[|ws| - 1]
    ensures Sum(ws) == Sum(front) + last && Triggers(e, ws) == Trigger(Triggers(e, front), last)
    ensures front == [] ==> Triggers(e, ws) == Trigger(e, last) && Sum(ws) == last
  {
  }

  lemma {:induction false} WholePixels(ws: seq<nat>, pixel: nat, needed: bool)
    requires pixel > 0 && (needed ==> forall i :: 0 <= i < |ws| ==> ws[i] % pixel == 0)
    ensures needed ==> Sum(ws) % pixel == 0
  {
    if needed && ws != [] {
      var front, last := ws[..|ws| - 1], ws[|ws| - 1];
      WholePixels(front, pixel, needed);
      var a, b := Sum(front), last;
      DivModLaw(a, pixel);
      DivModLaw(b, pixel);
      assert pixel * (a / pixel + b / pixel) == pixel * (a / pixel) + pixel * (b / pixel);
      ModUnique(a + b, pixel, a / pixel + b / pixel, 0);
    }
  }

  /** The condition on the counters matters: on a 2 MB VRAM a forward copy from the last byte stops at
      the end of memory in one trigger, but wraps to address 0 between two. */
  lemma WrappingRetriggerDiffers(e: Engine)
    requires LastRow(e.gr) == 0 && |e.vram| == ADDR_RANGE
    requires var p := Decoded(e.gr); !p.back && !p.transparent && p.rop == 0x0E
    requires Addr(e.gr, DST_ADDR_LO) == ADDR_RANGE - 1 && e.vram[0] == 0
    ensures Trigger(e, 2).vram[0] == 0
    ensures Trigger(Trigger(e, 1), 1).vram[0] == 0xFF
  {
    OneRowTrigger(e, 2);
    OneRowTrigger(e, 1);
    OneRowTrigger(Trigger(e, 1), 1);
    WrappedBytes(ViewOf(e));
  }

  lemma WrappedBytes(v: View)
    requires |v.vram| == ADDR_RANGE && v.p.Valid() && !v.p.back && !v.p.transparent && v.p.rop == 0x0E
    requires v.dst == ADDR_RANGE - 1 && v.vram[0] == 0
    ensures |Run(v, 2).vram| == |Run(Run(v, 1), 1).vram| == ADDR_RANGE
    ensures Run(v, 2).vram[0] == 0 && Run(Run(v, 1), 1).vram[0] == 0xFF
  {
    var v1 := CopyByte(v.vram, v.p, v.dst, v.src, 0);
    assert CopyRow(v.vram, v.p, v.dst, v.src, 0, 1) == v1;
    assert CopyRow(v.vram, v.p, v.dst, v.src, 0, 2) == CopyRow(v1, v.p, v.dst, v.src, 1, 1);
    assert CopyRow(v1, v.p, v.dst, v.src, 1, 1) == CopyByte(v1, v.p, v.dst, v.src, 1) == v1;
    var mid := Run(v, 1);
    assert mid.dst == 0;
    assert Run(mid, 1).vram == CopyByte(v1, v.p, 0, mid.src, 0);
  }
}
