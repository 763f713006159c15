/**
 What a Cirrus transfer writes (crates/machine-core/src/cirrus.rs `execute_blit`, `linear_blit_source`, `apply_rop`),
 in every mode: the byte at each address of the destination rectangle, from the registers and the memory before the
 transfer, and no other byte.
 */
module CirrusPixels {
  import opened Bits
  import opened Wrappers
  import opened Cirrus
  import opened CirrusModes

  // ---- the transfer, from its registers ---------------------------------------------------------------------

  function Reg(gr: Gr, i: nat): nat
    requires i < GR_COUNT
  {
    gr[i]
  }

  function Wide(gr: Gr): nat { Reg(gr, 0x20) + 0x100 * (Reg(gr, 0x21) % 8) + 1 }
  function Tall(gr: Gr): nat { Reg(gr, 0x22) + 0x100 * (Reg(gr, 0x23) % 4) + 1 }
  function DstPitch(gr: Gr): nat { Reg(gr, 0x24) + 0x100 * (Reg(gr, 0x25) % 0x20) }
  function SrcPitch(gr: Gr): nat { Reg(gr, 0x26) + 0x100 * (Reg(gr, 0x27) % 0x20) }
  function DstStart(gr: Gr): nat { Reg(gr, 0x28) + 0x100 * Reg(gr, 0x29) + 0x1_0000 * (Reg(gr, 0x2A) % 0x20) }
  function SrcStart(gr: Gr): nat { Reg(gr, 0x2C) + 0x100 * Reg(gr, 0x2D) + 0x1_0000 * (Reg(gr, 0x2E) % 0x20) }

  predicate Backward(gr: Gr) { Reg(gr, 0x30) % 2 == 1 }
  predicate Transparent(gr: Gr) { Reg(gr, 0x30) / 8 % 2 == 1 }
  predicate Tiled(gr: Gr) { Reg(gr, 0x30) / 0x40 % 2 == 1 }
  predicate Expanded(gr: Gr) { Reg(gr, 0x30) >= 0x80 }
  predicate Inverted(gr: Gr) { Reg(gr, 0x33) / 2 % 2 == 1 }
  predicate Solid(gr: Gr) { Tiled(gr) && Expanded(gr) && !Transparent(gr) && Reg(gr, 0x33) / 4 % 2 == 1 }

  /** Bytes of a pixel, and of eight pixels. */
  function Pixel(gr: Gr): (n: nat)
    ensures 1 <= n <= 4
  {
    Reg(gr, 0x30) / 0x10 % 4 + 1
  }
  function Eight(gr: Gr): (n: nat)
    ensures n >= 8
  {
    8 * Pixel(gr)
  }

  /** Component `c` of the foreground and of the background colour. */
  function Ink(gr: Gr, c: nat): u8 {
    gr[if c == 0 then 0x01 else if c == 1 then 0x11 else if c == 2 then 0x13 else 0x15]
  }
  function Paper(gr: Gr, c: nat): u8 {
    gr[if c == 0 then 0x00 else if c == 1 then 0x10 else if c == 2 then 0x12 else 0x14]
  }

  /** Rounded up to whole pieces. */
  function WholePieces(n: nat, piece: nat): nat
    requires piece > 0
  {
    DivModLaw(n + piece - 1, piece);
    (n + piece - 1) / piece
  }

  /** Bytes the host supplies for a row of `w` bytes: whole longs, or one bit a pixel in whole bytes or longs. */
  function HostPitch(gr: Gr, w: nat): nat {
    if !Expanded(gr) then 4 * WholePieces(w, 4)
    else if Reg(gr, 0x33) % 2 == 1 then 4 * WholePieces(WholePieces(w, Pixel(gr)), 32)
    else WholePieces(WholePieces(w, Pixel(gr)), 8)
  }

  /** Row `y` starts `y` pitches on, or back; going back it stops at address 0. */
  function RowAt(gr: Gr, start: nat, pitch: nat, y: nat): int {
    if !Backward(gr) then start + y * pitch else if y * pitch <= start then start - y * pitch else 0
  }

  function Along(gr: Gr, from: int, n: nat): int { if Backward(gr) then from - n else from + n }

  /** Where byte `x` of row `y` is stored, and where a copy fetches it. */
  function StoredAt(gr: Gr, y: nat, x: nat): int { Along(gr, RowAt(gr, DstStart(gr), DstPitch(gr), y), x) }
  function FetchedAt(gr: Gr, y: nat, x: nat): int { Along(gr, RowAt(gr, SrcStart(gr), SrcPitch(gr), y), x) }

  /** Where a pattern holds it, and where a bit stream holds its bit: every row of a stream starts a new byte. */
  function TileAt(gr: Gr, y: nat, x: nat): nat {
    SrcStart(gr) - SrcStart(gr) % 4 + y % 8 * Eight(gr) + x % Eight(gr)
  }
  function StreamAt(gr: Gr, w: nat, y: nat, x: nat): int {
    Along(gr, SrcStart(gr), Offset(y, WholePieces(w, Eight(gr))) + x / Eight(gr))
  }

  function Offset(y: nat, step: nat): nat {
    MulMono(step, 0, y);
    y * step
  }

  // ---- what a byte becomes -------------------------------------------------------------------------------------

  function Held(v: Vram, at: int): bv8 { if 0 <= at < |v| then v[at] else 0 }

  /** Bit `n` of a byte, most significant first. */
  predicate Msb(b: bv8, n: nat)
    requires n < 8
  {
    b & (0x80 >> n) != 0
  }

  /** The monochrome bit of a byte: pixel 0 is the most significant bit of its source byte. */
  predicate SourceBit(gr: Gr, host: Option<Vram>, v: Vram, w: nat, y: nat, x: nat) {
    var pixel := x / Pixel(gr);
    if Tiled(gr) then Msb(Held(v, SrcStart(gr) + y % 8), pixel % 8)
    else if host.Some? then Msb(Held(host.value, Offset(y, HostPitch(gr, w)) + pixel / 8), pixel % 8)
    else Msb(Held(v, StreamAt(gr, w, y, x)), pixel % 8)
  }

  /** The byte of a source that is neither a pattern nor expanded. */
  function Copied(gr: Gr, host: Option<Vram>, v: Vram, w: nat, y: nat, x: nat): bv8 {
    if host.Some? then Held(host.value, Offset(y, HostPitch(gr, w)) + x) else Held(v, FetchedAt(gr, y, x))
  }

  function SourceValue(gr: Gr, host: Option<Vram>, v: Vram, w: nat, y: nat, x: nat): bv8 {
    var c := x % Pixel(gr);
    if Solid(gr) then Ink(gr, c) as bv8
    else if Expanded(gr) then (if SourceBit(gr, host, v, w, y, x) then Ink(gr, c) else Paper(gr, c)) as bv8
    else if Tiled(gr) then Held(v, TileAt(gr, y, x))
    else Copied(gr, host, v, w, y, x)
  }

  /** The compare colour and the source agree wherever the transparency mask has a 0. */
  predicate SameColour(gr: Gr, c: nat, b: bv8)
    requires c < 4
  {
    var mask := gr[0x38 + c] as bv8;
    b & !mask == (gr[0x34 + c] as bv8) & !mask
  }

  predicate ComponentShows(gr: Gr, host: Option<Vram>, v: Vram, w: nat, y: nat, first: nat, c: nat)
    requires c < 4
  {
    SameColour(gr, c, Copied(gr, host, v, w, y, first + c))
  }

  predicate PixelShows(gr: Gr, host: Option<Vram>, v: Vram, w: nat, y: nat, first: nat) {
    forall c: nat :: c < Pixel(gr) ==> ComponentShows(gr, host, v, w, y, first, c)
  }

  /** The pixel is transparent: its bit selects the background (the foreground if inverted), or every byte of a copied
      pixel has the compare colour. Patterns are never transparent. */
  predicate ShowsThrough(gr: Gr, host: Option<Vram>, v: Vram, w: nat, y: nat, x: nat) {
    && Transparent(gr)
    && if Expanded(gr) then SourceBit(gr, host, v, w, y, x) == Inverted(gr)
       else && !Tiled(gr)
            && PixelShows(gr, host, v, w, y, x - x % Pixel(gr))
  }

  /** The raster ops as truth tables: the result for source and destination bits 00, 01, 10 and 11. */
  datatype Table = Table(at00: nat, at01: nat, at10: nat, at11: nat)

  function RopTable(op: u8): Table {
    match op
    case 0x00 => Table(0, 0, 0, 0)
    case 0x05 => Table(0, 0, 0, 1)
    case 0x06 => Table(0, 1, 0, 1)
    case 0x09 => Table(0, 0, 1, 0)
    case 0x0B => Table(1, 0, 1, 0)
    case 0x0D => Table(0, 0, 1, 1)
    case 0x0E => Table(1, 1, 1, 1)
    case 0x50 => Table(0, 1, 0, 0)
    case 0x59 => Table(0, 1, 1, 0)
    case 0x6D => Table(0, 1, 1, 1)
    case 0x90 => Table(1, 0, 0, 0)
    case 0x95 => Table(1, 0, 0, 1)
    case 0xAD => Table(1, 0, 1, 1)
    case 0xD0 => Table(1, 1, 0, 0)
    case 0xD6 => Table(1, 1, 0, 1)
    case 0xDA => Table(1, 1, 1, 0)
    case _ => Table(0, 0, 1, 1)
  }

  predicate RopBit(op: u8, s: bool, d: bool) {
    var t := RopTable(op);
    1 == if s then (if d then t.at11 else t.at10) else if d then t.at01 else t.at00
  }

  /** `r` is the raster op of `s` and `d`, bit by bit. */
  predicate Combines(op: u8, s: bv8, d: bv8, r: bv8) {
    forall i: nat :: i < 8 ==> Msb(r, i) == RopBit(op, Msb(s, i), Msb(d, i))
  }

  lemma RopIsTable(op: u8, s: bv8, d: bv8)
    ensures Combines(op, s, d, ApplyRop(op, s, d))
  {
    forall i: nat | i < 8
      ensures Msb(ApplyRop(op, s, d), i) == RopBit(op, Msb(s, i), Msb(d, i))
    {
      RopAt(op, s, d, i);
    }
  }

  lemma RopAt(op: u8, s: bv8, d: bv8, i: nat)
    requires i < 8
    ensures Msb(ApplyRop(op, s, d), i) == RopBit(op, Msb(s, i), Msb(d, i))
  {
    ShiftedOne(i);
    RopBitIsTable(op, s, d, 0x80 >> i);
  }

  lemma ShiftedOne(i: nat)
    requires i < 8
    ensures (0x80 as bv8) >> i == [0x80, 0x40, 0x20, 0x10, 8, 4, 2, 1][i]
  {
  }

  predicate Has(b: bv8, bit: bv8) { b & bit != 0 }
  predicate Single(bit: bv8) { bit in {0x80, 0x40, 0x20, 0x10, 8, 4, 2, 1} }

  lemma NotHas(b: bv8, bit: bv8)
    requires Single(bit)
    ensures Has(!b, bit) == !Has(b, bit)
  {
  }

  lemma AndHas(s: bv8, d: bv8, bit: bv8)
    requires Single(bit)
    ensures Has(s & d, bit) == (Has(s, bit) && Has(d, bit))
  {
  }

  lemma OrHas(s: bv8, d: bv8, bit: bv8)
    requires Single(bit)
    ensures Has(s | d, bit) == (Has(s, bit) || Has(d, bit))
  {
  }

  lemma XorHas(s: bv8, d: bv8, bit: bv8)
    requires Single(bit)
    ensures Has(s ^ d, bit) == (Has(s, bit) != Has(d, bit))
  {
  }

  lemma ConstHas(bit: bv8)
    requires Single(bit)
    ensures !Has(0, bit) && Has(0xFF, bit)
  {
  }

  lemma NoOperand(op: u8, s: bv8, d: bv8, bit: bv8)
    requires Single(bit) && op !in {0x05, 0x09, 0x50, 0x90, 0x6D, 0xAD, 0xD6, 0xDA, 0x59, 0x95}
    ensures Has(ApplyRop(op, s, d), bit) == RopBit(op, Has(s, bit), Has(d, bit))
  {
    ConstHas(bit);
    NotHas(s, bit);
    NotHas(d, bit);
  }

  function Flip(b: bv8, flip: bool): bv8 { if flip then !b else b }

  lemma FlipHas(b: bv8, flip: bool, bit: bv8)
    requires Single(bit)
    ensures Has(Flip(b, flip), bit) == (Has(b, bit) != flip)
  {
    NotHas(b, bit);
  }

  lemma AndOf(s: bv8, d: bv8, flipS: bool, flipD: bool, bit: bv8)
    requires Single(bit)
    ensures Has(Flip(s, flipS) & Flip(d, flipD), bit) == ((Has(s, bit) != flipS) && (Has(d, bit) != flipD))
  {
    FlipHas(s, flipS, bit);
    FlipHas(d, flipD, bit);
    AndHas(Flip(s, flipS), Flip(d, flipD), bit);
  }

  lemma OrOf(s: bv8, d: bv8, flipS: bool, flipD: bool, bit: bv8)
    requires Single(bit)
    ensures Has(Flip(s, flipS) | Flip(d, flipD), bit) == ((Has(s, bit) != flipS) || (Has(d, bit) != flipD))
  {
    FlipHas(s, flipS, bit);
    FlipHas(d, flipD, bit);
    OrHas(Flip(s, flipS), Flip(d, flipD), bit);
  }

  lemma AndRop(s: bv8, d: bv8, bit: bv8)
    requires Single(bit)
    ensures Has(ApplyRop(0x05, s, d), bit) == RopBit(0x05, Has(s, bit), Has(d, bit))
  {
    AndOf(s, d, false, false, bit);
  }

  lemma AndNotRop(s: bv8, d: bv8, bit: bv8)
    requires Single(bit)
    ensures Has(ApplyRop(0x09, s, d), bit) == RopBit(0x09, Has(s, bit), Has(d, bit))
  {
    AndOf(s, d, false, true, bit);
  }

  lemma NotAndRop(s: bv8, d: bv8, bit: bv8)
    requires Single(bit)
    ensures Has(ApplyRop(0x50, s, d), bit) == RopBit(0x50, Has(s, bit), Has(d, bit))
  {
    AndOf(s, d, true, false, bit);
  }

  lemma NorRop(s: bv8, d: bv8, bit: bv8)
    requires Single(bit)
    ensures Has(ApplyRop(0x90, s, d), bit) == RopBit(0x90, Has(s, bit), Has(d, bit))
  {
    AndOf(s, d, true, true, bit);
  }

  lemma OrRop(s: bv8, d: bv8, bit: bv8)
    requires Single(bit)
    ensures Has(ApplyRop(0x6D, s, d), bit) == RopBit(0x6D, Has(s, bit), Has(d, bit))
  {
    OrOf(s, d, false, false, bit);
  }

  lemma OrNotRop(s: bv8, d: bv8, bit: bv8)
    requires Single(bit)
    ensures Has(ApplyRop(0xAD, s, d), bit) == RopBit(0xAD, Has(s, bit), Has(d, bit))
  {
    OrOf(s, d, false, true, bit);
  }

  lemma NotOrRop(s: bv8, d: bv8, bit: bv8)
    requires Single(bit)
    ensures Has(ApplyRop(0xD6, s, d), bit) == RopBit(0xD6, Has(s, bit), Has(d, bit))
  {
    OrOf(s, d, true, false, bit);
  }

  lemma NandRop(s: bv8, d: bv8, bit: bv8)
    requires Single(bit)
    ensures Has(ApplyRop(0xDA, s, d), bit) == RopBit(0xDA, Has(s, bit), Has(d, bit))
  {
    OrOf(s, d, true, true, bit);
  }

  lemma XorRops(op: u8, s: bv8, d: bv8, bit: bv8)
    requires Single(bit) && op in {0x59, 0x95}
    ensures Has(ApplyRop(op, s, d), bit) == RopBit(op, Has(s, bit), Has(d, bit))
  {
    XorHas(s, d, bit);
    NotHas(s ^ d, bit);
  }

  lemma RopBitIsTable(op: u8, s: bv8, d: bv8, bit: bv8)
    requires Single(bit)
    ensures Has(ApplyRop(op, s, d), bit) == RopBit(op, Has(s, bit), Has(d, bit))
  {
    if op == 0x05 {
      AndRop(s, d, bit);
    } else if op == 0x09 {
      AndNotRop(s, d, bit);
    } else if op == 0x50 {
      NotAndRop(s, d, bit);
    } else if op == 0x90 {
      NorRop(s, d, bit);
    } else if op == 0x6D {
      OrRop(s, d, bit);
    } else if op == 0xAD {
      OrNotRop(s, d, bit);
    } else if op == 0xD6 {
      NotOrRop(s, d, bit);
    } else if op == 0xDA {
      NandRop(s, d, bit);
    } else if op in {0x59, 0x95} {
      XorRops(op, s, d, bit);
    } else {
      NoOperand(op, s, d, bit);
    }
  }

  // ---- the engine's byte -------------------------------------------------------------------------------------------

  /** The mode the engine decodes is the one the registers describe. */
  predicate Described(gr: Gr, host: Option<Vram>, w: nat, m: Mode) {
    && m.Valid() && m.p.back == Backward(gr) && m.p.transparent == Transparent(gr) && m.p.pixel == Pixel(gr)
    && m.p.rop == Reg(gr, 0x32) && m.pattern == Tiled(gr) && m.expand == Expanded(gr) && m.solid == Solid(gr)
    && m.invert == Inverted(gr) && m.src == SrcStart(gr) && m.system == host
    && (host.Some? ==> m.pitch == HostPitch(gr, w))
    && forall c: nat :: c < 4 ==> ColoursAre(gr, m, c)
  }

  predicate ColoursAre(gr: Gr, m: Mode, c: nat)
    requires m.Valid() && c < 4
  {
    m.fg[c] == Ink(gr, c) && m.bg[c] == Paper(gr, c) && m.p.compare[c] == gr[0x34 + c] && m.p.mask[c] == gr[0x38 + c]
  }

  lemma HostPitchIs(gr: Gr, w: nat)
    ensures SystemPitch(gr, w) == HostPitch(gr, w)
  {
  }

  lemma ModeDescribed(gr: Gr, host: Option<Vram>, w: nat)
    ensures Described(gr, host, w, ModeOf(gr, host, w))
  {
    HostPitchIs(gr, w);
  }

  lemma BitIsMsb(b: bv8, n: nat)
    requires n < 8
    ensures BitOf(b, 7 - n) == Msb(b, n)
  {
    ShiftedOne(n);
  }

  predicate Streamed(gr: Gr, host: Option<Vram>) { Expanded(gr) && !Tiled(gr) && host.None? }

  /** Where the engine's running stream position is at byte `x` of row `y`. */
  function TapFor(gr: Gr, host: Option<Vram>, w: nat, y: nat, x: nat): Tap {
    if Streamed(gr, host) then Tap(StreamAt(gr, w, y, x), x % Eight(gr)) else Tap(SrcStart(gr), 0)
  }

  lemma ColumnInTile(pixel: nat, x: nat)
    requires pixel > 0
    ensures x % (8 * pixel) / pixel == x / pixel % 8
  {
    var q := x / pixel;
    DivModLaw(x, pixel);
    DivModLaw(q, 8);
    assert x == (8 * pixel) * (q / 8) + (pixel * (q % 8) + x % pixel);
    MulMono(pixel, q % 8, 7);
    ModUnique(x, 8 * pixel, q / 8, pixel * (q % 8) + x % pixel);
    ModUnique(pixel * (q % 8) + x % pixel, pixel, q % 8, x % pixel);
  }

  lemma BitIs(gr: Gr, host: Option<Vram>, m: Mode, v: Vram, w: nat, y: nat, x: nat, t: Tap)
    requires Described(gr, host, w, m) && m.expand && TapOk(m, t) && t == TapFor(gr, host, w, y, x)
    ensures ExpandBit(m, v, y, x, t) == SourceBit(gr, host, v, w, y, x)
  {
    ColumnInTile(Pixel(gr), x);
    TapColumn(m, t);
    var n := x / Pixel(gr) % 8;
    if m.pattern {
      BitIsMsb(Held(v, SrcStart(gr) + y % 8), n);
    } else if host.Some? {
      BitIsMsb(Held(host.value, Offset(y, HostPitch(gr, w)) + x / Pixel(gr) / 8), n);
    } else {
      BitIsMsb(Held(v, StreamAt(gr, w, y, x)), n);
    }
  }

  lemma CopiedIs(gr: Gr, host: Option<Vram>, m: Mode, v: Vram, w: nat, y: nat, x: nat, line: int)
    requires Described(gr, host, w, m) && line == RowAt(gr, SrcStart(gr), SrcPitch(gr), y)
    ensures Linear(m.(pattern := false), v, line, y, x) == Copied(gr, host, v, w, y, x)
  {
  }

  lemma TileIs(gr: Gr, host: Option<Vram>, m: Mode, v: Vram, w: nat, y: nat, x: nat, line: int)
    requires Described(gr, host, w, m) && m.pattern
    ensures Linear(m, v, line, y, x) == Held(v, TileAt(gr, y, x))
  {
  }

  lemma SourceIs(gr: Gr, host: Option<Vram>, m: Mode, v: Vram, w: nat, y: nat, x: nat, line: int, t: Tap)
    requires Described(gr, host, w, m) && line == RowAt(gr, SrcStart(gr), SrcPitch(gr), y)
    requires TapOk(m, t) && t == TapFor(gr, host, w, y, x)
    ensures SourceByte(m, v, line, y, x, t) == SourceValue(gr, host, v, w, y, x)
  {
    assert ColoursAre(gr, m, x % Pixel(gr));
    if m.expand { BitIs(gr, host, m, v, w, y, x, t); }
    else if m.pattern { TileIs(gr, host, m, v, w, y, x, line); }
    else { CopiedIs(gr, host, m, v, w, y, x, line); }
  }

  lemma ComponentIs(gr: Gr, host: Option<Vram>, m: Mode, v: Vram, w: nat, y: nat, first: nat, line: int, c: nat)
    requires Described(gr, host, w, m) && line == RowAt(gr, SrcStart(gr), SrcPitch(gr), y) && c < 4
    ensures LinearMatches(m, v, line, y, first, c) == ComponentShows(gr, host, v, w, y, first, c)
  {
    CopiedIs(gr, host, m, v, w, y, first + c, line);
    assert ColoursAre(gr, m, c);
  }

  lemma PixelIs(gr: Gr, host: Option<Vram>, m: Mode, v: Vram, w: nat, y: nat, first: nat, line: int)
    requires Described(gr, host, w, m) && line == RowAt(gr, SrcStart(gr), SrcPitch(gr), y)
    ensures (forall c :: 0 <= c < m.p.pixel ==> LinearMatches(m, v, line, y, first, c))
            == PixelShows(gr, host, v, w, y, first)
  {
    forall c: nat | c < Pixel(gr)
      ensures LinearMatches(m, v, line, y, first, c) == ComponentShows(gr, host, v, w, y, first, c)
    {
      ComponentIs(gr, host, m, v, w, y, first, line, c);
    }
  }

  lemma SkipIs(gr: Gr, host: Option<Vram>, m: Mode, v: Vram, w: nat, y: nat, x: nat, line: int, t: Tap)
    requires Described(gr, host, w, m) && line == RowAt(gr, SrcStart(gr), SrcPitch(gr), y)
    requires TapOk(m, t) && t == TapFor(gr, host, w, y, x)
    ensures Skips(m, v, line, y, x, t) == ShowsThrough(gr, host, v, w, y, x)
  {
    if m.expand { BitIs(gr, host, m, v, w, y, x, t); }
    else { PixelIs(gr, host, m, v, w, y, PixelBase(m.p, x), line); }
  }

  // ---- what a byte is made of -------------------------------------------------------------------

  /** The addresses that the pixel of byte `x` is fetched from. */
  predicate InPixel(gr: Gr, y: nat, x: nat, at: int) {
    var first := x - x % Pixel(gr);
    if Backward(gr) then FetchedAt(gr, y, first + Pixel(gr) - 1) <= at <= FetchedAt(gr, y, first)
    else FetchedAt(gr, y, first) <= at <= FetchedAt(gr, y, first + Pixel(gr) - 1)
  }

  /** The addresses that byte `x` of row `y` depends on, other than its own. */
  predicate IsRead(gr: Gr, host: Option<Vram>, w: nat, y: nat, x: nat, at: int) {
    if Solid(gr) then false
    else if Tiled(gr) then at == if Expanded(gr) then SrcStart(gr) + y % 8 else TileAt(gr, y, x)
    else if host.Some? then false
    else if Expanded(gr) then at == StreamAt(gr, w, y, x)
    else if Transparent(gr) then InPixel(gr, y, x, at)
    else at == FetchedAt(gr, y, x)
  }

  /** The memories agree on everything that byte `x` of row `y` depends on. */
  ghost predicate SameReads(gr: Gr, host: Option<Vram>, w: nat, y: nat, x: nat, v: Vram, v': Vram) {
    |v| == |v'| && forall at :: IsRead(gr, host, w, y, x, at) ==> Held(v, at) == Held(v', at)
  }

  lemma InsidePixel(gr: Gr, y: nat, x: nat, first: nat, c: nat)
    requires first == x - x % Pixel(gr) && c < Pixel(gr)
    ensures InPixel(gr, y, x, FetchedAt(gr, y, first + c))
  {
  }

  lemma CopiedDepends(gr: Gr, host: Option<Vram>, w: nat, y: nat, x: nat, v: Vram, v': Vram, first: nat, c: nat)
    requires SameReads(gr, host, w, y, x, v, v') && Transparent(gr) && !Expanded(gr) && !Tiled(gr)
    requires first == x - x % Pixel(gr) && c < Pixel(gr)
    ensures Copied(gr, host, v, w, y, first + c) == Copied(gr, host, v', w, y, first + c)
  {
    InsidePixel(gr, y, x, first, c);
    assert host.None? ==> IsRead(gr, host, w, y, x, FetchedAt(gr, y, first + c));
  }

  lemma PixelDepends(gr: Gr, host: Option<Vram>, w: nat, y: nat, x: nat, v: Vram, v': Vram, first: nat)
    requires SameReads(gr, host, w, y, x, v, v') && Transparent(gr) && !Expanded(gr) && !Tiled(gr)
    requires first == x - x % Pixel(gr)
    ensures PixelShows(gr, host, v, w, y, first) == PixelShows(gr, host, v', w, y, first)
    ensures Copied(gr, host, v, w, y, x) == Copied(gr, host, v', w, y, x)
  {
    forall c: nat | c < Pixel(gr)
      ensures ComponentShows(gr, host, v, w, y, first, c) == ComponentShows(gr, host, v', w, y, first, c)
    {
      CopiedDepends(gr, host, w, y, x, v, v', first, c);
    }
    CopiedDepends(gr, host, w, y, x, v, v', first, x % Pixel(gr));
  }

  lemma ByteDepends(gr: Gr, host: Option<Vram>, w: nat, y: nat, x: nat, v: Vram, v': Vram)
    requires SameReads(gr, host, w, y, x, v, v')
    ensures SourceValue(gr, host, v, w, y, x) == SourceValue(gr, host, v', w, y, x)
    ensures ShowsThrough(gr, host, v, w, y, x) == ShowsThrough(gr, host, v', w, y, x)
  {
    if Transparent(gr) && !Expanded(gr) && !Tiled(gr) {
      PixelDepends(gr, host, w, y, x, v, v', x - x % Pixel(gr));
    } else if Expanded(gr) {
      if !Solid(gr) { BitDepends(gr, host, w, y, x, v, v'); }
    } else if Tiled(gr) {
      assert IsRead(gr, host, w, y, x, TileAt(gr, y, x));
    } else {
      assert host.None? ==> IsRead(gr, host, w, y, x, FetchedAt(gr, y, x));
    }
  }

  lemma BitDepends(gr: Gr, host: Option<Vram>, w: nat, y: nat, x: nat, v: Vram, v': Vram)
    requires SameReads(gr, host, w, y, x, v, v') && Expanded(gr) && !Solid(gr)
    ensures SourceBit(gr, host, v, w, y, x) == SourceBit(gr, host, v', w, y, x)
  {
    if Tiled(gr) {
      assert IsRead(gr, host, w, y, x, SrcStart(gr) + y % 8);
    } else {
      assert host.None? ==> IsRead(gr, host, w, y, x, StreamAt(gr, w, y, x));
    }
  }
}
