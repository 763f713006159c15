/**
 Re-triggering in every mode of the Cirrus engine that takes its source from VRAM
 (crates/machine-core/src/cirrus.rs `execute_blit`): a one-row transfer of whole tiles, triggered again with
 only the width reprogrammed, goes on where it stopped, because a pattern repeats every tile, a bit stream
 moves on one byte per tile, and a plain source moves with the destination.
 */
module CirrusTiles {
  import opened Bits
  import opened Wrappers
  import opened Cirrus
  import opened CirrusModes

  // ---- whole tiles ---------------------------------------------------------------------------------

  /** `w` bytes are `k` tiles. */
  predicate Tiles(m: Mode, w: nat, k: nat) { w == m.Tile() * k }

  /** Byte `x` of the second piece is byte `w + x` of the whole: same component, same column, same place in
      the pattern. */
  lemma TileArithmetic(pixel: nat, k: nat, w: nat, x: nat)
    requires pixel > 0 && w == 8 * pixel * k
    ensures (w + x) % pixel == x % pixel && (w + x) / pixel % 8 == x / pixel % 8
    ensures (w + x) % (8 * pixel) == x % (8 * pixel)
  {
    var q := x / pixel;
    DivModLaw(x, pixel);
    assert w == pixel * (8 * k);
    assert pixel * (8 * k + q) == pixel * (8 * k) + pixel * q;
    ModUnique(w + x, pixel, 8 * k + q, x % pixel);
    DivModLaw(q, 8);
    ModUnique(8 * k + q, 8, k + q / 8, q % 8);
    var tile := 8 * pixel;
    DivModLaw(x, tile);
    assert tile * (k + x / tile) == tile * k + tile * (x / tile);
    ModUnique(w + x, tile, k + x / tile, x % tile);
  }

  /** What must hold of the first width: whole tiles for a pattern or an expanded source, whole pixels for a
      transparent plain one. */
  predicate Whole(m: Mode, w: nat)
    requires m.Valid()
  {
    if m.pattern || m.expand then w % m.Tile() == 0 else m.p.transparent ==> w % m.p.pixel == 0
  }

  lemma WholeTiles(m: Mode, w: nat) returns (k: nat)
    requires m.Valid() && w % m.Tile() == 0
    ensures Tiles(m, w, k)
  {
    k := w / m.Tile();
    DivModLaw(w, m.Tile());
  }

  // ---- rows -------------------------------------------------------------------------------------------

  lemma {:induction false} ModeRowSplits(m: Mode, s: Flow, dst: int, src: int, x: nat, a: nat, b: nat, ab: nat)
    requires m.Valid() && TapOk(m, s.t) && ab == a + b
    ensures ModeRow(m, s, dst, src, 0, x, ab) == ModeRow(m, ModeRow(m, s, dst, src, 0, x, a), dst, src, 0, x + a, b)
    decreases a
  {
    if a > 0 {
      var next := Flow(ModeByte(m, s.v, dst, src, 0, x, s.t), NextTap(m, s.t));
      ModeRowSplits(m, next, dst, src, x + 1, a - 1, b, ab - 1);
    }
  }

  /** Where the second piece looks for its source: a pattern stays, a stream is followed by the tap alone. */
  predicate SameSource(m: Mode, m': Mode) { m' == m || (m.Streams() && m' == m.(src := m'.src)) }

  lemma TileByte(m: Mode, m': Mode, v: Vram, dst: int, src: int, src': int, w: nat, x: nat, at: nat, t: Tap, k: nat)
    requires m.Valid() && m.system.None? && (m.pattern || m.expand) && SameSource(m, m')
    requires Tiles(m, w, k) && TapOk(m, t) && at == w + x
    ensures ModeByte(m, v, dst, src, 0, at, t) == ModeByte(m', v, Onward(m.p.back, dst, w), src', 0, x, t)
  {
    TileArithmetic(m.p.pixel, k, w, x);
  }

  lemma {:induction false} TileRow(m: Mode, m': Mode, s: Flow, dst: int, src: int, src': int, w: nat, x: nat, n: nat,
                                   k: nat)
    requires m.Valid() && m.system.None? && (m.pattern || m.expand) && SameSource(m, m')
    requires Tiles(m, w, k) && TapOk(m, s.t)
    ensures ModeRow(m, s, dst, src, 0, w + x, n) == ModeRow(m', s, Onward(m.p.back, dst, w), src', 0, x, n)
    decreases n
  {
    if n > 0 {
      TileByte(m, m', s.v, dst, src, src', w, x, w + x, s.t, k);
      var next := Flow(ModeByte(m, s.v, dst, src, 0, w + x, s.t), NextTap(m, s.t));
      TileRow(m, m', next, dst, src, src', w, x + 1, n - 1, k);
    }
  }

  // ---- the tap ---------------------------------------------------------------------------------------------

  function TapAfter(m: Mode, t: Tap, n: nat): (r: Tap)
    requires m.Valid() && TapOk(m, t)
    ensures TapOk(m, r)
    decreases n
  {
    if n == 0 then t else TapAfter(m, NextTap(m, t), n - 1)
  }

  lemma {:induction false} RowTaps(m: Mode, s: Flow, dst: int, src: int, x: nat, n: nat)
    requires m.Valid() && TapOk(m, s.t)
    ensures ModeRow(m, s, dst, src, 0, x, n).t == TapAfter(m, s.t, n)
    decreases n
  {
    if n > 0 {
      RowTaps(m, Flow(ModeByte(m, s.v, dst, src, 0, x, s.t), NextTap(m, s.t)), dst, src, x + 1, n - 1);
    }
  }

  lemma {:induction false} TapWithinTile(m: Mode, t: Tap, n: nat)
    requires m.Valid() && m.Streams() && TapOk(m, t) && 0 < n && t.count + n == m.Tile()
    ensures TapAfter(m, t, n) == Tap(Onward(m.p.back, t.at, 1), 0)
    decreases n
  {
    if n > 1 { TapWithinTile(m, NextTap(m, t), n - 1); } else { assert TapAfter(m, NextTap(m, t), 0) == NextTap(m, t); }
  }

  lemma {:induction false} TapsAdd(m: Mode, t: Tap, a: nat, b: nat, ab: nat)
    requires m.Valid() && TapOk(m, t) && ab == a + b
    ensures TapAfter(m, t, ab) == TapAfter(m, TapAfter(m, t, a), b)
    decreases a
  {
    if a > 0 { TapsAdd(m, NextTap(m, t), a - 1, b, ab - 1); }
  }

  /** A stream moves on one byte per tile. */
  lemma {:induction false} TapPerTile(m: Mode, at: int, k: nat, w: nat)
    requires m.Valid() && m.Streams() && Tiles(m, w, k)
    ensures TapAfter(m, Tap(at, 0), w) == Tap(Onward(m.p.back, at, k), 0)
    decreases k
  {
    if k > 0 {
      var tile := m.Tile();
      assert tile * k == tile + tile * (k - 1);
      MulMono(tile, 0, k - 1);
      TapWithinTile(m, Tap(at, 0), tile);
      TapsAdd(m, Tap(at, 0), tile, w - tile, w);
      TapPerTile(m, Onward(m.p.back, at, 1), k - 1, w - tile);
    }
  }

  lemma {:induction false} OtherTapsStay(m: Mode, t: Tap, n: nat)
    requires m.Valid() && !m.Streams() && TapOk(m, t)
    ensures TapAfter(m, t, n) == t
    decreases n
  {
    if n > 0 { OtherTapsStay(m, t, n - 1); }
  }

  // ---- runs --------------------------------------------------------------------------------------------------

  /** A one-row transfer: memory, mode with the source counter, and destination counter. */
  datatype Scene = Scene(v: Vram, m: Mode, dst: nat)

  function SourceAfter(m: Mode, w: nat, t: Tap): nat {
    if m.pattern then m.src else if m.expand then Wrapped(t.at) else Wrapped(Onward(m.p.back, m.src, w))
  }

  function RunIn(u: Scene, w: nat): Scene
    requires u.m.Valid()
  {
    var s := ModeRow(u.m, Flow(u.v, Tap(u.m.src, 0)), u.dst, u.m.src, 0, 0, w);
    Scene(s.v, u.m.(src := SourceAfter(u.m, w, RowTap(u.m, s.t))), Wrapped(Onward(u.m.p.back, u.dst, w)))
  }

  predicate InCounter(at: int) { 0 <= at < ADDR_RANGE }

  /** Neither counter wraps over the first piece. */
  predicate Stays(u: Scene, w: nat)
    requires u.m.Valid()
  {
    && InCounter(u.m.src) && InCounter(Onward(u.m.p.back, u.dst, w))
    && (if u.m.pattern then true
        else if u.m.expand then InCounter(Onward(u.m.p.back, u.m.src, w / u.m.Tile()))
        else InCounter(Onward(u.m.p.back, u.m.src, w)))
  }

  lemma CounterMeets(back: bool, at: nat, w1: nat, w2: nat, w: nat)
    requires w == w1 + w2 && InCounter(Onward(back, at, w1))
    ensures Wrapped(Onward(back, at, w1)) == Onward(back, at, w1)
    ensures Onward(back, Onward(back, at, w1), w2) == Onward(back, at, w)
  {
    CounterJoins(back, at, w1, w2, w);
  }

  /** The first piece leaves the flow of the whole after `w1` bytes, and the second goes on from there. */
  lemma TilesJoin(u: Scene, w1: nat, w2: nat, w: nat)
    requires u.m.Valid() && u.m.system.None? && (u.m.pattern || u.m.expand)
    requires w == w1 + w2 && Whole(u.m, w1) && Stays(u, w1)
    ensures RunIn(RunIn(u, w1), w2) == RunIn(u, w)
  {
    var k := WholeTiles(u.m, w1);
    PiecesJoin(u, w1, w2, w, k);
  }

  lemma PiecesJoin(u: Scene, w1: nat, w2: nat, w: nat, k: nat)
    requires u.m.Valid() && u.m.system.None? && (u.m.pattern || u.m.expand)
    requires w == w1 + w2 && Tiles(u.m, w1, k) && Stays(u, w1)
    ensures RunIn(RunIn(u, w1), w2) == RunIn(u, w)
  {
    var m, s := u.m, Flow(u.v, Tap(u.m.src, 0));
    CounterMeets(m.p.back, u.dst, w1, w2, w);
    var mid, next := ModeRow(m, s, u.dst, m.src, 0, 0, w1), RunIn(u, w1);
    FirstPiece(u, w1, k, mid, next);
    var end := ModeRow(m, mid, u.dst, m.src, 0, w1, w2);
    ModeRowSplits(m, s, u.dst, m.src, 0, w1, w2, w);
    TileRow(m, next.m, mid, u.dst, m.src, next.m.src, w1, 0, w2, k);
    SameEnd(u, next, w2, w, end);
  }

  lemma SameEnd(u: Scene, next: Scene, w2: nat, w: nat, end: Flow)
    requires u.m.Valid() && next.m.Valid() && (u.m.pattern || u.m.expand) && SameSource(u.m, next.m)
    requires TapOk(u.m, end.t)
    requires ModeRow(u.m, Flow(u.v, Tap(u.m.src, 0)), u.dst, u.m.src, 0, 0, w) == end
    requires ModeRow(next.m, Flow(next.v, Tap(next.m.src, 0)), next.dst, next.m.src, 0, 0, w2) == end
    requires Onward(u.m.p.back, next.dst, w2) == Onward(u.m.p.back, u.dst, w)
    ensures RunIn(next, w2) == RunIn(u, w)
  {
  }

  /** The second run starts with the memory, the counters and the tap of the first. */
  lemma FirstPiece(u: Scene, w: nat, k: nat, mid: Flow, next: Scene)
    requires u.m.Valid() && u.m.system.None? && (u.m.pattern || u.m.expand) && Tiles(u.m, w, k) && Stays(u, w)
    requires mid == ModeRow(u.m, Flow(u.v, Tap(u.m.src, 0)), u.dst, u.m.src, 0, 0, w) && next == RunIn(u, w)
    ensures next.v == mid.v && next.dst == Onward(u.m.p.back, u.dst, w)
    ensures SameSource(u.m, next.m) && mid.t == Tap(next.m.src, 0)
  {
    var m := u.m;
    TilesOf(m, w, k);
    CounterMeets(m.p.back, u.dst, w, 0, w);
    RowTaps(m, Flow(u.v, Tap(m.src, 0)), u.dst, m.src, 0, w);
    if m.Streams() { TapPerTile(m, m.src, k, w); } else { OtherTapsStay(m, Tap(m.src, 0), w); }
    MidTap(m, mid.t, w, k);
  }

  lemma TilesOf(m: Mode, w: nat, k: nat)
    requires m.Valid() && Tiles(m, w, k)
    ensures w / m.Tile() == k
  {
    ModUnique(w, m.Tile(), k, 0);
  }

  lemma MidTap(m: Mode, t: Tap, w: nat, k: nat)
    requires m.Valid() && m.system.None? && (m.pattern || m.expand)
    requires t == if m.Streams() then Tap(Onward(m.p.back, m.src, k), 0) else Tap(m.src, 0)
    requires m.Streams() ==> InCounter(Onward(m.p.back, m.src, k))
    ensures var m' := m.(src := SourceAfter(m, w, RowTap(m, t))); SameSource(m, m') && t == Tap(m'.src, 0)
  {
    if m.Streams() { SmallMod(Onward(m.p.back, m.src, k), ADDR_RANGE); }
  }

  /** A plain transfer is the one of `Cirrus`. */
  lemma PlainRun(u: Scene, w: nat)
    requires u.m.Valid() && PlainMode(u.m)
    ensures var c := Cirrus.Run(Cirrus.View(u.v, u.m.p, u.dst, u.m.src), w);
            RunIn(u, w) == Scene(c.vram, u.m.(src := c.src), c.dst)
  {
    PlainRow(u.m, Flow(u.v, Tap(u.m.src, 0)), u.dst, u.m.src, 0, 0, w);
  }

  lemma PlainRunsJoin(u: Scene, w1: nat, w2: nat, w: nat)
    requires u.m.Valid() && PlainMode(u.m) && w == w1 + w2 && Whole(u.m, w1) && Stays(u, w1)
    ensures RunIn(RunIn(u, w1), w2) == RunIn(u, w)
  {
    PlainRun(u, w1);
    PlainRun(RunIn(u, w1), w2);
    PlainRun(u, w);
    Cirrus.RunsJoin(Cirrus.View(u.v, u.m.p, u.dst, u.m.src), w1, w2, w);
  }

  /** Solid fills are patterns, so every mode without host data is a pattern, a stream or plain. */
  lemma ScenesJoin(u: Scene, w1: nat, w2: nat, w: nat)
    requires u.m.Valid() && u.m.system.None? && (u.m.solid ==> u.m.pattern)
    requires w == w1 + w2 && Whole(u.m, w1) && Stays(u, w1)
    ensures RunIn(RunIn(u, w1), w2) == RunIn(u, w)
  {
    if u.m.pattern || u.m.expand { TilesJoin(u, w1, w2, w); } else { PlainRunsJoin(u, w1, w2, w); }
  }

  // ---- triggers -----------------------------------------------------------------------------------------------------

  function SceneOf(e: Engine): Scene { Scene(e.vram, ModeOf(e.gr, None, 0), Addr(e.gr, DST_ADDR_LO)) }

  /** Program the width alone, then trigger. */
  function TriggerIn(e: Engine, w: nat): Engine
    requires 1 <= w <= 2048
  {
    BlitIn(e.(gr := SetWidth(e.gr, w)), None)
  }

  /** For a plain transfer these are the triggers of `Cirrus`. */
  lemma PlainTrigger(e: Engine, w: nat)
    requires Plain(e.gr) && 1 <= w <= 2048
    ensures TriggerIn(e, w) == Cirrus.Trigger(e, w)
  {
    PlainBlit(e.(gr := SetWidth(e.gr, w)));
  }

  lemma SameMode(g: Gr, h: Gr)
    requires SameTransfer(g, h)
    ensures ModeOf(h, None, 0) == ModeOf(g, None, 0).(src := Addr(h, SRC_ADDR_LO)) && LastRow(h) == LastRow(g)
  {
    SameParameters(g, h);
  }

  lemma ModeIgnoresWidth(gr: Gr, width: nat)
    ensures ModeOf(gr, None, width) == ModeOf(gr, None, 0)
  {
  }

  /** A one-row transfer in full. */
  lemma OneRowIn(e: Engine)
    requires LastRow(e.gr) == 0
    ensures var u, r := SceneOf(e), Rectangle(e.vram, e.gr);
            SceneOf(BlitIn(e, None)) == RunIn(u, r.width) && LastRow(BlitIn(e, None).gr) == 0
  {
    var u, r := SceneOf(e), Rectangle(e.vram, e.gr);
    ModeIgnoresWidth(e.gr, r.width);
    var row := ModeRow(u.m, Flow(e.vram, Tap(r.src, 0)), r.dst, r.src, 0, 0, r.width);
    var s := row.(t := RowTap(u.m, row.t));
    assert ModeRows(u.m, s, r, 1) == s;
    assert Span(0, r.dstPitch, r.width) == r.width && Span(0, r.srcPitch, r.width) == r.width;
    var dst, src := Onward(u.m.p.back, r.dst, r.width), SourceEnd(u.m, r, s.t);
    CountersReadBack(e.gr, dst, src);
    SameMode(e.gr, BlitIn(e, None).gr);
    SourceCounter(u.m, r, s.t);
  }

  lemma SourceCounter(m: Mode, r: Rect, t: Tap)
    requires m.system.None? && r.rows == 1 && r.src == m.src && m.src < ADDR_RANGE
    ensures SourceEnd(m, r, t) % ADDR_RANGE == SourceAfter(m, r.width, t)
  {
    SmallMod(m.src, ADDR_RANGE);
  }

  lemma OneRowTriggerIn(e: Engine, w: nat)
    requires LastRow(e.gr) == 0 && 1 <= w <= 2048 && w <= |e.vram|
    ensures SceneOf(TriggerIn(e, w)) == RunIn(SceneOf(e), w) && LastRow(TriggerIn(e, w).gr) == 0
  {
    var e' := e.(gr := SetWidth(e.gr, w));
    SetWidthKeeps(e.gr, w);
    SameMode(e.gr, e'.gr);
    OneRowIn(e');
  }

  /** In every mode without host data: width `w1`, then only the width reprogrammed to `w2`, leaves the VRAM
      and both counters of one trigger of width `w1 + w2`, for a first width of whole tiles (whole pixels, or
      any width at all, for plain sources) and counters that do not wrap over it. */
  lemma RetriggerContinuesInAnyMode(e: Engine, w1: nat, w2: nat, w: nat)
    requires LastRow(e.gr) == 0 && w1 >= 1 && w2 >= 1 && w1 + w2 == w <= 2048 && w <= |e.vram|
    requires Whole(SceneOf(e).m, w1) && Stays(SceneOf(e), w1)
    ensures SceneOf(TriggerIn(TriggerIn(e, w1), w2)) == SceneOf(TriggerIn(e, w))
  {
    OneRowTriggerIn(e, w1);
    OneRowTriggerIn(TriggerIn(e, w1), w2);
    OneRowTriggerIn(e, w);
    ScenesJoin(SceneOf(e), w1, w2, w);
  }
}
