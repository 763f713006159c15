/**
 Whole Cirrus transfers (crates/machine-core/src/cirrus.rs `execute_blit`): every byte of the destination rectangle
 becomes what `CirrusPixels` says of the memory before the transfer, and every other byte is kept.
 */
module CirrusTransfers {
  import opened Bits
  import opened Wrappers
  import opened Cirrus
  import opened CirrusModes
  import opened CirrusPixels

  // ---- one row ---------------------------------------------------------------------------------------------

  /** Bytes `x` to `x + n` of the row are stored elsewhere. */
  ghost predicate Misses(back: bool, dst: int, x: nat, n: nat, at: int) {
    forall j: nat :: x <= j < x + n ==> Onward(back, dst, j) != at
  }

  lemma {:induction false} RowKeeps(m: Mode, s: Flow, dst: int, src: int, y: nat, x: nat, n: nat, at: nat)
    requires m.Valid() && TapOk(m, s.t) && at < |s.v| && Misses(m.p.back, dst, x, n, at)
    ensures ModeRow(m, s, dst, src, y, x, n).v[at] == s.v[at]
    decreases n
  {
    if n > 0 {
      assert Onward(m.p.back, dst, x) != at;
      RowKeeps(m, Flow(ModeByte(m, s.v, dst, src, y, x, s.t), NextTap(m, s.t)), dst, src, y, x + 1, n - 1, at);
    }
  }

  lemma {:induction false} RowSplitsAt(m: Mode, s: Flow, dst: int, src: int, y: nat, x: nat, a: nat, b: nat, ab: nat)
    requires m.Valid() && TapOk(m, s.t) && ab == a + b
    ensures ModeRow(m, s, dst, src, y, x, ab) == ModeRow(m, ModeRow(m, s, dst, src, y, x, a), dst, src, y, x + a, b)
    decreases a
  {
    if a > 0 {
      var next := Flow(ModeByte(m, s.v, dst, src, y, x, s.t), NextTap(m, s.t));
      RowSplitsAt(m, next, dst, src, y, x + 1, a - 1, b, ab - 1);
    }
  }

  lemma OneByteRow(m: Mode, s: Flow, dst: int, src: int, y: nat, x: nat)
    requires m.Valid() && TapOk(m, s.t)
    ensures ModeRow(m, s, dst, src, y, x, 1) == Flow(ModeByte(m, s.v, dst, src, y, x, s.t), NextTap(m, s.t))
  {
    var next := Flow(ModeByte(m, s.v, dst, src, y, x, s.t), NextTap(m, s.t));
    assert ModeRow(m, next, dst, src, y, x + 1, 0) == next;
  }

  /** A row as the bytes before byte `x`, that byte, and the bytes after it. */
  lemma ByteOfRow(m: Mode, s: Flow, dst: int, src: int, y: nat, x: nat, w: nat, before: Flow, after: Flow)
    requires m.Valid() && TapOk(m, s.t) && x < w
    requires before == ModeRow(m, s, dst, src, y, 0, x)
    requires after == Flow(ModeByte(m, before.v, dst, src, y, x, before.t), NextTap(m, before.t))
    ensures ModeRow(m, s, dst, src, y, 0, w) == ModeRow(m, after, dst, src, y, x + 1, w - x - 1)
  {
    RowSplitsAt(m, s, dst, src, y, 0, x, w - x, w);
    RowSplitsAt(m, before, dst, src, y, x, 1, w - x - 1, w - x);
    OneByteRow(m, before, dst, src, y, x);
  }

  // ---- the bit stream ----------------------------------------------------------------------------------------

  lemma TapIsOk(gr: Gr, host: Option<Vram>, m: Mode, w: nat, y: nat, x: nat)
    requires Described(gr, host, w, m)
    ensures TapOk(m, TapFor(gr, host, w, y, x))
  {
  }

  lemma NextPlace(x: nat, next: nat, tile: nat)
    requires tile > 0 && next == x + 1
    ensures if x % tile + 1 == tile then next / tile == x / tile + 1 && next % tile == 0
            else next / tile == x / tile && next % tile == x % tile + 1
  {
    DivModLaw(x, tile);
    if x % tile + 1 == tile {
      assert tile * (x / tile + 1) == tile * (x / tile) + tile;
      ModUnique(next, tile, x / tile + 1, 0);
    } else {
      ModUnique(next, tile, x / tile, x % tile + 1);
    }
  }

  lemma NextTapFor(gr: Gr, host: Option<Vram>, m: Mode, w: nat, y: nat, x: nat, next: nat)
    requires Described(gr, host, w, m) && next == x + 1
    ensures var t := TapFor(gr, host, w, y, x); TapOk(m, t) && NextTap(m, t) == TapFor(gr, host, w, y, next)
  {
    NextPlace(x, next, Eight(gr));
  }

  lemma WholePiecesIs(n: nat, piece: nat)
    requires piece > 0
    ensures WholePieces(n, piece) == if n % piece == 0 then n / piece else n / piece + 1
  {
    DivModLaw(n, piece);
    var q, r := n / piece, n % piece;
    if r == 0 {
      ModUnique(n + piece - 1, piece, q, piece - 1);
    } else {
      assert piece * (q + 1) == piece * q + piece;
      ModUnique(n + piece - 1, piece, q + 1, r - 1);
    }
  }

  lemma NextRowStarts(y: nat, next: nat, w: nat, tile: nat)
    requires tile > 0 && next == y + 1
    ensures Offset(next, WholePieces(w, tile)) + 0 / tile ==
            Offset(y, WholePieces(w, tile)) + w / tile + if w % tile == 0 then 0 else 1
  {
    var step := WholePieces(w, tile);
    WholePiecesIs(w, tile);
    SmallMod(0, tile);
    assert next * step == y * step + step;
  }

  /** Every row of a stream starts on the byte after the last one used. */
  lemma RowTapFor(gr: Gr, host: Option<Vram>, m: Mode, w: nat, y: nat, next: nat)
    requires Described(gr, host, w, m) && next == y + 1
    ensures var t := TapFor(gr, host, w, y, w); TapOk(m, t) && RowTap(m, t) == TapFor(gr, host, w, next, 0)
  {
    NextRowStarts(y, next, w, Eight(gr));
  }

  lemma {:induction false} TapsAlong(gr: Gr, host: Option<Vram>, m: Mode, s: Flow, dst: int, src: int, w: nat, y: nat,
                                     x: nat, n: nat, end: nat)
    requires Described(gr, host, w, m) && s.t == TapFor(gr, host, w, y, x) && TapOk(m, s.t) && end == x + n
    ensures ModeRow(m, s, dst, src, y, x, n).t == TapFor(gr, host, w, y, end)
    decreases n
  {
    if n > 0 {
      NextTapFor(gr, host, m, w, y, x, x + 1);
      var next := Flow(ModeByte(m, s.v, dst, src, y, x, s.t), NextTap(m, s.t));
      TapsAlong(gr, host, m, next, dst, src, w, y, x + 1, n - 1, end);
    }
  }

  // ---- the rows ------------------------------------------------------------------------------------------------

  /** One row, with the stream rounded up after it. */
  function OneRow(m: Mode, s: Flow, r: Rect, y: nat): (s': Flow)
    requires m.Valid() && TapOk(m, s.t)
    ensures |s'.v| == |s.v| && TapOk(m, s'.t)
  {
    var row := ModeRow(m, s, Line(m.p.back, r.dst, r.dstPitch, y), Line(m.p.back, r.src, r.srcPitch, y), y, 0, r.width);
    row.(t := RowTap(m, row.t))
  }

  /** The first `y` rows. */
  function FirstRows(m: Mode, s: Flow, r: Rect, y: nat): (s': Flow)
    requires m.Valid() && TapOk(m, s.t)
    ensures |s'.v| == |s.v| && TapOk(m, s'.t)
  {
    if y == 0 then s else OneRow(m, FirstRows(m, s, r, y - 1), r, y - 1)
  }

  lemma {:induction false} RowsSplitAt(m: Mode, s: Flow, r: Rect, y: nat)
    requires m.Valid() && TapOk(m, s.t) && y <= r.rows
    ensures ModeRows(m, s, r, 0) == ModeRows(m, FirstRows(m, s, r, y), r, y)
  {
    if y > 0 { RowsSplitAt(m, s, r, y - 1); }
  }

  /** The rectangle the engine decodes is the one the registers describe. */
  predicate Framed(gr: Gr, w: nat, m: Mode, r: Rect) {
    && m.Valid() && m.p.back == Backward(gr)
    && r == Rect(DstStart(gr), SrcStart(gr), DstPitch(gr), SrcPitch(gr), w, Tall(gr))
  }

  function RowBytes(v: Vram, gr: Gr): nat {
    if Wide(gr) < |v| then Wide(gr) else if |v| == 0 then 1 else |v|
  }

  lemma RectangleFramed(v: Vram, gr: Gr, host: Option<Vram>)
    ensures Framed(gr, RowBytes(v, gr), ModeOf(gr, host, RowBytes(v, gr)), Rectangle(v, gr))
  {
  }

  lemma LineIsRow(gr: Gr, w: nat, m: Mode, r: Rect, y: nat)
    requires Framed(gr, w, m, r)
    ensures Line(m.p.back, r.dst, r.dstPitch, y) == RowAt(gr, DstStart(gr), DstPitch(gr), y)
    ensures Line(m.p.back, r.src, r.srcPitch, y) == RowAt(gr, SrcStart(gr), SrcPitch(gr), y)
  {
  }

  /** No byte of row `y` is stored at `at`. */
  ghost predicate RowMisses(gr: Gr, w: nat, y: nat, at: int) { forall x: nat :: x < w ==> StoredAt(gr, y, x) != at }

  lemma OneRowKeeps(gr: Gr, w: nat, m: Mode, s: Flow, r: Rect, y: nat, at: nat)
    requires Framed(gr, w, m, r) && TapOk(m, s.t) && at < |s.v| && RowMisses(gr, w, y, at)
    ensures OneRow(m, s, r, y).v[at] == s.v[at]
  {
    LineIsRow(gr, w, m, r, y);
    var dst, src := Line(m.p.back, r.dst, r.dstPitch, y), Line(m.p.back, r.src, r.srcPitch, y);
    forall j: nat | j < w
      ensures Onward(m.p.back, dst, j) != at
    {
      assert StoredAt(gr, y, j) != at;
    }
    RowKeeps(m, s, dst, src, y, 0, w, at);
  }

  lemma {:induction false} FirstRowsKeep(gr: Gr, w: nat, m: Mode, s: Flow, r: Rect, y: nat, at: nat)
    requires Framed(gr, w, m, r) && TapOk(m, s.t) && at < |s.v|
    requires forall j: nat :: j < y ==> RowMisses(gr, w, j, at)
    ensures FirstRows(m, s, r, y).v[at] == s.v[at]
  {
    if y > 0 {
      FirstRowsKeep(gr, w, m, s, r, y - 1, at);
      OneRowKeeps(gr, w, m, FirstRows(m, s, r, y - 1), r, y - 1, at);
    }
  }

  lemma {:induction false} LastRowsKeep(gr: Gr, w: nat, m: Mode, s: Flow, r: Rect, y: nat, at: nat)
    requires Framed(gr, w, m, r) && TapOk(m, s.t) && at < |s.v| && y <= r.rows
    requires forall j: nat :: y <= j < r.rows ==> RowMisses(gr, w, j, at)
    ensures ModeRows(m, s, r, y).v[at] == s.v[at]
    decreases r.rows - y
  {
    if y < r.rows {
      OneRowKeeps(gr, w, m, s, r, y, at);
      LastRowsKeep(gr, w, m, OneRow(m, s, r, y), r, y + 1, at);
    }
  }

  lemma {:induction false} TapsDown(gr: Gr, host: Option<Vram>, w: nat, m: Mode, s: Flow, r: Rect, y: nat)
    requires Framed(gr, w, m, r) && Described(gr, host, w, m)
    requires s.t == TapFor(gr, host, w, 0, 0) && TapOk(m, s.t)
    ensures FirstRows(m, s, r, y).t == TapFor(gr, host, w, y, 0)
  {
    if y > 0 {
      TapsDown(gr, host, w, m, s, r, y - 1);
      var before := FirstRows(m, s, r, y - 1);
      var dst, src := Line(m.p.back, r.dst, r.dstPitch, y - 1), Line(m.p.back, r.src, r.srcPitch, y - 1);
      TapsAlong(gr, host, m, before, dst, src, w, y - 1, 0, w, w);
      RowTapFor(gr, host, m, w, y - 1, y);
    }
  }

  // ---- the whole transfer ------------------------------------------------------------------------------------------

  predicate Earlier(y: nat, x: nat, y': nat, x': nat) { y < y' || (y == y' && x < x') }

  /** Nothing that byte `x` of row `y` depends on is stored before it. */
  ghost predicate Undisturbed(gr: Gr, host: Option<Vram>, w: nat, y: nat, x: nat) {
    forall j: nat, i: nat :: i < w && Earlier(j, i, y, x) ==>
        StoredAt(gr, j, i) != StoredAt(gr, y, x) && !IsRead(gr, host, w, y, x, StoredAt(gr, j, i))
  }

  /** No later byte is stored in its place. */
  ghost predicate Lasting(gr: Gr, w: nat, y: nat, x: nat) {
    forall j: nat, i: nat :: i < w && j < Tall(gr) && Earlier(y, x, j, i) ==> StoredAt(gr, j, i) != StoredAt(gr, y, x)
  }

  /** What the memory holds just before byte `x` of row `y` is transferred. */
  function Until(m: Mode, s: Flow, r: Rect, y: nat, x: nat): (s': Flow)
    requires m.Valid() && TapOk(m, s.t)
    ensures |s'.v| == |s.v| && TapOk(m, s'.t)
  {
    ModeRow(m, FirstRows(m, s, r, y), Line(m.p.back, r.dst, r.dstPitch, y), Line(m.p.back, r.src, r.srcPitch, y), y, 0,
            x)
  }

  lemma UntilKeeps(gr: Gr, w: nat, m: Mode, s: Flow, r: Rect, y: nat, x: nat, at: nat)
    requires Framed(gr, w, m, r) && TapOk(m, s.t) && at < |s.v| && x <= w
    requires forall j: nat, i: nat :: i < w && Earlier(j, i, y, x) ==> StoredAt(gr, j, i) != at
    ensures Until(m, s, r, y, x).v[at] == s.v[at]
  {
    forall j: nat | j < y
      ensures RowMisses(gr, w, j, at)
    {
      forall i: nat | i < w
        ensures StoredAt(gr, j, i) != at
      {
        assert Earlier(j, i, y, x);
      }
    }
    FirstRowsKeep(gr, w, m, s, r, y, at);
    LineIsRow(gr, w, m, r, y);
    var dst, src := Line(m.p.back, r.dst, r.dstPitch, y), Line(m.p.back, r.src, r.srcPitch, y);
    forall i: nat | i < x
      ensures Onward(m.p.back, dst, i) != at
    {
      assert Earlier(y, i, y, x) && StoredAt(gr, y, i) != at;
    }
    RowKeeps(m, FirstRows(m, s, r, y), dst, src, y, 0, x, at);
  }

  lemma UntilTap(gr: Gr, host: Option<Vram>, w: nat, m: Mode, s: Flow, r: Rect, y: nat, x: nat)
    requires Framed(gr, w, m, r) && Described(gr, host, w, m)
    requires s.t == TapFor(gr, host, w, 0, 0) && TapOk(m, s.t)
    ensures Until(m, s, r, y, x).t == TapFor(gr, host, w, y, x)
  {
    TapsDown(gr, host, w, m, s, r, y);
    var dst, src := Line(m.p.back, r.dst, r.dstPitch, y), Line(m.p.back, r.src, r.srcPitch, y);
    TapsAlong(gr, host, m, FirstRows(m, s, r, y), dst, src, w, y, 0, x, x);
  }

  lemma UntilReads(gr: Gr, host: Option<Vram>, w: nat, m: Mode, s: Flow, r: Rect, y: nat, x: nat)
    requires Framed(gr, w, m, r) && TapOk(m, s.t) && x < w && Undisturbed(gr, host, w, y, x)
    ensures SameReads(gr, host, w, y, x, Until(m, s, r, y, x).v, s.v)
  {
    var v := Until(m, s, r, y, x).v;
    forall at | IsRead(gr, host, w, y, x, at)
      ensures Held(v, at) == Held(s.v, at)
    {
      if 0 <= at < |v| { UntilKeeps(gr, w, m, s, r, y, x, at); }
    }
  }

  /** The byte right after its own step. */
  function Stepped(m: Mode, s: Flow, r: Rect, y: nat, x: nat): (s': Flow)
    requires m.Valid() && TapOk(m, s.t)
    ensures |s'.v| == |s.v| && TapOk(m, s'.t)
  {
    var before := Until(m, s, r, y, x);
    Flow(ModeByte(m, before.v, Line(m.p.back, r.dst, r.dstPitch, y), Line(m.p.back, r.src, r.srcPitch, y), y, x,
                  before.t),
         NextTap(m, before.t))
  }

  lemma RestOfRowKeeps(gr: Gr, w: nat, m: Mode, s: Flow, r: Rect, y: nat, x: nat, at: nat)
    requires Framed(gr, w, m, r) && TapOk(m, s.t) && at < |s.v| && x < w
    requires forall i: nat :: x < i < w ==> StoredAt(gr, y, i) != at
    ensures OneRow(m, FirstRows(m, s, r, y), r, y).v[at] == Stepped(m, s, r, y, x).v[at]
  {
    var dst, src := Line(m.p.back, r.dst, r.dstPitch, y), Line(m.p.back, r.src, r.srcPitch, y);
    var before, after := Until(m, s, r, y, x), Stepped(m, s, r, y, x);
    ByteOfRow(m, FirstRows(m, s, r, y), dst, src, y, x, w, before, after);
    LineIsRow(gr, w, m, r, y);
    forall i: nat | x < i < w
      ensures Onward(m.p.back, dst, i) != at
    {
      assert StoredAt(gr, y, i) != at;
    }
    RowKeeps(m, after, dst, src, y, x + 1, w - x - 1, at);
  }

  /** Nothing after byte `x` of row `y` is stored at `at`. */
  ghost predicate LaterMiss(gr: Gr, w: nat, y: nat, x: nat, at: int) {
    && (forall i: nat :: x < i < w ==> StoredAt(gr, y, i) != at)
    && forall j: nat :: y < j < Tall(gr) ==> RowMisses(gr, w, j, at)
  }

  lemma LastingMisses(gr: Gr, w: nat, y: nat, x: nat)
    requires Lasting(gr, w, y, x) && y < Tall(gr)
    ensures LaterMiss(gr, w, y, x, StoredAt(gr, y, x))
  {
    forall i: nat | x < i < w
      ensures StoredAt(gr, y, i) != StoredAt(gr, y, x)
    {
      assert Earlier(y, x, y, i);
    }
    forall j: nat, i: nat | y < j < Tall(gr) && i < w
      ensures StoredAt(gr, j, i) != StoredAt(gr, y, x)
    {
      assert Earlier(y, x, j, i);
    }
  }

  lemma RestKeeps(gr: Gr, w: nat, m: Mode, s: Flow, r: Rect, y: nat, x: nat, at: nat)
    requires Framed(gr, w, m, r) && TapOk(m, s.t) && at < |s.v| && y < r.rows && x < w && LaterMiss(gr, w, y, x, at)
    ensures ModeRows(m, s, r, 0).v[at] == Stepped(m, s, r, y, x).v[at]
  {
    RestOfRowKeeps(gr, w, m, s, r, y, x, at);
    RowsSplitAt(m, s, r, y);
    LastRowsKeep(gr, w, m, OneRow(m, FirstRows(m, s, r, y), r, y), r, y + 1, at);
  }

  /** What byte `x` of row `y` makes of `was`. */
  ghost predicate Becomes(gr: Gr, host: Option<Vram>, v: Vram, w: nat, y: nat, x: nat, was: bv8, is_: bv8) {
    if ShowsThrough(gr, host, v, w, y, x) then is_ == was
    else Combines(Reg(gr, 0x32), SourceValue(gr, host, v, w, y, x), was, is_)
  }

  lemma StepBecomes(gr: Gr, host: Option<Vram>, w: nat, m: Mode, s: Flow, r: Rect, y: nat, x: nat, at: nat)
    requires Framed(gr, w, m, r) && Described(gr, host, w, m) && s.t == TapFor(gr, host, w, 0, 0) && TapOk(m, s.t)
    requires x < w && at == StoredAt(gr, y, x) && at < |s.v| && Undisturbed(gr, host, w, y, x)
    ensures Becomes(gr, host, s.v, w, y, x, s.v[at], Stepped(m, s, r, y, x).v[at])
  {
    var before := Until(m, s, r, y, x);
    var src := Line(m.p.back, r.src, r.srcPitch, y);
    LineIsRow(gr, w, m, r, y);
    UntilTap(gr, host, w, m, s, r, y, x);
    UntilReads(gr, host, w, m, s, r, y, x);
    UntilKeeps(gr, w, m, s, r, y, x, at);
    SkipIs(gr, host, m, before.v, w, y, x, src, before.t);
    SourceIs(gr, host, m, before.v, w, y, x, src, before.t);
    ByteDepends(gr, host, w, y, x, before.v, s.v);
    RopIsTable(m.p.rop, SourceValue(gr, host, s.v, w, y, x), s.v[at]);
  }

  /** One transfer in any mode: a byte of the rectangle becomes the raster op of its source byte and its old value, both
      of the memory before the transfer, or keeps its value where it is transparent. */
  lemma ByteTransferred(e: Engine, host: Option<Vram>, w: nat, y: nat, x: nat, at: nat)
    requires w == RowBytes(e.vram, e.gr) && y < Tall(e.gr) && x < w && at == StoredAt(e.gr, y, x) && at < |e.vram|
    requires Undisturbed(e.gr, host, w, y, x) && Lasting(e.gr, w, y, x)
    ensures |BlitIn(e, host).vram| == |e.vram|
    ensures Becomes(e.gr, host, e.vram, w, y, x, e.vram[at], BlitIn(e, host).vram[at])
  {
    var m, r := ModeOf(e.gr, host, w), Rectangle(e.vram, e.gr);
    var s := Flow(e.vram, Tap(r.src, 0));
    RectangleFramed(e.vram, e.gr, host);
    ModeDescribed(e.gr, host, w);
    FirstTap(e.gr, host, w);
    StepBecomes(e.gr, host, w, m, s, r, y, x, at);
    LastingMisses(e.gr, w, y, x);
    RestKeeps(e.gr, w, m, s, r, y, x, at);
  }

  lemma FirstTap(gr: Gr, host: Option<Vram>, w: nat)
    ensures TapFor(gr, host, w, 0, 0) == Tap(SrcStart(gr), 0)
  {
  }

  /** Every other byte is kept. */
  lemma OthersKept(e: Engine, host: Option<Vram>, w: nat, at: nat)
    requires w == RowBytes(e.vram, e.gr) && at < |e.vram|
    requires forall y: nat, x: nat :: y < Tall(e.gr) && x < w ==> StoredAt(e.gr, y, x) != at
    ensures |BlitIn(e, host).vram| == |e.vram| && BlitIn(e, host).vram[at] == e.vram[at]
  {
    var m, r := ModeOf(e.gr, host, w), Rectangle(e.vram, e.gr);
    RectangleFramed(e.vram, e.gr, host);
    LastRowsKeep(e.gr, w, m, Flow(e.vram, Tap(r.src, 0)), r, 0, at);
  }

  // ---- from the addresses -----------------------------------------------------------------------

  /** The distance of the last row from the first. */
  function Drop(gr: Gr, pitch: nat): nat { Offset(Tall(gr) - 1, pitch) }

  /** The destination rectangle lies in the memory and its rows do not overlap. */
  predicate Fits(gr: Gr, w: nat, len: nat) {
    && (Tall(gr) == 1 || w <= DstPitch(gr))
    && if Backward(gr) then Drop(gr, DstPitch(gr)) + w <= DstStart(gr) + 1 && DstStart(gr) < len
       else DstStart(gr) + Drop(gr, DstPitch(gr)) + w <= len
  }

  /** The first and the last address of a rectangle of `span` bytes from its first byte on. */
  function Lowest(gr: Gr, start: nat, span: nat): int { if Backward(gr) then start - span + 1 else start }
  function Highest(gr: Gr, start: nat, span: nat): int { if Backward(gr) then start else start + span - 1 }

  /** How many bytes before or after byte (0, 0) byte `x` of row `y` is stored. */
  function Place(pitch: nat, y: nat, x: nat): nat { Offset(y, pitch) + x }

  lemma PlaceWithin(pitch: nat, rows: nat, w: nat, y: nat, x: nat)
    requires y < rows && x < w
    ensures Place(pitch, y, x) < Offset(rows - 1, pitch) + w && Offset(y, pitch) <= Offset(rows - 1, pitch)
  {
    MulMono(pitch, y, rows - 1);
  }

  lemma StoredAtPlace(gr: Gr, w: nat, len: nat, y: nat, x: nat)
    requires Fits(gr, w, len) && y < Tall(gr) && x < w
    ensures StoredAt(gr, y, x) == Along(gr, DstStart(gr), Place(DstPitch(gr), y, x))
    ensures 0 <= StoredAt(gr, y, x) < len
    ensures var span := Drop(gr, DstPitch(gr)) + w;
            Lowest(gr, DstStart(gr), span) <= StoredAt(gr, y, x) <= Highest(gr, DstStart(gr), span)
  {
    PlaceWithin(DstPitch(gr), Tall(gr), w, y, x);
  }

  /** Places grow from byte to byte and from row to row. */
  lemma PlacesGrow(pitch: nat, w: nat, y: nat, x: nat, y': nat, x': nat)
    requires Earlier(y, x, y', x') && x < w && (y == y' || w <= pitch)
    ensures Place(pitch, y, x) < Place(pitch, y', x')
  {
    if y < y' {
      MulMono(pitch, y + 1, y');
      assert (y + 1) * pitch == y * pitch + pitch;
    }
  }

  lemma StoresApart(gr: Gr, w: nat, len: nat, y: nat, x: nat, y': nat, x': nat)
    requires Fits(gr, w, len) && y < Tall(gr) && x < w && y' < Tall(gr) && x' < w && Earlier(y, x, y', x')
    ensures StoredAt(gr, y, x) != StoredAt(gr, y', x')
  {
    StoredAtPlace(gr, w, len, y, x);
    StoredAtPlace(gr, w, len, y', x');
    PlacesGrow(DstPitch(gr), w, y, x, y', x');
  }

  /** Where a transfer reads: no address of the destination rectangle, in any row. */
  ghost predicate ReadsOutside(gr: Gr, host: Option<Vram>, w: nat, y: nat, x: nat) {
    var span := Drop(gr, DstPitch(gr)) + w;
    forall at :: IsRead(gr, host, w, y, x, at) ==>
        at < Lowest(gr, DstStart(gr), span) || at > Highest(gr, DstStart(gr), span)
  }

  /** A transfer into a rectangle that fits, of a byte that is read outside it. */
  lemma OutsideTransferred(e: Engine, host: Option<Vram>, w: nat, y: nat, x: nat, at: int)
    requires w == RowBytes(e.vram, e.gr) && Fits(e.gr, w, |e.vram|) && y < Tall(e.gr) && x < w
    requires ReadsOutside(e.gr, host, w, y, x) && at == StoredAt(e.gr, y, x)
    ensures at == Along(e.gr, DstStart(e.gr), Place(DstPitch(e.gr), y, x)) && 0 <= at < |e.vram|
    ensures |BlitIn(e, host).vram| == |e.vram|
    ensures Becomes(e.gr, host, e.vram, w, y, x, e.vram[at], BlitIn(e, host).vram[at])
  {
    var gr := e.gr;
    StoredAtPlace(gr, w, |e.vram|, y, x);
    forall j: nat, i: nat | i < w && Earlier(j, i, y, x)
      ensures StoredAt(gr, j, i) != at && !IsRead(gr, host, w, y, x, StoredAt(gr, j, i))
    {
      StoresApart(gr, w, |e.vram|, j, i, y, x);
      StoredAtPlace(gr, w, |e.vram|, j, i);
    }
    forall j: nat, i: nat | i < w && j < Tall(gr) && Earlier(y, x, j, i)
      ensures StoredAt(gr, j, i) != at
    {
      StoresApart(gr, w, |e.vram|, y, x, j, i);
    }
    ByteTransferred(e, host, w, y, x, at);
  }

  /** How far a copy or a stream reads from its first byte: the rows of a copy, with its last pixel whole if pixels are
      compared, or a stream's bytes. */
  function SourceSpan(gr: Gr, w: nat): nat {
    if Expanded(gr) then Offset(Tall(gr), WholePieces(w, Eight(gr)))
    else Drop(gr, SrcPitch(gr)) + if Transparent(gr) then Offset(WholePieces(w, Pixel(gr)), Pixel(gr)) else w
  }

  /** The source, if it is in the memory at all, lies wholly below or wholly above the destination rectangle; going
      back, the rows of a copy do not run into address 0. */
  predicate SourceApart(gr: Gr, host: Option<Vram>, w: nat) {
    var span := Drop(gr, DstPitch(gr)) + w;
    var low, high := Lowest(gr, DstStart(gr), span), Highest(gr, DstStart(gr), span);
    if Solid(gr) || (host.Some? && !Tiled(gr)) then true
    else if Tiled(gr) then
      if Expanded(gr) then SrcStart(gr) + 8 <= low || high < SrcStart(gr)
      else SrcStart(gr) - SrcStart(gr) % 4 + 8 * Eight(gr) <= low || high < SrcStart(gr) - SrcStart(gr) % 4
    else
      && (Highest(gr, SrcStart(gr), SourceSpan(gr, w)) < low || high < Lowest(gr, SrcStart(gr), SourceSpan(gr, w)))
      && (Expanded(gr) || !Backward(gr) || Drop(gr, SrcPitch(gr)) <= SrcStart(gr))
  }

  lemma TileWithin(gr: Gr, y: nat, x: nat)
    ensures 0 <= TileAt(gr, y, x) - (SrcStart(gr) - SrcStart(gr) % 4) < 8 * Eight(gr)
  {
    MulMono(Eight(gr), y % 8, 7);
  }

  lemma PieceBelow(w: nat, piece: nat, x: nat)
    requires piece > 0 && x < w
    ensures x / piece < WholePieces(w, piece)
    ensures x - x % piece + piece <= Offset(WholePieces(w, piece), piece)
  {
    var q, n := x / piece, WholePieces(w, piece);
    DivModLaw(x, piece);
    DivModLaw(w + piece - 1, piece);
    if n <= q {
      MulMono(piece, n, q);
      assert false;
    }
    MulMono(piece, q + 1, n);
    assert piece * (q + 1) == piece * q + piece;
  }

  lemma RowWithin(rows: nat, step: nat, y: nat, q: nat)
    requires y < rows && q < step
    ensures Offset(y, step) + q < Offset(rows, step)
  {
    MulMono(step, y + 1, rows);
    assert (y + 1) * step == y * step + step;
  }

  lemma StreamWithin(gr: Gr, w: nat, y: nat, x: nat)
    requires y < Tall(gr) && x < w
    ensures var span := Offset(Tall(gr), WholePieces(w, Eight(gr)));
            Lowest(gr, SrcStart(gr), span) <= StreamAt(gr, w, y, x) <= Highest(gr, SrcStart(gr), span)
  {
    PieceBelow(w, Eight(gr), x);
    RowWithin(Tall(gr), WholePieces(w, Eight(gr)), y, x / Eight(gr));
  }

  lemma FetchedAtPlace(gr: Gr, y: nat, x: nat)
    requires y < Tall(gr) && (Backward(gr) ==> Drop(gr, SrcPitch(gr)) <= SrcStart(gr))
    ensures FetchedAt(gr, y, x) == Along(gr, SrcStart(gr), Place(SrcPitch(gr), y, x))
  {
    PlaceWithin(SrcPitch(gr), Tall(gr), 1, y, 0);
  }

  lemma FetchWithin(gr: Gr, y: nat, x: nat, n: nat)
    requires y < Tall(gr) && x < n && (Backward(gr) ==> Drop(gr, SrcPitch(gr)) <= SrcStart(gr))
    ensures var span := Drop(gr, SrcPitch(gr)) + n;
            Lowest(gr, SrcStart(gr), span) <= FetchedAt(gr, y, x) <= Highest(gr, SrcStart(gr), span)
  {
    FetchedAtPlace(gr, y, x);
    PlaceWithin(SrcPitch(gr), Tall(gr), n, y, x);
  }

  lemma PixelWithin(gr: Gr, w: nat, y: nat, x: nat, at: int)
    requires y < Tall(gr) && x < w && InPixel(gr, y, x, at)
    requires Backward(gr) ==> Drop(gr, SrcPitch(gr)) <= SrcStart(gr)
    ensures var span := Drop(gr, SrcPitch(gr)) + Offset(WholePieces(w, Pixel(gr)), Pixel(gr));
            Lowest(gr, SrcStart(gr), span) <= at <= Highest(gr, SrcStart(gr), span)
  {
    PieceBelow(w, Pixel(gr), x);
    PixelBetween(gr, y, x - x % Pixel(gr), x - x % Pixel(gr) + Pixel(gr) - 1,
                 Offset(WholePieces(w, Pixel(gr)), Pixel(gr)), at);
  }

  lemma PixelBetween(gr: Gr, y: nat, first: nat, last: nat, n: nat, at: int)
    requires y < Tall(gr) && first <= last < n && (Backward(gr) ==> Drop(gr, SrcPitch(gr)) <= SrcStart(gr))
    requires if Backward(gr) then FetchedAt(gr, y, last) <= at <= FetchedAt(gr, y, first)
             else FetchedAt(gr, y, first) <= at <= FetchedAt(gr, y, last)
    ensures var span := Drop(gr, SrcPitch(gr)) + n;
            Lowest(gr, SrcStart(gr), span) <= at <= Highest(gr, SrcStart(gr), span)
  {
    FetchWithin(gr, y, first, n);
    FetchWithin(gr, y, last, n);
  }

  lemma ApartIsOutside(gr: Gr, host: Option<Vram>, w: nat, y: nat, x: nat)
    requires SourceApart(gr, host, w) && y < Tall(gr) && x < w
    ensures ReadsOutside(gr, host, w, y, x)
  {
    forall at | IsRead(gr, host, w, y, x, at)
      ensures var span := Drop(gr, DstPitch(gr)) + w;
              at < Lowest(gr, DstStart(gr), span) || at > Highest(gr, DstStart(gr), span)
    {
      ReadIsApart(gr, host, w, y, x, at);
    }
  }

  lemma ReadIsApart(gr: Gr, host: Option<Vram>, w: nat, y: nat, x: nat, at: int)
    requires SourceApart(gr, host, w) && y < Tall(gr) && x < w && IsRead(gr, host, w, y, x, at)
    ensures var span := Drop(gr, DstPitch(gr)) + w;
            at < Lowest(gr, DstStart(gr), span) || at > Highest(gr, DstStart(gr), span)
  {
    if Tiled(gr) { TileWithin(gr, y, x); }
    else if Expanded(gr) { StreamWithin(gr, w, y, x); }
    else if Transparent(gr) { PixelWithin(gr, w, y, x, at); }
    else { FetchWithin(gr, y, x, w); }
  }

  /** Every transfer whose rectangle fits and whose source is apart from it, in any mode: the byte `y` pitches and `x`
      bytes from the start, or back from it, becomes what its source byte makes of it. */
  lemma RectangleTransferred(e: Engine, host: Option<Vram>, w: nat, y: nat, x: nat, at: int)
    requires w == RowBytes(e.vram, e.gr) && Fits(e.gr, w, |e.vram|) && SourceApart(e.gr, host, w)
    requires y < Tall(e.gr) && x < w && at == Along(e.gr, DstStart(e.gr), Place(DstPitch(e.gr), y, x))
    ensures 0 <= at < |e.vram| == |BlitIn(e, host).vram|
    ensures Becomes(e.gr, host, e.vram, w, y, x, e.vram[at], BlitIn(e, host).vram[at])
  {
    ApartIsOutside(e.gr, host, w, y, x);
    StoredAtPlace(e.gr, w, |e.vram|, y, x);
    OutsideTransferred(e, host, w, y, x, at);
  }

  /** A copy between overlapping rectangles of one pitch, in the direction of travel: towards lower addresses going up,
      towards higher ones going back. */
  predicate Scrolls(gr: Gr) {
    && !Tiled(gr) && !Expanded(gr) && !Transparent(gr) && SrcPitch(gr) == DstPitch(gr)
    && if Backward(gr) then Drop(gr, SrcPitch(gr)) <= SrcStart(gr) <= DstStart(gr) else DstStart(gr) <= SrcStart(gr)
  }

  lemma ScrollReadsAhead(gr: Gr, w: nat, len: nat, j: nat, i: nat, y: nat, x: nat)
    requires Scrolls(gr) && Fits(gr, w, len) && y < Tall(gr) && x < w && i < w && Earlier(j, i, y, x)
    ensures StoredAt(gr, j, i) != FetchedAt(gr, y, x) && StoredAt(gr, j, i) != StoredAt(gr, y, x)
  {
    FetchedAtPlace(gr, y, x);
    StoredAtPlace(gr, w, len, j, i);
    StoresApart(gr, w, len, j, i, y, x);
    PlacesGrow(DstPitch(gr), w, j, i, y, x);
  }

  /** Such a copy is a move of the original rectangle. */
  lemma ScrollTransferred(e: Engine, w: nat, y: nat, x: nat, at: int, from: int)
    requires w == RowBytes(e.vram, e.gr) && Fits(e.gr, w, |e.vram|) && Scrolls(e.gr) && y < Tall(e.gr) && x < w
    requires at == Along(e.gr, DstStart(e.gr), Place(DstPitch(e.gr), y, x))
    requires from == Along(e.gr, SrcStart(e.gr), Place(SrcPitch(e.gr), y, x))
    ensures 0 <= at < |e.vram| == |BlitIn(e, None).vram|
    ensures Combines(Reg(e.gr, 0x32), Held(e.vram, from), e.vram[at], BlitIn(e, None).vram[at])
  {
    var gr := e.gr;
    StoredAtPlace(gr, w, |e.vram|, y, x);
    FetchedAtPlace(gr, y, x);
    forall j: nat, i: nat | i < w && Earlier(j, i, y, x)
      ensures StoredAt(gr, j, i) != at && !IsRead(gr, None, w, y, x, StoredAt(gr, j, i))
    {
      ScrollReadsAhead(gr, w, |e.vram|, j, i, y, x);
    }
    forall j: nat, i: nat | i < w && j < Tall(gr) && Earlier(y, x, j, i)
      ensures StoredAt(gr, j, i) != at
    {
      StoresApart(gr, w, |e.vram|, y, x, j, i);
    }
    ByteTransferred(e, None, w, y, x, at);
  }

  // ---- the registers afterwards -----------------------------------------------------------------

  /** Where both counters stop: the destination past its last row; the source past its last row or stream byte, and
      where it was for patterns and host data. */
  predicate Counted(gr: Gr, host: Option<Vram>, w: nat, after: Gr) {
    && DstStart(after) == Along(gr, DstStart(gr), Drop(gr, DstPitch(gr)) + w) % 0x20_0000
    && SrcStart(after) == if Tiled(gr) || host.Some? then SrcStart(gr)
                          else if Expanded(gr) then
                            Along(gr, SrcStart(gr), Offset(Tall(gr), WholePieces(w, Eight(gr)))) % 0x20_0000
                          else Along(gr, SrcStart(gr), Drop(gr, SrcPitch(gr)) + w) % 0x20_0000
  }

  /** Every other register, and the upper three bits of the two topmost address registers. */
  predicate KeepsOthers(gr: Gr, after: Gr) {
    && Reg(after, 0x2A) / 0x20 == Reg(gr, 0x2A) / 0x20 && Reg(after, 0x2E) / 0x20 == Reg(gr, 0x2E) / 0x20
    && forall i: nat :: i < GR_COUNT && i !in {0x28, 0x29, 0x2A, 0x2C, 0x2D, 0x2E} ==> Reg(after, i) == Reg(gr, i)
  }

  lemma AddressStored(gr: Gr, low: nat, to: int)
    requires low == 0x28 || low == 0x2C
    ensures var after, a := SetAddr(gr, low, to), to % 0x20_0000;
            && Reg(after, low) + 0x100 * Reg(after, low + 1) + 0x1_0000 * (Reg(after, low + 2) % 0x20) == a
            && Reg(after, low + 2) / 0x20 == Reg(gr, low + 2) / 0x20
            && forall i: nat :: i < GR_COUNT && !(low <= i < low + 3) ==> Reg(after, i) == Reg(gr, i)
  {
    var a := to % 0x20_0000;
    assert a == a % 256 + a / 256 % 256 * 256 + a / 0x1_0000 * 0x1_0000;
    var top := Reg(gr, low + 2) / 0x20 * 0x20 + a / 0x1_0000;
    assert top % 0x20 == a / 0x1_0000 && top / 0x20 == Reg(gr, low + 2) / 0x20;
  }

  lemma BothStored(gr: Gr, dst: int, src: int)
    ensures var after := SetAddr(SetAddr(gr, DST_ADDR_LO, dst), SRC_ADDR_LO, src);
            DstStart(after) == dst % 0x20_0000 && SrcStart(after) == src % 0x20_0000 && KeepsOthers(gr, after)
  {
    var mid := SetAddr(gr, DST_ADDR_LO, dst);
    AddressStored(gr, 0x28, dst);
    AddressStored(mid, 0x2C, src);
  }

  /** Where the source counter is left, before it is cut to 21 bits. */
  function SourceStop(gr: Gr, host: Option<Vram>, w: nat): int {
    if Tiled(gr) || host.Some? then SrcStart(gr)
    else if Expanded(gr) then Along(gr, SrcStart(gr), Offset(Tall(gr), WholePieces(w, Eight(gr))))
    else Along(gr, SrcStart(gr), Drop(gr, SrcPitch(gr)) + w)
  }

  lemma LastTap(gr: Gr, host: Option<Vram>, w: nat, m: Mode, s: Flow, r: Rect)
    requires Framed(gr, w, m, r) && Described(gr, host, w, m)
    requires s.t == TapFor(gr, host, w, 0, 0) && TapOk(m, s.t)
    ensures ModeRows(m, s, r, 0).t == TapFor(gr, host, w, Tall(gr), 0)
  {
    RowsSplitAt(m, s, r, r.rows);
    TapsDown(gr, host, w, m, s, r, r.rows);
  }

  lemma CountersAre(gr: Gr, host: Option<Vram>, w: nat, m: Mode, r: Rect, t: Tap)
    requires Framed(gr, w, m, r) && Described(gr, host, w, m) && t == TapFor(gr, host, w, Tall(gr), 0)
    ensures SourceEnd(m, r, t) == SourceStop(gr, host, w)
    ensures Onward(m.p.back, r.dst, Span(r.rows - 1, r.dstPitch, r.width)) ==
            Along(gr, DstStart(gr), Drop(gr, DstPitch(gr)) + w)
  {
    SmallMod(0, Eight(gr));
  }

  lemma StopsWithin(gr: Gr, host: Option<Vram>, w: nat, after: Gr)
    requires DstStart(after) == Along(gr, DstStart(gr), Drop(gr, DstPitch(gr)) + w) % 0x20_0000
    requires SrcStart(after) == SourceStop(gr, host, w) % 0x20_0000
    ensures Counted(gr, host, w, after)
  {
    SmallMod(SrcStart(gr), 0x20_0000);
  }

  lemma CountersMove(e: Engine, host: Option<Vram>, w: nat)
    requires w == RowBytes(e.vram, e.gr)
    ensures var after := BlitIn(e, host).gr; Counted(e.gr, host, w, after) && KeepsOthers(e.gr, after)
  {
    var gr, m, r := e.gr, ModeOf(e.gr, host, w), Rectangle(e.vram, e.gr);
    var s := Flow(e.vram, Tap(r.src, 0));
    RectangleFramed(e.vram, gr, host);
    ModeDescribed(gr, host, w);
    FirstTap(gr, host, w);
    LastTap(gr, host, w, m, s, r);
    CountersAre(gr, host, w, m, r, ModeRows(m, s, r, 0).t);
    BothStored(gr, Along(gr, DstStart(gr), Drop(gr, DstPitch(gr)) + w), SourceStop(gr, host, w));
    StopsWithin(gr, host, w, BlitIn(e, host).gr);
  }

  lemma ProductIs(a: nat, b: nat)
    ensures Product(a, b) == Offset(b, a)
  {
  }

  /** A host-fed transfer waits for its rows of host bytes, at least one byte. */
  lemma HostBytesExpected(gr: Gr)
    ensures var n := Offset(Tall(gr), HostPitch(gr, Wide(gr))); Expected(gr) == if n == 0 then 1 else n
  {
    HostPitchIs(gr, Wide(gr));
    ProductIs(HostPitch(gr, Wide(gr)), Tall(gr));
    assert Width(gr) == Wide(gr) && LastRow(gr) + 1 == Tall(gr);
  }
}
