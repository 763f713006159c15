/**
 When an area blit is free of hazards, from its addresses alone (crates/machine-core/src/blitter.rs
 `execute_area`): the destination follows each source in the direction of travel, or shares no word with it.
 */
module BlitterHazards {
  import opened Bits
  import opened BlitterWord
  import opened Blitter
  import opened BlitterArea

  // ---- where a channel's words lie -----------------------------------------------------------------

  /** How far word `j` lies from the first word, in bytes, for rows of `w` words and a modulo of `m`. */
  function Along(w: nat, m: nat, j: nat): nat {
    if j == 0 then 0 else Along(w, m, j - 1) + 2 + (if Col(w, j) == 0 then m else 0)
  }

  function Place(desc: bool, p: int, d: nat): int { if desc then p - d else p + d }

  function Turned(desc: bool, m: int): int { if desc then -m else m }

  lemma {:induction false} AlongGrows(w: nat, m: nat, k: nat, j: nat)
    requires k <= j
    ensures Along(w, m, j) >= Along(w, m, k) + 2 * (j - k)
    decreases j
  {
    if k < j { AlongGrows(w, m, k, j - 1); }
  }

  /** Row `r`, column `i` of the rectangle, in bytes from its first word. */
  function Offset(w: nat, m: nat, r: nat, i: nat): int { r * (2 * w + m) + 2 * i }

  lemma {:induction false} AlongIsOffset(w: nat, m: nat, j: nat, r: nat, i: nat)
    requires IsCell(w, j, r, i)
    ensures Along(w, m, j) == Offset(w, m, r, i)
    decreases j
  {
    CellColumn(w, j, r, i);
    if i > 0 {
      AlongIsOffset(w, m, j - 1, r, i - 1);
    } else if r > 0 {
      assert r * w == (r - 1) * w + w;
      MulMono(w, 0, r - 1);
      AlongIsOffset(w, m, j - 1, r - 1, w - 1);
      assert r * (2 * w + m) == (r - 1) * (2 * w + m) + (2 * w + m);
    }
  }

  lemma WrapIdle(x: int)
    requires 0 <= x < U32_RANGE
    ensures Wrap32(x) == x
  {
    SmallMod(x, U32_RANGE);
  }

  /** A pointer that never leaves the RAM moves without wrapping. */
  lemma {:induction false} PtrInside(s: Setup, p: u32, mod: int, m: nat, j: nat)
    requires p < CHIP_RAM_SIZE && mod == Turned(s.desc, m)
    requires 0 <= Place(s.desc, p, Along(s.width, m, j)) < CHIP_RAM_SIZE
    ensures Ptr(s, true, p, mod, j) == Place(s.desc, p, Along(s.width, m, j))
  {
    if j > 0 {
      var k := j - 1;
      PtrInside(s, p, mod, m, k);
      var q := Place(s.desc, p, Along(s.width, m, k));
      WrapIdle(q + Stride(s.desc));
      WrapIdle(q + Stride(s.desc) + if Col(s.width, j) == 0 then mod else 0);
    }
  }

  lemma WordInside(p: int)
    requires 0 <= p < CHIP_RAM_SIZE
    ensures WordAt(p) == p / 2
  {
    SmallMod(p / 2, WORDS);
  }

  /** A `w` by `h` rectangle of words whose rows are `m` bytes apart, by its top left byte. */
  datatype Shape = Shape(w: nat, h: nat, m: nat)

  function Last(s: Shape): int
    requires s.w > 0 && s.h > 0
  {
    Offset(s.w, s.m, s.h - 1, s.w - 1)
  }

  lemma {:induction false} OffsetBounds(s: Shape, r: nat, i: nat)
    requires r < s.h && i < s.w
    ensures 0 <= Offset(s.w, s.m, r, i) <= Last(s)
  {
    MulMono(2 * s.w + s.m, 0, r);
    MulMono(2 * s.w + s.m, r, s.h - 1);
  }

  /** A channel: its first pointer and its modulo, before the direction is applied. */
  datatype Lane = Lane(ptr: u32, m: nat)

  /** Byte address of word `j` of a lane. */
  function At(desc: bool, w: nat, l: Lane, j: nat): int { Place(desc, l.ptr, Along(w, l.m, j)) }

  /** The first and the last of the lane's `n` words, hence all of them, lie in the RAM. */
  predicate LaneInside(desc: bool, w: nat, n: nat, l: Lane) {
    l.ptr < CHIP_RAM_SIZE && (n > 0 ==> 0 <= At(desc, w, l, n - 1) < CHIP_RAM_SIZE)
  }

  /** It is enough to look at the two corners of the rectangle. */
  lemma InsideByCorners(desc: bool, w: nat, h: nat, n: nat, l: Lane)
    requires w > 0 && h > 0 && n == h * w
    ensures LaneInside(desc, w, n, l) <==>
            l.ptr < CHIP_RAM_SIZE && 0 <= Place(desc, l.ptr, Corner(w, h, l.m)) < CHIP_RAM_SIZE
  {
    OneRowLess(h, w);
    AlongIsOffset(w, l.m, n - 1, h - 1, w - 1);
  }

  function Corner(w: nat, h: nat, m: nat): nat
    requires w > 0 && h > 0
  {
    OffsetBounds(Shape(w, h, m), 0, 0);
    Last(Shape(w, h, m))
  }

  lemma LaneAt(s: Setup, n: nat, l: Lane, mod: int, j: nat)
    requires LaneInside(s.desc, s.width, n, l) && mod == Turned(s.desc, l.m) && j < n
    ensures 0 <= At(s.desc, s.width, l, j) < CHIP_RAM_SIZE
    ensures Ptr(s, true, l.ptr, mod, j) == At(s.desc, s.width, l, j)
    ensures WordAt(At(s.desc, s.width, l, j)) == At(s.desc, s.width, l, j) / 2
  {
    AlongGrows(s.width, l.m, j, n - 1);
    PtrInside(s, l.ptr, mod, l.m, j);
    WordInside(At(s.desc, s.width, l, j));
  }

  // ---- the destination follows the source ------------------------------------------------------------

  /** The destination is not ahead of the source in the direction of travel, with the same modulo. An
      operation in place is one case of this. */
  predicate Behind(desc: bool, d: Lane, a: Lane) { d.m == a.m && if desc then d.ptr >= a.ptr else d.ptr <= a.ptr }

  lemma PlacesApart(desc: bool, d: int, a: int, near: nat, far: nat)
    requires (if desc then d >= a else d <= a) && near + 2 <= far
    ensures Place(desc, d, near) / 2 != Place(desc, a, far) / 2
  {
  }

  lemma BehindIsClear(desc: bool, w: nat, d: Lane, a: Lane, k: nat, j: nat)
    requires Behind(desc, d, a) && k < j
    ensures At(desc, w, d, k) / 2 != At(desc, w, a, j) / 2
  {
    AlongGrows(w, d.m, k, j);
    PlacesApart(desc, d.ptr, a.ptr, Along(w, d.m, k), Along(w, d.m, j));
  }

  // ---- the destination shares no word with the source ------------------------------------------------------

  /** The lowest and the highest word index of `w` by `h` words. */
  function Lowest(desc: bool, l: Lane, w: nat, h: nat): int
    requires w > 0 && h > 0
  {
    (if desc then l.ptr - Last(Shape(w, h, l.m)) else l.ptr) / 2
  }

  function Highest(desc: bool, l: Lane, w: nat, h: nat): int
    requires w > 0 && h > 0
  {
    (if desc then l.ptr else l.ptr + Last(Shape(w, h, l.m))) / 2
  }

  /** One lies wholly below the other. */
  predicate SpansApart(desc: bool, d: Lane, a: Lane, w: nat, h: nat)
    requires w > 0 && h > 0
  {
    Highest(desc, d, w, h) < Lowest(desc, a, w, h) || Highest(desc, a, w, h) < Lowest(desc, d, w, h)
  }

  /** Rows of the same pitch whose columns do not meet: side by side in one bitmap, at any height. */
  predicate SideBySide(d: Lane, a: Lane, w: nat) {
    && d.m == a.m && d.m % 2 == 0 && d.ptr % 2 == 0 && a.ptr % 2 == 0
    && w > 0 && w <= (AsInt(d.ptr) / 2 - a.ptr / 2) % (w + d.m / 2) <= d.m / 2
  }

  lemma WithinSpan(desc: bool, l: Lane, w: nat, h: nat, j: nat)
    requires w > 0 && j < h * w
    ensures h > 0 && Lowest(desc, l, w, h) <= At(desc, w, l, j) / 2 <= Highest(desc, l, w, h)
  {
    var r, i := CellOf(w, j, h);
    AlongIsOffset(w, l.m, j, r, i);
    OffsetBounds(Shape(w, h, l.m), r, i);
    HalvesOrdered(if desc then l.ptr - Last(Shape(w, h, l.m)) else l.ptr, At(desc, w, l, j));
    HalvesOrdered(At(desc, w, l, j), if desc then l.ptr else l.ptr + Last(Shape(w, h, l.m)));
  }

  lemma HalvesOrdered(x: int, y: int)
    requires x <= y
    ensures x / 2 <= y / 2
  {
  }

  lemma SpansApartIsClear(desc: bool, d: Lane, a: Lane, w: nat, h: nat, k: nat, j: nat)
    requires w > 0 && h > 0 && SpansApart(desc, d, a, w, h) && k < h * w && j < h * w
    ensures At(desc, w, d, k) / 2 != At(desc, w, a, j) / 2
  {
    WithinSpan(desc, d, w, h, k);
    WithinSpan(desc, a, w, h, j);
  }

  /** The word of a cell, in whole words: the pitch is `pitch` words. */
  lemma WordOfCell(desc: bool, w: nat, l: Lane, j: nat, r: nat, i: nat, pitch: nat)
    requires IsCell(w, j, r, i) && l.m % 2 == 0 && l.ptr % 2 == 0 && pitch == w + l.m / 2
    ensures At(desc, w, l, j) / 2 == Place(desc, l.ptr / 2, CellWords(pitch, r, i))
  {
    AlongIsOffset(w, l.m, j, r, i);
    PitchInWords(w, l.m, pitch, r);
    HalfPlace(desc, l.ptr, CellWords(pitch, r, i));
  }

  lemma PitchInWords(w: nat, m: nat, pitch: nat, r: nat)
    requires 2 * pitch == 2 * w + m
    ensures r * (2 * w + m) == 2 * (r * pitch)
  {
    var p := 2 * w + m;
    assert r * p == r * (2 * pitch);
  }

  function CellWords(pitch: nat, r: nat, i: nat): nat {
    MulMono(pitch, 0, r);
    r * pitch + i
  }

  lemma HalfPlace(desc: bool, p: int, c: nat)
    requires p % 2 == 0
    ensures Place(desc, p, 2 * c) / 2 == Place(desc, p / 2, c)
  {
  }

  /** Equal words would make the distance of the two lanes the difference of two columns, up to whole rows. */
  lemma ColumnsMeet(delta: int, pitch: nat, rows: int, di: int, w: nat)
    requires 0 < w <= pitch && delta == rows * pitch + di && 0 < di + w < 2 * w
    ensures delta % pitch < w || delta % pitch > pitch - w
  {
    assert pitch * rows == rows * pitch;
    if di >= 0 {
      ModUnique(delta, pitch, rows, di);
    } else {
      assert pitch * (rows - 1) == pitch * rows - pitch;
      ModUnique(delta, pitch, rows - 1, di + pitch);
    }
  }

  lemma CellsApart(desc: bool, d: int, a: int, pitch: nat, w: nat, r: nat, i: nat, r': nat, i': nat)
    requires 0 < w <= pitch && w <= (d - a) % pitch <= pitch - w && i < w && i' < w
    ensures Place(desc, d, CellWords(pitch, r, i)) != Place(desc, a, CellWords(pitch, r', i'))
  {
    var rows, di := if desc then r - r' else r' - r, if desc then i - i' else i' - i;
    assert rows * pitch == (if desc then r * pitch - r' * pitch else r' * pitch - r * pitch);
    if d - a == rows * pitch + di { ColumnsMeet(d - a, pitch, rows, di, w); }
  }

  lemma SideBySideIsClear(desc: bool, d: Lane, a: Lane, w: nat, h: nat, k: nat, j: nat)
    requires SideBySide(d, a, w) && k < h * w && j < h * w
    ensures At(desc, w, d, k) / 2 != At(desc, w, a, j) / 2
  {
    var pitch := w + d.m / 2;
    var r, i := CellOf(w, k, h);
    var r', i' := CellOf(w, j, h);
    WordOfCell(desc, w, d, k, r, i, pitch);
    WordOfCell(desc, w, a, j, r', i', pitch);
    CellsApart(desc, d.ptr / 2, a.ptr / 2, pitch, w, r, i, r', i');
  }

  // ---- all channels ---------------------------------------------------------------------------------------------

  /** What a caller can check: the destination follows the source, or lies apart from it. */
  predicate Safe(desc: bool, d: Lane, a: Lane, w: nat, h: nat) {
    w > 0 && h > 0 && (Behind(desc, d, a) || SpansApart(desc, d, a, w, h) || SideBySide(d, a, w))
  }

  lemma SafeIsClear(desc: bool, d: Lane, a: Lane, w: nat, h: nat, k: nat, j: nat)
    requires Safe(desc, d, a, w, h) && k < j < h * w
    ensures At(desc, w, d, k) / 2 != At(desc, w, a, j) / 2
  {
    if Behind(desc, d, a) {
      BehindIsClear(desc, w, d, a, k, j);
    } else if SpansApart(desc, d, a, w, h) {
      SpansApartIsClear(desc, d, a, w, h, k, j);
    } else {
      SideBySideIsClear(desc, d, a, w, h, k, j);
    }
  }

  datatype Lanes = Lanes(a: Lane, b: Lane, c: Lane, d: Lane)

  /** One enabled channel of a transfer runs along a lane inside the RAM. */
  predicate Runs(s: Setup, n: nat, ptr: u32, mod: int, l: Lane) {
    ptr == l.ptr && mod == Turned(s.desc, l.m) && LaneInside(s.desc, s.width, n, l)
  }

  /** Every enabled channel runs along its lane, and the destination is safe against each source. */
  predicate Laid(t: Job, h: nat, n: nat, ls: Lanes) {
    var s, f := t.s, t.f;
    && Runs(s, n, f.dpt, s.dmod, ls.d)
    && (s.useA ==> Runs(s, n, f.apt, s.amod, ls.a) && Safe(s.desc, ls.d, ls.a, s.width, h))
    && (s.useB ==> Runs(s, n, f.bpt, s.bmod, ls.b) && Safe(s.desc, ls.d, ls.b, s.width, h))
    && (s.useC ==> Runs(s, n, f.cpt, s.cmod, ls.c) && Safe(s.desc, ls.d, ls.c, s.width, h))
  }

  lemma LaneIsClear(s: Setup, n: nat, h: nat, d: Lane, dmod: int, a: Lane, amod: int, k: nat, j: nat)
    requires n == h * s.width && k < j < n && Safe(s.desc, d, a, s.width, h)
    requires LaneInside(s.desc, s.width, n, d) && dmod == Turned(s.desc, d.m)
    requires LaneInside(s.desc, s.width, n, a) && amod == Turned(s.desc, a.m)
    ensures WordAt(Ptr(s, true, d.ptr, dmod, k)) != WordAt(Ptr(s, true, a.ptr, amod, j))
  {
    LaneAt(s, n, d, dmod, k);
    LaneAt(s, n, a, amod, j);
    SafeIsClear(s.desc, d, a, s.width, h, k, j);
  }

  /** A destination is always behind itself. */
  lemma LanesAreClear(t: Job, h: nat, n: nat, ls: Lanes, k: nat, j: nat)
    requires Laid(t, h, n, ls) && t.s.useD && n == h * t.s.width && k < j < n
    ensures Clear(t, k, j)
  {
    var s := t.s;
    assert Safe(s.desc, ls.d, ls.d, s.width, h) by { if h == 0 || s.width == 0 { assert false; } }
    LaneIsClear(s, n, h, ls.d, s.dmod, ls.d, s.dmod, k, j);
    if s.useA { LaneIsClear(s, n, h, ls.d, s.dmod, ls.a, s.amod, k, j); }
    if s.useB { LaneIsClear(s, n, h, ls.d, s.dmod, ls.b, s.bmod, k, j); }
    if s.useC { LaneIsClear(s, n, h, ls.d, s.dmod, ls.c, s.cmod, k, j); }
  }

  /** Addresses alone: no word is fetched after it was overwritten, and none is written twice. */
  lemma LanesAreHazardFree(t: Job, h: nat, n: nat, ls: Lanes)
    requires Laid(t, h, n, ls) && n == h * t.s.width
    ensures HazardFree(t, n)
  {
    if t.s.useD {
      forall k: nat, j: nat | k < j < n
        ensures Clear(t, k, j)
      {
        LanesAreClear(t, h, n, ls, k, j);
      }
    }
  }
}
