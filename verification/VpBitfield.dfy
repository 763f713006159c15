/**
 Bit-field extract and insert (crates/m68k-vp/src/interp.rs `bf_read`, `bf_write`).

 Memory is one bit string, most significant bit of each byte first. A field of `width` bits at
 `offset` from `base` is the bits `8 * base + offset` onwards of that string, wherever the byte
 boundaries and the end of the buffer fall.
 */
module VpBitfield {
  import opened Bits
  import opened VpIr

  /** Bit `p` of memory seen as one big-endian bit string that repeats every `8 * |m|` bits. */
  predicate MemBit(m: Mem, p: int) { Bit(ReadU8(m, p / 8), 7 - p % 8) }

  /** Accumulate `n` bytes, most significant first. */
  method GatherBytes(m: Mem, start: int, n: nat) returns (buf: nat)
    ensures buf == Gather(m, start, n)
  {
    buf := 0;
    for i := 0 to n
      invariant buf == Gather(m, start, i)
    {
      buf := buf * 256 + ReadU8(m, start + i);
    }
  }

  /** Store `n` bytes, last one first. */
  method ScatterBytes(mem: VpMemory, start: int, n: nat, v: nat)
    modifies mem
    ensures mem.buf == Scatter(old(mem.buf), start, n, v)
  {
    var buf := v;
    for i := n downto 0
      invariant Scatter(mem.buf, start, i, buf) == Scatter(old(mem.buf), start, n, v)
    {
      mem.buf := WriteU8(mem.buf, start + i, buf % 256);
      buf := buf / 256;
    }
  }

  method ReadField(m: Mem, base: u32, offset: nat, width: nat) returns (r: nat)
    ensures r == BfRead(m, base, offset, width)
  {
    var buf := GatherBytes(m, base + offset / 8, FieldBytes(offset, width));
    r := Low(Shr(buf, BfShift(offset, width)), width);
  }

  method WriteField(mem: VpMemory, base: u32, offset: nat, width: nat, value: nat)
    modifies mem
    ensures mem.buf == BfWrite(old(mem.buf), base, offset, width, value)
  {
    var start, n, shift := base + offset / 8, FieldBytes(offset, width), BfShift(offset, width);
    var buf := GatherBytes(mem.buf, start, n);
    var v := Spliced(buf, shift, width, value);
    WriteIsScatter(mem.buf, base, offset, width, value, start, n, shift, buf, v);
    ScatterBytes(mem, start, n, v);
  }

  lemma WriteIsScatter(m: Mem, base: int, offset: nat, width: nat, value: nat, start: int, n: nat, shift: nat,
                       buf: nat, v: nat)
    requires start == base + offset / 8 && n == FieldBytes(offset, width) && shift == BfShift(offset, width)
    requires buf == Gather(m, start, n) && v == Spliced(buf, shift, width, value)
    ensures BfWrite(m, base, offset, width, value) == Scatter(m, start, n, v)
  {
  }

  // ---- bits of gathered and scattered bytes ---------------------------------------

  /** Bit `k` of byte `i` from the end of a gathered number. */
  lemma {:induction false} GatherBit(m: Mem, addr: int, n: nat, i: nat, k: nat, q: nat)
    requires i < n && k < 8 && q == 8 * i + k
    ensures Bit(Gather(m, addr, n), q) == Bit(ReadU8(m, addr + (n - 1 - i)), k)
    decreases n
  {
    Pow2Values();
    AppendBits(Gather(m, addr, n - 1), ReadU8(m, addr + n - 1), 8, q);
    if i > 0 { GatherBit(m, addr, n - 1, i - 1, k, q - 8); }
  }

  function ByteOf(v: nat, i: nat): u8 { if i == 0 then v % 256 else ByteOf(v / 256, i - 1) }

  lemma {:induction false} ByteOfBit(v: nat, i: nat, k: nat)
    requires k < 8
    ensures Bit(ByteOf(v, i), k) == Bit(v, 8 * i + k)
  {
    Pow2Values();
    var j := if i == 0 then k else 8 * i + k;
    AppendBits(v / 256, v % 256, 8, j);
    if i > 0 { ByteOfBit(v / 256, i - 1, k); }
  }

  lemma {:induction false} ScatterByte(m: Mem, addr: int, n: nat, v: nat, j: nat)
    requires n <= |m| && j < |m|
    ensures |Scatter(m, addr, n, v)| == |m|
    ensures ReadU8(Scatter(m, addr, n, v), addr + j) ==
            if j < n then ByteOf(v, n - 1 - j) else ReadU8(m, addr + j)
    decreases n
  {
    if n > 0 {
      var m1 := WriteU8(m, addr + n - 1, v % 256);
      if j != n - 1 { DistinctBytes(|m|, addr, j, n - 1); }
      ScatterByte(m1, addr, n - 1, v / 256, j);
    }
  }

  lemma {:induction false} OnesBit(w: nat, k: nat)
    ensures Bit(Pow2(w) - 1, k) == (k < w)
  {
    if w == 0 {
      ZeroBits(k);
    } else {
      assert (Pow2(w) - 1) / 2 == Pow2(w - 1) - 1;
      if k > 0 { OnesBit(w - 1, k - 1); }
    }
  }

  /** The splice replaces the bits of the field and keeps every other bit of the 64-bit buffer. */
  lemma SplicedBit(buf: nat, shift: nat, width: nat, value: nat, k: nat)
    requires k < 64
    ensures Bit(Spliced(buf, shift, width, value), k) ==
            if shift <= k < shift + width then Bit(value, k - shift) else Bit(buf, k)
  {
    var mask := Shl(Pow2(width) - 1, shift);
    OrBit(And(buf, Not(mask, 64)), And(Shl(value, shift), mask), k);
    AndBit(buf, Not(mask, 64), k);
    AndBit(Shl(value, shift), mask, k);
    NotBit(mask, 64, k);
    ShlBit(Pow2(width) - 1, shift, k);
    ShlBit(value, shift, k);
    if k >= shift { OnesBit(width, k - shift); }
  }

  // ---- where a field lies ---------------------------------------------------------------

  /** The field's `n` bytes start at `start`; it begins `o` bits into the first and ends `shift` bits before
      the end of the last. */
  datatype Field = Field(start: int, o: nat, n: nat, shift: nat, width: nat)

  predicate Framed(f: Field) { f.o < 8 && f.shift < 8 && f.shift + f.o + f.width == 8 * f.n }

  function FieldOf(base: int, offset: nat, width: nat): Field {
    Field(base + offset / 8, offset % 8, FieldBytes(offset, width), BfShift(offset, width), width)
  }

  lemma FieldIsFramed(base: int, offset: nat, width: nat)
    ensures Framed(FieldOf(base, offset, width))
    ensures 8 * FieldOf(base, offset, width).start + FieldOf(base, offset, width).o == 8 * base + offset
  {
  }

  function Extracted(m: Mem, f: Field): nat { Low(Shr(Gather(m, f.start, f.n), f.shift), f.width) }

  function Inserted(m: Mem, f: Field, value: nat): Mem {
    Scatter(m, f.start, f.n, Spliced(Gather(m, f.start, f.n), f.shift, f.width, value))
  }

  /** Bit `t` from the left of byte `j` is memory bit `8 * (start + j) + t`. */
  lemma MemBitAt(m: Mem, x: int, byte: int, t: nat)
    requires x == 8 * byte + t && t < 8
    ensures MemBit(m, x) == Bit(ReadU8(m, byte), 7 - t)
  {
    DivMod8(x, byte, t);
  }

  lemma DivMod8(x: int, q: int, r: int)
    requires x == 8 * q + r && 0 <= r < 8
    ensures x / 8 == q && x % 8 == r
  {
  }

  // ---- the two operations, bit by bit ------------------------------------------------

  lemma ExtractedBit(m: Mem, f: Field, i: nat, j: nat, t: nat)
    requires Framed(f) && i < f.width && t < 8 && 8 * j + t == f.o + i
    ensures Bit(Extracted(m, f), f.width - 1 - i) == Bit(ReadU8(m, f.start + j), 7 - t)
  {
    var g, low := Gather(m, f.start, f.n), f.width - 1 - i;
    LowBit(Shr(g, f.shift), f.width, low);
    ShrBit(g, f.shift, low);
    GatherBit(m, f.start, f.n, f.n - 1 - j, 7 - t, f.shift + low);
  }

  /** Extract: bit `i` of the field, counted from its most significant end, is memory bit
      `8 * base + offset + i`. */
  lemma ReadFieldBits(m: Mem, base: int, offset: nat, width: nat, i: nat)
    requires i < width
    ensures Bit(BfRead(m, base, offset, width), width - 1 - i) == MemBit(m, 8 * base + offset + i)
  {
    var f := FieldOf(base, offset, width);
    FieldIsFramed(base, offset, width);
    var j, t := (f.o + i) / 8, (f.o + i) % 8;
    ExtractedBit(m, f, i, j, t);
    MemBitAt(m, 8 * base + offset + i, f.start + j, t);
  }

  /** Bit `t` from the left of byte `j` of a field is bit `q` of the gathered number, and bit `low` of the
      value if it belongs to the field. */
  lemma SplicedByteBit(m: Mem, f: Field, value: nat, g: nat, v: nat, j: nat, t: nat, i: nat, q: nat)
    requires Framed(f) && f.width <= 32 && j < f.n && t < 8 && i == f.n - 1 - j && q == 8 * i + (7 - t)
    requires g == Gather(m, f.start, f.n)
    requires Bit(v, q) == if f.shift <= q < f.shift + f.width then Bit(value, q - f.shift) else Bit(g, q)
    ensures Bit(ByteOf(v, i), 7 - t) ==
            if f.shift <= q < f.shift + f.width then Bit(value, q - f.shift) else Bit(ReadU8(m, f.start + j), 7 - t)
  {
    ByteOfBit(v, i, 7 - t);
    GatherBit(m, f.start, f.n, i, 7 - t, q);
    assert f.start + (f.n - 1 - i) == f.start + j;
  }

  lemma InsertedBit(m: Mem, f: Field, value: nat, j: nat, t: nat, d: int)
    requires Framed(f) && |m| >= 8 && f.width <= 32 && j < |m| && t < 8 && d == 8 * j + t - f.o
    ensures |Inserted(m, f, value)| == |m|
    ensures Bit(ReadU8(Inserted(m, f, value), f.start + j), 7 - t) ==
            if 0 <= d < f.width then Bit(value, f.width - 1 - d) else Bit(ReadU8(m, f.start + j), 7 - t)
  {
    var g := Gather(m, f.start, f.n);
    var v := Spliced(g, f.shift, f.width, value);
    ScatterByte(m, f.start, f.n, v, j);
    if j < f.n {
      var i := f.n - 1 - j;
      var q := 8 * i + (7 - t);
      SplicedBit(g, f.shift, f.width, value, q);
      SplicedByteBit(m, f, value, g, v, j, t, i, q);
      assert q - f.shift == f.width - 1 - d;
    }
  }

  /** Once round memory: `d` may take the walk back to the bits of the first byte that precede the field. */
  lemma WalkedBit(m: Mem, f: Field, value: nat, d: nat, j: nat, t: nat)
    requires Framed(f) && |m| >= 8 && f.width <= 32 && d < 8 * |m| && t < 8 && 8 * j + t == f.o + d
    ensures var w := Inserted(m, f, value);
            && |w| == |m|
            && Bit(ReadU8(w, f.start + j), 7 - t) ==
               if d < f.width then Bit(value, f.width - 1 - d) else Bit(ReadU8(m, f.start + j), 7 - t)
  {
    if j < |m| {
      InsertedBit(m, f, value, j, t, d);
    } else {
      BackAtFirstByte(m, f, Inserted(m, f, value), value, t);
    }
  }

  lemma BackAtFirstByte(m: Mem, f: Field, w: Mem, value: nat, t: nat)
    requires Framed(f) && |m| >= 8 && f.width <= 32 && t < f.o && w == Inserted(m, f, value)
    ensures |w| == |m| && Bit(ReadU8(w, f.start + |m|), 7 - t) == Bit(ReadU8(m, f.start + |m|), 7 - t)
  {
    InsertedBit(m, f, value, 0, t, t - f.o);
    SameByte(m, f.start);
    SameByte(w, f.start);
  }

  /** Insert: walking once round memory from the field's first bit, the field's bits become the bits
      of `value` and every other bit of memory keeps its value. */
  lemma WriteFieldBits(m: Mem, base: int, offset: nat, width: nat, value: nat, d: nat)
    requires |m| >= 8 && offset < 32 && 1 <= width <= 32 && d < 8 * |m|
    ensures |BfWrite(m, base, offset, width, value)| == |m|
    ensures MemBit(BfWrite(m, base, offset, width, value), 8 * base + offset + d) ==
            if d < width then Bit(value, width - 1 - d) else MemBit(m, 8 * base + offset + d)
  {
    var f, w := FieldOf(base, offset, width), BfWrite(m, base, offset, width, value);
    FieldIsFramed(base, offset, width);
    WriteIsInsert(m, base, offset, width, value, f, w);
    WalkedMemBit(m, f, w, value, d, 8 * base + offset + d);
  }

  lemma WriteIsInsert(m: Mem, base: int, offset: nat, width: nat, value: nat, f: Field, w: Mem)
    requires f == FieldOf(base, offset, width) && w == BfWrite(m, base, offset, width, value)
    ensures w == Inserted(m, f, value)
  {
    var g := Gather(m, f.start, f.n);
    WriteIsScatter(m, base, offset, width, value, f.start, f.n, f.shift, g, Spliced(g, f.shift, width, value));
  }

  lemma WalkedMemBit(m: Mem, f: Field, w: Mem, value: nat, d: nat, x: int)
    requires Framed(f) && |m| >= 8 && f.width <= 32 && d < 8 * |m| && w == Inserted(m, f, value)
    requires x == 8 * f.start + f.o + d
    ensures |w| == |m| && MemBit(w, x) == if d < f.width then Bit(value, f.width - 1 - d) else MemBit(m, x)
  {
    var j, t := (f.o + d) / 8, (f.o + d) % 8;
    var byte := f.start + j;
    WalkedBit(m, f, value, d, j, t);
    MemBitAt(m, x, byte, t);
    MemBitAt(w, x, byte, t);
  }

  lemma SameByte(m: Mem, addr: int)
    ensures ReadU8(m, addr + |m|) == ReadU8(m, addr)
  {
    IdxIsMod(addr, |m|);
    IdxIsMod(addr + |m|, |m|);
    var n := |m|;
    assert addr + n == n * (addr / n + 1) + addr % n by { DivModLaw(addr, n); }
    ModUnique(addr + n, n, addr / n + 1, addr % n);
  }

  lemma ExtractRange(m: Mem, base: int, offset: nat, width: nat)
    ensures BfRead(m, base, offset, width) < Pow2(width)
  {
    LowRange(Shr(Gather(m, base + offset / 8, FieldBytes(offset, width)), BfShift(offset, width)), width);
  }

  lemma ReadsInsertedBit(m: Mem, base: int, offset: nat, width: nat, value: nat, i: nat)
    requires |m| >= 8 && offset < 32 && 1 <= width <= 32 && i < width
    ensures Bit(BfRead(BfWrite(m, base, offset, width, value), base, offset, width), width - 1 - i) ==
            Bit(value, width - 1 - i)
  {
    ReadFieldBits(BfWrite(m, base, offset, width, value), base, offset, width, i);
    WriteFieldBits(m, base, offset, width, value, i);
  }

  /** Insert then extract gives back the inserted value. */
  lemma InsertThenExtract(m: Mem, base: int, offset: nat, width: nat, value: nat)
    requires |m| >= 8 && offset < 32 && 1 <= width <= 32 && value < Pow2(width)
    ensures BfRead(BfWrite(m, base, offset, width, value), base, offset, width) == value
  {
    var m' := BfWrite(m, base, offset, width, value);
    var r := BfRead(m', base, offset, width);
    ExtractRange(m', base, offset, width);
    forall k: nat | k < width
      ensures Bit(r, k) == Bit(value, k)
    {
      ReadsInsertedBit(m, base, offset, width, value, width - 1 - k);
    }
    Extensional(r, value, width);
  }
}
