/**
 BAR sizing and assignment over one bus scan (m68k/prometheus-library/prometheus_library.c
 `assign_bars`, `record_function`, `enumerate_bus0`).

 A memory BAR answers the sizing probe with a power-of-two mask (section 6.2.5.1 of the PCI Local Bus
 Specification 3.0). Regions are handed out ascending from one cursor shared by the whole scan.
 */
module PciBars {
  import opened Bits
  import opened Wrappers

  const MEM_BASE: u32 := 0x2000_0000
  const MEM_BYTES: u32 := 0x80_0000
  const MEM_LIMIT: u32 := MEM_BASE + MEM_BYTES
  const MAX_BOARDS := 32
  const ALL_ONES: u32 := 0xFFFF_FFFF
  const CMD_MEMORY_MASTER := 0x0006

  // ---- functions on the bus ------------------------------------------------------------

  /** One BAR register. A 32-bit memory BAR of `2^k` bytes holds its address in the bits from `k` up
      and its type in the low four. */
  datatype BarReg =
    | Absent
    | Io(value: u32)
    | Mem64(value: u32)
    | Mem32(k: nat, kind: nat, addr: u32)
  {
    predicate Valid() {
      match this
      case Absent => true
      case Io(v) => v % 2 == 1
      case Mem64(v) => v % 2 == 0 && (v / 2) % 4 == 2
      case Mem32(k, kind, addr) =>
        && 4 <= k <= 31 && kind < 16 && kind % 2 == 0 && (kind / 2) % 4 != 2
        && addr % Pow2(k) == 0 && addr + 15 < U32_RANGE
    }

    /** A configuration read of the register. */
    function Read(): u32
      requires Valid()
    {
      match this
      case Absent => 0
      case Io(v) => v
      case Mem64(v) => v
      case Mem32(k, kind, addr) => addr + kind
    }

    /** A configuration write: only the address bits of a memory BAR take. */
    function Write(v: u32): BarReg
      requires Valid()
    {
      match this
      case Mem32(k, kind, addr) => ModAtMost(v, Pow2(k)); Mem32(k, kind, v - v % Pow2(k))
      case _ => this
    }
  }

  lemma ModAtMost(x: nat, n: nat)
    requires n > 0
    ensures 0 <= x % n <= x
  {
    DivModLaw(x, n);
    MulMono(n, 0, x / n);
  }

  type Bars = s: seq<BarReg> | |s| == 6 && forall i :: 0 <= i < 6 ==> s[i].Valid()
    witness seq(6, _ => Absent)

  datatype Func = Func(vendor: u16, multi: bool, command: nat, bars: Bars)
  datatype Loc = Loc(dev: nat, fn: nat)

  /** Bus 0: 32 devices of 8 functions; an absent function reads as vendor 0xFFFF. */
  type Device = s: seq<Option<Func>> | |s| == 8 witness seq(8, _ => None)
  const EMPTY_DEVICE: Device := seq(8, _ => None)
  type Config = s: seq<Device> | |s| == 32 witness seq(32, _ => EMPTY_DEVICE)

  predicate Present(c: Config, at: Loc) {
    at.dev < |c| && at.fn < |c[at.dev]| && c[at.dev][at.fn].Some? && c[at.dev][at.fn].value.vendor != 0xFFFF
  }

  function Get(c: Config, at: Loc): Func
    requires Present(c, at)
  {
    c[at.dev][at.fn].value
  }

  function Put(c: Config, at: Loc, f: Func): Config
    requires Present(c, at)
  {
    c[at.dev := c[at.dev][at.fn := Some(f)]]
  }

  /** An assigned BAR, or 0/0. */
  datatype Region = Region(base: nat, size: nat) {
    predicate Assigned() { size != 0 }
    function End(): nat { base + size }
  }

  const UNASSIGNED := Region(0, 0)

  datatype Board = Board(loc: Loc, vendor: u16, regions: seq<Region>)

  // ---- the allocation rule -----------------------------------------------------------------

  function RoundUp(x: nat, size: nat): nat
    requires size > 0
  {
    (x + size - 1) / size * size
  }

  /** Where a BAR of `2^k` bytes goes: the next multiple of its size, if it ends inside the region. */
  function Place(next: nat, k: nat): (r: Region)
    ensures r.Assigned() ==> r.End() <= MEM_LIMIT && r.size == Pow2(k)
  {
    var size := Pow2(k);
    var at := RoundUp(next, size);
    if at + size <= MEM_LIMIT then Region(at, size) else UNASSIGNED
  }

  datatype Assignment = Assignment(regions: seq<Region>, bars: Bars, next: nat)

  /** Assign the BARs from index `i` on, behind the regions of the BARs before it. A 64-bit BAR takes
      two indices and is left alone. */
  function AssignFrom(bars: Bars, i: nat, next: nat, acc: seq<Region>): (r: Assignment)
    requires i <= |bars|
    decreases |bars| - i
  {
    if i == |bars| then Assignment(acc, bars, next)
    else
      match bars[i]
      case Mem64(_) =>
        if i + 1 == |bars| then Assignment(acc + [UNASSIGNED], bars, next)
        else AssignFrom(bars, i + 2, next, acc + [UNASSIGNED] + [UNASSIGNED])
      case Mem32(k, kind, _) =>
        var p := Place(next, k);
        if p.Assigned() then AssignFrom(WriteBar(bars, i, p.base), i + 1, p.End(), acc + [p])
        else AssignFrom(bars, i + 1, next, acc + [UNASSIGNED])
      case _ => AssignFrom(bars, i + 1, next, acc + [UNASSIGNED])
  }

  function WriteBar(bars: Bars, i: nat, v: u32): Bars
    requires i < 6 && v + 15 < U32_RANGE
  {
    WriteIsValid(bars[i], v);
    bars[i := bars[i].Write(v)]
  }

  lemma WriteIsValid(b: BarReg, v: u32)
    requires b.Valid() && v + 15 < U32_RANGE
    ensures b.Write(v).Valid()
  {
    if b.Mem32? {
      var p := Pow2(b.k);
      DivModLaw(v, p);
      ModUnique(v - v % p, p, v / p, 0);
    }
  }

  // ---- the probe, as the code computes it ----------------------------------------------------

  lemma {:induction false} AndAllOnes(x: nat, w: nat)
    requires x < Pow2(w)
    ensures And(x, Not(0, w)) == x
    decreases w
  {
    if x > 0 {
      assert Not(0, w) == 1 + 2 * Not(0, w - 1);
      AndAllOnes(x / 2, w - 1);
    }
  }

  lemma LowMaskHalves(k: nat, w: nat)
    requires 0 < k <= w
    ensures Not(Pow2(k) - 1, w) == 2 * Not(Pow2(k - 1) - 1, w - 1)
  {
    var m := Pow2(k) - 1;
    assert m % 2 == 1 && m / 2 == Pow2(k - 1) - 1;
  }

  /** Masking off the low bits of a 32-bit word. */
  lemma {:induction false} ClearLow(x: nat, k: nat, w: nat)
    requires x < Pow2(w) && k <= w
    ensures And(x, Not(Pow2(k) - 1, w)) == x - x % Pow2(k)
    decreases w
  {
    if k == 0 {
      AndAllOnes(x, w);
    } else {
      LowMaskHalves(k, w);
      ClearLow(x / 2, k - 1, w - 1);
      ClearDouble(x, Not(Pow2(k) - 1, w), Not(Pow2(k - 1) - 1, w - 1), Pow2(k), Pow2(k - 1));
    }
  }

  lemma ClearDouble(x: nat, n: nat, m: nat, p: nat, h: nat)
    requires h > 0 && p == 2 * h && n == 2 * m && And(x / 2, m) == x / 2 - x / 2 % h
    ensures And(x, n) == x - x % p
  {
    HalvedMod(x, h);
    assert n % 2 == 0 && n / 2 == m;
    assert And(x, n) == 2 * And(x / 2, m);
  }

  lemma OnesMod(p: nat, c: nat)
    requires p > 0 && p * c == U32_RANGE
    ensures ALL_ONES - ALL_ONES % p == U32_RANGE - p
    ensures (U32_RANGE - p) % p == 0
  {
    assert p * (c - 1) == p * c - p;
    ModUnique(ALL_ONES, p, c - 1, p - 1);
    ModUnique(U32_RANGE - p, p, c - 1, 0);
  }

  lemma AddressKept(addr: nat, kind: nat, p: nat)
    requires p > 0 && addr % p == 0 && kind < p
    ensures addr + kind - (addr + kind) % p == addr
  {
    DivModLaw(addr, p);
    ModUnique(addr + kind, p, addr / p, kind);
  }

  /** The address bits of a probed BAR. */
  function SizeMask(probed: u32): nat { And(probed, Not(0xF, 32)) }

  lemma MaskOf(p: nat, kind: nat)
    requires 16 <= p < U32_RANGE && p % 16 == 0 && kind < 16
    ensures SizeMask(U32_RANGE - p + kind) == U32_RANGE - p
  {
    var x: nat := U32_RANGE - p;
    ModUnique(x, 16, 0x1000_0000 - p / 16, 0);
    ResidueOf(x, kind);
    MaskClears(x + kind);
  }

  lemma MaskClears(x: u32)
    ensures SizeMask(x) == x - x % 16
  {
    Pow2Values();
    ClearLow(x, 4, 32);
  }

  lemma ResidueOf(x: nat, kind: nat)
    requires x % 16 == 0 && kind < 16
    ensures (x + kind) % 16 == kind
  {
    ModUnique(x + kind, 16, x / 16, kind);
  }

  lemma SizesInRange(k: nat)
    requires 4 <= k <= 31
    ensures 16 <= Pow2(k) <= 0x8000_0000 && Pow2(k) % 16 == 0
  {
    Pow2Values();
    Pow2Mono(k, 31);
    Pow2Mono(4, k);
    assert Pow2(32) == 2 * Pow2(31);
    Pow2Add(4, k - 4);
    ModUnique(Pow2(k), 16, Pow2(k - 4), 0);
  }

  /** Writing all ones to a memory BAR of `2^k` bytes reads back the size mask; the size recovered
      from it in 32-bit arithmetic is `2^k`, and writing the old value back restores the register. */
  lemma ProbeFindsSize(b: BarReg)
    requires b.Mem32? && b.Valid()
    ensures b.Write(ALL_ONES).Valid()
    ensures var probed := b.Write(ALL_ONES).Read();
            var mask := SizeMask(probed);
            && mask != 0
            && (U32_RANGE - mask) % U32_RANGE == Pow2(b.k)
    ensures b.Write(ALL_ONES).Write(b.Read()) == b
  {
    var p := Pow2(b.k);
    SizesInRange(b.k);
    ProbedRegister(b, p);
    MaskOf(p, b.kind);
    SmallMod(p, U32_RANGE);
    AddressKept(b.addr, b.kind, p);
  }

  /** All ones leave the highest multiple of the size in the address bits. */
  lemma ProbedRegister(b: BarReg, p: nat)
    requires b.Mem32? && b.Valid() && p == Pow2(b.k) && 16 <= p < U32_RANGE && p % 16 == 0
    ensures b.Write(ALL_ONES) == Mem32(b.k, b.kind, U32_RANGE - p)
    ensures b.Write(ALL_ONES).Valid() && b.Write(ALL_ONES).Read() == U32_RANGE - p + b.kind
  {
    PowDivides(b.k);
    OnesMod(p, U32_RANGE / p);
  }

  lemma PowDivides(k: nat)
    requires k <= 32
    ensures U32_RANGE % Pow2(k) == 0 && U32_RANGE == Pow2(k) * (U32_RANGE / Pow2(k))
  {
    Pow2Add(k, 32 - k);
    Pow2Values();
    ModUnique(U32_RANGE, Pow2(k), Pow2(32 - k), 0);
  }

  // ---- 32-bit arithmetic against the rule -----------------------------------------------------

  /** The two overflow tests of the code, in 32-bit arithmetic. */
  function Aligned(next: u32, size: u32): nat
    requires size > 0
  {
    And((next + (size - 1)) % U32_RANGE, Not(size - 1, 32))
  }

  predicate TooHigh(aligned: nat, size: nat) { (aligned + size) % U32_RANGE > MEM_LIMIT }
  predicate Wraps(aligned: nat, size: nat) { (aligned + size) % U32_RANGE < aligned }

  lemma AlignedIsRoundUp(next: u32, k: nat)
    requires MEM_BASE <= next <= MEM_LIMIT && 4 <= k <= 31
    ensures Pow2(k) <= 0x8000_0000
    ensures Aligned(next, Pow2(k)) == RoundUp(next, Pow2(k)) >= next
    ensures RoundUp(next, Pow2(k)) % Pow2(k) == 0
    ensures RoundUp(next, Pow2(k)) <= 0x8000_0000
  {
    SizesInRange(k);
    var x := next + Pow2(k) - 1;
    SmallMod(x, U32_RANGE);
    Pow2Values();
    ClearLow(x, k, 32);
    RoundUpFacts(next, Pow2(k));
    PowDivides(k);
    HalfDivides(k);
    RoundUpBelow(x, Pow2(k), Pow2(31 - k));
  }

  lemma RoundUpFacts(next: nat, p: nat)
    requires p > 0
    ensures var x := next + p - 1;
            x - x % p == RoundUp(next, p) >= next && RoundUp(next, p) % p == 0
  {
    var x := next + p - 1;
    DivModLaw(x, p);
    assert x / p * p == p * (x / p);
    ModUnique(x / p * p, p, x / p, 0);
  }

  lemma HalfDivides(k: nat)
    requires k <= 31
    ensures Pow2(k) * Pow2(31 - k) == 0x8000_0000
  {
    Pow2Add(k, 31 - k);
    Pow2Values();
    assert Pow2(32) == 2 * Pow2(31);
  }

  lemma RoundUpBelow(x: nat, p: nat, c: nat)
    requires p > 0 && p * c == 0x8000_0000 && x < 0x8000_0000 + p
    ensures x / p * p <= 0x8000_0000
  {
    var q := x / p;
    DivModLaw(x, p);
    assert p * (c + 1) == p * c + p;
    if q > c {
      MulMono(p, c + 1, q);
    } else {
      MulMono(p, q, c);
    }
    assert q * p == p * q;
  }

  /** The code's two tests accept a BAR exactly when the rule places it. */
  lemma TestsDecide(next: u32, k: nat)
    requires MEM_BASE <= next <= MEM_LIMIT && 4 <= k <= 31
    ensures Pow2(k) < U32_RANGE
    ensures var at := Aligned(next, Pow2(k));
            Place(next, k) == if TooHigh(at, Pow2(k)) || Wraps(at, Pow2(k)) then UNASSIGNED else Region(at, Pow2(k))
  {
    AlignedIsRoundUp(next, k);
    TestsBound(Aligned(next, Pow2(k)), Pow2(k));
  }

  /** The two tests together look at the true sum. */
  lemma TestsBound(at: nat, p: nat)
    requires at <= 0x8000_0000 && 1 <= p <= 0x8000_0000
    ensures TooHigh(at, p) || Wraps(at, p) <==> at + p > MEM_LIMIT
  {
    if at + p < U32_RANGE { SmallMod(at + p, U32_RANGE); }
  }

  /** The 32-bit sum of a 2 GB BAR wraps to 0: the first test passes it, only the second refuses it. */
  lemma TwoGigabytesWrap(next: u32)
    requires MEM_BASE <= next <= MEM_LIMIT
    ensures Pow2(31) == 0x8000_0000
    ensures var at := Aligned(next, 0x8000_0000);
            at == 0x8000_0000 && !TooHigh(at, 0x8000_0000) && Wraps(at, 0x8000_0000)
  {
    Pow2Values();
    assert Pow2(32) == 2 * Pow2(31);
    AlignedIsRoundUp(next, 31);
  }

  lemma MultipleOf16(addr: nat, p: nat)
    requires p > 0 && p % 16 == 0 && addr % p == 0
    ensures addr % 16 == 0
  {
    DivModLaw(addr, p);
    var c := p / 16;
    assert addr == 16 * (c * (addr / p)) by { assert (16 * c) * (addr / p) == 16 * (c * (addr / p)); }
    ModUnique(addr, 16, c * (addr / p), 0);
  }

  lemma LowBits(addr: nat, kind: nat)
    requires addr % 16 == 0 && kind < 16
    ensures (addr + kind) % 2 == kind % 2 && ((addr + kind) / 2) % 4 == (kind / 2) % 4
  {
    var q, x := addr / 16, addr + kind;
    ModUnique(x, 2, 8 * q + kind / 2, kind % 2);
    ModUnique(x / 2, 4, 2 * q + kind / 2 / 4, kind / 2 % 4);
  }

  /** The two type tests tell the kinds of BAR apart. */
  lemma TypeTests(b: BarReg)
    requires b.Valid()
    ensures b.Io? <==> b.Read() % 2 == 1
    ensures !b.Io? ==> (b.Mem64? <==> (b.Read() / 2) % 4 == 2)
  {
    if b.Mem32? {
      SizesInRange(b.k);
      MultipleOf16(b.addr, Pow2(b.k));
      LowBits(b.addr, b.kind);
    }
  }

  /** Probe one BAR that is neither I/O nor 64-bit: its size, or 0 if it is not implemented. */
  method SizeBar(b: BarReg) returns (size: nat)
    requires b.Valid() && b.Read() % 2 == 0 && (b.Read() / 2) % 4 != 2
    ensures b.Absent? || b.Mem32?
    ensures size == if b.Mem32? then Pow2(b.k) else 0
  {
    var orig := b.Read();
    ProbeEither(b);
    var probing := b.Write(ALL_ONES);
    var mask := SizeMask(probing.Read());
    assert probing.Write(orig) == b;
    if mask == 0 {
      return 0;
    }
    size := (U32_RANGE - mask) % U32_RANGE;
  }

  /** Place one BAR of `size` bytes, in 32-bit arithmetic. */
  method PlaceBar(next: nat, size: nat, ghost k: nat) returns (r: Region)
    requires MEM_BASE <= next <= MEM_LIMIT && 4 <= k <= 31 && size == Pow2(k)
    ensures r == Place(next, k)
    ensures r.Assigned() ==> next <= r.base
  {
    AlignedIsRoundUp(next, k);
    TestsDecide(next, k);
    var aligned := Aligned(next, size);
    if TooHigh(aligned, size) || Wraps(aligned, size) {
      return UNASSIGNED;
    }
    r := Region(aligned, size);
  }

  lemma ProbeEither(b: BarReg)
    requires b.Valid() && b.Read() % 2 == 0 && (b.Read() / 2) % 4 != 2
    ensures b.Absent? || b.Mem32?
    ensures b.Write(ALL_ONES).Valid() && b.Write(ALL_ONES).Write(b.Read()) == b
    ensures var mask := SizeMask(b.Write(ALL_ONES).Read());
            && (b.Absent? ==> mask == 0)
            && (b.Mem32? ==> mask != 0 && (U32_RANGE - mask) % U32_RANGE == Pow2(b.k))
  {
    TypeTests(b);
    if b.Mem32? { ProbeFindsSize(b); }
  }

  // ---- one scan, as a function ------------------------------------------------------------------

  datatype Scan = Scan(config: Config, boards: seq<Board>, next: nat)

  function Configured(f: Func, r: Assignment): Func { f.(bars := r.bars, command := CMD_MEMORY_MASTER) }

  function Record(s: Scan, at: Loc): Scan
    requires Present(s.config, at)
  {
    var f := Get(s.config, at);
    var r := AssignFrom(f.bars, 0, s.next, []);
    Scan(Put(s.config, at, Configured(f, r)), s.boards + [Board(at, f.vendor, r.regions)], r.next)
  }

  /** The functions the scan visits from (dev, fn) on: function 0 of every device, functions 1 to 7 of
      the multifunction ones. */
  function Live(c: Config, dev: nat, fn: nat): seq<Loc>
    requires dev <= |c| && fn <= 8
    decreases |c| - dev, 8 - fn
  {
    if dev == |c| then []
    else if fn == 0 then
      if !Present(c, Loc(dev, 0)) then Live(c, dev + 1, 0)
      else [Loc(dev, 0)] + (if Get(c, Loc(dev, 0)).multi then Live(c, dev, 1) else Live(c, dev + 1, 0))
    else if fn == 8 then Live(c, dev + 1, 0)
    else if Present(c, Loc(dev, fn)) then [Loc(dev, fn)] + Live(c, dev, fn + 1)
    else Live(c, dev, fn + 1)
  }

  predicate AllPresent(c: Config, locs: seq<Loc>) {
    forall i :: 0 <= i < |locs| ==> Present(c, locs[i])
  }

  /** Record the functions of the list until the board table is full. */
  function RecordAll(s: Scan, locs: seq<Loc>): Scan
    requires AllPresent(s.config, locs)
    decreases |locs|
  {
    if locs == [] || |s.boards| >= MAX_BOARDS then s
    else
      RecordKeepsIds(s, locs[0]);
      AllStillPresent(s.config, Record(s, locs[0]).config, locs);
      RecordAll(Record(s, locs[0]), locs[1..])
  }

  /** Configuration writes never change which functions answer, or as what. */
  ghost predicate SameIds(c: Config, c': Config) {
    forall at :: Present(c, at) == Present(c', at) &&
                 (Present(c, at) ==> Get(c, at).multi == Get(c', at).multi && Get(c, at).vendor == Get(c', at).vendor)
  }

  lemma RecordKeepsIds(s: Scan, at: Loc)
    requires Present(s.config, at)
    ensures SameIds(s.config, Record(s, at).config)
  {
  }

  lemma AllStillPresent(c: Config, c': Config, locs: seq<Loc>)
    requires SameIds(c, c') && AllPresent(c, locs)
    ensures AllPresent(c', locs)
  {
    forall i | 0 <= i < |locs| ensures Present(c', locs[i]) { assert Present(c, locs[i]); }
  }

  lemma {:induction false} LiveArePresent(c: Config, dev: nat, fn: nat)
    requires dev <= |c| && fn <= 8
    ensures AllPresent(c, Live(c, dev, fn))
    decreases |c| - dev, 8 - fn
  {
    if dev < |c| {
      if fn == 0 || fn == 8 { LiveArePresent(c, dev + 1, 0); }
      if fn < 8 { LiveArePresent(c, dev, fn + 1); }
      LiveStep(c, dev, fn, Loc(dev, fn));
    }
  }

  /** One location at a time. */
  lemma LiveStep(c: Config, dev: nat, fn: nat, l: Loc)
    requires dev < |c| && fn <= 8 && l == Loc(dev, fn)
    requires fn == 0 || fn == 8 ==> AllPresent(c, Live(c, dev + 1, 0))
    requires fn < 8 ==> AllPresent(c, Live(c, dev, fn + 1))
    ensures AllPresent(c, Live(c, dev, fn))
  {
    if fn < 8 && Present(c, l) {
      StillAllPresent(c, l, if fn > 0 || Get(c, l).multi then Live(c, dev, fn + 1) else Live(c, dev + 1, 0));
    }
  }

  lemma StillAllPresent(c: Config, l: Loc, rest: seq<Loc>)
    requires Present(c, l) && AllPresent(c, rest)
    ensures AllPresent(c, [l] + rest)
  {
  }

  // ---- the loops ------------------------------------------------------------------------------

  class Bus {
    var config: Config
    var boards: seq<Board>
    var nextFree: nat

    function St(): Scan
      reads this
    {
      Scan(config, boards, nextFree)
    }

    predicate CursorInRange()
      reads this
    {
      MEM_BASE <= nextFree <= MEM_LIMIT
    }

    constructor (config: Config)
      ensures St() == Scan(config, [], MEM_BASE)
    {
      this.config := config;
      boards := [];
      nextFree := MEM_BASE;
    }

    /** Size and assign the six BARs of one function. */
    method AssignBars(at: Loc) returns (regions: seq<Region>)
      requires Present(config, at) && CursorInRange()
      modifies this`config, this`nextFree
      ensures var f := old(Get(config, at));
              var r := AssignFrom(f.bars, 0, old(nextFree), []);
              && regions == r.regions && nextFree == r.next
              && config == Put(old(config), at, Configured(f, r))
      ensures CursorInRange()
    {
      var bars := Get(config, at).bars;
      ghost var goal := AssignFrom(bars, 0, nextFree, []);
      regions := [];
      var i := 0;
      while i < |bars|
        invariant 0 <= i <= |bars| && CursorInRange()
        invariant config == old(config)
        invariant AssignFrom(bars, i, nextFree, regions) == goal
        decreases |bars| - i
      {
        var orig := bars[i].Read();
        TypeTests(bars[i]);
        if orig % 2 == 1 {
          regions := regions + [UNASSIGNED];
        } else if (orig / 2) % 4 == 2 {
          regions := regions + [UNASSIGNED];
          if i + 1 < |bars| {
            regions := regions + [UNASSIGNED];
            i := i + 1;
          }
        } else {
          var size := SizeBar(bars[i]);
          if size == 0 {
            regions := regions + [UNASSIGNED];
          } else {
            var r := PlaceBar(nextFree, size, bars[i].k);
            if r.Assigned() {
              regions := regions + [r];
              nextFree := r.End();
              bars := WriteBar(bars, i, r.base);
            } else {
              regions := regions + [UNASSIGNED];
            }
          }
        }
        i := i + 1;
      }
      config := Put(config, at, Get(config, at).(bars := bars, command := CMD_MEMORY_MASTER));
    }

    /** Record one function, unless the board table is full. */
    method RecordFunction(at: Loc) returns (ok: bool)
      requires Present(config, at) && CursorInRange()
      modifies this
      ensures CursorInRange()
      ensures ok == (|old(boards)| < MAX_BOARDS)
      ensures St() == if ok then Record(old(St()), at) else old(St())
    {
      if |boards| >= MAX_BOARDS {
        return false;
      }
      var vendor := Get(config, at).vendor;
      var regions := AssignBars(at);
      boards := boards + [Board(at, vendor, regions)];
      ok := true;
    }

    /** The whole scan of bus 0. */
    method EnumerateBus0()
      requires CursorInRange()
      modifies this
      ensures AllPresent(old(config), Live(old(config), 0, 0))
      ensures St() == RecordAll(old(St()), Live(old(config), 0, 0))
    {
      ghost var c0 := config;
      LiveArePresent(c0, 0, 0);
      ghost var goal := RecordAll(St(), Live(c0, 0, 0));
      var dev := 0;
      while dev < |config|
        invariant 0 <= dev <= |config| && CursorInRange()
        invariant SameIds(c0, config) && AllPresent(config, Live(c0, dev, 0))
        invariant RecordAll(St(), Live(c0, dev, 0)) == goal
      {
        if Present(config, Loc(dev, 0)) {
          var done := ScanFunctions(dev, c0, goal);
          if done {
            return;
          }
        }
        dev := dev + 1;
      }
    }

    /** One present device: function 0, and the others if it is multifunction. */
    method ScanFunctions(dev: nat, ghost c0: Config, ghost goal: Scan) returns (done: bool)
      requires dev < |config| && Present(config, Loc(dev, 0)) && CursorInRange()
      requires SameIds(c0, config) && AllPresent(config, Live(c0, dev, 0))
      requires RecordAll(St(), Live(c0, dev, 0)) == goal
      modifies this
      ensures CursorInRange() && SameIds(c0, config)
      ensures done ==> St() == goal
      ensures !done ==> AllPresent(config, Live(c0, dev + 1, 0)) && RecordAll(St(), Live(c0, dev + 1, 0)) == goal
    {
      ghost var rest := if Get(c0, Loc(dev, 0)).multi then Live(c0, dev, 1) else Live(c0, dev + 1, 0);
      assert Live(c0, dev, 0)[1..] == rest;
      var ok := RecordNext(Loc(dev, 0), c0, Live(c0, dev, 0), goal);
      if !ok {
        return true;
      }
      if !Get(config, Loc(dev, 0)).multi {
        return false;
      }
      var fn := 1;
      while fn < 8
        invariant 1 <= fn <= 8 && CursorInRange()
        invariant SameIds(c0, config) && AllPresent(config, Live(c0, dev, fn))
        invariant RecordAll(St(), Live(c0, dev, fn)) == goal
      {
        assert Present(config, Loc(dev, fn)) == Present(c0, Loc(dev, fn));
        if Present(config, Loc(dev, fn)) {
          assert Live(c0, dev, fn)[1..] == Live(c0, dev, fn + 1);
          ok := RecordNext(Loc(dev, fn), c0, Live(c0, dev, fn), goal);
          if !ok {
            return true;
          }
        } else {
          assert Live(c0, dev, fn) == Live(c0, dev, fn + 1);
        }
        fn := fn + 1;
      }
      done := false;
    }

    /** Record the next function of the list. */
    method RecordNext(at: Loc, ghost c0: Config, ghost locs: seq<Loc>, ghost goal: Scan) returns (ok: bool)
      requires CursorInRange() && SameIds(c0, config)
      requires AllPresent(config, locs) && locs != [] && locs[0] == at
      requires RecordAll(St(), locs) == goal
      modifies this
      ensures CursorInRange() && SameIds(c0, config)
      ensures !ok ==> St() == goal
      ensures ok ==> AllPresent(config, locs[1..]) && RecordAll(St(), locs[1..]) == goal
    {
      assert Present(config, locs[0]);
      ghost var before := St();
      RecordKeepsIds(before, at);
      AllStillPresent(before.config, Record(before, at).config, locs);
      ok := RecordFunction(at);
    }
  }

  // ---- the outcome of a scan -----------------------------------------------------------------------

  /** Assigned regions are power-of-two sized, naturally aligned, inside the memory region up to the
      cursor and in ascending order without overlap; the others are 0/0. */
  ghost predicate Tidy(rs: seq<Region>, cursor: nat) {
    && MEM_BASE <= cursor <= MEM_LIMIT
    && (forall i :: 0 <= i < |rs| && !rs[i].Assigned() ==> rs[i] == UNASSIGNED)
    && (forall i :: 0 <= i < |rs| && rs[i].Assigned() ==>
          && MEM_BASE <= rs[i].base && rs[i].End() <= cursor
          && rs[i].base % rs[i].size == 0 && IsPow2(rs[i].size))
    && (forall i, j :: 0 <= i < j < |rs| && rs[i].Assigned() && rs[j].Assigned() ==> rs[i].End() <= rs[j].base)
  }

  ghost predicate IsPow2(n: nat) { exists k: nat :: k <= 31 && n == Pow2(k) }

  lemma TidySkip(before: seq<Region>, acc: seq<Region>, cursor: nat)
    requires Tidy(before + acc, cursor)
    ensures Tidy(before + (acc + [UNASSIGNED]), cursor)
  {
    assert before + (acc + [UNASSIGNED]) == (before + acc) + [UNASSIGNED];
  }

  lemma TidyPlace(before: seq<Region>, acc: seq<Region>, cursor: nat, k: nat)
    requires Tidy(before + acc, cursor) && k <= 31 && Place(cursor, k).Assigned()
    ensures Tidy(before + (acc + [Place(cursor, k)]), Place(cursor, k).End())
  {
    RoundUpFacts(cursor, Pow2(k));
    assert before + (acc + [Place(cursor, k)]) == (before + acc) + [Place(cursor, k)];
  }

  lemma {:induction false} AssignTidy(bars: Bars, i: nat, next: nat, before: seq<Region>, acc: seq<Region>)
    requires i <= |bars| && Tidy(before + acc, next)
    ensures var r := AssignFrom(bars, i, next, acc);
            Tidy(before + r.regions, r.next) && |r.regions| == |acc| + |bars| - i
    decreases |bars| - i
  {
    if i < |bars| {
      match bars[i]
      case Mem64(_) =>
        TidySkip(before, acc, next);
        if i + 1 < |bars| {
          TidySkip(before, acc + [UNASSIGNED], next);
          AssignTidy(bars, i + 2, next, before, acc + [UNASSIGNED] + [UNASSIGNED]);
        }
      case Mem32(k, kind, _) =>
        var p := Place(next, k);
        if p.Assigned() {
          TidyPlace(before, acc, next, k);
          AssignTidy(WriteBar(bars, i, p.base), i + 1, p.End(), before, acc + [p]);
        } else {
          TidySkip(before, acc, next);
          AssignTidy(bars, i + 1, next, before, acc + [UNASSIGNED]);
        }
      case _ =>
        TidySkip(before, acc, next);
        AssignTidy(bars, i + 1, next, before, acc + [UNASSIGNED]);
    }
  }

  /** All BARs of all boards, in scan order. */
  function AllRegions(boards: seq<Board>): seq<Region> {
    if boards == [] then [] else AllRegions(boards[..|boards| - 1]) + boards[|boards| - 1].regions
  }

  lemma {:induction false} ScanTidy(s: Scan, locs: seq<Loc>)
    requires AllPresent(s.config, locs) && Tidy(AllRegions(s.boards), s.next) && |s.boards| <= MAX_BOARDS
    ensures var e := RecordAll(s, locs);
            Tidy(AllRegions(e.boards), e.next) && |e.boards| <= MAX_BOARDS
    decreases |locs|
  {
    if locs != [] && |s.boards| < MAX_BOARDS {
      var at := locs[0];
      assert Present(s.config, at);
      var t := Record(s, at);
      AssignTidy(Get(s.config, at).bars, 0, s.next, AllRegions(s.boards), []);
      assert AllRegions(s.boards) + [] == AllRegions(s.boards);
      assert t.boards[..|t.boards| - 1] == s.boards;
      RecordKeepsIds(s, at);
      AllStillPresent(s.config, t.config, locs);
      ScanTidy(t, locs[1..]);
    }
  }

  /** Over a whole bus scan, for every set of functions on the bus: every assigned BAR is naturally
      aligned and inside the 8 MB region, and no two of them overlap. */
  lemma WholeScanIsTidy(config: Config)
    ensures AllPresent(config, Live(config, 0, 0))
    ensures var e := RecordAll(Scan(config, [], MEM_BASE), Live(config, 0, 0));
            && |e.boards| <= MAX_BOARDS
            && Tidy(AllRegions(e.boards), e.next)
  {
    LiveArePresent(config, 0, 0);
    ScanTidy(Scan(config, [], MEM_BASE), Live(config, 0, 0));
  }

  // ---- what the BAR registers are left holding ------------------------------------------------------

  /** A register before and after, and the region assigned to it: an assigned BAR holds its region's
      base, any other holds what it held. */
  predicate HoldsRegion(before: BarReg, after: BarReg, r: Region) {
    if r.Assigned() then
      before.Mem32? && after.Mem32? && after.k == before.k && after.kind == before.kind && after.addr == r.base
    else after == before
  }

  lemma WrittenHolds(b: BarReg, next: nat)
    requires b.Mem32? && b.Valid() && Place(next, b.k).Assigned()
    ensures Place(next, b.k).base + 15 < U32_RANGE
    ensures HoldsRegion(b, b.Write(Place(next, b.k).base), Place(next, b.k))
  {
    RoundUpFacts(next, Pow2(b.k));
  }

  lemma {:induction false} HeldThroughout(bars0: Bars, bars: Bars, i: nat, next: nat, acc: seq<Region>)
    requires |acc| == i <= |bars|
    requires forall j :: 0 <= j < i ==> HoldsRegion(bars0[j], bars[j], acc[j])
    requires forall j :: i <= j < |bars| ==> bars[j] == bars0[j]
    ensures var r := AssignFrom(bars, i, next, acc);
            |r.regions| == |bars| && forall j :: 0 <= j < |bars| ==> HoldsRegion(bars0[j], r.bars[j], r.regions[j])
    decreases |bars| - i
  {
    if i < |bars| {
      match bars[i]
      case Mem64(_) =>
        if i + 1 < |bars| { HeldThroughout(bars0, bars, i + 2, next, acc + [UNASSIGNED] + [UNASSIGNED]); }
      case Mem32(k, kind, _) =>
        var p := Place(next, k);
        if p.Assigned() {
          WrittenHolds(bars[i], next);
          HeldThroughout(bars0, WriteBar(bars, i, p.base), i + 1, p.End(), acc + [p]);
        } else {
          HeldThroughout(bars0, bars, i + 1, next, acc + [UNASSIGNED]);
        }
      case _ => HeldThroughout(bars0, bars, i + 1, next, acc + [UNASSIGNED]);
    }
  }

  /** After the assignment of one function, every assigned BAR's register holds its region's base and
      every other register holds what it held before: the probe leaves no trace. */
  lemma RegistersHoldRegions(bars: Bars, next: nat)
    ensures var r := AssignFrom(bars, 0, next, []);
            |r.regions| == |bars| && forall j :: 0 <= j < |bars| ==> HoldsRegion(bars[j], r.bars[j], r.regions[j])
  {
    HeldThroughout(bars, bars, 0, next, []);
  }
}
