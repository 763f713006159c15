/**
 The UEFI block-size adapter (crates/board-qemu-q35/src/storage.rs `EfiBlockDevice`): 512-byte
 sectors on media of any native block size that is a multiple or a divisor of 512.

 The medium is its bytes. Whatever the native block size, sector `k` is bytes `512 * k` onwards, so the
 adapter is a flat array of sectors.
 */
module BlockAdapter {
  import opened Bits

  const SECTOR := 512

  type Bytes = seq<u8>

  datatype Error = ZeroBlockSize | Untranslatable(size: nat)
  datatype Result<+T> = Ok(value: T) | Err(error: Error)

  datatype Geometry = Geometry(native: nat, perNative: nat, perSector: nat, sectors: nat)

  /** `EfiBlockDevice::new`: how 512-byte sectors lie on native blocks. */
  function MakeGeometry(native: nat, lastBlock: nat): Result<Geometry> {
    var blocks := lastBlock + 1;
    if native == 0 then Err(ZeroBlockSize)
    else if native == SECTOR then Ok(Geometry(native, 1, 1, blocks))
    else if native > SECTOR && native % SECTOR == 0 then
      Ok(Geometry(native, native / SECTOR, 1, blocks * (native / SECTOR)))
    else if native < SECTOR && SECTOR % native == 0 then
      Ok(Geometry(native, 1, SECTOR / native, blocks / (SECTOR / native)))
    else Err(Untranslatable(native))
  }

  /** Native blocks and sectors tile the same bytes, and there are as many sectors as fit the medium. */
  predicate Fits(g: Geometry, medium: Bytes) {
    && g.native > 0 && g.perNative > 0 && g.perSector > 0
    && (g.perNative == 1 || g.perSector == 1)
    && g.native * g.perSector == SECTOR * g.perNative
    && (g.perSector > 1 ==> g.perNative == 1)
    && |medium| % g.native == 0
    && SECTOR * g.sectors <= |medium| < SECTOR * (g.sectors + 1)
    && (g.perNative > 1 ==> g.sectors % g.perNative == 0)
  }

  /** The geometry is refused exactly for sizes that are neither a multiple nor a divisor of 512. */
  lemma GeometryAccepts(native: nat, lastBlock: nat)
    ensures MakeGeometry(native, lastBlock).Ok? <==>
            native > 0 && (native % SECTOR == 0 || SECTOR % native == 0)
  {
    if native > SECTOR {
      SmallMod(SECTOR, native);
    }
  }

  lemma BlocksOfSectors(native: nat, n: nat, blocks: nat)
    requires native == SECTOR * n && n > 0
    ensures native * blocks == SECTOR * (blocks * n) && blocks * n % n == 0
  {
    ModUnique(blocks * n, n, blocks, 0);
  }

  lemma SectorsOfBlocks(native: nat, n: nat, blocks: nat, q: nat)
    requires native * n == SECTOR && n > 0 && q == blocks / n
    ensures SECTOR * q <= native * blocks < SECTOR * (q + 1)
  {
    DivModLaw(blocks, n);
    var r := blocks % n;
    assert native * blocks == (native * n) * q + native * r;
    MulMono(native, r, n - 1);
    assert native * (n - 1) == SECTOR - native;
    MulMono(native, 0, r);
    assert native > 0;
  }

  /** An accepted geometry tiles every medium of that many native blocks. */
  lemma GeometryFits(native: nat, lastBlock: nat, medium: Bytes)
    requires MakeGeometry(native, lastBlock).Ok?
    requires |medium| == native * (lastBlock + 1)
    ensures Fits(MakeGeometry(native, lastBlock).value, medium)
  {
    var blocks := lastBlock + 1;
    ModUnique(|medium|, native, blocks, 0);
    if native > SECTOR {
      DivModLaw(native, SECTOR);
      BlocksOfSectors(native, native / SECTOR, blocks);
    } else if native < SECTOR {
      DivModLaw(SECTOR, native);
      SectorsOfBlocks(native, SECTOR / native, blocks, blocks / (SECTOR / native));
    }
  }

  // ---- the flat array -------------------------------------------------------------------

  function SectorAt(medium: Bytes, k: nat): Bytes
    requires SECTOR * (k + 1) <= |medium|
  {
    medium[SECTOR * k..SECTOR * (k + 1)]
  }

  function Splice(m: Bytes, at: nat, data: Bytes): Bytes
    requires at + |data| <= |m|
  {
    m[..at] + data + m[at + |data|..]
  }

  /** A sector write as seen by the reader of any sector: that sector changes, no other does. */
  lemma SpliceIsSectorUpdate(m: Bytes, k: nat, data: Bytes, j: nat)
    requires |data| == SECTOR && SECTOR * (k + 1) <= |m| && SECTOR * (j + 1) <= |m|
    ensures |Splice(m, SECTOR * k, data)| == |m|
    ensures SectorAt(Splice(m, SECTOR * k, data), j) == if j == k then data else SectorAt(m, j)
  {
    var m' := Splice(m, SECTOR * k, data);
    assert forall i :: 0 <= i < |m| ==>
      m'[i] == if SECTOR * k <= i < SECTOR * (k + 1) then data[i - SECTOR * k] else m[i];
  }

  // ---- the device ---------------------------------------------------------------------------

  class EfiBlockDevice {
    const g: Geometry
    var medium: Bytes
    var scratch: Bytes

    ghost predicate Valid()
      reads this
    {
      Fits(g, medium) && (g.perNative > 1 ==> |scratch| == g.native)
    }

    constructor (native: nat, lastBlock: nat, medium: Bytes)
      requires MakeGeometry(native, lastBlock).Ok? && |medium| == native * (lastBlock + 1)
      ensures Valid() && this.medium == medium && g == MakeGeometry(native, lastBlock).value
    {
      GeometryFits(native, lastBlock, medium);
      this.g := MakeGeometry(native, lastBlock).value;
      this.medium := medium;
      this.scratch := seq(native, _ => 0);
    }

    /** Block I/O: whole native blocks, which the firmware may refuse. */
    method ReadBlocks(block: nat, len: nat, works: bool, ghost at: nat) returns (ok: bool, data: Bytes)
      requires Valid() && len % g.native == 0 && at == block * g.native && at + len <= |medium|
      ensures ok == works && |data| == len
      ensures ok ==> data == medium[at..at + len]
    {
      if !works {
        return false, seq(len, _ => 0);
      }
      return true, medium[block * g.native..block * g.native + len];
    }

    /** A failed write may leave anything (`torn`) in the blocks it was given, and touches no others. */
    method WriteBlocks(block: nat, data: Bytes, works: bool, torn: Bytes, ghost at: nat) returns (ok: bool)
      requires Valid() && |data| % g.native == 0 && at == block * g.native && at + |data| <= |medium|
      requires |torn| == |data|
      modifies this`medium
      ensures Valid() && ok == works
      ensures medium == Splice(old(medium), at, if ok then data else torn)
    {
      medium := Splice(medium, block * g.native, if works then data else torn);
      ok := works;
    }

    method ReadSector(lba: nat, works: bool) returns (ok: bool, buf: Bytes)
      requires Valid()
      modifies this`scratch
      ensures Valid() && ok == (lba < g.sectors && works)
      ensures ok ==> SECTOR * (lba + 1) <= |medium| && buf == SectorAt(medium, lba)
    {
      buf := [];
      if lba >= g.sectors {
        return false, buf;
      }
      if g.perSector > 1 {
        ok, buf := ReadWhole(lba * g.perSector, works, lba);
        return;
      }
      if g.perNative == 1 {
        ok, buf := ReadWhole(lba, works, lba);
        return;
      }
      ok, buf := ReadWithin(lba, works);
    }

    /** Small native blocks, the first of them `block`, make up the sector. */
    method ReadWhole(block: nat, works: bool, ghost lba: nat) returns (ok: bool, buf: Bytes)
      requires Valid() && lba < g.sectors && g.perNative == 1 && block == lba * g.perSector
      ensures ok == works && (ok ==> SECTOR * (lba + 1) <= |medium| && buf == SectorAt(medium, lba))
    {
      Placement(g, medium, lba);
      ok, buf := ReadBlocks(block, SECTOR, works, SECTOR * lba);
    }

    /** One large native block holds the sector. */
    method ReadWithin(lba: nat, works: bool) returns (ok: bool, buf: Bytes)
      requires Valid() && lba < g.sectors && g.perNative > 1
      modifies this`scratch
      ensures Valid() && ok == works && (ok ==> SECTOR * (lba + 1) <= |medium| && buf == SectorAt(medium, lba))
    {
      Placement(g, medium, lba);
      var block, offset := lba / g.perNative, lba % g.perNative * SECTOR;
      ok, buf := ReadPart(block, offset, works, SECTOR * lba - offset);
    }

    /** Read the containing native block, which starts at byte `at`, and cut the sector out of it. */
    method ReadPart(block: nat, offset: nat, works: bool, ghost at: nat) returns (ok: bool, buf: Bytes)
      requires Valid() && g.perNative > 1 && at == block * g.native
      requires offset + SECTOR <= g.native && at + g.native <= |medium|
      modifies this`scratch
      ensures Valid() && ok == works
      ensures ok ==> buf == medium[at + offset..at + offset + SECTOR]
    {
      ModUnique(g.native, g.native, 1, 0);
      buf := [];
      ok, scratch := ReadBlocks(block, g.native, works, at);
      if ok {
        buf := scratch[offset..offset + SECTOR];
        SliceOfSlice(medium, at, g.native, offset);
      }
    }

    method WriteSector(lba: nat, buf: Bytes, readWorks: bool, writeWorks: bool, torn: Bytes) returns (ok: bool)
      requires Valid() && |buf| == SECTOR && |torn| == Extent(g)
      modifies this
      ensures Valid() && ok == Succeeds(g, Write(lba, buf, readWorks, writeWorks, torn))
      ensures medium == Applied(g, old(medium), Write(lba, buf, readWorks, writeWorks, torn))
    {
      if lba >= g.sectors {
        return false;
      }
      if g.perSector > 1 {
        ok := WriteWhole(lba * g.perSector, buf, writeWorks, torn, lba);
        return;
      }
      if g.perNative == 1 {
        ok := WriteWhole(lba, buf, writeWorks, torn, lba);
        return;
      }
      ok := WriteWithin(lba, buf, readWorks, writeWorks, torn);
    }

    /** Small native blocks, the first of them `block`, make up the sector. */
    method WriteWhole(block: nat, buf: Bytes, works: bool, torn: Bytes, ghost lba: nat) returns (ok: bool)
      requires Valid() && lba < g.sectors && g.perNative == 1 && block == lba * g.perSector
      requires |buf| == |torn| == SECTOR
      modifies this`medium
      ensures Valid() && ok == works && SECTOR * (lba + 1) <= |old(medium)|
      ensures medium == Splice(old(medium), SECTOR * lba, if ok then buf else torn)
    {
      Placement(g, medium, lba);
      ok := WriteBlocks(block, buf, works, torn, SECTOR * lba);
    }

    /** One large native block holds the sector. */
    method WriteWithin(lba: nat, buf: Bytes, readWorks: bool, writeWorks: bool, torn: Bytes) returns (ok: bool)
      requires Valid() && lba < g.sectors && g.perNative > 1 && |buf| == SECTOR && |torn| == g.native
      modifies this
      ensures Valid() && ok == (readWorks && writeWorks)
      ensures SECTOR * (lba + 1) <= |old(medium)| && Start(g, lba) + g.native <= |old(medium)|
      ensures medium == if !readWorks then old(medium)
                        else if writeWorks then Splice(old(medium), SECTOR * lba, buf)
                        else Splice(old(medium), Start(g, lba), torn)
    {
      Placement(g, medium, lba);
      var block, offset := lba / g.perNative, lba % g.perNative * SECTOR;
      ok := ReadModifyWrite(block, offset, buf, readWorks, writeWorks, torn, SECTOR * lba - offset);
    }

    /** Splice the sector into its containing native block and write the block back. */
    method ReadModifyWrite(block: nat, offset: nat, buf: Bytes, readWorks: bool, writeWorks: bool, torn: Bytes,
                           ghost at: nat)
      returns (ok: bool)
      requires Valid() && |buf| == SECTOR && g.perNative > 1 && at == block * g.native && |torn| == g.native
      requires offset + SECTOR <= g.native && at + g.native <= |medium|
      modifies this
      ensures Valid() && ok == (readWorks && writeWorks)
      ensures medium == if !readWorks then old(medium)
                        else if writeWorks then Splice(old(medium), at + offset, buf)
                        else Splice(old(medium), at, torn)
    {
      ModUnique(g.native, g.native, 1, 0);
      ok, scratch := ReadBlocks(block, g.native, readWorks, at);
      if !ok {
        return;
      }
      SpliceInBlock(medium, at, g.native, offset, buf);
      scratch := scratch[..offset] + buf + scratch[offset + SECTOR..];
      ok := WriteBlocks(block, scratch, writeWorks, torn, at);
    }
  }

  // ---- sector operations --------------------------------------------------------------------------------

  /** A read, which may fail; a write, whose read of a larger native block or whose write may fail. */
  datatype Op = Read(lba: nat, works: bool)
              | Write(lba: nat, data: Bytes, readWorks: bool, writeWorks: bool, torn: Bytes)

  /** The bytes one sector write hands to the firmware. */
  function Extent(g: Geometry): nat { if g.perNative > 1 then g.native else SECTOR }

  /** The first byte of the native blocks that hold a sector. */
  function Start(g: Geometry, lba: nat): nat
    requires g.perNative > 0
  {
    if g.perNative > 1 then MulMono(g.native, 0, lba / g.perNative); lba / g.perNative * g.native else SECTOR * lba
  }

  predicate WellFormed(g: Geometry, op: Op) { op.Write? ==> |op.data| == SECTOR && |op.torn| == Extent(g) }

  /** The firmware is asked to write at all. */
  predicate Attempted(g: Geometry, op: Op) {
    op.Write? && op.lba < g.sectors && (g.perNative > 1 ==> op.readWorks)
  }

  predicate Succeeds(g: Geometry, op: Op) {
    if op.Read? then op.lba < g.sectors && op.works else Attempted(g, op) && op.writeWorks
  }

  lemma Placed(g: Geometry, m: Bytes, lba: nat)
    requires Fits(g, m) && lba < g.sectors
    ensures SECTOR * (lba + 1) <= |m| && Start(g, lba) + Extent(g) <= |m|
    ensures Start(g, lba) <= SECTOR * lba && SECTOR * (lba + 1) <= Start(g, lba) + Extent(g)
  {
    Placement(g, m, lba);
  }

  /** The medium after one operation. */
  function Applied(g: Geometry, m: Bytes, op: Op): (r: Bytes)
    requires Fits(g, m) && WellFormed(g, op)
    ensures |r| == |m|
  {
    if !Attempted(g, op) then m
    else
      Placed(g, m, op.lba);
      if op.writeWorks then Splice(m, SECTOR * op.lba, op.data) else Splice(m, Start(g, op.lba), op.torn)
  }

  /** Where the native blocks of an accepted sector lie: exactly over its 512 bytes when blocks are
      small, around them when they are large; always inside the medium. */
  lemma Placement(g: Geometry, medium: Bytes, lba: nat)
    requires Fits(g, medium) && lba < g.sectors
    ensures SECTOR * (lba + 1) <= |medium|
    ensures g.perNative == 1 ==> lba * g.perSector * g.native == SECTOR * lba && SECTOR % g.native == 0
    ensures g.perNative > 1 ==>
              var block, offset := lba / g.perNative, lba % g.perNative * SECTOR;
              && block * g.native + offset == SECTOR * lba
              && offset + SECTOR <= g.native
              && block * g.native + g.native <= |medium|
              && g.native % g.native == 0
  {
    MulMono(SECTOR, lba + 1, g.sectors);
    if g.perNative == 1 {
      assert lba * g.perSector * g.native == lba * (g.native * g.perSector);
      ModUnique(SECTOR, g.native, g.perSector, 0);
    } else {
      LargeBlocks(lba, g.sectors, g.perNative, g.native);
    }
  }

  /** A sector inside a native block of `n` sectors. */
  lemma LargeBlocks(lba: nat, sectors: nat, n: nat, native: nat)
    requires lba < sectors && n > 0 && native == SECTOR * n && sectors % n == 0
    ensures var block, offset := lba / n, lba % n * SECTOR;
            && block * native + offset == SECTOR * lba
            && offset + SECTOR <= native
            && block * native + native <= SECTOR * sectors
            && native % native == 0
  {
    var q, r, blocks := lba / n, lba % n, sectors / n;
    DivModLaw(lba, n);
    DivModLaw(sectors, n);
    BlockBelow(lba, sectors, n, q, blocks, r);
    assert q * native == SECTOR * (n * q);
    MulMono(SECTOR, r + 1, n);
    MulMono(n, q + 1, blocks);
    assert n * (q + 1) == n * q + n;
    ModUnique(native, native, 1, 0);
  }

  lemma BlockBelow(lba: nat, sectors: nat, n: nat, q: nat, blocks: nat, r: nat)
    requires lba == n * q + r && lba < sectors == n * blocks
    ensures q < blocks
  {
    if q >= blocks { MulMono(n, blocks, q); }
  }

  lemma SliceOfSlice(m: Bytes, at: nat, len: nat, offset: nat)
    requires at + len <= |m| && offset + SECTOR <= len
    ensures m[at..at + len][offset..offset + SECTOR] == m[at + offset..at + offset + SECTOR]
  {
    var x, y := m[at..at + len][offset..offset + SECTOR], m[at + offset..at + offset + SECTOR];
    forall i | 0 <= i < SECTOR
      ensures x[i] == y[i]
    {
    }
  }

  /** Splicing a sector into its native block and the block into the medium is splicing the sector
      into the medium: the read-modify-write touches nothing else. */
  lemma SpliceInBlock(m: Bytes, at: nat, len: nat, offset: nat, data: Bytes)
    requires at + len <= |m| && offset + |data| <= len
    ensures var block := m[at..at + len];
            var block' := block[..offset] + data + block[offset + |data|..];
            |block'| == len && Splice(m, at, block') == Splice(m, at + offset, data)
  {
    var block := m[at..at + len];
    var block' := block[..offset] + data + block[offset + |data|..];
    var x, y := Splice(m, at, block'), Splice(m, at + offset, data);
    assert |x| == |y| == |m|;
    forall i | 0 <= i < |m|
      ensures x[i] == y[i]
    {
      if at <= i < at + len { assert x[i] == block'[i - at]; }
    }
  }

  /** A failed write leaves every sector of other native blocks alone. */
  lemma TornStaysInside(g: Geometry, m: Bytes, op: Op, k: nat)
    requires Fits(g, m) && WellFormed(g, op) && Attempted(g, op) && !op.writeWorks && k < g.sectors
    requires !SharesBlocks(g, op.lba, k)
    ensures SECTOR * (k + 1) <= |m| && SectorAt(Applied(g, m, op), k) == SectorAt(m, k)
  {
    Placed(g, m, op.lba);
    Placed(g, m, k);
    ExtentsApart(g, m, op.lba, k);
    SpliceElsewhere(m, Start(g, op.lba), op.torn, k);
  }

  /** Two sectors whose writes hand the firmware the same native blocks. */
  predicate SharesBlocks(g: Geometry, i: nat, k: nat)
    requires g.perNative > 0
  {
    i / g.perNative == k / g.perNative
  }

  lemma ExtentsApart(g: Geometry, m: Bytes, i: nat, k: nat)
    requires Fits(g, m) && i < g.sectors && k < g.sectors && !SharesBlocks(g, i, k)
    ensures SECTOR * (k + 1) <= Start(g, i) || Start(g, i) + Extent(g) <= SECTOR * k
  {
    Placed(g, m, i);
    Placed(g, m, k);
    if g.perNative > 1 {
      BlocksApart(g.native, i / g.perNative, k / g.perNative);
    }
  }

  lemma BlocksApart(native: nat, p: nat, q: nat)
    requires p != q
    ensures q * native + native <= p * native || p * native + native <= q * native
  {
    if q < p {
      MulMono(native, q + 1, p);
      assert native * (q + 1) == q * native + native;
    } else {
      MulMono(native, p + 1, q);
      assert native * (p + 1) == p * native + native;
    }
  }

  lemma SpliceElsewhere(m: Bytes, at: nat, data: Bytes, k: nat)
    requires at + |data| <= |m| && SECTOR * (k + 1) <= |m|
    requires SECTOR * (k + 1) <= at || at + |data| <= SECTOR * k
    ensures SectorAt(Splice(m, at, data), k) == SectorAt(m, k)
  {
    var x, y := SectorAt(Splice(m, at, data), k), SectorAt(m, k);
    forall i | 0 <= i < SECTOR
      ensures x[i] == y[i]
    {
    }
  }

  // ---- histories -----------------------------------------------------------------------------

  predicate AllWellFormed(g: Geometry, ops: seq<Op>) { forall i :: 0 <= i < |ops| ==> WellFormed(g, ops[i]) }

  /** The medium after a history. */
  function Replay(g: Geometry, m: Bytes, ops: seq<Op>): (r: Bytes)
    requires Fits(g, m) && AllWellFormed(g, ops)
    ensures |r| == |m|
  {
    if ops == [] then m else Applied(g, Replay(g, m, ops[..|ops| - 1]), ops[|ops| - 1])
  }

  /** What a history says about one sector: never written, last written with this, or damaged by a failed
      write to a sector that shares its native blocks. */
  datatype Fact = Untouched | Holds(data: Bytes) | Damaged

  function Known(g: Geometry, ops: seq<Op>, k: nat): Fact
    requires g.perNative > 0
  {
    if ops == [] then Untouched
    else
      var op := ops[|ops| - 1];
      if Attempted(g, op) && op.writeWorks && op.lba == k then Holds(op.data)
      else if Attempted(g, op) && !op.writeWorks && SharesBlocks(g, op.lba, k) then Damaged
      else Known(g, ops[..|ops| - 1], k)
  }

  predicate Agrees(f: Fact, sector: Bytes, original: Bytes) {
    match f
    case Untouched => sector == original
    case Holds(data) => sector == data
    case Damaged => true
  }

  /** After any history, failures included, a sector holds the last data written to it successfully, unless
      a failed write has damaged its native blocks since. */
  lemma {:induction false} HoldsLastWrite(g: Geometry, m: Bytes, ops: seq<Op>, k: nat)
    requires Fits(g, m) && AllWellFormed(g, ops) && k < g.sectors
    ensures SECTOR * (k + 1) <= |m|
    ensures Agrees(Known(g, ops, k), SectorAt(Replay(g, m, ops), k), SectorAt(m, k))
    decreases |ops|
  {
    Placed(g, m, k);
    if ops != [] {
      var front, op := ops[..|ops| - 1], ops[|ops| - 1];
      var before := Replay(g, m, front);
      HoldsLastWrite(g, m, front, k);
      if Attempted(g, op) {
        Placed(g, before, op.lba);
        if op.writeWorks {
          SpliceIsSectorUpdate(before, op.lba, op.data, k);
        } else if !SharesBlocks(g, op.lba, k) {
          TornStaysInside(g, before, op, k);
        }
      }
    }
  }

  datatype Reply = Got(data: Bytes) | Done | Failed

  /** The reply to `op` after the history `before`: success or failure as the firmware decides, and a read
      returns the last data written successfully. */
  predicate Answers(g: Geometry, m: Bytes, before: seq<Op>, op: Op, reply: Reply)
    requires Fits(g, m) && g.perNative > 0
  {
    && reply.Failed? == !Succeeds(g, op)
    && (reply.Got? == (op.Read? && Succeeds(g, op)))
    && (reply.Got? ==>
          SECTOR * (op.lba + 1) <= |m| && Agrees(Known(g, before, op.lba), reply.data, SectorAt(m, op.lba)))
  }

  /** Drive a device through any mixture of reads and writes. */
  method Session(dev: EfiBlockDevice, ops: seq<Op>) returns (replies: seq<Reply>)
    requires dev.Valid() && AllWellFormed(dev.g, ops)
    modifies dev
    ensures dev.Valid() && dev.medium == Replay(dev.g, old(dev.medium), ops)
    ensures |replies| == |ops|
    ensures forall i :: 0 <= i < |ops| ==> Answers(dev.g, old(dev.medium), ops[..i], ops[i], replies[i])
  {
    replies := [];
    ghost var g, m := dev.g, dev.medium;
    for i := 0 to |ops|
      invariant dev.Valid() && dev.medium == Replay(g, m, ops[..i]) && |replies| == i
      invariant forall j :: 0 <= j < i ==> Answers(g, m, ops[..j], ops[j], replies[j])
    {
      assert ops[..i + 1][..i] == ops[..i];
      var reply := Perform(dev, ops[i], dev.medium);
      if reply.Got? { HoldsLastWrite(g, m, ops[..i], ops[i].lba); }
      replies := replies + [reply];
    }
    assert ops[..|ops|] == ops;
  }

  /** One operation on a device. */
  method Perform(dev: EfiBlockDevice, op: Op, ghost m: Bytes) returns (reply: Reply)
    requires dev.Valid() && WellFormed(dev.g, op) && m == dev.medium
    modifies dev
    ensures dev.Valid() && dev.medium == Applied(dev.g, m, op)
    ensures reply.Failed? == !Succeeds(dev.g, op) && (reply.Got? == (op.Read? && Succeeds(dev.g, op)))
    ensures reply.Got? ==> SECTOR * (op.lba + 1) <= |m| && reply.data == SectorAt(m, op.lba)
  {
    match op
    case Read(lba, works) =>
      var ok, data := dev.ReadSector(lba, works);
      reply := if ok then Got(data) else Failed;
    case Write(lba, data, readWorks, writeWorks, torn) =>
      var ok := dev.WriteSector(lba, data, readWorks, writeWorks, torn);
      reply := if ok then Done else Failed;
  }
}
