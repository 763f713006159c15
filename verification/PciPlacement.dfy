/**
 What a scan of bus 0 leaves (m68k/prometheus-library/prometheus_library.c `assign_bars`, `record_function`,
 `enumerate_bus0`), from the bus as it was found: which functions are recorded, where every BAR of every one of
 them goes, and what the configuration space holds afterwards.
 */
module PciPlacement {
  import opened Bits
  import opened Wrappers
  import opened PciBars

  // ---- where a BAR belongs ----------------------------------------------------------------------------------

  predicate LeastMultiple(at: nat, size: nat, from: nat)
    requires size > 0
  {
    at % size == 0 && from <= at < from + size
  }

  lemma LeastMultipleIsUnique(at: nat, at': nat, size: nat, from: nat)
    requires size > 0 && LeastMultiple(at, size, from) && LeastMultiple(at', size, from)
    ensures at == at'
  {
    DivModLaw(at, size);
    DivModLaw(at', size);
    var q, q' := at / size, at' / size;
    assert size * (q - q') == size * q - size * q' && size * (q' - q) == size * q' - size * q;
    if q > q' { MulAtLeast(size, q - q'); } else if q < q' { MulAtLeast(size, q' - q); }
  }

  /** The end of the regions assigned so far: of the last one that is not 0/0. */
  function EndOf(rs: seq<Region>): nat {
    if rs == [] then 0x2000_0000
    else
      var last := rs[|rs| - 1];
      if last == Region(0, 0) then EndOf(rs[..|rs| - 1]) else last.base + last.size
  }

  /** A BAR of `size` bytes behind `end`: at the least multiple of its size, and 0/0 only if it would end above the
      8 MB region. */
  ghost predicate Granted(end: nat, size: nat, r: Region)
    requires size > 0
  {
    if r == Region(0, 0) then exists at: nat :: LeastMultiple(at, size, end) && at + size > 0x2080_0000
    else LeastMultiple(r.base, size, end) && r.size == size && r.base + size <= 0x2080_0000
  }

  lemma PlaceIsGranted(end: nat, k: nat)
    ensures Granted(end, Pow2(k), Place(end, k))
  {
    var size, x := Pow2(k), end + Pow2(k) - 1;
    RoundUpFacts(end, size);
    DivModLaw(x, size);
    assert LeastMultiple(RoundUp(end, size), size, end);
  }

  /** Index `i` holds the upper half of a 64-bit BAR. */
  predicate UpperHalf(bars: Bars, i: nat)
    requires i <= 6
  {
    i > 0 && bars[i - 1].Mem64? && !UpperHalf(bars, i - 1)
  }

  // ---- one function --------------------------------------------------------------------------------------------

  /** BAR `j` of a function: the region it gets behind `before` and the function's earlier BARs, and what its register
      is left holding. */
  ghost predicate Settled(found: Bars, left: Bars, before: seq<Region>, rs: seq<Region>, j: nat)
    requires j < 6 && j < |rs|
  {
    if found[j].Mem32? && !UpperHalf(found, j) then
      && Granted(EndOf(before + rs[..j]), Pow2(found[j].k), rs[j])
      && left[j] == if rs[j].size == 0 then found[j] else Mem32(found[j].k, found[j].kind, rs[j].base)
    else rs[j] == Region(0, 0) && left[j] == found[j]
  }

  ghost predicate SettledUpTo(found: Bars, left: Bars, before: seq<Region>, rs: seq<Region>, n: nat)
    requires n <= 6 && n <= |rs|
  {
    && (forall j: nat :: j < n ==> Settled(found, left, before, rs, j))
    && forall j: nat :: n <= j < 6 ==> left[j] == found[j]
  }

  lemma EndOfSkip(before: seq<Region>, acc: seq<Region>)
    ensures EndOf(before + (acc + [Region(0, 0)])) == EndOf(before + acc)
  {
    var rs := before + (acc + [Region(0, 0)]);
    assert rs[..|rs| - 1] == before + acc;
  }

  lemma EndOfPlaced(before: seq<Region>, acc: seq<Region>, p: Region)
    requires p.size != 0
    ensures EndOf(before + (acc + [p])) == p.base + p.size
  {
    var rs := before + (acc + [p]);
    assert rs[|rs| - 1] == p;
  }

  /** What is settled stays so when the next BAR is. */
  lemma OneMoreSettled(found: Bars, left: Bars, left': Bars, before: seq<Region>, acc: seq<Region>, p: Region, n: nat)
    requires n < 6 && |acc| == n && SettledUpTo(found, left, before, acc, n)
    requires forall j: nat :: j < 6 && j != n ==> left'[j] == left[j]
    requires Settled(found, left', before, acc + [p], n)
    ensures SettledUpTo(found, left', before, acc + [p], n + 1)
  {
    forall j: nat | j < n
      ensures Settled(found, left', before, acc + [p], j)
    {
      assert Settled(found, left, before, acc, j);
      assert (acc + [p])[..j] == acc[..j];
    }
  }

  lemma SkipSettles(found: Bars, left: Bars, before: seq<Region>, acc: seq<Region>, n: nat)
    requires n < 6 && |acc| == n && SettledUpTo(found, left, before, acc, n)
    requires !found[n].Mem32? || UpperHalf(found, n) || Place(EndOf(before + acc), found[n].k) == Region(0, 0)
    ensures SettledUpTo(found, left, before, acc + [Region(0, 0)], n + 1)
    ensures EndOf(before + (acc + [Region(0, 0)])) == EndOf(before + acc)
  {
    EndOfSkip(before, acc);
    assert (acc + [Region(0, 0)])[..n] == acc;
    if found[n].Mem32? { PlaceIsGranted(EndOf(before + acc), found[n].k); }
    OneMoreSettled(found, left, left, before, acc, Region(0, 0), n);
  }

  lemma PlaceSettles(found: Bars, left: Bars, left': Bars, before: seq<Region>, acc: seq<Region>, p: Region, n: nat)
    requires n < 6 && |acc| == n && SettledUpTo(found, left, before, acc, n)
    requires found[n].Mem32? && !UpperHalf(found, n) && p == Place(EndOf(before + acc), found[n].k) && p.size != 0
    requires p.base + 15 < U32_RANGE && left' == WriteBar(left, n, p.base)
    ensures SettledUpTo(found, left', before, acc + [p], n + 1)
    ensures EndOf(before + (acc + [p])) == p.base + p.size
  {
    EndOfPlaced(before, acc, p);
    assert (acc + [p])[..n] == acc;
    PlaceIsGranted(EndOf(before + acc), found[n].k);
    OneMoreSettled(found, left, left', before, acc, p, n);
  }

  lemma {:induction false} AssignSettles(found: Bars, left: Bars, i: nat, next: nat, before: seq<Region>,
                                         acc: seq<Region>)
    requires |acc| == i <= 6 && next == EndOf(before + acc) && !UpperHalf(found, i)
    requires SettledUpTo(found, left, before, acc, i)
    ensures var r := AssignFrom(left, i, next, acc);
            && |r.regions| == 6 && r.next == EndOf(before + r.regions)
            && SettledUpTo(found, r.bars, before, r.regions, 6)
    decreases 6 - i
  {
    if i < 6 {
      match left[i]
      case Mem64(_) =>
        SkipSettles(found, left, before, acc, i);
        if i + 1 < 6 {
          SkipSettles(found, left, before, acc + [Region(0, 0)], i + 1);
          AssignSettles(found, left, i + 2, next, before, acc + [UNASSIGNED] + [UNASSIGNED]);
        }
      case Mem32(k, kind, _) =>
        var p := Place(next, k);
        if p.Assigned() {
          PlaceSettles(found, left, WriteBar(left, i, p.base), before, acc, p, i);
          AssignSettles(found, WriteBar(left, i, p.base), i + 1, p.End(), before, acc + [p]);
        } else {
          SkipSettles(found, left, before, acc, i);
          AssignSettles(found, left, i + 1, next, before, acc + [UNASSIGNED]);
        }
      case _ =>
        SkipSettles(found, left, before, acc, i);
        AssignSettles(found, left, i + 1, next, before, acc + [UNASSIGNED]);
    }
  }

  // ---- which functions are visited ------------------------------------------------------------------------------

  /** The function answers: its vendor register does not read as all ones. */
  predicate Answers(c: Config, at: Loc) {
    at.dev < 32 && at.fn < 8 && c[at.dev][at.fn].Some? && c[at.dev][at.fn].value.vendor != 0xFFFF
  }

  function Found(c: Config, at: Loc): Func
    requires Answers(c, at)
  {
    c[at.dev][at.fn].value
  }

  /** The scan looks for it: function 0 of every device, the others of a present multifunction device. */
  predicate Sought(c: Config, at: Loc) {
    Answers(c, at) && (at.fn == 0 || (Answers(c, Loc(at.dev, 0)) && Found(c, Loc(at.dev, 0)).multi))
  }

  /** Scan order: device by device, function by function. */
  function Rank(at: Loc): nat { 8 * at.dev + at.fn }

  ghost predicate Ascending(locs: seq<Loc>) { forall i, j :: 0 <= i < j < |locs| ==> Rank(locs[i]) < Rank(locs[j]) }

  /** The list holds exactly the functions sought from rank `from` on, in scan order. */
  ghost predicate Lists(c: Config, locs: seq<Loc>, from: nat) {
    && Ascending(locs)
    && (forall i :: 0 <= i < |locs| ==> Sought(c, locs[i]) && from <= Rank(locs[i]))
    && forall at {:trigger at in locs} :: Sought(c, at) && from <= Rank(at) ==> at in locs
  }

  lemma ListsPrepend(c: Config, at: Loc, rest: seq<Loc>, next: nat)
    requires Sought(c, at) && Lists(c, rest, next) && Rank(at) < next
    requires forall l :: Sought(c, l) && Rank(at) <= Rank(l) < next ==> l == at
    ensures Lists(c, [at] + rest, Rank(at))
  {
  }

  lemma ListsSkip(c: Config, rest: seq<Loc>, from: nat, next: nat)
    requires Lists(c, rest, next) && from <= next
    requires forall l :: Sought(c, l) ==> !(from <= Rank(l) < next)
    ensures Lists(c, rest, from)
  {
  }

  /** The locations of one device. */
  lemma RankOf(l: Loc, dev: nat, fn: nat)
    requires l.fn < 8 && fn < 8 && 8 * dev <= Rank(l) < 8 * dev + 8
    ensures l.dev == dev
    ensures Rank(l) == 8 * dev + fn ==> l == Loc(dev, fn)
  {
  }

  lemma NoneLeft(c: Config)
    ensures Lists(c, Live(c, 32, 0), 256)
  {
  }

  lemma DeviceDone(c: Config, dev: nat)
    requires dev < 32
    ensures Live(c, dev, 8) == Live(c, dev + 1, 0)
  {
  }

  /** Functions `fn` to 7 of a multifunction device, and the devices after it. */
  lemma {:induction false} RestLists(c: Config, dev: nat, fn: nat)
    requires dev < 32 && 1 <= fn <= 8 && Sought(c, Loc(dev, 0)) && Found(c, Loc(dev, 0)).multi
    requires Lists(c, Live(c, dev + 1, 0), 8 * dev + 8)
    ensures Lists(c, Live(c, dev, fn), 8 * dev + fn)
    decreases 8 - fn
  {
    if fn == 8 {
      DeviceDone(c, dev);
    } else {
      RestLists(c, dev, fn + 1);
      NextFunction(c, dev, fn, Live(c, dev, fn + 1));
    }
  }

  lemma {:induction false} LiveLists(c: Config, dev: nat, from: nat)
    requires dev <= 32 && from == 8 * dev
    ensures Lists(c, Live(c, dev, 0), from)
    decreases 32 - dev
  {
    if dev == 32 {
      NoneLeft(c);
    } else {
      LiveLists(c, dev + 1, from + 8);
      FirstFunction(c, dev);
    }
  }

  lemma NextFunction(c: Config, dev: nat, fn: nat, rest: seq<Loc>)
    requires dev < 32 && 1 <= fn < 8 && Sought(c, Loc(dev, 0)) && Found(c, Loc(dev, 0)).multi
    requires rest == Live(c, dev, fn + 1) && Lists(c, rest, 8 * dev + fn + 1)
    ensures Lists(c, Live(c, dev, fn), 8 * dev + fn)
  {
    var at := Loc(dev, fn);
    forall l | Sought(c, l) && Rank(at) <= Rank(l) < Rank(at) + 1
      ensures l == at
    {
      RankOf(l, dev, fn);
    }
    if Present(c, at) {
      ListsPrepend(c, at, rest, Rank(at) + 1);
    } else {
      ListsSkip(c, rest, Rank(at), Rank(at) + 1);
    }
  }

  lemma FirstFunction(c: Config, dev: nat)
    requires dev < 32 && Lists(c, Live(c, dev + 1, 0), 8 * dev + 8)
    ensures Lists(c, Live(c, dev, 0), 8 * dev)
  {
    var at := Loc(dev, 0);
    forall l | Sought(c, l) && 8 * dev <= Rank(l) < 8 * dev + 8
      ensures l == at || (Present(c, at) && Get(c, at).multi)
    {
      RankOf(l, dev, l.fn);
    }
    if !Present(c, at) {
      ListsSkip(c, Live(c, dev + 1, 0), 8 * dev, 8 * dev + 8);
    } else if Get(c, at).multi {
      RestLists(c, dev, 1);
      forall l | Sought(c, l) && Rank(at) <= Rank(l) < Rank(at) + 1
        ensures l == at
      {
        RankOf(l, dev, 0);
      }
      ListsPrepend(c, at, Live(c, dev, 1), Rank(at) + 1);
    } else {
      ListsPrepend(c, at, Live(c, dev + 1, 0), Rank(at) + 8);
    }
  }

  // ---- the whole scan ---------------------------------------------------------------------------------------------

  function LocsOf(boards: seq<Board>): (r: seq<Loc>)
    ensures |r| == |boards|
  {
    seq(|boards|, i requires 0 <= i < |boards| => boards[i].loc)
  }

  /** Board `b`: its identity, its six regions behind those of the boards before it, and its configuration space, with
      memory decoding and bus mastering on. */
  ghost predicate BoardSettled(found: Config, left: Config, boards: seq<Board>, b: nat)
    requires b < |boards|
  {
    var at, rs := boards[b].loc, boards[b].regions;
    && Answers(found, at) && Answers(left, at) && |rs| == 6
    && boards[b].vendor == Found(found, at).vendor
    && Found(left, at) == Found(found, at).(bars := Found(left, at).bars, command := 0x0006)
    && forall j: nat :: j < 6 ==>
         Settled(Found(found, at).bars, Found(left, at).bars, AllRegions(boards[..b]), rs, j)
  }

  /** Everything recorded so far is settled, and the rest of the bus is as it was found. */
  ghost predicate ScanSettled(found: Config, s: Scan) {
    && s.next == EndOf(AllRegions(s.boards)) && Ascending(LocsOf(s.boards))
    && (forall b: nat :: b < |s.boards| ==> BoardSettled(found, s.config, s.boards, b))
    && OthersUntouched(found, s.config, LocsOf(s.boards))
  }

  ghost predicate OthersUntouched(found: Config, left: Config, locs: seq<Loc>) {
    forall dev: nat, fn: nat :: dev < 32 && fn < 8 && Loc(dev, fn) !in locs ==> left[dev][fn] == found[dev][fn]
  }

  lemma OneMoreTouched(found: Config, left: Config, locs: seq<Loc>, at: Loc, f: Func)
    requires OthersUntouched(found, left, locs) && Present(left, at)
    ensures OthersUntouched(found, Put(left, at, f), locs + [at])
  {
  }

  lemma BoardKept(found: Config, s: Scan, t: Scan, b: nat, at: Loc, f: Func)
    requires b < |s.boards| && BoardSettled(found, s.config, s.boards, b) && s.boards[b].loc != at
    requires Present(s.config, at) && t.config == Put(s.config, at, f) && |t.boards| == |s.boards| + 1
    requires t.boards[..|s.boards|] == s.boards
    ensures BoardSettled(found, t.config, t.boards, b)
  {
    assert t.boards[b] == s.boards[b];
    assert t.boards[..b] == s.boards[..b];
  }

  lemma BoardAdded(found: Config, s: Scan, at: Loc)
    requires ScanSettled(found, s) && Answers(s.config, at) && at !in LocsOf(s.boards)
    ensures Present(s.config, at)
    ensures var t := Record(s, at);
            && BoardSettled(found, t.config, t.boards, |s.boards|) && t.next == EndOf(AllRegions(t.boards))
            && LocsOf(t.boards) == LocsOf(s.boards) + [at]
  {
    var t, bars := Record(s, at), Get(s.config, at).bars;
    assert s.config[at.dev][at.fn] == found[at.dev][at.fn];
    var before := AllRegions(s.boards);
    assert before + [] == before;
    assert t.boards[..|s.boards|] == s.boards;
    AssignSettles(bars, bars, 0, s.next, before, []);
    assert LocsOf(t.boards) == LocsOf(s.boards) + [at];
  }

  lemma RecordSettles(found: Config, s: Scan, at: Loc)
    requires ScanSettled(found, s) && Answers(s.config, at) && Ascending(LocsOf(s.boards) + [at])
    ensures Present(s.config, at) && ScanSettled(found, Record(s, at))
    ensures LocsOf(Record(s, at).boards) == LocsOf(s.boards) + [at]
  {
    NewInOrder(LocsOf(s.boards), at);
    BoardAdded(found, s, at);
    var t := Record(s, at);
    var f := Configured(Get(s.config, at), AssignFrom(Get(s.config, at).bars, 0, s.next, []));
    OneMoreTouched(found, s.config, LocsOf(s.boards), at, f);
    forall b: nat | b < |s.boards|
      ensures BoardSettled(found, t.config, t.boards, b)
    {
      assert LocsOf(s.boards)[b] == s.boards[b].loc;
      BoardKept(found, s, t, b, at, f);
    }
  }

  lemma NewInOrder(locs: seq<Loc>, at: Loc)
    requires Ascending(locs + [at])
    ensures at !in locs
  {
    var all := locs + [at];
    assert all[|locs|] == at;
    forall i | 0 <= i < |locs|
      ensures locs[i] != at
    {
      assert all[i] == locs[i];
    }
  }

  lemma PrefixAscends(locs: seq<Loc>, n: nat)
    requires Ascending(locs) && n <= |locs|
    ensures Ascending(locs[..n])
  {
  }

  lemma {:induction false} ScanSettles(found: Config, s: Scan, locs: seq<Loc>)
    requires ScanSettled(found, s) && AllPresent(s.config, locs) && Ascending(LocsOf(s.boards) + locs)
    requires |s.boards| <= 32
    ensures var e, all := RecordAll(s, locs), LocsOf(s.boards) + locs;
            && ScanSettled(found, e) && |e.boards| <= 32
            && LocsOf(e.boards) == if |all| <= 32 then all else all[..32]
    decreases |locs|
  {
    if locs != [] && |s.boards| < 32 {
      var at, all := locs[0], LocsOf(s.boards) + locs;
      assert Present(s.config, at);
      PrefixAscends(all, |s.boards| + 1);
      assert all[..|s.boards| + 1] == LocsOf(s.boards) + [at];
      RecordSettles(found, s, at);
      RecordKeepsIds(s, at);
      AllStillPresent(s.config, Record(s, at).config, locs);
      assert LocsOf(s.boards) + [at] + locs[1..] == all;
      ScanSettles(found, Record(s, at), locs[1..]);
    }
  }

  lemma FreshScan(found: Config)
    ensures ScanSettled(found, Scan(found, [], 0x2000_0000))
  {
  }

  /** The recorded functions: each once, in scan order; every one the scan looks for, unless the 32 boards of the table
      are all taken by functions before it. */
  ghost predicate Recorded(found: Config, boards: seq<Board>) {
    && |boards| <= 32 && Ascending(LocsOf(boards))
    && (forall b :: 0 <= b < |boards| ==> Sought(found, boards[b].loc))
    && forall at :: Sought(found, at) && at !in LocsOf(boards) ==>
         |boards| == 32 && forall b :: 0 <= b < 32 ==> Rank(boards[b].loc) < Rank(at)
  }

  lemma PrefixRecords(found: Config, locs: seq<Loc>, boards: seq<Board>)
    requires Lists(found, locs, 0) && LocsOf(boards) == if |locs| <= 32 then locs else locs[..32]
    ensures Recorded(found, boards)
  {
    var taken := LocsOf(boards);
    forall b | 0 <= b < |boards|
      ensures Sought(found, boards[b].loc)
    {
      assert taken[b] == boards[b].loc == locs[b];
    }
    forall at | Sought(found, at) && at !in taken
      ensures |boards| == 32 && forall b :: 0 <= b < 32 ==> Rank(boards[b].loc) < Rank(at)
    {
      assert at in locs;
      var i :| 0 <= i < |locs| && locs[i] == at;
      assert i >= |taken|;
      forall b | 0 <= b < |boards|
        ensures Rank(boards[b].loc) < Rank(at)
      {
        assert taken[b] == boards[b].loc == locs[b];
      }
    }
  }

  /** A scan of any bus 0: who is recorded, where every BAR of every board goes, what every register is left holding,
      and that nothing else changes. */
  lemma ScanPlacesEveryBar(found: Config)
    ensures AllPresent(found, Live(found, 0, 0))
    ensures var e := RecordAll(Scan(found, [], 0x2000_0000), Live(found, 0, 0));
            Recorded(found, e.boards) && ScanSettled(found, e)
  {
    var s, locs := Scan(found, [], 0x2000_0000), Live(found, 0, 0);
    LiveArePresent(found, 0, 0);
    LiveLists(found, 0, 0);
    FreshScan(found);
    assert LocsOf(s.boards) + locs == locs;
    ScanSettles(found, s, locs);
    PrefixRecords(found, locs, RecordAll(s, locs).boards);
  }

  /** The scan the library runs when it is opened. */
  method ScanBus0(found: Config) returns (bus: Bus)
    ensures fresh(bus) && Recorded(found, bus.boards) && ScanSettled(found, bus.St())
  {
    ScanPlacesEveryBar(found);
    bus := new Bus(found);
    bus.EnumerateBus0();
  }
}
