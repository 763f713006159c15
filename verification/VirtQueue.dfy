/**
 The split virtqueue of virtionet.device (m68k/virtionet-device/virtionet_device.c; section 2.6 of
 OASIS Virtio 1.1): two rings of `N` cells addressed by free-running 16-bit indices.
 */
module VirtQueue {
  import opened Bits

  function Next(i: u16): u16 { (AsInt(i) + 1) % U16_RANGE }

  /** How many entries lie between a reader's index and a writer's. */
  function Distance(seen: u16, idx: u16): nat { (AsInt(idx) - seen) % U16_RANGE }

  /** The cell of entry `i`: the index wraps at 16 bits before it is reduced to the ring. */
  function Cell(i: nat, n: nat): nat
    requires n > 0
  {
    i % U16_RANGE % n
  }

  // ---- which ring sizes survive the 16-bit wrap ------------------------------------------------

  /** Any `n` consecutive entries occupy distinct cells, wherever the window starts. */
  ghost predicate WindowsDistinct(n: nat)
    requires n > 0
  {
    forall a: nat, i: nat, j: nat :: i < j < n ==> Apart(n, a, i, j)
  }

  predicate Apart(n: nat, a: nat, i: nat, j: nat)
    requires n > 0
  {
    Cell(a + i, n) != Cell(a + j, n)
  }

  lemma CellIsResidue(i: nat, n: nat)
    requires n > 0 && U16_RANGE % n == 0
    ensures Cell(i, n) == i % n
  {
    var q, k := i / U16_RANGE, U16_RANGE / n;
    DivModLaw(i, U16_RANGE);
    DivModLaw(U16_RANGE, n);
    var r := i % U16_RANGE;
    DivModLaw(r, n);
    assert U16_RANGE * q == n * (k * q) by {
      assert n * (k * q) == (n * k) * q;
    }
    assert i == n * (k * q) + n * (r / n) + r % n;
    assert n * (k * q + r / n) == n * (k * q) + n * (r / n);
    ModUnique(i, n, k * q + r / n, r % n);
  }

  /** The driver never overwrites an unread entry across the index wrap exactly when the ring size
      divides 65536: the power-of-two sizes the standard asks for, which the driver does not test. */
  lemma SizesThatSurviveTheWrap(n: nat)
    requires 0 < n <= U16_RANGE
    ensures WindowsDistinct(n) <==> U16_RANGE % n == 0
  {
    if U16_RANGE % n == 0 {
      forall a: nat, i: nat, j: nat | i < j < n
        ensures Apart(n, a, i, j)
      {
        CellIsResidue(a + i, n);
        CellIsResidue(a + j, n);
        DistinctResidues(n, a, i, j);
      }
    } else {
      var r := U16_RANGE % n;
      DivModLaw(U16_RANGE, n);
      var a: nat := U16_RANGE - r;
      ModUnique(a, n, U16_RANGE / n, 0);
      SmallMod(a, U16_RANGE);
      assert Cell(a, n) == 0;
      assert Cell(U16_RANGE, n) == 0;
      assert !Apart(n, a, 0, r);
    }
  }

  // ---- unread entries ---------------------------------------------------------------------------------

  /** The `k` entries a reader at index `seen` has not read yet, oldest first. */
  function Unread<T>(cells: seq<T>, seen: u16, k: nat): (r: seq<T>)
    requires |cells| > 0
    ensures |r| == k
    decreases k
  {
    if k == 0 then [] else [cells[seen % |cells|]] + Unread(cells, Next(seen), k - 1)
  }

  lemma NextCell(seen: u16, k: nat, n: nat)
    requires n > 0 && U16_RANGE % n == 0 && k > 0
    ensures Cell(AsInt(Next(seen)) + (k - 1), n) == Cell(AsInt(seen) + k, n)
  {
    NextIndex(seen, k);
  }

  lemma NextIndex(seen: u16, k: int)
    ensures (AsInt(Next(seen)) + (k - 1)) % U16_RANGE == (AsInt(seen) + k) % U16_RANGE
  {
    Congruent(U16_RANGE, Next(seen), AsInt(seen) + 1, k - 1);
  }

  /** Publishing appends. */
  lemma {:induction false} WriteAppends<T>(cells: seq<T>, seen: u16, k: nat, at: nat, v: T)
    requires |cells| > 0 && U16_RANGE % |cells| == 0 && k < |cells|
    requires at == Cell(AsInt(seen) + k, |cells|)
    ensures Unread(cells[at := v], seen, k + 1) == Unread(cells, seen, k) + [v]
    decreases k
  {
    var n := |cells|;
    if k == 0 {
      SmallMod(seen, U16_RANGE);
      assert Unread(cells[at := v], Next(seen), 0) == [];
    } else {
      NewCell(seen, k, n, at);
      WriteAppends(cells, Next(seen), k - 1, at, v);
    }
  }

  /** The cell written is not the oldest, and is as far from the second oldest less one. */
  lemma NewCell(seen: u16, k: nat, n: nat, at: nat)
    requires n > 0 && U16_RANGE % n == 0 && 0 < k < n && at == Cell(AsInt(seen) + k, n)
    ensures at != seen % n && at == Cell(AsInt(Next(seen)) + (k - 1), n)
  {
    SmallMod(seen, U16_RANGE);
    CellIsResidue(seen, n);
    CellIsResidue(AsInt(seen) + k, n);
    DistinctResidues(n, seen, 0, k);
    NextCell(seen, k, n);
  }

  lemma DistanceSteps(seen: u16, idx: u16)
    ensures Distance(seen, idx) < U16_RANGE - 1 ==> Distance(seen, Next(idx)) == Distance(seen, idx) + 1
    ensures seen != idx ==> Distance(Next(seen), idx) == Distance(seen, idx) - 1
    ensures (Distance(seen, idx) == 0) == (seen == idx)
    ensures idx == (AsInt(seen) + Distance(seen, idx)) % U16_RANGE
  {
    WrapOnce(AsInt(idx) - seen);
    WrapOnce(AsInt(Next(idx)) - seen);
    WrapOnce(AsInt(idx) - Next(seen));
    WrapOnce(AsInt(seen) + Distance(seen, idx));
  }

  lemma WrapOnce(x: int)
    requires -U16_RANGE < x < 2 * U16_RANGE
    ensures x % U16_RANGE == if x < 0 then x + U16_RANGE else if x < U16_RANGE then x else x - U16_RANGE
  {
  }

  /** Publishing entry `idx` while fewer than `N` are unread appends it and overwrites none of them. */
  lemma {:induction false} PublishAppends<T>(cells: seq<T>, seen: u16, idx: u16, v: T)
    requires |cells| > 0 && U16_RANGE % |cells| == 0 && Distance(seen, idx) < |cells| < U16_RANGE
    ensures Unread(cells[idx % |cells| := v], seen, Distance(seen, Next(idx))) ==
            Unread(cells, seen, Distance(seen, idx)) + [v]
    ensures Distance(seen, Next(idx)) == Distance(seen, idx) + 1
  {
    var k, at := Distance(seen, idx), idx % |cells|;
    IndexCell(seen, idx, |cells|, k, at);
    WriteAppends(cells, seen, k, at, v);
  }

  lemma IndexCell(seen: u16, idx: u16, n: nat, k: nat, at: nat)
    requires 0 < n < U16_RANGE && k == Distance(seen, idx) < n && at == idx % n
    ensures Distance(seen, Next(idx)) == k + 1 && at == Cell(AsInt(seen) + k, n)
  {
    DistanceSteps(seen, idx);
  }

  // ---- one queue, driver and device side -----------------------------------------------------------------

  /** A used-ring entry: the descriptor, and what the device wrote into its buffer. */
  datatype Elem = Elem(id: nat, len: nat, ethertype: nat)

  datatype Queue = Queue(
    avail: seq<nat>, availIdx: u16,     // written by the driver
    used: seq<Elem>, usedIdx: u16,      // written by the device
    usedSeen: u16,                      // the driver's shadow
    availSeen: u16, held: multiset<nat> // the device's
  )

  predicate Sized(q: Queue) { |q.avail| == |q.used| > 0 }

  function Offered(q: Queue): seq<nat>
    requires Sized(q)
  {
    Unread(q.avail, q.availSeen, Distance(q.availSeen, q.availIdx))
  }

  function Returned(q: Queue): seq<Elem>
    requires Sized(q)
  {
    Unread(q.used, q.usedSeen, Distance(q.usedSeen, q.usedIdx))
  }

  function Ids(es: seq<Elem>): (r: seq<nat>)
    ensures |r| == |es|
  {
    if es == [] then [] else [es[0].id] + Ids(es[1..])
  }

  /** Every descriptor the driver has posted and not yet collected, wherever it is. */
  function Outstanding(q: Queue): multiset<nat>
    requires Sized(q)
  {
    multiset(Offered(q)) + q.held + multiset(Ids(Returned(q)))
  }

  /** The driver publishes descriptor `d`. */
  function Post(q: Queue, d: nat): Queue
    requires Sized(q)
  {
    q.(avail := q.avail[q.availIdx % |q.avail| := d], availIdx := Next(q.availIdx))
  }

  /** The device takes the oldest offered descriptor. */
  function Take(q: Queue): Queue
    requires Sized(q) && q.availSeen != q.availIdx
  {
    q.(availSeen := Next(q.availSeen), held := q.held + multiset{q.avail[q.availSeen % |q.avail|]})
  }

  /** The device returns a descriptor it holds. */
  function Return(q: Queue, e: Elem): Queue
    requires Sized(q) && e.id in q.held
  {
    q.(used := q.used[q.usedIdx % |q.used| := e], usedIdx := Next(q.usedIdx), held := q.held - multiset{e.id})
  }

  /** The oldest uncollected entry, and the driver moving past it. */
  function Front(q: Queue): Elem
    requires Sized(q)
  {
    q.used[q.usedSeen % |q.used|]
  }

  function Collect(q: Queue): Queue { q.(usedSeen := Next(q.usedSeen)) }

  /** Exactly the descriptors in `s` are outstanding, each once, and the ring size survives the wrap. */
  predicate QueueOk(q: Queue, s: set<nat>) {
    && Sized(q) && U16_RANGE % |q.avail| == 0 && |q.avail| < U16_RANGE
    && (forall d :: d in s ==> d < |q.avail|)
    && Outstanding(q) == multiset(s)
  }

  lemma {:induction false} SetBelow(s: set<nat>, n: nat)
    requires forall d :: d in s ==> d < n
    ensures |s| <= n
  {
    if n > 0 {
      var t := s - {n - 1};
      SetBelow(t, n - 1);
      assert s <= t + {n - 1};
      SubsetSize(s, t + {n - 1});
    } else {
      assert s == {};
    }
  }

  lemma {:induction false} SubsetSize<T>(s: set<T>, t: set<T>)
    requires s <= t
    ensures |s| <= |t|
  {
    if s != {} {
      var x :| x in s;
      SubsetSize(s - {x}, t - {x});
    }
  }

  /** The three places together never hold more than `N` descriptors. */
  lemma Capacity(q: Queue, s: set<nat>)
    requires QueueOk(q, s)
    ensures Distance(q.availSeen, q.availIdx) + |q.held| + Distance(q.usedSeen, q.usedIdx) == |s| <= |q.avail|
  {
    SetBelow(s, |q.avail|);
    assert |Outstanding(q)| == |multiset(s)|;
  }

  lemma {:induction false} IdsAppend(es: seq<Elem>, e: Elem)
    ensures Ids(es + [e]) == Ids(es) + [e.id]
  {
    if es != [] {
      assert (es + [e])[1..] == es[1..] + [e];
      IdsAppend(es[1..], e);
    } else {
      assert (es + [e])[1..] == [];
    }
  }

  lemma PostAppends(q: Queue, s: set<nat>, d: nat)
    requires QueueOk(q, s) && d !in s && d < |q.avail|
    ensures Offered(Post(q, d)) == Offered(q) + [d]
  {
    Capacity(q, s);
    SetBelow(s + {d}, |q.avail|);
    PublishAppends(q.avail, q.availSeen, q.availIdx, d);
  }

  /** Posting a descriptor that is not outstanding overwrites no unread entry. */
  lemma PostKeeps(q: Queue, s: set<nat>, d: nat)
    requires QueueOk(q, s) && d !in s && d < |q.avail|
    ensures QueueOk(Post(q, d), s + {d})
    ensures Offered(Post(q, d)) == Offered(q) + [d]
  {
    PostAppends(q, s, d);
    var q' := Post(q, d);
    BagOfAppended(Offered(q), d);
    assert Returned(q') == Returned(q);
    assert multiset(s + {d}) == multiset(s) + multiset{d};
  }

  lemma BagOfAppended(ds: seq<nat>, d: nat)
    ensures multiset(ds + [d]) == multiset(ds) + multiset{d}
  {
  }

  lemma TakeKeeps(q: Queue, s: set<nat>)
    requires QueueOk(q, s) && q.availSeen != q.availIdx
    ensures QueueOk(Take(q), s)
  {
    DistanceSteps(q.availSeen, q.availIdx);
    var d := q.avail[q.availSeen % |q.avail|];
    assert Offered(q) == [d] + Offered(Take(q));
    assert multiset(Offered(q)) == multiset{d} + multiset(Offered(Take(q)));
  }

  lemma ReturnAppends(q: Queue, s: set<nat>, e: Elem)
    requires QueueOk(q, s) && e.id in q.held
    ensures Returned(Return(q, e)) == Returned(q) + [e]
    ensures Return(q, e).usedIdx != q.usedSeen
  {
    Capacity(q, s);
    assert |q.held| >= 1 by { assert q.held == q.held - multiset{e.id} + multiset{e.id}; }
    PublishAppends(q.used, q.usedSeen, q.usedIdx, e);
    DistanceSteps(q.usedSeen, Next(q.usedIdx));
  }

  /** The device, returning only what it holds, overwrites no uncollected entry either. */
  lemma ReturnKeeps(q: Queue, s: set<nat>, e: Elem)
    requires QueueOk(q, s) && e.id in q.held
    ensures QueueOk(Return(q, e), s)
    ensures Returned(Return(q, e)) == Returned(q) + [e]
  {
    ReturnAppends(q, s, e);
    IdsAppend(Returned(q), e);
    assert multiset(Ids(Returned(Return(q, e)))) == multiset(Ids(Returned(q))) + multiset{e.id};
    assert Offered(Return(q, e)) == Offered(q);
    assert q.held == q.held - multiset{e.id} + multiset{e.id};
  }

  /** Collecting takes one outstanding descriptor back. */
  lemma CollectKeeps(q: Queue, s: set<nat>)
    requires QueueOk(q, s) && q.usedSeen != q.usedIdx
    ensures Front(q).id in s && QueueOk(Collect(q), s - {Front(q).id})
  {
    var d := Front(q).id;
    CollectTakesFront(q, d);
    assert Outstanding(q) == multiset{d} + Outstanding(Collect(q));
    assert d in multiset(s);
    assert multiset(s - {d}) == multiset(s) - multiset{d};
  }

  lemma CollectTakesFront(q: Queue, d: nat)
    requires Sized(q) && q.usedSeen != q.usedIdx && d == Front(q).id
    ensures multiset(Ids(Returned(q))) == multiset{d} + multiset(Ids(Returned(Collect(q))))
  {
    DistanceSteps(q.usedSeen, q.usedIdx);
    assert Returned(q) == [Front(q)] + Returned(Collect(q));
    assert Ids(Returned(q)) == [d] + Ids(Returned(Collect(q)));
  }

  // ---- the overwrite itself -------------------------------------------------------------------------

  /** A queue of `n` cells whose device has read nothing since index `seen`, with `k` zeros offered. */
  function Stalled(n: nat, seen: u16, k: nat): Queue {
    Queue(seq(n, _ => 0), Wrap16(AsInt(seen) + k), seq(n, _ => Elem(0, 0, 0)), 0, 0, seen, multiset{})
  }

  /** For every other size there is a queue with room left in which posting does not append but destroys the
      oldest unread entry. With 6 cells: 4 unread entries from index 65532 on, and the fifth post lands on
      the first of them. */
  lemma OtherSizesOverwrite(n: nat)
    requires 0 < n < U16_RANGE && U16_RANGE % n != 0
    ensures var k := U16_RANGE % n;
            var q := Stalled(n, U16_RANGE - k, k);
            && 0 < Distance(q.availSeen, q.availIdx) < n
            && Offered(q)[0] == 0 && |Offered(Post(q, 1))| == |Offered(q)| + 1 && Offered(Post(q, 1))[0] == 1
            && Offered(Post(q, 1)) != Offered(q) + [1]
  {
    var k := U16_RANGE % n;
    DivModLaw(U16_RANGE, n);
    var seen: u16 := U16_RANGE - k;
    ModUnique(seen, n, U16_RANGE / n, 0);
    StalledOverwrites(n, seen, k, Stalled(n, seen, k));
  }

  lemma StalledOverwrites(n: nat, seen: u16, k: nat, q: Queue)
    requires 0 < k < n < U16_RANGE && AsInt(seen) + k == U16_RANGE && seen % n == 0 && q == Stalled(n, seen, k)
    ensures 0 < Distance(q.availSeen, q.availIdx) < n
    ensures Offered(q)[0] == 0 && |Offered(Post(q, 1))| == |Offered(q)| + 1 && Offered(Post(q, 1))[0] == 1
    ensures Offered(Post(q, 1)) != Offered(q) + [1]
  {
    assert q.availIdx == 0;
    assert Distance(seen, 0) == k;
    DistanceSteps(seen, 0);
    assert (Offered(q) + [1])[0] == Offered(q)[0];
  }
}
