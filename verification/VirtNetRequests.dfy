/**
 The request side of virtionet.device: every request is in exactly one place, reads are served in the
 order they were queued, and the receive counters balance.
 */
module VirtNetRequests {
  import opened Bits
  import opened Wrappers
  import opened VirtQueue
  import opened VirtNet
  import opened VirtNetSlots

  // ---- one place per request ---------------------------------------------------------------------

  function Count(yes: bool): nat { if yes then 1 else 0 }

  /** How often `r` is on the read queue. */
  function Queued(es: seq<Entry>, r: Req): nat {
    if es == [] then 0 else Count(es[0].req == r) + Queued(es[1..], r)
  }

  /** How many tx slots will reply to `r`. */
  function InSlots(pending: seq<Option<Req>>, r: Req): nat {
    if pending == [] then 0 else Count(pending[0] == Some(r)) + InSlots(pending[1..], r)
  }

  /** Read queue, tx slots, tasks, replies and losses together. */
  function Places(s: State, r: Req): nat {
    Queued(s.unit.readQ, r) + InSlots(s.tx.pending, r) + Count(r in s.tasks) + s.log.replies[r] + s.log.lost[r]
  }

  /** Each submitted request is in exactly one of them, once; nothing else is anywhere. */
  ghost predicate Conserved(s: State) { forall r: Req :: Places(s, r) == Count(r in s.log.submitted) }

  lemma {:induction false} InSlotsUpdate(pending: seq<Option<Req>>, i: nat, v: Option<Req>, r: Req)
    requires i < |pending|
    ensures InSlots(pending[i := v], r) + Count(pending[i] == Some(r)) == InSlots(pending, r) + Count(v == Some(r))
  {
    var after := pending[i := v];
    if i > 0 {
      assert after[1..] == pending[1..][i - 1 := v];
      InSlotsUpdate(pending[1..], i - 1, v, r);
    } else {
      assert after[1..] == pending[1..];
    }
  }

  lemma {:induction false} QueuedAppend(es: seq<Entry>, fs: seq<Entry>, r: Req)
    ensures Queued(es + fs, r) == Queued(es, r) + Queued(fs, r)
  {
    if es != [] {
      assert (es + fs)[1..] == es[1..] + fs;
      QueuedAppend(es[1..], fs, r);
    } else {
      assert es + fs == fs;
    }
  }

  lemma QueuedRemove(es: seq<Entry>, k: nat, r: Req)
    requires k < |es|
    ensures Queued(es, r) == Queued(es[..k] + es[k + 1..], r) + Count(es[k].req == r)
  {
    assert es == es[..k] + ([es[k]] + es[k + 1..]);
    QueuedAppend(es[..k], [es[k]] + es[k + 1..], r);
    QueuedAppend([es[k]], es[k + 1..], r);
    QueuedAppend(es[..k], es[k + 1..], r);
    assert Queued([es[k]], r) == Count(es[k].req == r);
  }

  lemma {:induction false} QueuedInBag(es: seq<Entry>, r: Req)
    ensures multiset(Reqs(es))[r] == Queued(es, r)
  {
    if es != [] {
      QueuedInBag(es[1..], r);
      assert multiset(Reqs(es)) == multiset{es[0].req} + multiset(Reqs(es[1..]));
    }
  }

  /** A request nobody submitted is nowhere. */
  lemma FreshIsNowhere(s: State, r: Req)
    requires Conserved(s) && r !in s.log.submitted
    ensures r !in s.tasks
  {
    assert Places(s, r) == 0;
  }

  /** A queued request is with no task. */
  lemma QueuedIsNotHeld(s: State, k: nat)
    requires Conserved(s) && k < |s.unit.readQ|
    ensures s.unit.readQ[k].req !in s.tasks
  {
    var r := s.unit.readQ[k].req;
    QueuedRemove(s.unit.readQ, k, r);
    assert Places(s, r) <= 1;
  }

  lemma BeginConserves(s: State, t: State, r: Req, l: Local)
    requires Conserved(s) && r !in s.log.submitted
    requires || t == s.(log := Submitted(s.log, r), tasks := s.tasks[r := l])
             || t == s.(log := Replied(Submitted(s.log, r), r))
    ensures Conserved(t)
  {
    FreshIsNowhere(s, r);
    forall x: Req
      ensures Places(t, x) == Count(x in t.log.submitted)
    {
      assert Places(s, x) == Count(x in s.log.submitted);
    }
  }

  /** Handing a held request on to a reply. */
  lemma ReplyConserves(s: State, r: Req)
    requires Conserved(s) && r in s.tasks
    ensures Conserved(ReplyHeld(s, r))
  {
    forall x: Req
      ensures Places(ReplyHeld(s, r), x) == Count(x in s.log.submitted)
    {
      assert Places(s, x) == Count(x in s.log.submitted);
    }
  }

  lemma QueueConserves(s: State, r: Req, packetType: nat)
    requires Conserved(s) && r in s.tasks
    ensures Conserved(QueueRead(s, r, packetType))
  {
    var e := Entry(r, s.log.ticket, packetType);
    forall x: Req
      ensures Places(QueueRead(s, r, packetType), x) == Count(x in s.log.submitted)
    {
      QueuedAppend(s.unit.readQ, [e], x);
      assert Queued([e], x) == Count(r == x);
      assert Places(s, x) == Count(x in s.log.submitted);
    }
  }

  lemma AbortConserves(s: State, r: Req)
    requires Conserved(s)
    ensures Conserved(AbortRead(s, r))
  {
    var k := Find(s.unit.readQ, r, 0);
    if k < |s.unit.readQ| {
      QueuedIsNotHeld(s, k);
      forall x: Req
        ensures Places(AbortRead(s, r), x) == Count(x in s.log.submitted)
      {
        QueuedRemove(s.unit.readQ, k, x);
        assert Places(s, x) == Count(x in s.log.submitted);
      }
    }
  }

  lemma PublishConserves(s: State, r: Req, slot: nat)
    requires Conserved(s) && Sized(s.tx.q) && r in s.tasks && slot < |s.tx.pending| && s.tx.pending[slot].None?
    ensures Conserved(Publish(s, r, slot))
  {
    forall x: Req
      ensures Places(Publish(s, r, slot), x) == Count(x in s.log.submitted)
    {
      InSlotsUpdate(s.tx.pending, slot, Some(r), x);
      assert Places(s, x) == Count(x in s.log.submitted);
    }
  }

  lemma TxOneConserves(s: State)
    requires Conserved(s) && Sized(s.tx.q) && |s.tx.free| == |s.tx.pending| == |s.tx.q.avail|
    ensures Conserved(TxOne(s))
  {
    var id := Front(s.tx.q).id;
    if id < |s.tx.pending| {
      forall x: Req
        ensures Places(TxOne(s), x) == Count(x in s.log.submitted)
      {
        InSlotsUpdate(s.tx.pending, id, None, x);
        assert Places(s, x) == Count(x in s.log.submitted);
      }
    }
  }

  lemma RxOneConserves(s: State)
    requires Conserved(s) && Sized(s.rx)
    ensures Conserved(RxOne(s))
  {
    var e := Front(s.rx);
    if e.id < |s.rx.avail| && Wanted(s.unit, e) {
      forall x: Req
        ensures Places(RxOne(s), x) == Count(x in s.log.submitted)
      {
        assert Places(s, x) == Count(x in s.log.submitted);
      }
    }
  }

  lemma DrainConserves(s: State)
    requires Conserved(s)
    ensures Conserved(Drained(s)) && Conserved(Close(s)) && Conserved(Open(s))
  {
    forall x: Req
      ensures Places(Drained(s), x) == Places(Close(s), x) == Places(Open(s), x) == Count(x in s.log.submitted)
    {
      QueuedInBag(s.unit.readQ, x);
      assert Places(s, x) == Count(x in s.log.submitted);
    }
  }

  // ---- first come, first served ------------------------------------------------------------------------

  /** Tickets increase along `es` and are all older than `next`. */
  predicate Ordered(es: seq<Entry>, next: nat) {
    && (forall i, j :: 0 <= i < j < |es| ==> es[i].ticket < es[j].ticket)
    && (forall i :: 0 <= i < |es| ==> es[i].ticket < next)
  }

  /** Reads were served in the order they were queued, and every read still queued is younger. */
  predicate Fifo(s: State) { Ordered(s.log.served + s.unit.readQ, s.log.ticket) }

  lemma OrderedWithout(es: seq<Entry>, fs: seq<Entry>, k: nat, next: nat)
    requires k < |fs| && Ordered(es + fs, next)
    ensures Ordered(es + (fs[..k] + fs[k + 1..]), next)
  {
    var all, cut := es + fs, es + (fs[..k] + fs[k + 1..]);
    var at := |es| + k;
    forall i | 0 <= i < |cut|
      ensures cut[i] == all[if i < at then i else i + 1]
    {
    }
  }

  lemma OrderedPart(es: seq<Entry>, fs: seq<Entry>, next: nat)
    requires Ordered(es + fs, next)
    ensures Ordered(es + [], next) && Ordered([] + fs, next)
  {
    var all := es + fs;
    assert es + [] == all[..|es|];
    assert [] + fs == all[|es|..];
  }

  lemma QueueKeepsOrder(s: State, r: Req, packetType: nat)
    requires Fifo(s)
    ensures Fifo(QueueRead(s, r, packetType))
  {
    var t := QueueRead(s, r, packetType);
    assert t.log.served + t.unit.readQ == s.log.served + s.unit.readQ + [Entry(r, s.log.ticket, packetType)];
  }

  lemma AbortKeepsOrder(s: State, r: Req)
    requires Fifo(s)
    ensures Fifo(AbortRead(s, r))
  {
    var k := Find(s.unit.readQ, r, 0);
    if k < |s.unit.readQ| { OrderedWithout(s.log.served, s.unit.readQ, k, s.log.ticket); }
  }

  lemma RxOneKeepsOrder(s: State)
    requires Fifo(s) && Sized(s.rx)
    ensures Fifo(RxOne(s))
  {
    var e := Front(s.rx);
    if e.id < |s.rx.avail| && Wanted(s.unit, e) {
      var es := s.unit.readQ;
      assert s.log.served + [es[0]] + es[1..] == s.log.served + es;
    }
  }

  lemma DrainKeepsOrder(s: State)
    requires Fifo(s)
    ensures Fifo(Drained(s)) && Fifo(Close(s)) && Fifo(Open(s))
  {
    OrderedPart(s.log.served, s.unit.readQ, s.log.ticket);
  }

  // ---- counters ---------------------------------------------------------------------------------------------

  /** Since the unit was opened: frames received are frames dropped plus reads served, in 32 bits. */
  predicate Counted(s: State) { s.unit.received == Wrap(AsInt(s.unit.dropped) + |s.log.served|) }

  function Wrap(x: int): u32 { x % U32_RANGE }

  lemma RxOneCounts(s: State)
    requires Counted(s) && Sized(s.rx)
    ensures Counted(RxOne(s))
  {
    CountersWrap(s.unit.dropped, |s.log.served|);
  }

  lemma CountersWrap(d: u32, n: nat)
    ensures Plus1(Wrap(AsInt(d) + n)) == Wrap(AsInt(Plus1(d)) + n)
    ensures Plus1(Wrap(AsInt(d) + n)) == Wrap(AsInt(d) + (n + 1))
  {
    WrapAgain(AsInt(d) + n, 1);
    WrapAgain(AsInt(d) + 1, n);
  }

  lemma WrapAgain(x: int, y: int)
    ensures Wrap(AsInt(Wrap(x)) + y) == Wrap(x + y)
  {
    SmallMod(Wrap(x), U32_RANGE);
    Congruent(U32_RANGE, Wrap(x), x, y);
  }
}
