/**
 The descriptor side of virtionet.device: what every step keeps about tx slots, rx buffers and the
 interrupt bit.
 */
module VirtNetSlots {
  import opened Bits
  import opened Wrappers
  import opened VirtQueue
  import opened VirtNet

  // ---- tx slots --------------------------------------------------------------------------------

  ghost function Published(pending: seq<Option<Req>>): set<nat> {
    set i: nat | i < |pending| && pending[i].Some?
  }

  ghost predicate Builds(tasks: map<Req, Local>, r: Req, i: nat) { r in tasks && tasks[r] == Building(i) }

  /** Every slot is free, or reserved by exactly one writer, or published with one pending request. */
  ghost predicate SlotsOk(free: seq<bool>, pending: seq<Option<Req>>, tasks: map<Req, Local>) {
    && |free| == |pending|
    && (forall i: nat :: i < |free| && free[i] ==> pending[i].None?)
    && (forall r, i: nat :: Builds(tasks, r, i) ==> i < |free| && !free[i] && pending[i].None?)
    && (forall r, r', i: nat :: Builds(tasks, r, i) && Builds(tasks, r', i) ==> r == r')
    && (forall i: nat :: i < |free| && !free[i] && pending[i].None? ==> exists r :: Builds(tasks, r, i))
  }

  /** And exactly the published ones are with the device or on a ring, each once. */
  ghost predicate TxOk(tx: Tx, tasks: map<Req, Local>) {
    && QueueOk(tx.q, Published(tx.pending)) && |tx.free| == |tx.q.avail|
    && SlotsOk(tx.free, tx.pending, tasks)
  }

  ghost predicate SameBuilders(tasks: map<Req, Local>, tasks': map<Req, Local>) {
    forall r, i: nat :: Builds(tasks, r, i) == Builds(tasks', r, i)
  }

  lemma SlotsFollowBuilders(free: seq<bool>, pending: seq<Option<Req>>, tasks: map<Req, Local>, tasks': map<Req, Local>)
    requires SlotsOk(free, pending, tasks) && SameBuilders(tasks, tasks')
    ensures SlotsOk(free, pending, tasks')
  {
    forall i: nat | i < |free| && !free[i] && pending[i].None?
      ensures exists r :: Builds(tasks', r, i)
    {
      var r :| Builds(tasks, r, i);
      assert Builds(tasks', r, i);
    }
  }

  lemma ReservedSlot(free: seq<bool>, pending: seq<Option<Req>>, tasks: map<Req, Local>, r: Req, k: nat,
                     tasks': map<Req, Local>)
    requires SlotsOk(free, pending, tasks) && k < |free| && free[k] && Builds(tasks', r, k)
    requires forall r', i: nat :: Builds(tasks', r', i) == if r' == r then i == k else Builds(tasks, r', i)
    requires forall i: nat :: !Builds(tasks, r, i)
    ensures SlotsOk(free[k := false], pending, tasks')
  {
    forall i: nat | i < |free| && i != k && !free[i] && pending[i].None?
      ensures exists r' :: Builds(tasks', r', i)
    {
      var r' :| Builds(tasks, r', i);
      assert Builds(tasks', r', i);
    }
  }

  lemma AllocKeepsSlots(s: State, r: Req)
    requires TxOk(s.tx, s.tasks) && Holding(s, r, Writing)
    ensures TxOk(AllocSlot(s, r).tx, AllocSlot(s, r).tasks)
  {
    var k := FirstFree(s.tx.free, 0);
    if k < |s.tx.free| {
      ReservedSlot(s.tx.free, s.tx.pending, s.tasks, r, k, s.tasks[r := Building(k)]);
    } else {
      SlotsFollowBuilders(s.tx.free, s.tx.pending, s.tasks, s.tasks - {r});
    }
  }

  lemma UnbuiltSlot(free: seq<bool>, pending: seq<Option<Req>>, tasks: map<Req, Local>, r: Req, slot: nat,
                    tasks': map<Req, Local>)
    requires SlotsOk(free, pending, tasks) && Builds(tasks, r, slot)
    requires forall r', i: nat :: Builds(tasks', r', i) == (Builds(tasks, r', i) && r' != r)
    ensures SlotsOk(free[slot := true], pending[slot := None], tasks')
    ensures forall v: Req :: SlotsOk(free, pending[slot := Some(v)], tasks')
  {
    forall i: nat | i < |free| && !free[i] && pending[i].None? && i != slot
      ensures exists r' :: Builds(tasks', r', i)
    {
      var r' :| Builds(tasks, r', i);
      assert Builds(tasks', r', i);
    }
  }

  lemma BuildFailsKeepsSlots(s: State, r: Req, slot: nat)
    requires TxOk(s.tx, s.tasks) && Builds(s.tasks, r, slot)
    ensures slot < |s.tx.free| == |s.tx.pending|
    ensures TxOk(BuildFails(s, r, slot).tx, BuildFails(s, r, slot).tasks)
  {
    var t := BuildFails(s, r, slot);
    UnbuiltSlot(s.tx.free, s.tx.pending, s.tasks, r, slot, t.tasks);
    assert s.tx.pending[slot := None] == s.tx.pending;
  }

  /** A published slot is a new descriptor for the queue, so no unread avail entry is overwritten. */
  lemma PublishKeepsSlots(s: State, r: Req, slot: nat)
    requires TxOk(s.tx, s.tasks) && Builds(s.tasks, r, slot)
    ensures slot < |s.tx.free| == |s.tx.pending|
    ensures TxOk(Publish(s, r, slot).tx, Publish(s, r, slot).tasks)
    ensures Offered(Publish(s, r, slot).tx.q) == Offered(s.tx.q) + [slot]
  {
    var t := Publish(s, r, slot);
    UnbuiltSlot(s.tx.free, s.tx.pending, s.tasks, r, slot, t.tasks);
    PostKeeps(s.tx.q, Published(s.tx.pending), slot);
    assert Published(t.tx.pending) == Published(s.tx.pending) + {slot};
  }

  /** The completion loop only ever meets published slots: the range and NULL tests never fail. */
  lemma TxOneKeepsSlots(s: State)
    requires TxOk(s.tx, s.tasks) && s.tx.q.usedSeen != s.tx.q.usedIdx
    ensures var id := Front(s.tx.q).id; id < |s.tx.pending| && s.tx.pending[id].Some?
    ensures TxOk(TxOne(s).tx, s.tasks) && TxOne(s).tasks == s.tasks
  {
    var id := Front(s.tx.q).id;
    CollectKeeps(s.tx.q, Published(s.tx.pending));
    assert id in Published(s.tx.pending);
    CompletedSlot(s.tx, TxOne(s).tx, s.tasks, id);
  }

  lemma CompletedSlot(tx: Tx, tx': Tx, tasks: map<Req, Local>, id: nat)
    requires SlotsOk(tx.free, tx.pending, tasks) && id in Published(tx.pending)
    requires Sized(tx.q) && |tx.free| == |tx.q.avail| && QueueOk(Collect(tx.q), Published(tx.pending) - {id})
    requires tx' == FreeSlot(tx.(q := Collect(tx.q)), id)
    ensures TxOk(tx', tasks)
  {
    assert Published(tx'.pending) == Published(tx.pending) - {id};
    FreedSlot(tx.free, tx.pending, tasks, id);
  }

  lemma FreedSlot(free: seq<bool>, pending: seq<Option<Req>>, tasks: map<Req, Local>, id: nat)
    requires SlotsOk(free, pending, tasks) && id < |pending| && pending[id].Some?
    ensures SlotsOk(free[id := true], pending[id := None], tasks)
  {
  }

  // ---- rx buffers -----------------------------------------------------------------------------------

  function Below(n: nat): (s: set<nat>)
    ensures forall i: nat :: i in s <==> i < n
  {
    if n == 0 then {} else Below(n - 1) + {n - 1}
  }

  /** Every rx descriptor is offered, held or returned, exactly once. */
  ghost predicate RxOk(q: Queue) { QueueOk(q, Below(|q.avail|)) }

  lemma RefillKeepsBuffers(q: Queue)
    requires RxOk(q) && q.usedSeen != q.usedIdx
    ensures Front(q).id < |q.avail| && RxOk(Refilled(q)) && |Refilled(q).avail| == |q.avail|
    ensures Offered(Refilled(q)) == Offered(q) + [Front(q).id]
  {
    var d := Front(q).id;
    CollectKeeps(q, Below(|q.avail|));
    PostKeeps(Collect(q), Below(|q.avail|) - {d}, d);
    assert Below(|q.avail|) - {d} + {d} == Below(|q.avail|);
    assert Collect(Post(q, d)) == Post(Collect(q), d);
    assert Offered(Collect(q)) == Offered(q);
  }

  // ---- the interrupt bit -------------------------------------------------------------------------------

  ghost predicate Signalled(irq: Irq) { irq.bit || irq.owed }

  /** A loop's snapshot lies between what it has collected and what the device has published. */
  ghost predicate Within(q: Queue, snap: u16) { Distance(q.usedSeen, snap) <= Distance(q.usedSeen, q.usedIdx) }

  /** Uncollected entries are either signalled or still ahead of the handler. */
  ghost predicate Prompt(rx: Queue, tx: Queue, irq: Irq) {
    match irq.at
    case Outside => Signalled(irq) || (rx.usedSeen == rx.usedIdx && tx.usedSeen == tx.usedIdx)
    case RxStart => true
    case RxLoop(snap) => Within(rx, snap) && (Signalled(irq) || snap == rx.usedIdx)
    case TxStart => Signalled(irq) || rx.usedSeen == rx.usedIdx
    case TxLoop(snap) =>
      Within(tx, snap) && (Signalled(irq) || (snap == tx.usedIdx && rx.usedSeen == rx.usedIdx))
  }

  lemma LoopStep(q: Queue, q': Queue, snap: u16)
    requires Within(q, snap) && q.usedSeen != snap
    requires q'.usedSeen == Next(q.usedSeen) && q'.usedIdx == q.usedIdx
    ensures q.usedSeen != q.usedIdx && Within(q', snap)
  {
    DistanceSteps(q.usedSeen, snap);
    DistanceSteps(q.usedSeen, q.usedIdx);
  }

  lemma ReturnStep(q: Queue, s: set<nat>, e: Elem, snap: u16)
    requires QueueOk(q, s) && e.id in q.held
    ensures Within(q, snap) ==> Within(Return(q, e), snap)
  {
    Capacity(q, s);
    assert |q.held| >= 1 by { assert q.held == q.held - multiset{e.id} + multiset{e.id}; }
    DistanceSteps(q.usedSeen, q.usedIdx);
  }
}
