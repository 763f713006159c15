/**
 Safety of virtionet.device over every interleaving of tasks, interrupt handler and a device that
 returns only descriptors it holds.
 */
module VirtNetSafety {
  import opened Bits
  import opened Wrappers
  import opened VirtQueue
  import opened VirtNet
  import opened VirtNetSlots
  import opened VirtNetRequests

  ghost predicate Inv(s: State) {
    && Shaped(s)
    && TxOk(s.tx, s.tasks)
    && RxOk(s.rx)
    && Prompt(s.rx, s.tx.q, s.irq)
    && Conserved(s) && Fifo(s) && Counted(s)
  }

  // ---- task steps -----------------------------------------------------------------------------------

  lemma TaskKeepsSlots(s: State, a: Step)
    requires Inv(s) && TaskEnabled(s, a)
    ensures TxOk(TaskStep(s, a).tx, TaskStep(s, a).tasks) && TaskStep(s, a).rx == s.rx
  {
    var t := TaskStep(s, a);
    match a
    case SAllocSlot(r) => AllocKeepsSlots(s, r);
    case SBuildFails(r) => BuildFailsKeepsSlots(s, r, s.tasks[r].slot);
    case SPublish(r) => PublishKeepsSlots(s, r, s.tasks[r].slot);
    case _ =>
      assert t.tx == s.tx;
      TaskKeepsBuilders(s, a);
      SlotsFollowBuilders(s.tx.free, s.tx.pending, s.tasks, t.tasks);
  }

  predicate NotBuilding(tasks: map<Req, Local>, r: Req) { r in tasks ==> !tasks[r].Building? }

  lemma DropKeepsBuilders(tasks: map<Req, Local>, r: Req)
    requires NotBuilding(tasks, r)
    ensures SameBuilders(tasks, tasks - {r})
  {
  }

  lemma SetKeepsBuilders(tasks: map<Req, Local>, r: Req, l: Local)
    requires NotBuilding(tasks, r) && !l.Building?
    ensures SameBuilders(tasks, tasks[r := l])
  {
  }

  lemma TaskKeepsBuilders(s: State, a: Step)
    requires Inv(s) && TaskEnabled(s, a) && !a.SAllocSlot? && !a.SBuildFails? && !a.SPublish?
    ensures SameBuilders(s.tasks, TaskStep(s, a).tasks)
  {
    match a
    case SBeginRead(r) =>
      FreshIsNowhere(s, r);
      SetKeepsBuilders(s.tasks, r, Reading);
    case SBeginWrite(r, _) =>
      FreshIsNowhere(s, r);
      SetKeepsBuilders(s.tasks, r, Writing);
    case SQueueRead(r, _) => DropKeepsBuilders(s.tasks, r);
    case SReplyHeld(r) => DropKeepsBuilders(s.tasks, r);
    case SAbortRead(r) =>
      var k := Find(s.unit.readQ, r, 0);
      if k < |s.unit.readQ| {
        QueuedIsNotHeld(s, k);
        SetKeepsBuilders(s.tasks, r, Aborting);
      }
    case _ =>
  }

  lemma TaskConserves(s: State, a: Step)
    requires Inv(s) && TaskEnabled(s, a)
    ensures Conserved(TaskStep(s, a))
  {
    var t := TaskStep(s, a);
    match a
    case SBeginRead(r) => BeginConserves(s, t, r, Reading);
    case SQueueRead(r, packetType) => QueueConserves(s, r, packetType);
    case SBeginWrite(r, _) => BeginConserves(s, t, r, Writing);
    case SAllocSlot(r) => AllocConserves(s, r);
    case SBuildFails(r) => BuildFailsConserves(s, r, s.tasks[r].slot);
    case SPublish(r) =>
      assert Builds(s.tasks, r, s.tasks[r].slot);
      PublishConserves(s, r, s.tasks[r].slot);
    case SReplyHeld(r) => ReplyConserves(s, r);
    case SAbortRead(r) => AbortConserves(s, r);
    case SFlush => DrainConserves(s);
    case SClose => DrainConserves(s);
    case SOpen => DrainConserves(s);
    case _ => SamePlaces(s, t);
  }

  lemma SamePlaces(s: State, t: State)
    requires Conserved(s) && t.unit.readQ == s.unit.readQ && t.tx.pending == s.tx.pending
    requires t.tasks.Keys == s.tasks.Keys && t.log == s.log
    ensures Conserved(t)
  {
    forall x: Req
      ensures Places(t, x) == Count(x in t.log.submitted)
    {
      assert Places(s, x) == Count(x in s.log.submitted);
      assert (x in t.tasks.Keys) == (x in s.tasks.Keys);
    }
  }

  lemma AllocConserves(s: State, r: Req)
    requires Conserved(s) && r in s.tasks
    ensures Conserved(AllocSlot(s, r))
  {
    if FirstFree(s.tx.free, 0) < |s.tx.free| { SamePlaces(s, AllocSlot(s, r)); } else { ReplyConserves(s, r); }
  }

  lemma BuildFailsConserves(s: State, r: Req, slot: nat)
    requires Conserved(s) && TxOk(s.tx, s.tasks) && Builds(s.tasks, r, slot)
    ensures slot < |s.tx.free| == |s.tx.pending| && Conserved(BuildFails(s, r, slot))
  {
    assert s.tx.pending[slot := None] == s.tx.pending;
    SamePlaces(s, BuildFails(s, r, slot));
  }

  lemma TaskKeepsHistory(s: State, a: Step)
    requires Shaped(s) && TaskEnabled(s, a) && Fifo(s)
    ensures Fifo(TaskStep(s, a))
  {
    if TouchesQueue(a) { QueueStepKeepsHistory(s, a); } else { TaskKeepsQueue(s, a); }
  }

  predicate TouchesQueue(a: Step) { a.SQueueRead? || a.SAbortRead? || a.SFlush? || a.SClose? || a.SOpen? }

  lemma QueueStepKeepsHistory(s: State, a: Step)
    requires Shaped(s) && TaskEnabled(s, a) && Fifo(s) && TouchesQueue(a)
    ensures Fifo(TaskStep(s, a))
  {
    match a
    case SQueueRead(r, packetType) => QueueKeepsOrder(s, r, packetType);
    case SAbortRead(r) => AbortKeepsOrder(s, r);
    case _ => DrainKeepsOrder(s);
  }

  lemma TaskCounts(s: State, a: Step)
    requires Shaped(s) && TaskEnabled(s, a) && Counted(s)
    ensures Counted(TaskStep(s, a))
  {
    if !TouchesQueue(a) { TaskKeepsQueue(s, a); }
  }

  lemma TaskKeepsQueue(s: State, a: Step)
    requires Shaped(s) && TaskEnabled(s, a)
    requires !TouchesQueue(a)
    ensures var t := TaskStep(s, a);
            && t.unit.readQ == s.unit.readQ && t.unit.received == s.unit.received && t.unit.dropped == s.unit.dropped
            && t.log.served == s.log.served && t.log.ticket == s.log.ticket
  {
  }

  lemma ShapeFollows(s: State)
    requires TxOk(s.tx, s.tasks) && RxOk(s.rx)
    ensures Shaped(s)
  {
    forall r | r in s.tasks && s.tasks[r].Building?
      ensures s.tasks[r].slot < |s.tx.free|
    {
      assert Builds(s.tasks, r, s.tasks[r].slot);
    }
  }

  lemma TaskKeepsPrompt(s: State, a: Step)
    requires Inv(s) && TaskEnabled(s, a) && s.irq.at == Outside
    ensures Prompt(TaskStep(s, a).rx, TaskStep(s, a).tx.q, TaskStep(s, a).irq)
  {
    TaskKeepsUsed(s, a);
  }

  lemma TaskKeepsUsed(s: State, a: Step)
    requires Shaped(s) && TaskEnabled(s, a)
    ensures var t := TaskStep(s, a);
            t.rx == s.rx && t.tx.q.usedSeen == s.tx.q.usedSeen && t.tx.q.usedIdx == s.tx.q.usedIdx
            && t.irq == (if a.SReadIsr? then ReadIsr(s).irq else s.irq)
  {
  }

  lemma TaskKeepsInv(s: State, a: Step)
    requires Inv(s) && TaskEnabled(s, a) && s.irq.at == Outside
    ensures Inv(TaskStep(s, a))
  {
    TaskKeepsSlots(s, a);
    TaskConserves(s, a);
    TaskKeepsHistory(s, a);
    TaskCounts(s, a);
    ShapeFollows(TaskStep(s, a));
    TaskKeepsPrompt(s, a);
  }

  // ---- handler steps -----------------------------------------------------------------------------------

  lemma RxOneKeepsInv(s: State)
    requires Inv(s) && HandlerEnabled(s, SRxOne)
    ensures Inv(RxOne(s))
  {
    LoopStep(s.rx, Refilled(s.rx), s.irq.at.snap);
    RefillKeepsBuffers(s.rx);
    RxOneConserves(s);
    RxOneKeepsOrder(s);
    RxOneCounts(s);
  }

  lemma TxOneKeepsInv(s: State)
    requires Inv(s) && HandlerEnabled(s, STxOne)
    ensures Inv(TxOne(s))
  {
    LoopStep(s.tx.q, Collect(s.tx.q), s.irq.at.snap);
    TxOneKeepsSlots(s);
    TxOneConserves(s);
    TxOneFrame(s);
    ShapeFollows(TxOne(s));
  }

  lemma TxOneFrame(s: State)
    requires Shaped(s) && Fifo(s) && Counted(s)
    ensures var t := TxOne(s);
            && t.rx == s.rx && t.irq == s.irq && t.tx.q == Collect(s.tx.q)
            && Fifo(t) && Counted(t)
  {
  }

  lemma PointKeepsInv(s: State, irq: Irq)
    requires Inv(s) && Prompt(s.rx, s.tx.q, irq)
    ensures Inv(s.(irq := irq))
  {
    SameRequests(s, s.(irq := irq));
  }

  lemma HandlerKeepsInv(s: State, a: Step)
    requires Inv(s) && HandlerEnabled(s, a)
    ensures Inv(HandlerStep(s, a))
  {
    if a.SRxOne? {
      RxOneKeepsInv(s);
    } else if a.STxOne? {
      TxOneKeepsInv(s);
    } else {
      PointKeepsInv(s, HandlerStep(s, a).irq);
    }
  }

  // ---- device steps ---------------------------------------------------------------------------------------

  lemma DeviceKeepsQueues(s: State, a: Step)
    requires Inv(s) && IsDevice(a) && DeviceEnabled(s, a)
    ensures var t := DeviceStep(s, a); TxOk(t.tx, t.tasks) && RxOk(t.rx) && t.tx.pending == s.tx.pending
  {
    match a
    case SDevTakeRx => TakeKeeps(s.rx, Below(|s.rx.avail|));
    case SDevTakeTx => TakeKeeps(s.tx.q, Published(s.tx.pending));
    case SDevReturnRx(e) => ReturnKeeps(s.rx, Below(|s.rx.avail|), e);
    case SDevReturnTx(e) => ReturnKeeps(s.tx.q, Published(s.tx.pending), e);
    case _ =>
  }

  lemma DeviceKeepsPrompt(s: State, a: Step)
    requires Inv(s) && IsDevice(a) && DeviceEnabled(s, a)
    ensures var t := DeviceStep(s, a); Prompt(t.rx, t.tx.q, t.irq)
  {
    match a
    case SDevReturnRx(e) =>
      if s.irq.at.RxLoop? { ReturnStep(s.rx, Below(|s.rx.avail|), e, s.irq.at.snap); }
    case SDevReturnTx(e) =>
      if s.irq.at.TxLoop? { ReturnStep(s.tx.q, Published(s.tx.pending), e, s.irq.at.snap); }
    case _ =>
  }

  lemma DeviceKeepsInv(s: State, a: Step)
    requires Inv(s) && IsDevice(a) && DeviceEnabled(s, a)
    ensures Inv(DeviceStep(s, a))
  {
    DeviceKeepsQueues(s, a);
    DeviceKeepsPrompt(s, a);
    SameRequests(s, DeviceStep(s, a));
    ShapeFollows(DeviceStep(s, a));
  }

  lemma SameRequests(s: State, t: State)
    requires Conserved(s) && Fifo(s) && Counted(s)
    requires t.unit == s.unit && t.tx.pending == s.tx.pending && t.tasks == s.tasks && t.log == s.log
    ensures Conserved(t) && Fifo(t) && Counted(t)
  {
    SamePlaces(s, t);
  }

  // ---- runs ---------------------------------------------------------------------------------------------------

  ghost predicate Runs(s: State, run: seq<Step>)
    decreases |run|
  {
    run == [] || (Shaped(s) && Enabled(s, run[0]) && Runs(Apply(s, run[0]), run[1..]))
  }

  ghost function After(s: State, run: seq<Step>): State
    requires Runs(s, run)
    decreases |run|
  {
    if run == [] then s else After(Apply(s, run[0]), run[1..])
  }

  lemma StepKeepsInv(s: State, a: Step)
    requires Inv(s) && Enabled(s, a)
    ensures Inv(Apply(s, a))
  {
    if IsDevice(a) {
      DeviceKeepsInv(s, a);
    } else if IsHandler(a) {
      HandlerKeepsInv(s, a);
    } else {
      TaskKeepsInv(s, a);
    }
  }

  lemma {:induction false} RunKeepsInv(s: State, run: seq<Step>)
    requires Inv(s) && Runs(s, run)
    ensures Inv(After(s, run))
    decreases |run|
  {
    if run != [] {
      StepKeepsInv(s, run[0]);
      RunKeepsInv(Apply(s, run[0]), run[1..]);
    }
  }

  // ---- the start ------------------------------------------------------------------------------------------------

  lemma EmptyOk(n: nat)
    requires 0 < n < U16_RANGE && U16_RANGE % n == 0
    ensures QueueOk(Empty(n), {})
  {
  }

  lemma PostNext(q: Queue, k: nat, i: nat)
    requires QueueOk(q, Below(k)) && k < |q.avail| && i == k + 1
    ensures QueueOk(Post(q, k), Below(i))
  {
    PostKeeps(q, Below(k), k);
    assert Below(i) == Below(k) + {k};
  }

  lemma {:induction false} PostedOk(n: nat, i: nat)
    requires i <= n && 0 < n < U16_RANGE && U16_RANGE % n == 0
    ensures QueueOk(Posted(n, i), Below(i))
  {
    if i == 0 {
      NonePosted(n);
    } else {
      var k := i - 1;
      PostedOk(n, k);
      var q := Posted(n, k);
      PostNext(q, k, i);
      assert Posted(n, i) == Post(q, k);
    }
  }

  lemma NonePosted(n: nat)
    requires 0 < n < U16_RANGE && U16_RANGE % n == 0
    ensures QueueOk(Posted(n, 0), Below(0))
  {
    EmptyOk(n);
    assert Below(0) == {};
  }

  lemma {:induction false} NothingInSlots(n: nat, pending: seq<Option<Req>>, r: Req)
    requires |pending| == n && forall i :: 0 <= i < n ==> pending[i] == None
    ensures InSlots(pending, r) == 0
  {
    if n > 0 { NothingInSlots(n - 1, pending[1..], r); }
  }

  ghost predicate Sizes(nRx: nat, nTx: nat) {
    0 < nRx < U16_RANGE && 0 < nTx < U16_RANGE && U16_RANGE % nRx == 0 && U16_RANGE % nTx == 0
  }

  lemma StartsOk(nRx: nat, nTx: nat)
    requires Sizes(nRx, nTx)
    ensures Inv(Started(nRx, nTx))
  {
    PostedOk(nRx, nRx);
    QuietQueue(nRx, nRx);
    var s := Started(nRx, nTx);
    StartsFree(nTx, s.tx);
    StartsConserved(nTx, s);
    StartsOrdered(s);
  }

  lemma StartsOrdered(s: State)
    requires s.unit.readQ == [] && s.unit.received == 0 && s.unit.dropped == 0 && s.log.served == []
    ensures Fifo(s) && Counted(s)
  {
  }

  lemma StartsFree(nTx: nat, tx: Tx)
    requires 0 < nTx < U16_RANGE && U16_RANGE % nTx == 0
    requires tx == Tx(Empty(nTx), seq(nTx, _ => true), seq(nTx, _ => None))
    ensures TxOk(tx, map[])
  {
    EmptyOk(nTx);
    assert Published(tx.pending) == {};
  }

  lemma StartsConserved(nTx: nat, s: State)
    requires s.tx.pending == seq(nTx, _ => None) && s.tasks == map[] && s.unit.readQ == []
    requires s.log == Log({}, multiset{}, multiset{}, [], 0)
    ensures Conserved(s)
  {
    forall r: Req
      ensures Places(s, r) == 0
    {
      NothingInSlots(nTx, s.tx.pending, r);
    }
  }

  lemma {:induction false} QuietQueue(n: nat, i: nat)
    requires i <= n && 0 < n
    ensures Posted(n, i).usedSeen == Posted(n, i).usedIdx
  {
    if i > 0 { QuietQueue(n, i - 1); }
  }

  // ---- what holds in every reachable state --------------------------------------------------------------------------

  ghost predicate Reaches(nRx: nat, nTx: nat, run: seq<Step>, s: State) {
    Sizes(nRx, nTx) && Runs(Started(nRx, nTx), run) && s == After(Started(nRx, nTx), run)
  }

  lemma ReachableInv(nRx: nat, nTx: nat, run: seq<Step>, s: State)
    requires Reaches(nRx, nTx, run, s)
    ensures Inv(s)
  {
    StartsOk(nRx, nTx);
    RunKeepsInv(Started(nRx, nTx), run);
  }

  predicate ExactlyOne(a: bool, b: bool, c: bool) { Count(a) + Count(b) + Count(c) == 1 }

  /** Every tx descriptor is exactly one of free, reserved by a writer, or published with a pending request;
      published ones occur exactly once across unread avail entries, the device and unread used entries, and
      the others occur nowhere. */
  lemma SlotsArePartitioned(nRx: nat, nTx: nat, run: seq<Step>, s: State, d: nat)
    requires Reaches(nRx, nTx, run, s) && d < |s.tx.free|
    ensures Shaped(s)
    ensures ExactlyOne(s.tx.free[d], exists r :: Builds(s.tasks, r, d), s.tx.pending[d].Some?)
    ensures multiset(Offered(s.tx.q))[d] + s.tx.q.held[d] + multiset(Ids(Returned(s.tx.q)))[d] ==
            Count(s.tx.pending[d].Some?)
  {
    ReachableInv(nRx, nTx, run, s);
    assert Outstanding(s.tx.q)[d] == multiset(Published(s.tx.pending))[d];
    assert d in Published(s.tx.pending) <==> s.tx.pending[d].Some?;
  }

  /** The unread avail entries are as before, or one was appended, or the oldest was taken. */
  ghost predicate Kept(q: Queue, q': Queue)
    requires Sized(q) && Sized(q')
  {
    var was, now := Offered(q), Offered(q');
    now == was || (exists d :: now == Appended(was, d)) || (was != [] && now == was[1..])
  }

  function Appended(ds: seq<nat>, d: nat): seq<nat> { ds + [d] }

  lemma TakeShortens(q: Queue)
    requires Sized(q) && q.availSeen != q.availIdx
    ensures Offered(q) != [] && Offered(Take(q)) == Offered(q)[1..]
  {
    DistanceSteps(q.availSeen, q.availIdx);
  }

  predicate SameAvail(q: Queue, q': Queue) {
    q'.avail == q.avail && q'.availIdx == q.availIdx && q'.availSeen == q.availSeen
  }

  ghost predicate BothKept(s: State, t: State) {
    Sized(s.rx) && Sized(s.tx.q) && Sized(t.rx) && Sized(t.tx.q) && Kept(s.rx, t.rx) && Kept(s.tx.q, t.tx.q)
  }

  lemma QuietOffers(s: State, t: State)
    requires Shaped(s) && SameAvail(s.rx, t.rx) && SameAvail(s.tx.q, t.tx.q)
    requires |t.rx.used| == |s.rx.used| && |t.tx.q.used| == |s.tx.q.used|
    ensures BothKept(s, t)
  {
  }

  lemma TaskOffers(s: State, a: Step)
    requires Inv(s) && TaskEnabled(s, a)
    ensures BothKept(s, TaskStep(s, a))
  {
    if a.SPublish? {
      PublishKeepsSlots(s, a.r, s.tasks[a.r].slot);
      assert Offered(Publish(s, a.r, s.tasks[a.r].slot).tx.q) == Appended(Offered(s.tx.q), s.tasks[a.r].slot);
    } else {
      TaskKeepsAvail(s, a);
      QuietOffers(s, TaskStep(s, a));
    }
  }

  lemma TaskKeepsAvail(s: State, a: Step)
    requires Shaped(s) && TaskEnabled(s, a) && !a.SPublish?
    ensures TaskStep(s, a).rx == s.rx && TaskStep(s, a).tx.q == s.tx.q
  {
  }

  lemma HandlerOffers(s: State, a: Step)
    requires Inv(s) && HandlerEnabled(s, a)
    ensures BothKept(s, HandlerStep(s, a))
  {
    if a.SRxOne? {
      LoopStep(s.rx, Refilled(s.rx), s.irq.at.snap);
      RxOneOffers(s, RxOne(s));
    } else {
      QuietOffers(s, HandlerStep(s, a));
    }
  }

  lemma RxOneOffers(s: State, t: State)
    requires Shaped(s) && RxOk(s.rx) && s.rx.usedSeen != s.rx.usedIdx && t == RxOne(s)
    ensures BothKept(s, t)
  {
    RefillKeepsBuffers(s.rx);
    assert Offered(Refilled(s.rx)) == Appended(Offered(s.rx), Front(s.rx).id);
  }

  lemma DeviceOffers(s: State, a: Step)
    requires Inv(s) && IsDevice(a) && DeviceEnabled(s, a)
    ensures BothKept(s, DeviceStep(s, a))
  {
    if a.SDevTakeRx? {
      TakeShortens(s.rx);
    } else if a.SDevTakeTx? {
      TakeShortens(s.tx.q);
    } else {
      QuietOffers(s, DeviceStep(s, a));
    }
  }

  /** No unread avail entry is ever overwritten, whatever the indices. */
  lemma OffersAreKept(s: State, a: Step)
    requires Inv(s) && Enabled(s, a)
    ensures BothKept(s, Apply(s, a))
  {
    if IsDevice(a) { DeviceOffers(s, a); } else if IsHandler(a) { HandlerOffers(s, a); } else { TaskOffers(s, a); }
  }

  /** No completion is lost: outside the handler, a clear queue bit that the device does not owe means both
      queues are fully processed, although the handler clears the bit before it reads either index. */
  lemma NoCompletionLost(nRx: nat, nTx: nat, run: seq<Step>, s: State)
    requires Reaches(nRx, nTx, run, s) && s.irq.at == Outside && !s.irq.bit && !s.irq.owed
    ensures s.rx.usedSeen == s.rx.usedIdx && s.tx.q.usedSeen == s.tx.q.usedIdx
  {
    ReachableInv(nRx, nTx, run, s);
  }

  /** Every request given to the unit is in exactly one place, and is replied at most once. */
  lemma RequestsAreSomewhereOnce(nRx: nat, nTx: nat, run: seq<Step>, s: State, r: Req)
    requires Reaches(nRx, nTx, run, s)
    ensures Places(s, r) == Count(r in s.log.submitted) && s.log.replies[r] <= 1
  {
    ReachableInv(nRx, nTx, run, s);
    assert Places(s, r) <= 1;
  }

  /** Reads are served first come, first served, and the receive counters balance. */
  lemma ReadsAreServedInOrder(nRx: nat, nTx: nat, run: seq<Step>, s: State)
    requires Reaches(nRx, nTx, run, s)
    ensures Ordered(s.log.served + s.unit.readQ, s.log.ticket)
    ensures s.unit.received == Wrap(AsInt(s.unit.dropped) + |s.log.served|)
  {
    assert Fifo(s) && Counted(s) by { ReachableInv(nRx, nTx, run, s); }
  }
}
