/**
 virtionet.device (m68k/virtionet-device/virtionet_device.c) as a state machine: tasks calling the
 device, the interrupt handler, and the virtio device itself, interleaved.

 Every Disable()/Enable() region is one step. The handler carries its own program point, so device steps
 interleave inside it; task steps happen only while no handler runs. Each call of BeginIO counts as a
 fresh request.
 */
module VirtNet {
  import opened Bits
  import opened Wrappers
  import opened VirtQueue

  type Req = nat

  const VNET_HDR_SIZE := 12
  const VNET_ETH_HDR_LEN := 14
  const VNET_FRAME_MAX := 1526

  // ---- the state ----------------------------------------------------------------------------------

  /** A queued CMD_READ; the ticket records when it was queued. A packet type of 0 accepts any frame. */
  datatype Entry = Entry(req: Req, ticket: nat, packetType: nat)

  /** Where a task is with a request that is in no shared structure. */
  datatype Local =
    | Reading               // passed the checks of cmd_read, not yet queued
    | Writing               // passed the checks of cmd_write, no slot yet
    | Building(slot: nat)   // filling the buffer of its slot
    | Failing               // gave its slot back, about to reply with an error
    | Aborting              // taken off the read queue by AbortIO, about to be replied

  datatype Tx = Tx(q: Queue, free: seq<bool>, pending: seq<Option<Req>>)

  datatype Unit = Unit(readQ: seq<Entry>, open: bool, configured: bool, online: bool,
                       received: u32, dropped: u32, sent: u32)

  /** Where the handler is; the loops hold the used index they read on entry. */
  datatype Point = Outside | RxStart | RxLoop(snap: u16) | TxStart | TxLoop(snap: u16)

  /** The ISR queue bit, whether the device still owes it for entries it has published, and the handler. */
  datatype Irq = Irq(bit: bool, owed: bool, at: Point)

  /** History: requests submitted, ReplyMsg calls, requests dropped by NewList, reads the handler served
      since the unit was opened, and the next ticket. */
  datatype Log = Log(submitted: set<Req>, replies: multiset<Req>, lost: multiset<Req>, served: seq<Entry>,
                     ticket: nat)

  datatype State = State(rx: Queue, tx: Tx, unit: Unit, tasks: map<Req, Local>, irq: Irq, log: Log)

  function Plus1(x: u32): u32 { (AsInt(x) + 1) % U32_RANGE }

  function Reqs(es: seq<Entry>): (r: seq<Req>)
    ensures |r| == |es|
  {
    if es == [] then [] else [es[0].req] + Reqs(es[1..])
  }

  // ---- task side ------------------------------------------------------------------------------------

  function Replied(log: Log, r: Req): Log { log.(replies := log.replies + multiset{r}) }

  function Submitted(log: Log, r: Req): Log { log.(submitted := log.submitted + {r}) }

  predicate Accepts(u: Unit) { u.configured && u.online }

  function BeginRead(s: State, r: Req): State {
    var log := Submitted(s.log, r);
    if Accepts(s.unit) then s.(log := log, tasks := s.tasks[r := Reading]) else s.(log := Replied(log, r))
  }

  function QueueRead(s: State, r: Req, packetType: nat): State {
    s.(unit := s.unit.(readQ := s.unit.readQ + [Entry(r, s.log.ticket, packetType)]),
       log := s.log.(ticket := s.log.ticket + 1), tasks := s.tasks - {r})
  }

  function BeginWrite(s: State, r: Req, length: nat): State {
    var log := Submitted(s.log, r);
    if Accepts(s.unit) && length <= VNET_FRAME_MAX - VNET_ETH_HDR_LEN then
      s.(log := log, tasks := s.tasks[r := Writing])
    else s.(log := Replied(log, r))
  }

  /** The first free slot at or after `i`, or the pool size. */
  function FirstFree(free: seq<bool>, i: nat): (k: nat)
    requires i <= |free|
    ensures i <= k <= |free| && (k < |free| ==> free[k]) && (forall j :: i <= j < k ==> !free[j])
    decreases |free| - i
  {
    if i == |free| || free[i] then i else FirstFree(free, i + 1)
  }

  function AllocSlot(s: State, r: Req): State {
    var k := FirstFree(s.tx.free, 0);
    if k < |s.tx.free| then s.(tx := s.tx.(free := s.tx.free[k := false]), tasks := s.tasks[r := Building(k)])
    else s.(tasks := s.tasks - {r}, log := Replied(s.log, r))
  }

  function FreeSlot(tx: Tx, slot: nat): Tx
    requires slot < |tx.free| == |tx.pending|
  {
    tx.(free := tx.free[slot := true], pending := tx.pending[slot := None])
  }

  /** The copy hook failed: the slot goes back first. */
  function BuildFails(s: State, r: Req, slot: nat): State
    requires slot < |s.tx.free| == |s.tx.pending|
  {
    s.(tx := FreeSlot(s.tx, slot), tasks := s.tasks[r := Failing])
  }

  function Publish(s: State, r: Req, slot: nat): State
    requires Sized(s.tx.q) && slot < |s.tx.pending|
  {
    s.(tx := s.tx.(q := Post(s.tx.q, slot), pending := s.tx.pending[slot := Some(r)]), tasks := s.tasks - {r})
  }

  /** A task replies to the request it holds. */
  function ReplyHeld(s: State, r: Req): State { s.(tasks := s.tasks - {r}, log := Replied(s.log, r)) }

  /** The position of a request in the read queue, or its length. */
  function Find(es: seq<Entry>, r: Req, i: nat): (k: nat)
    requires i <= |es|
    ensures i <= k <= |es| && (k < |es| ==> es[k].req == r) && (forall j :: i <= j < k ==> es[j].req != r)
    decreases |es| - i
  {
    if i == |es| || es[i].req == r then i else Find(es, r, i + 1)
  }

  function AbortRead(s: State, r: Req): State {
    var es := s.unit.readQ;
    var k := Find(es, r, 0);
    if k == |es| then s
    else s.(unit := s.unit.(readQ := es[..k] + es[k + 1..]), tasks := s.tasks[r := Aborting])
  }

  function Drained(s: State): State {
    s.(unit := s.unit.(readQ := []), log := s.log.(replies := s.log.replies + multiset(Reqs(s.unit.readQ))))
  }

  function Close(s: State): State {
    var s' := Drained(s);
    s'.(unit := s'.unit.(online := false, open := false))
  }

  /** Open starts the read list afresh: whatever was still on it is no longer reachable. */
  function Open(s: State): State {
    s.(unit := Unit([], true, false, false, 0, 0, 0),
       log := s.log.(lost := s.log.lost + multiset(Reqs(s.unit.readQ)), served := []))
  }

  function Configure(s: State): State { s.(unit := s.unit.(configured := true)) }
  function GoOnline(s: State): State { if s.unit.configured then s.(unit := s.unit.(online := true)) else s }
  function GoOffline(s: State): State { s.(unit := s.unit.(online := false)) }

  // ---- interrupt side -----------------------------------------------------------------------------------

  /** Reading the ISR register clears it. */
  function ReadIsr(s: State): State { if s.irq.bit then s.(irq := Irq(false, s.irq.owed, RxStart)) else s }

  function Wanted(u: Unit, e: Elem): bool {
    && e.len > VNET_HDR_SIZE + VNET_ETH_HDR_LEN
    && u.readQ != []
    && (u.readQ[0].packetType == 0 || u.readQ[0].packetType == e.ethertype)
  }

  /** One received frame: it completes the oldest read or is dropped; the buffer is posted again. The
      driver's own `used_idx_seen` is invisible to the device, so moving it is part of the same step. */
  function Refilled(q: Queue): Queue
    requires Sized(q)
  {
    if Front(q).id >= |q.avail| then Collect(q) else Collect(Post(q, Front(q).id))
  }

  function RxOne(s: State): State
    requires Sized(s.rx)
  {
    var e := Front(s.rx);
    var u := s.unit.(received := Plus1(s.unit.received));
    var s' := s.(rx := Refilled(s.rx));
    if e.id >= |s.rx.avail| then s'
    else if Wanted(s.unit, e) then
      s'.(unit := u.(readQ := u.readQ[1..]),
          log := Replied(s.log, u.readQ[0].req).(served := s.log.served + [u.readQ[0]]))
    else s'.(unit := u.(dropped := Plus1(u.dropped)))
  }

  /** One transmitted frame: its request is replied and its slot is free again. */
  function TxOne(s: State): State
    requires Sized(s.tx.q) && |s.tx.free| == |s.tx.pending| == |s.tx.q.avail|
  {
    var id := Front(s.tx.q).id;
    var tx := s.tx.(q := Collect(s.tx.q));
    if id >= |tx.q.avail| then s.(tx := tx)
    else
      var s' := s.(tx := FreeSlot(tx, id));
      if tx.pending[id].None? then s'
      else s'.(unit := s.unit.(sent := Plus1(s.unit.sent)), log := Replied(s.log, tx.pending[id].value))
  }

  // ---- steps ------------------------------------------------------------------------------------------------

  datatype Step =
    | SBeginRead(r: Req) | SQueueRead(r: Req, packetType: nat)
    | SBeginWrite(r: Req, length: nat) | SAllocSlot(r: Req) | SBuildFails(r: Req) | SPublish(r: Req)
    | SReplyHeld(r: Req) | SAbortRead(r: Req) | SFlush | SClose | SOpen | SConfigure | SOnline | SOffline
    | SReadIsr | SRxSnapshot | SRxOne | SRxDone | STxSnapshot | STxOne | STxDone
    | SDevTakeRx | SDevTakeTx | SDevReturnRx(e: Elem) | SDevReturnTx(e: Elem) | SDevInterrupt

  /** Array bounds of the driver's own tables. */
  predicate Shaped(s: State) {
    && Sized(s.rx) && Sized(s.tx.q) && |s.tx.free| == |s.tx.pending| == |s.tx.q.avail|
    && forall r :: r in s.tasks && s.tasks[r].Building? ==> s.tasks[r].slot < |s.tx.free|
  }

  predicate Holding(s: State, r: Req, l: Local) { r in s.tasks && s.tasks[r] == l }

  predicate TaskEnabled(s: State, a: Step) {
    match a
    case SBeginRead(r) => r !in s.log.submitted
    case SQueueRead(r, _) => Holding(s, r, Reading)
    case SBeginWrite(r, _) => r !in s.log.submitted
    case SAllocSlot(r) => Holding(s, r, Writing)
    case SBuildFails(r) => r in s.tasks && s.tasks[r].Building?
    case SPublish(r) => r in s.tasks && s.tasks[r].Building?
    case SReplyHeld(r) => Holding(s, r, Failing) || Holding(s, r, Aborting)
    case SOpen => !s.unit.open
    case _ => true
  }

  predicate HandlerEnabled(s: State, a: Step) {
    match a
    case SRxSnapshot => s.irq.at == RxStart
    case SRxOne => s.irq.at.RxLoop? && s.rx.usedSeen != s.irq.at.snap
    case SRxDone => s.irq.at.RxLoop? && s.rx.usedSeen == s.irq.at.snap
    case STxSnapshot => s.irq.at == TxStart
    case STxOne => s.irq.at.TxLoop? && s.tx.q.usedSeen != s.irq.at.snap
    case STxDone => s.irq.at.TxLoop? && s.tx.q.usedSeen == s.irq.at.snap
    case _ => false
  }

  predicate DeviceEnabled(s: State, a: Step) {
    match a
    case SDevTakeRx => s.rx.availSeen != s.rx.availIdx
    case SDevTakeTx => s.tx.q.availSeen != s.tx.q.availIdx
    case SDevReturnRx(e) => e.id in s.rx.held
    case SDevReturnTx(e) => e.id in s.tx.q.held
    case _ => true
  }

  predicate IsDevice(a: Step) {
    a.SDevTakeRx? || a.SDevTakeTx? || a.SDevReturnRx? || a.SDevReturnTx? || a.SDevInterrupt?
  }

  predicate IsHandler(a: Step) {
    a.SRxSnapshot? || a.SRxOne? || a.SRxDone? || a.STxSnapshot? || a.STxOne? || a.STxDone?
  }

  /** The device may step at any time, the handler where it stands, a task (or a new interrupt) only while
      no handler runs. */
  predicate Enabled(s: State, a: Step) {
    if IsDevice(a) then DeviceEnabled(s, a)
    else if IsHandler(a) then HandlerEnabled(s, a)
    else s.irq.at == Outside && TaskEnabled(s, a)
  }

  function TaskStep(s: State, a: Step): State
    requires Shaped(s) && TaskEnabled(s, a)
  {
    match a
    case SBeginRead(r) => BeginRead(s, r)
    case SQueueRead(r, packetType) => QueueRead(s, r, packetType)
    case SBeginWrite(r, length) => BeginWrite(s, r, length)
    case SAllocSlot(r) => AllocSlot(s, r)
    case SBuildFails(r) => BuildFails(s, r, s.tasks[r].slot)
    case SPublish(r) => Publish(s, r, s.tasks[r].slot)
    case SReplyHeld(r) => ReplyHeld(s, r)
    case SAbortRead(r) => AbortRead(s, r)
    case SFlush => Drained(s)
    case SClose => Close(s)
    case SOpen => Open(s)
    case SConfigure => Configure(s)
    case SOnline => GoOnline(s)
    case SOffline => GoOffline(s)
    case SReadIsr => ReadIsr(s)
    case _ => s
  }

  function At(s: State, p: Point): State { s.(irq := s.irq.(at := p)) }

  function HandlerStep(s: State, a: Step): State
    requires Shaped(s) && HandlerEnabled(s, a)
  {
    match a
    case SRxSnapshot => At(s, RxLoop(s.rx.usedIdx))
    case SRxOne => RxOne(s)
    case SRxDone => At(s, TxStart)
    case STxSnapshot => At(s, TxLoop(s.tx.q.usedIdx))
    case STxOne => TxOne(s)
    case STxDone => At(s, Outside)
  }

  function DeviceStep(s: State, a: Step): State
    requires Shaped(s) && DeviceEnabled(s, a)
  {
    match a
    case SDevTakeRx => s.(rx := Take(s.rx))
    case SDevTakeTx => s.(tx := s.tx.(q := Take(s.tx.q)))
    case SDevReturnRx(e) => s.(rx := Return(s.rx, e), irq := s.irq.(owed := true))
    case SDevReturnTx(e) => s.(tx := s.tx.(q := Return(s.tx.q, e)), irq := s.irq.(owed := true))
    case SDevInterrupt => s.(irq := s.irq.(bit := true, owed := false))
    case _ => s
  }

  function Apply(s: State, a: Step): State
    requires Shaped(s) && Enabled(s, a)
  {
    if IsDevice(a) then DeviceStep(s, a) else if IsHandler(a) then HandlerStep(s, a) else TaskStep(s, a)
  }

  // ---- the state DevInit leaves -----------------------------------------------------------------------------------

  /** `i` rx buffers posted. */
  function Posted(n: nat, i: nat): (q: Queue)
    requires i <= n && 0 < n
    ensures Sized(q) && |q.avail| == n
  {
    if i == 0 then Empty(n) else Post(Posted(n, i - 1), i - 1)
  }

  function Empty(n: nat): Queue {
    Queue(seq(n, _ => 0), 0, seq(n, _ => Elem(0, 0, 0)), 0, 0, 0, multiset{})
  }

  function Started(nRx: nat, nTx: nat): (s: State)
    requires nRx > 0 && nTx > 0
    ensures Shaped(s)
  {
    State(Posted(nRx, nRx), Tx(Empty(nTx), seq(nTx, _ => true), seq(nTx, _ => None)),
          Unit([], false, false, false, 0, 0, 0), map[], Irq(false, false, Outside),
          Log({}, multiset{}, multiset{}, [], 0))
  }
}
