/**
 The loops of virtionet.device (m68k/virtionet-device/virtionet_device.c) as they update the queues and the
 unit embedded in the device base, proved against the steps of the state machine.
 */
module VirtNetLoops {
  import opened Bits
  import opened Wrappers
  import opened VirtQueue
  import opened VirtNet
  import opened VirtNetSlots
  import opened VirtNetSafety

  /** `run` leads from `from`, where the invariant holds, to `now`. */
  ghost predicate Reached(from: State, run: seq<Step>, now: State) {
    Inv(from) && Runs(from, run) && After(from, run) == now
  }

  lemma {:induction false} RunsOn(s: State, run: seq<Step>, a: Step)
    requires Runs(s, run) && Shaped(After(s, run)) && Enabled(After(s, run), a)
    ensures Runs(s, run + [a]) && After(s, run + [a]) == Apply(After(s, run), a)
    decreases |run|
  {
    if run == [] {
      assert [a][1..] == [];
    } else {
      assert (run + [a])[1..] == run[1..] + [a];
      RunsOn(Apply(s, run[0]), run[1..], a);
    }
  }

  lemma ReachedNext(from: State, run: seq<Step>, now: State, a: Step, next: State)
    requires Reached(from, run, now) && Shaped(now) && Enabled(now, a) && next == Apply(now, a)
    ensures Reached(from, run + [a], next)
  {
    RunsOn(from, run, a);
  }

  lemma ReachedIsShaped(from: State, run: seq<Step>, now: State)
    requires Reached(from, run, now)
    ensures Shaped(now)
  {
    RunKeepsInv(from, run);
  }

  lemma OneCloser(seen: u16, idx: u16)
    requires seen != idx
    ensures Distance(seen, idx) > 0 && Distance(VirtQueue.Next(seen), idx) == Distance(seen, idx) - 1
  {
    DistanceSteps(seen, idx);
  }

  lemma DrainHead(s: State)
    requires s.unit.readQ != []
    ensures var es := s.unit.readQ;
            Drained(s) == Drained(s.(unit := s.unit.(readQ := es[1..]), log := Replied(s.log, es[0].req)))
  {
    var es := s.unit.readQ;
    assert Reqs(es) == [es[0].req] + Reqs(es[1..]);
    assert multiset(Reqs(es)) == multiset{es[0].req} + multiset(Reqs(es[1..]));
  }

  lemma NothingToDrain(s: State)
    requires s.unit.readQ == []
    ensures Drained(s) == s
  {
  }

  lemma RxOneLeaves(s: State)
    requires Shaped(s)
    ensures var t := RxOne(s);
            && t.rx.usedSeen == VirtQueue.Next(s.rx.usedSeen) && t.rx.usedIdx == s.rx.usedIdx
            && t.tx == s.tx && t.irq == s.irq
  {
  }

  /** The device does nothing while the handler runs. */
  ghost predicate Quiet(device: nat -> seq<Step>) { forall n: nat :: device(n) == [] }

  class VNetBase {
    var rxq: Queue
    var txq: Tx
    var unit: Unit
    var log: Log
    var irq: Irq    // the ISR register, and where the handler is

    /** The machine state: what is here, and where the tasks are. */
    function Whole(tasks: map<Req, Local>): State
      reads this
    {
      State(rxq, txq, unit, tasks, irq, log)
    }

    method PushRx(d: nat)
      requires Sized(rxq)
      modifies this`rxq
      ensures rxq == Post(old(rxq), d)
    {
      var pos := rxq.availIdx % |rxq.avail|;
      rxq := rxq.(avail := rxq.avail[pos := d]);
      rxq := rxq.(availIdx := VirtQueue.Next(rxq.availIdx));
    }

    /** DevInit posts every rx buffer once. */
    method PostRxBuffers()
      requires |rxq.avail| > 0 && rxq == Empty(|rxq.avail|)
      modifies this`rxq
      ensures rxq == Posted(|old(rxq).avail|, |old(rxq).avail|)
    {
      var n := |rxq.avail|;
      for i := 0 to n
        invariant rxq == Posted(n, i)
      {
        PushRx(i);
      }
    }

    method AllocSlot() returns (found: int)
      modifies this`txq
      ensures var free := old(txq.free); var k := FirstFree(free, 0);
              && found == (if k < |free| then k else -1)
              && txq == old(txq).(free := if k < |free| then free[k := false] else free)
    {
      found := -1;
      var i := 0;
      while i < |txq.free|
        invariant i <= |txq.free| && txq == old(txq) && found == -1
        invariant FirstFree(txq.free, 0) == FirstFree(txq.free, i)
      {
        if txq.free[i] {
          txq := txq.(free := txq.free[i := false]);
          found := i;
          break;
        }
        i := i + 1;
      }
    }

    /** One pass of the transmit loop. */
    method CompleteOne(ghost tasks: map<Req, Local>, ghost before: State)
      requires before == Whole(tasks) && Shaped(before)
      modifies this`unit, this`log, this`txq
      ensures Whole(tasks) == TxOne(before)
    {
      var id := txq.q.used[txq.q.usedSeen % |txq.q.used|].id;
      if id < |txq.q.avail| {
        if txq.pending[id].Some? {
          unit := unit.(sent := Plus1(unit.sent));
          log := Replied(log, txq.pending[id].value);
        }
        txq := txq.(pending := txq.pending[id := None]);
        txq := txq.(free := txq.free[id := true]);
      }
      txq := txq.(q := txq.q.(usedSeen := VirtQueue.Next(txq.q.usedSeen)));
    }

    /** One pass of the receive loop. */
    method ReceiveOne(ghost tasks: map<Req, Local>, ghost before: State)
      requires before == Whole(tasks) && Shaped(before)
      modifies this`unit, this`log, this`rxq
      ensures Whole(tasks) == RxOne(before)
    {
      var e := rxq.used[rxq.usedSeen % |rxq.used|];
      if e.id < |rxq.avail| {
        unit := unit.(received := Plus1(unit.received));
        if Wanted(unit, e) {
          var head := unit.readQ[0];
          unit := unit.(readQ := unit.readQ[1..]);
          log := Replied(log, head.req).(served := log.served + [head]);
        } else {
          unit := unit.(dropped := Plus1(unit.dropped));
        }
        PushRx(e.id);
      }
      rxq := rxq.(usedSeen := VirtQueue.Next(rxq.usedSeen));
    }

    /** One action of the device, if it can take it now. */
    method DeviceActs(a: Step, ghost tasks: map<Req, Local>, ghost from: State, ghost run0: seq<Step>)
      returns (ghost run: seq<Step>)
      requires Reached(from, run0, Whole(tasks))
      modifies this`rxq, this`txq, this`irq
      ensures Reached(from, run, Whole(tasks))
      ensures irq.at == old(irq.at) && rxq.usedSeen == old(rxq.usedSeen) && txq.q.usedSeen == old(txq.q.usedSeen)
    {
      run := run0;
      ghost var before := Whole(tasks);
      ReachedIsShaped(from, run, before);
      if IsDevice(a) && DeviceEnabled(Whole(map[]), a) {
        if a.SDevTakeRx? {
          rxq := Take(rxq);
        } else if a.SDevTakeTx? {
          txq := txq.(q := Take(txq.q));
        } else if a.SDevReturnRx? {
          rxq := Return(rxq, a.e);
          irq := irq.(owed := true);
        } else if a.SDevReturnTx? {
          txq := txq.(q := Return(txq.q, a.e));
          irq := irq.(owed := true);
        } else {
          irq := irq.(bit := true, owed := false);
        }
        ReachedNext(from, run, before, a, Whole(tasks));
        run := run + [a];
      }
    }

    /** A burst of device actions. */
    method Interfere(burst: seq<Step>, ghost tasks: map<Req, Local>, ghost from: State, ghost run0: seq<Step>)
      returns (ghost run: seq<Step>)
      requires Reached(from, run0, Whole(tasks))
      modifies this`rxq, this`txq, this`irq
      ensures Reached(from, run, Whole(tasks))
      ensures irq.at == old(irq.at) && rxq.usedSeen == old(rxq.usedSeen) && txq.q.usedSeen == old(txq.q.usedSeen)
      ensures burst == [] ==> rxq == old(rxq) && txq == old(txq) && irq == old(irq)
    {
      run := run0;
      for i := 0 to |burst|
        invariant burst == [] ==> rxq == old(rxq) && txq == old(txq) && irq == old(irq)
        invariant Reached(from, run, Whole(tasks))
        invariant irq.at == old(irq.at) && rxq.usedSeen == old(rxq.usedSeen) && txq.q.usedSeen == old(txq.q.usedSeen)
      {
        run := DeviceActs(burst[i], tasks, from, run);
      }
    }

    /** Read the used index. */
    method RxSnapshot(ghost tasks: map<Req, Local>, ghost from: State, ghost run0: seq<Step>)
      returns (devIdx: u16, ghost run: seq<Step>)
      requires Reached(from, run0, Whole(tasks)) && irq.at == RxStart
      modifies this`irq
      ensures Reached(from, run, Whole(tasks)) && irq == old(irq).(at := RxLoop(devIdx)) && devIdx == rxq.usedIdx
    {
      ghost var before := Whole(tasks);
      ReachedIsShaped(from, run0, before);
      devIdx := rxq.usedIdx;
      irq := irq.(at := RxLoop(devIdx));
      ReachedNext(from, run0, before, SRxSnapshot, Whole(tasks));
      run := run0 + [SRxSnapshot];
    }

    /** One pass of the receive loop, as a step. */
    method RxPass(devIdx: u16, ghost tasks: map<Req, Local>, ghost from: State, ghost run0: seq<Step>)
      returns (ghost run: seq<Step>)
      requires Reached(from, run0, Whole(tasks)) && irq.at == RxLoop(devIdx) && rxq.usedSeen != devIdx
      modifies this
      ensures Reached(from, run, Whole(tasks)) && irq == old(irq)
      ensures rxq.usedSeen == VirtQueue.Next(old(rxq.usedSeen)) && rxq.usedIdx == old(rxq.usedIdx) && txq == old(txq)
    {
      ghost var before := Whole(tasks);
      ReachedIsShaped(from, run0, before);
      RxOneLeaves(before);
      ReceiveOne(tasks, before);
      assert rxq == RxOne(before).rx && txq == RxOne(before).tx && irq == RxOne(before).irq;
      ReachedNext(from, run0, before, SRxOne, Whole(tasks));
      run := run0 + [SRxOne];
    }

    /** Leave the loop. */
    method RxLeave(devIdx: u16, ghost tasks: map<Req, Local>, ghost from: State, ghost run0: seq<Step>)
      returns (ghost run: seq<Step>)
      requires Reached(from, run0, Whole(tasks)) && irq.at == RxLoop(devIdx) && rxq.usedSeen == devIdx
      modifies this`irq
      ensures Reached(from, run, Whole(tasks)) && irq == old(irq).(at := TxStart)
    {
      ghost var before := Whole(tasks);
      ReachedIsShaped(from, run0, before);
      irq := irq.(at := TxStart);
      ReachedNext(from, run0, before, SRxDone, Whole(tasks));
      run := run0 + [SRxDone];
    }

    /** The receive half of the handler. `device` says what the device does at each point where the handler has
        nothing but its own locals in hand: before it reads the used index and before every pass. */
    method ProcessRxUsed(device: nat -> seq<Step>, ghost tasks: map<Req, Local>, ghost from: State,
                         ghost run0: seq<Step>)
      returns (ghost run: seq<Step>)
      requires Reached(from, run0, Whole(tasks)) && irq.at == RxStart
      modifies this
      ensures Reached(from, run, Whole(tasks)) && irq.at == TxStart
      ensures Quiet(device) ==> irq == old(irq).(at := TxStart) && rxq.usedSeen == rxq.usedIdx && txq == old(txq)
    {
      run := Interfere(device(0), tasks, from, run0);
      var devIdx;
      devIdx, run := RxSnapshot(tasks, from, run);
      var n := 1;
      while rxq.usedSeen != devIdx
        invariant Reached(from, run, Whole(tasks)) && irq.at == RxLoop(devIdx)
        invariant Quiet(device) ==> irq == old(irq).(at := RxLoop(devIdx)) && rxq.usedIdx == devIdx && txq == old(txq)
        decreases Distance(rxq.usedSeen, devIdx)
      {
        OneCloser(rxq.usedSeen, devIdx);
        run := Interfere(device(n), tasks, from, run);
        run := RxPass(devIdx, tasks, from, run);
        n := n + 1;
      }
      run := RxLeave(devIdx, tasks, from, run);
    }

    /** Read the used index. */
    method TxSnapshot(ghost tasks: map<Req, Local>, ghost from: State, ghost run0: seq<Step>)
      returns (devIdx: u16, ghost run: seq<Step>)
      requires Reached(from, run0, Whole(tasks)) && irq.at == TxStart
      modifies this`irq
      ensures Reached(from, run, Whole(tasks)) && irq == old(irq).(at := TxLoop(devIdx)) && devIdx == txq.q.usedIdx
    {
      ghost var before := Whole(tasks);
      ReachedIsShaped(from, run0, before);
      devIdx := txq.q.usedIdx;
      irq := irq.(at := TxLoop(devIdx));
      ReachedNext(from, run0, before, STxSnapshot, Whole(tasks));
      run := run0 + [STxSnapshot];
    }

    /** One pass of the transmit loop, as a step. */
    method TxPass(devIdx: u16, ghost tasks: map<Req, Local>, ghost from: State, ghost run0: seq<Step>)
      returns (ghost run: seq<Step>)
      requires Reached(from, run0, Whole(tasks)) && irq.at == TxLoop(devIdx) && txq.q.usedSeen != devIdx
      modifies this
      ensures Reached(from, run, Whole(tasks)) && irq == old(irq)
      ensures txq.q.usedSeen == VirtQueue.Next(old(txq.q.usedSeen)) && txq.q.usedIdx == old(txq.q.usedIdx)
      ensures rxq == old(rxq)
    {
      ghost var before := Whole(tasks);
      ReachedIsShaped(from, run0, before);
      CompleteOne(tasks, before);
      ReachedNext(from, run0, before, STxOne, Whole(tasks));
      run := run0 + [STxOne];
    }

    /** Leave the loop. */
    method TxLeave(devIdx: u16, ghost tasks: map<Req, Local>, ghost from: State, ghost run0: seq<Step>)
      returns (ghost run: seq<Step>)
      requires Reached(from, run0, Whole(tasks)) && irq.at == TxLoop(devIdx) && txq.q.usedSeen == devIdx
      modifies this`irq
      ensures Reached(from, run, Whole(tasks)) && irq == old(irq).(at := Outside)
    {
      ghost var before := Whole(tasks);
      ReachedIsShaped(from, run0, before);
      irq := irq.(at := Outside);
      ReachedNext(from, run0, before, STxDone, Whole(tasks));
      run := run0 + [STxDone];
    }

    /** The transmit half. */
    method ProcessTxUsed(device: nat -> seq<Step>, ghost tasks: map<Req, Local>, ghost from: State,
                         ghost run0: seq<Step>)
      returns (ghost run: seq<Step>)
      requires Reached(from, run0, Whole(tasks)) && irq.at == TxStart
      modifies this
      ensures Reached(from, run, Whole(tasks)) && irq.at == Outside
      ensures Quiet(device) ==> irq == old(irq).(at := Outside) && txq.q.usedSeen == txq.q.usedIdx && rxq == old(rxq)
    {
      run := Interfere(device(0), tasks, from, run0);
      var devIdx;
      devIdx, run := TxSnapshot(tasks, from, run);
      var n := 1;
      while txq.q.usedSeen != devIdx
        invariant Reached(from, run, Whole(tasks)) && irq.at == TxLoop(devIdx)
        invariant Quiet(device) ==> irq == old(irq).(at := TxLoop(devIdx)) && txq.q.usedIdx == devIdx && rxq == old(rxq)
        decreases Distance(txq.q.usedSeen, devIdx)
      {
        OneCloser(txq.q.usedSeen, devIdx);
        run := Interfere(device(n), tasks, from, run);
        run := TxPass(devIdx, tasks, from, run);
        n := n + 1;
      }
      run := TxLeave(devIdx, tasks, from, run);
    }

    /** One interrupt, with the device active throughout: the handler is a run of the state machine, and if
        the device owes no bit and has set none since, both queues are fully processed. With a set bit and a device
        that does nothing meanwhile, the bit is clear and both queues are fully processed. */
    method IsrHandler(onRx: nat -> seq<Step>, onTx: nat -> seq<Step>, ghost tasks: map<Req, Local>)
      returns (ghost run: seq<Step>)
      requires Inv(Whole(tasks)) && irq.at == Outside
      modifies this
      ensures Runs(old(Whole(tasks)), run) && After(old(Whole(tasks)), run) == Whole(tasks)
      ensures Inv(Whole(tasks)) && irq.at == Outside
      ensures !irq.bit && !irq.owed ==> rxq.usedSeen == rxq.usedIdx && txq.q.usedSeen == txq.q.usedIdx
      ensures old(irq.bit) && Quiet(onRx) && Quiet(onTx) ==>
                !irq.bit && rxq.usedSeen == rxq.usedIdx && txq.q.usedSeen == txq.q.usedIdx
    {
      ghost var from := Whole(tasks);
      run := [];
      ReachedIsShaped(from, run, from);
      var bit := irq.bit;
      if bit {
        irq := Irq(false, irq.owed, RxStart);
      }
      ReachedNext(from, run, from, SReadIsr, Whole(tasks));
      run := run + [SReadIsr];
      if bit {
        run := ProcessRxUsed(onRx, tasks, from, run);
        run := ProcessTxUsed(onTx, tasks, from, run);
      }
      RunKeepsInv(from, run);
    }

    /** CMD_FLUSH and VNetClose reply to every queued read. */
    method ReplyAll(ghost tasks: map<Req, Local>)
      modifies this
      ensures Whole(tasks) == Drained(old(Whole(tasks)))
    {
      ghost var goal := Drained(Whole(tasks));
      while unit.readQ != []
        invariant Drained(Whole(tasks)) == goal
        decreases |unit.readQ|
      {
        DrainHead(Whole(tasks));
        log := Replied(log, unit.readQ[0].req);
        unit := unit.(readQ := unit.readQ[1..]);
      }
      NothingToDrain(Whole(tasks));
    }

    /** The search of AbortIO. */
    method TakeOffQueue(r: Req) returns (found: bool)
      modifies this`unit
      ensures var es := old(unit.readQ); var k := Find(es, r, 0);
              && found == (k < |es|)
              && unit == old(unit).(readQ := if found then es[..k] + es[k + 1..] else es)
    {
      found := false;
      var i := 0;
      while i < |unit.readQ|
        invariant i <= |unit.readQ| && unit == old(unit) && !found
        invariant Find(unit.readQ, r, 0) == Find(unit.readQ, r, i)
      {
        if unit.readQ[i].req == r {
          unit := unit.(readQ := unit.readQ[..i] + unit.readQ[i + 1..]);
          found := true;
          break;
        }
        i := i + 1;
      }
    }
  }
}
