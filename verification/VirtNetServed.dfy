/**
 What virtionet.device does with each frame and each request, spelled out: which frame completes which read, which
 commands accept a request, and what the counters count
 (m68k/virtionet-device/virtionet_device.c `vnet_process_rx_used`, `vnet_process_tx_used`, `cmd_read`, `cmd_write`).
 */
module VirtNetServed {
  import opened Bits
  import opened Wrappers
  import opened VirtQueue
  import opened VirtNet
  import opened VirtNetSlots
  import opened VirtNetRequests
  import opened VirtNetSafety

  // ---- one frame ------------------------------------------------------------------------------------

  lemma OldestReturned(q: Queue, s: set<nat>)
    requires QueueOk(q, s) && q.usedSeen != q.usedIdx
    ensures Returned(q) == [Front(q)] + Returned(Collect(q)) && Front(q).id in s
  {
    DistanceSteps(q.usedSeen, q.usedIdx);
    CollectKeeps(q, s);
  }

  /** A frame of more than 26 bytes completes the oldest read if that read asks for type 0 or for the frame's type:
      exactly that read is replied and leaves the head of the queue. Any other frame is dropped and counted. Either
      way the buffer is offered again, behind those already offered. */
  lemma FrameExactly(nRx: nat, nTx: nat, run: seq<Step>, s: State)
    requires Reaches(nRx, nTx, run, s) && HandlerEnabled(s, SRxOne)
    ensures Shaped(s) && Enabled(s, SRxOne) && Returned(s.rx) != [] && Returned(s.rx)[0].id < nRx == |s.rx.avail|
    ensures var e, t := Returned(s.rx)[0], Apply(s, SRxOne);
            && t.unit.received == (s.unit.received + 1) % 0x1_0000_0000
            && t.tasks == s.tasks && t.tx == s.tx && t.log.lost == s.log.lost && t.log.submitted == s.log.submitted
            && (if e.len > 26 && s.unit.readQ != [] && s.unit.readQ[0].packetType in {0, e.ethertype} then
                  && t.unit.readQ == s.unit.readQ[1..] && t.unit.dropped == s.unit.dropped
                  && t.log.replies == s.log.replies + multiset{s.unit.readQ[0].req}
                else
                  && t.unit.readQ == s.unit.readQ && t.log.replies == s.log.replies
                  && t.unit.dropped == (s.unit.dropped + 1) % 0x1_0000_0000)
    ensures var e, t := Returned(s.rx)[0], Apply(s, SRxOne);
            && Sized(t.rx) && Offered(t.rx) == Offered(s.rx) + [e.id] && Returned(t.rx) == Returned(s.rx)[1..]
  {
    ReachableInv(nRx, nTx, run, s);
    SizesStay(nRx, nTx, run);
    LoopStep(s.rx, Refilled(s.rx), s.irq.at.snap);
    OldestReturned(s.rx, Below(|s.rx.avail|));
    RefillKeepsBuffers(s.rx);
    FrameTaken(s, Front(s.rx));
    assert Returned(Refilled(s.rx)) == Returned(Collect(s.rx));
  }

  lemma FrameTaken(s: State, e: Elem)
    requires Shaped(s) && HandlerEnabled(s, SRxOne) && e == Front(s.rx) && e.id < |s.rx.avail|
    ensures var t := Apply(s, SRxOne);
            && t.unit.received == (s.unit.received + 1) % 0x1_0000_0000 && t.rx == Refilled(s.rx)
            && t.tasks == s.tasks && t.tx == s.tx && t.log.lost == s.log.lost && t.log.submitted == s.log.submitted
            && (if e.len > 26 && s.unit.readQ != [] && s.unit.readQ[0].packetType in {0, e.ethertype} then
                  && t.unit.readQ == s.unit.readQ[1..] && t.unit.dropped == s.unit.dropped
                  && t.log.replies == s.log.replies + multiset{s.unit.readQ[0].req}
                else
                  && t.unit.readQ == s.unit.readQ && t.log.replies == s.log.replies
                  && t.unit.dropped == (s.unit.dropped + 1) % 0x1_0000_0000)
  {
  }

  predicate RingsOf(s: State, nRx: nat, nTx: nat) { |s.rx.avail| == nRx && |s.tx.q.avail| == nTx }

  lemma StepKeepsSizes(s: State, a: Step, nRx: nat, nTx: nat)
    requires Shaped(s) && Enabled(s, a) && RingsOf(s, nRx, nTx)
    ensures RingsOf(Apply(s, a), nRx, nTx)
  {
  }

  lemma {:induction false} RunKeepsSizes(s: State, run: seq<Step>, nRx: nat, nTx: nat)
    requires Runs(s, run) && RingsOf(s, nRx, nTx)
    ensures RingsOf(After(s, run), nRx, nTx)
    decreases |run|
  {
    if run != [] {
      StepKeepsSizes(s, run[0], nRx, nTx);
      RunKeepsSizes(Apply(s, run[0]), run[1..], nRx, nTx);
    }
  }

  lemma SizesStay(nRx: nat, nTx: nat, run: seq<Step>)
    requires Sizes(nRx, nTx) && Runs(Started(nRx, nTx), run)
    ensures RingsOf(After(Started(nRx, nTx), run), nRx, nTx)
  {
    RunKeepsSizes(Started(nRx, nTx), run, nRx, nTx);
  }

  // ---- whole runs: what a served read had asked for -----------------------------------------------------

  /** Every read on the queue was put there by a step of the run, with the type it asks for. */
  ghost predicate Asked(es: seq<Entry>, run: seq<Step>) {
    forall i :: 0 <= i < |es| ==> SQueueRead(es[i].req, es[i].packetType) in run
  }

  lemma StepKeepsAsked(s: State, a: Step, run: seq<Step>)
    requires Shaped(s) && Enabled(s, a) && Asked(s.unit.readQ, run)
    ensures Asked(Apply(s, a).unit.readQ, run + [a])
  {
    var t := Apply(s, a);
    forall i | 0 <= i < |t.unit.readQ|
      ensures SQueueRead(t.unit.readQ[i].req, t.unit.readQ[i].packetType) in run + [a]
    {
      if a.SQueueRead? && i == |s.unit.readQ| {
        assert (run + [a])[|run|] == a;
      } else {
        assert t.unit.readQ[i] in s.unit.readQ;
      }
    }
  }

  lemma {:induction false} RunKeepsAsked(s: State, before: seq<Step>, run: seq<Step>)
    requires Runs(s, run) && Asked(s.unit.readQ, before)
    ensures Asked(After(s, run).unit.readQ, before + run)
    decreases |run|
  {
    if run != [] {
      StepKeepsAsked(s, run[0], before);
      RunKeepsAsked(Apply(s, run[0]), before + [run[0]], run[1..]);
      assert before + [run[0]] + run[1..] == before + run;
    } else {
      assert before + run == before;
    }
  }

  /** Every read served in a run was queued by a step of that run, and was handed a frame longer than the two headers
      and of the type that step asked for. */
  lemma ServedWasAsked(nRx: nat, nTx: nat, run: seq<Step>, s: State, r: Req)
    requires Reaches(nRx, nTx, run, s) && HandlerEnabled(s, SRxOne)
    ensures Shaped(s) && Enabled(s, SRxOne) && Returned(s.rx) != []
    ensures Apply(s, SRxOne).log.replies[r] > s.log.replies[r] ==>
              && Returned(s.rx)[0].len > 26
              && (SQueueRead(r, 0) in run || SQueueRead(r, Returned(s.rx)[0].ethertype) in run)
  {
    FrameExactly(nRx, nTx, run, s);
    RunKeepsAsked(Started(nRx, nTx), [], run);
    assert [] + run == run;
    if Apply(s, SRxOne).log.replies[r] > s.log.replies[r] {
      assert s.unit.readQ[0].req == r;
    }
  }

  // ---- one transmit completion -------------------------------------------------------------------------------

  /** A used tx entry replies to the one request pending in its slot, counts it, and frees the slot; every other slot
      stays as it is. */
  lemma CompletionExactly(nRx: nat, nTx: nat, run: seq<Step>, s: State)
    requires Reaches(nRx, nTx, run, s) && HandlerEnabled(s, STxOne)
    ensures Shaped(s) && Enabled(s, STxOne) && Returned(s.tx.q) != [] && Returned(s.tx.q)[0].id < |s.tx.pending|
    ensures var d, t := Returned(s.tx.q)[0].id, Apply(s, STxOne);
            && s.tx.pending[d].Some? && t.log.replies == s.log.replies + multiset{s.tx.pending[d].value}
            && t.unit == s.unit.(sent := (s.unit.sent + 1) % 0x1_0000_0000)
            && t.tx.pending == s.tx.pending[d := None] && t.tx.free == s.tx.free[d := true]
            && t.rx == s.rx && t.tasks == s.tasks && t.log.lost == s.log.lost
            && Sized(t.tx.q) && Offered(t.tx.q) == Offered(s.tx.q) && Returned(t.tx.q) == Returned(s.tx.q)[1..]
  {
    ReachableInv(nRx, nTx, run, s);
    LoopStep(s.tx.q, Collect(s.tx.q), s.irq.at.snap);
    OldestReturned(s.tx.q, Published(s.tx.pending));
    CompletionTaken(s, Front(s.tx.q).id);
  }

  lemma CompletionTaken(s: State, d: nat)
    requires Shaped(s) && HandlerEnabled(s, STxOne) && d == Front(s.tx.q).id && d < |s.tx.pending|
    requires s.tx.pending[d].Some?
    ensures var t := Apply(s, STxOne);
            && t.log.replies == s.log.replies + multiset{s.tx.pending[d].value}
            && t.unit == s.unit.(sent := (s.unit.sent + 1) % 0x1_0000_0000)
            && t.tx == Tx(Collect(s.tx.q), s.tx.free[d := true], s.tx.pending[d := None])
            && t.rx == s.rx && t.tasks == s.tasks && t.log.lost == s.log.lost
  {
  }

  // ---- which requests are accepted ------------------------------------------------------------------------------

  /** The last command that decides it: configured since the unit was last opened. */
  predicate ConfiguredBy(run: seq<Step>) {
    if run == [] then false
    else match run[|run| - 1]
         case SOpen => false
         case SConfigure => true
         case _ => ConfiguredBy(run[..|run| - 1])
  }

  /** Brought online while configured, and neither taken offline, closed nor opened again since. */
  predicate OnlineBy(run: seq<Step>) {
    if run == [] then false
    else match run[|run| - 1]
         case SOpen => false
         case SClose => false
         case SOffline => false
         case SOnline => ConfiguredBy(run[..|run| - 1]) || OnlineBy(run[..|run| - 1])
         case _ => OnlineBy(run[..|run| - 1])
  }

  predicate OpenBy(run: seq<Step>) {
    if run == [] then false
    else match run[|run| - 1]
         case SOpen => true
         case SClose => false
         case _ => OpenBy(run[..|run| - 1])
  }

  predicate Tracked(s: State, run: seq<Step>) {
    s.unit.configured == ConfiguredBy(run) && s.unit.online == OnlineBy(run) && s.unit.open == OpenBy(run)
  }

  lemma StepSetsFlags(s: State, a: Step)
    requires Shaped(s) && Enabled(s, a)
    ensures var u, v := s.unit, Apply(s, a).unit;
            && v.configured == (if a.SOpen? then false else a.SConfigure? || u.configured)
            && v.online == (if a.SOpen? || a.SClose? || a.SOffline? then false
                            else (a.SOnline? && u.configured) || u.online)
            && v.open == (if a.SClose? then false else a.SOpen? || u.open)
  {
  }

  lemma StepKeepsTracked(s: State, a: Step, before: seq<Step>)
    requires Shaped(s) && Enabled(s, a) && Tracked(s, before)
    ensures Tracked(Apply(s, a), before + [a])
  {
    StepSetsFlags(s, a);
    FlagsAfter(a, before);
  }

  lemma FlagsAfter(a: Step, before: seq<Step>)
    ensures ConfiguredBy(before + [a]) == (if a.SOpen? then false else a.SConfigure? || ConfiguredBy(before))
    ensures OnlineBy(before + [a]) == (if a.SOpen? || a.SClose? || a.SOffline? then false
                                       else (a.SOnline? && ConfiguredBy(before)) || OnlineBy(before))
    ensures OpenBy(before + [a]) == (if a.SClose? then false else a.SOpen? || OpenBy(before))
  {
    assert (before + [a])[..|before|] == before;
  }

  lemma {:induction false} RunKeepsTracked(s: State, before: seq<Step>, run: seq<Step>)
    requires Runs(s, run) && Tracked(s, before)
    ensures Tracked(After(s, run), before + run)
    decreases |run|
  {
    if run != [] {
      StepKeepsTracked(s, run[0], before);
      RunKeepsTracked(Apply(s, run[0]), before + [run[0]], run[1..]);
      assert before + [run[0]] + run[1..] == before + run;
    } else {
      assert before + run == before;
    }
  }

  lemma BegunExactly(s: State, r: Req, length: nat, ready: bool)
    requires Shaped(s) && s.irq.at == Outside && r !in s.log.submitted && ready == (s.unit.configured && s.unit.online)
    ensures Enabled(s, SBeginRead(r)) && Enabled(s, SBeginWrite(r, length))
    ensures Begun(s, Apply(s, SBeginRead(r)), r, Reading, ready)
    ensures Begun(s, Apply(s, SBeginWrite(r, length)), r, Writing, ready && length <= 1512)
  {
  }

  /** The request is taken on by the task, or replied to at once. */
  predicate Begun(s: State, t: State, r: Req, l: Local, ready: bool) {
    && t.unit == s.unit && t.rx == s.rx && t.tx == s.tx && t.log.submitted == s.log.submitted + {r}
    && if ready then t.tasks == s.tasks[r := l] && t.log.replies == s.log.replies
       else t.tasks == s.tasks && t.log.replies == s.log.replies + multiset{r}
  }

  /** Over every run: a read is taken on, and a write is if it is at most 1512 bytes long, exactly when the unit was
      configured since it was opened and has been brought online since; any other is replied to at once. */
  lemma AcceptedExactly(nRx: nat, nTx: nat, run: seq<Step>, s: State, r: Req, length: nat)
    requires Reaches(nRx, nTx, run, s) && s.irq.at == Outside && r !in s.log.submitted
    ensures Shaped(s) && Enabled(s, SBeginRead(r)) && Enabled(s, SBeginWrite(r, length))
    ensures var ready := ConfiguredBy(run) && OnlineBy(run);
            && Begun(s, Apply(s, SBeginRead(r)), r, Reading, ready)
            && Begun(s, Apply(s, SBeginWrite(r, length)), r, Writing, ready && length <= 1512)
  {
    assert Shaped(s) by { ReachableInv(nRx, nTx, run, s); }
    RunKeepsTracked(Started(nRx, nTx), [], run);
    assert [] + run == run;
    BegunExactly(s, r, length, ConfiguredBy(run) && OnlineBy(run));
  }

  // ---- from an accepted request to a queue ------------------------------------------------------

  /** A reader queues itself behind every read already queued, with the type it asks for. */
  lemma ReadIsQueuedLast(s: State, r: Req, packetType: nat)
    requires Inv(s) && s.irq.at == Outside && Holding(s, r, Reading)
    ensures Enabled(s, SQueueRead(r, packetType))
    ensures var t := Apply(s, SQueueRead(r, packetType));
            && |t.unit.readQ| == |s.unit.readQ| + 1 && t.unit.readQ[..|s.unit.readQ|] == s.unit.readQ
            && t.unit.readQ[|s.unit.readQ|].req == r && t.unit.readQ[|s.unit.readQ|].packetType == packetType
            && r !in t.tasks && t.log.replies == s.log.replies && t.tx == s.tx && t.rx == s.rx
  {
  }

  /** A writer reserves the lowest free slot, or is refused when there is none. */
  lemma WriteReservesLowest(s: State, r: Req, d: nat)
    requires Inv(s) && s.irq.at == Outside && Holding(s, r, Writing)
    requires d <= |s.tx.free| && (d < |s.tx.free| ==> s.tx.free[d]) && forall j :: 0 <= j < d ==> !s.tx.free[j]
    ensures Enabled(s, SAllocSlot(r))
    ensures var t := Apply(s, SAllocSlot(r));
            && t.unit == s.unit && t.rx == s.rx && t.tx.q == s.tx.q && t.tx.pending == s.tx.pending
            && (if d < |s.tx.free| then
                  t.tx.free == s.tx.free[d := false] && t.tasks == s.tasks[r := Building(d)] && t.log == s.log
                else t.tx.free == s.tx.free && t.tasks == s.tasks - {r}
                     && t.log.replies == s.log.replies + multiset{r})
  {
    var k := FirstFree(s.tx.free, 0);
    assert k == d;
  }

  /** Publishing hands the slot to the device, last in line, with its request pending. */
  lemma WriteIsOfferedLast(s: State, r: Req, d: nat)
    requires Inv(s) && s.irq.at == Outside && Holding(s, r, Building(d))
    ensures Enabled(s, SPublish(r)) && d < |s.tx.pending|
    ensures var t := Apply(s, SPublish(r));
            && Sized(t.tx.q) && Offered(t.tx.q) == Offered(s.tx.q) + [d] && t.tx.pending == s.tx.pending[d := Some(r)]
            && t.tx.free == s.tx.free && t.tasks == s.tasks - {r} && t.log == s.log && t.unit == s.unit
  {
    assert Builds(s.tasks, r, d);
    PublishKeepsSlots(s, r, d);
  }

  /** AbortIO takes the aborted read out of the queue, leaves the others in order, and touches nothing when the read
      is not queued. */
  lemma AbortExactly(s: State, r: Req, k: nat)
    requires Inv(s) && s.irq.at == Outside && k <= |s.unit.readQ|
    requires if k < |s.unit.readQ| then s.unit.readQ[k].req == r
             else forall i :: 0 <= i < |s.unit.readQ| ==> s.unit.readQ[i].req != r
    ensures Enabled(s, SAbortRead(r))
    ensures var t, es := Apply(s, SAbortRead(r)), s.unit.readQ;
            if k == |es| then t == s
            else t.unit.readQ == es[..k] + es[k + 1..] && t.tasks == s.tasks[r := Aborting] && t.log == s.log
                 && t.tx == s.tx && t.rx == s.rx
  {
    if k < |s.unit.readQ| { QueuedOnce(s, k, Find(s.unit.readQ, r, 0)); }
  }

  lemma QueuedOnce(s: State, i: nat, j: nat)
    requires Conserved(s) && j <= i < |s.unit.readQ| && s.unit.readQ[i].req == s.unit.readQ[j].req
    ensures i == j
  {
    var es, r := s.unit.readQ, s.unit.readQ[i].req;
    assert Places(s, r) == Count(r in s.log.submitted);
    QueuedRemove(es, i, r);
    if j < i {
      var fs := es[..i] + es[i + 1..];
      assert fs[j] == es[j];
      QueuedRemove(fs, j, r);
    }
  }

  /** The interrupt bit: set means the handler starts and the bit is clear, clear means nothing happens. */
  lemma InterruptStarts(s: State)
    requires Shaped(s) && s.irq.at == Outside
    ensures Enabled(s, SReadIsr)
    ensures var t := Apply(s, SReadIsr);
            t == if s.irq.bit then s.(irq := Irq(false, s.irq.owed, RxStart)) else s
  {
  }

  // ---- the sent counter -------------------------------------------------------------------------

  /** Transmit completions since the unit was last opened. */
  function Completions(run: seq<Step>): nat {
    if run == [] then 0
    else match run[|run| - 1]
         case SOpen => 0
         case STxOne => 1 + Completions(run[..|run| - 1])
         case _ => Completions(run[..|run| - 1])
  }

  lemma CompletionCounted(s: State)
    requires Inv(s) && Enabled(s, STxOne)
    ensures Apply(s, STxOne).unit.sent == (AsInt(s.unit.sent) + 1) % U32_RANGE
  {
    LoopStep(s.tx.q, Collect(s.tx.q), s.irq.at.snap);
    OldestReturned(s.tx.q, Published(s.tx.pending));
    CompletionTaken(s, Front(s.tx.q).id);
  }

  lemma OthersKeepSent(s: State, a: Step)
    requires Shaped(s) && Enabled(s, a) && !a.STxOne?
    ensures Apply(s, a).unit.sent == if a.SOpen? then 0 else s.unit.sent
  {
  }

  function SentNext(sent: u32, a: Step): u32 {
    if a.STxOne? then (AsInt(sent) + 1) % U32_RANGE else if a.SOpen? then 0 else sent
  }

  /** The counter carried along a run. */
  function SentAlong(sent: u32, run: seq<Step>): u32
    decreases |run|
  {
    if run == [] then sent else SentAlong(SentNext(sent, run[0]), run[1..])
  }

  lemma StepSends(s: State, a: Step)
    requires Inv(s) && Enabled(s, a)
    ensures Apply(s, a).unit.sent == SentNext(s.unit.sent, a)
  {
    if a.STxOne? { CompletionCounted(s); } else { OthersKeepSent(s, a); }
  }

  lemma {:induction false} RunSends(s: State, run: seq<Step>)
    requires Inv(s) && Runs(s, run)
    ensures After(s, run).unit.sent == SentAlong(s.unit.sent, run)
    decreases |run|
  {
    if run != [] {
      StepSends(s, run[0]);
      StepKeepsInv(s, run[0]);
      RunSends(Apply(s, run[0]), run[1..]);
    }
  }

  lemma {:induction false} SentAlongCounts(sent: u32, before: seq<Step>, run: seq<Step>)
    requires sent == Completions(before) % U32_RANGE
    ensures SentAlong(sent, run) == Completions(before + run) % U32_RANGE
    decreases |run|
  {
    if run != [] {
      var next := before + [run[0]];
      assert next[..|before|] == before;
      Congruent(U32_RANGE, sent, Completions(before), 1);
      SmallMod(sent, U32_RANGE);
      SentAlongCounts(SentNext(sent, run[0]), next, run[1..]);
      assert next + run[1..] == before + run;
    } else {
      assert before + run == before;
    }
  }

  /** Over every run, packetsSent is the number of transmit completions since the unit was opened, modulo 2^32. */
  lemma SentCountsCompletions(nRx: nat, nTx: nat, run: seq<Step>, s: State)
    requires Reaches(nRx, nTx, run, s)
    ensures s.unit.sent == Completions(run) % 0x1_0000_0000
  {
    StartsOk(nRx, nTx);
    RunSends(Started(nRx, nTx), run);
    SentAlongCounts(0, [], run);
    assert [] + run == run;
  }
}
