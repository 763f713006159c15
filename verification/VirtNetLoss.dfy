/**
 The one way virtionet.device loses a request: a reader that passed the online check before VNetClose and
 queues itself after it is still on the list when the next VNetOpen starts that list afresh.
 */
module VirtNetLoss {
  import opened Bits
  import opened Wrappers
  import opened VirtQueue
  import opened VirtNet
  import opened VirtNetSlots
  import opened VirtNetRequests
  import opened VirtNetSafety

  /** Every Open along the run finds the read list empty. */
  ghost predicate OpensOnEmpty(s: State, run: seq<Step>)
    requires Runs(s, run)
    decreases |run|
  {
    run == [] || ((run[0].SOpen? ==> s.unit.readQ == []) && OpensOnEmpty(Apply(s, run[0]), run[1..]))
  }

  lemma LostByStep(s: State, a: Step)
    requires Shaped(s) && Enabled(s, a)
    ensures Apply(s, a).log.lost == s.log.lost + if a.SOpen? then multiset(Reqs(s.unit.readQ)) else multiset{}
  {
  }

  lemma {:induction false} LossesStay(s: State, run: seq<Step>)
    requires Runs(s, run) && s.log.lost != multiset{}
    ensures After(s, run).log.lost != multiset{}
    decreases |run|
  {
    if run != [] {
      LostByStep(s, run[0]);
      var r :| r in s.log.lost;
      assert r in Apply(s, run[0]).log.lost;
      LossesStay(Apply(s, run[0]), run[1..]);
    }
  }

  /** No request is lost exactly when every Open finds the read list empty. */
  lemma {:induction false} LossesExactly(s: State, run: seq<Step>)
    requires Runs(s, run) && s.log.lost == multiset{}
    ensures After(s, run).log.lost == multiset{} <==> OpensOnEmpty(s, run)
    decreases |run|
  {
    if run != [] {
      var t := Apply(s, run[0]);
      LostByStep(s, run[0]);
      if run[0].SOpen? && s.unit.readQ != [] {
        assert s.unit.readQ[0].req in multiset(Reqs(s.unit.readQ)) by {
          assert Reqs(s.unit.readQ)[0] == s.unit.readQ[0].req;
        }
        assert s.unit.readQ[0].req in t.log.lost;
        LossesStay(t, run[1..]);
      } else {
        LossesExactly(t, run[1..]);
      }
    }
  }

  /** No reader queues itself while the unit is closed. */
  ghost predicate NoStragglers(s: State, run: seq<Step>)
    requires Runs(s, run)
    decreases |run|
  {
    run == [] || ((run[0].SQueueRead? ==> s.unit.open) && NoStragglers(Apply(s, run[0]), run[1..]))
  }

  predicate ClosedIsEmpty(s: State) { !s.unit.open ==> s.unit.readQ == [] }

  lemma StepKeepsClosedEmpty(s: State, a: Step)
    requires Shaped(s) && Enabled(s, a) && ClosedIsEmpty(s) && (a.SQueueRead? ==> s.unit.open)
    ensures ClosedIsEmpty(Apply(s, a))
  {
  }

  lemma {:induction false} PunctualRunsOpenOnEmpty(s: State, run: seq<Step>)
    requires Runs(s, run) && ClosedIsEmpty(s) && NoStragglers(s, run)
    ensures OpensOnEmpty(s, run)
    decreases |run|
  {
    if run != [] {
      StepKeepsClosedEmpty(s, run[0]);
      PunctualRunsOpenOnEmpty(Apply(s, run[0]), run[1..]);
    }
  }

  /** Without stragglers every request keeps its one place among queue, slots, tasks and replies. */
  lemma PunctualRunsLoseNothing(nRx: nat, nTx: nat, run: seq<Step>, s: State, r: Req)
    requires Reaches(nRx, nTx, run, s) && NoStragglers(Started(nRx, nTx), run)
    ensures Queued(s.unit.readQ, r) + InSlots(s.tx.pending, r) + Count(r in s.tasks) + s.log.replies[r] ==
            Count(r in s.log.submitted)
  {
    PunctualRunsOpenOnEmpty(Started(nRx, nTx), run);
    LossesExactly(Started(nRx, nTx), run);
    RequestsAreSomewhereOnce(nRx, nTx, run, s, r);
  }

  // ---- lost for good -------------------------------------------------------------------------------

  /** A lost request is nowhere else: not queued, pending, held by a task or replied. */
  lemma LostIsNowhereElse(s: State, r: Req)
    requires Inv(s) && r in s.log.lost
    ensures s.log.lost[r] == 1 && s.log.replies[r] == 0
    ensures Queued(s.unit.readQ, r) == 0 && InSlots(s.tx.pending, r) == 0 && r !in s.tasks
  {
    assert Places(s, r) == Count(r in s.log.submitted);
  }

  /** And it stays so: whatever runs afterwards, the request is lost once and never replied. */
  lemma {:induction false} LostIsForever(s: State, run: seq<Step>, r: Req)
    requires Inv(s) && Runs(s, run) && r in s.log.lost
    ensures var e := After(s, run); e.log.lost[r] == 1 && e.log.replies[r] == 0
    decreases |run|
  {
    if run == [] {
      LostIsNowhereElse(s, r);
    } else {
      LostByStep(s, run[0]);
      StepKeepsInv(s, run[0]);
      LostIsForever(Apply(s, run[0]), run[1..], r);
    }
  }

  // ---- the straggler --------------------------------------------------------------------------------

  /** Open, configure, go online; a read passes its checks; close; the read is queued; open again. */
  function StragglerRun(): seq<Step> {
    [SOpen] + ([SConfigure] + ([SOnline] + ([SBeginRead(7)] + ([SClose] + ([SQueueRead(7, 0)] + [SOpen])))))
  }

  /** Any task step from a state where it may happen. */
  lemma RunStep(s: State, a: Step, rest: seq<Step>, t: State)
    requires Shaped(s) && Enabled(s, a) && t == Apply(s, a) && Runs(t, rest)
    ensures Runs(s, [a] + rest) && After(s, [a] + rest) == After(t, rest)
  {
    assert ([a] + rest)[1..] == rest;
  }

  lemma QueuedThenOpened(s5: State)
    requires Shaped(s5) && s5.irq.at == Outside && !s5.unit.open && s5.unit.readQ == [] && Holding(s5, 7, Reading)
    ensures var rest := [SQueueRead(7, 0)] + [SOpen];
            Runs(s5, rest) && After(s5, rest).log.lost == s5.log.lost + multiset{7}
  {
    var s6 := QueueRead(s5, 7, 0);
    assert Reqs(s6.unit.readQ) == [7];
    RunStep(s6, SOpen, [], Open(s6));
    assert [SOpen] + [] == [SOpen];
    RunStep(s5, SQueueRead(7, 0), [SOpen], s6);
  }

  /** From the point where the unit is online. */
  lemma StragglerSuffix(s3: State)
    requires Shaped(s3) && s3.irq.at == Outside && s3.unit.readQ == [] && Accepts(s3.unit) && 7 !in s3.log.submitted
    ensures var rest := [SBeginRead(7)] + ([SClose] + ([SQueueRead(7, 0)] + [SOpen]));
            Runs(s3, rest) && After(s3, rest).log.lost == s3.log.lost + multiset{7}
  {
    var s4 := BeginRead(s3, 7);
    BegunThenClosed(s4);
    RunStep(s3, SBeginRead(7), [SClose] + ([SQueueRead(7, 0)] + [SOpen]), s4);
  }

  lemma BegunThenClosed(s4: State)
    requires Shaped(s4) && s4.irq.at == Outside && s4.unit.readQ == [] && Holding(s4, 7, Reading)
    ensures var rest := [SClose] + ([SQueueRead(7, 0)] + [SOpen]);
            Runs(s4, rest) && After(s4, rest).log.lost == s4.log.lost + multiset{7}
  {
    var s5 := Close(s4);
    QueuedThenOpened(s5);
    RunStep(s4, SClose, [SQueueRead(7, 0)] + [SOpen], s5);
  }

  /** The straggler ends up among the lost; `LostIsForever` says what that means. */
  lemma StragglerIsLost(s0: State)
    requires Shaped(s0) && s0.irq.at == Outside && !s0.unit.open && s0.unit.readQ == [] && 7 !in s0.log.submitted
    ensures Runs(s0, StragglerRun()) && After(s0, StragglerRun()).log.lost == s0.log.lost + multiset{7}
  {
    var s1 := Open(s0);
    var s2 := Configure(s1);
    var s3 := GoOnline(s2);
    StragglerSuffix(s3);
    OnlineFromClosed(s0, s1, s2, s3, [SBeginRead(7)] + ([SClose] + ([SQueueRead(7, 0)] + [SOpen])));
  }

  lemma OnlineFromClosed(s0: State, s1: State, s2: State, s3: State, rest: seq<Step>)
    requires Shaped(s0) && s0.irq.at == Outside && !s0.unit.open
    requires s1 == Open(s0) && s2 == Configure(s1) && s3 == GoOnline(s2) && Runs(s3, rest)
    ensures var run := [SOpen] + ([SConfigure] + ([SOnline] + rest));
            Runs(s0, run) && After(s0, run) == After(s3, rest)
  {
    RunStep(s2, SOnline, rest, s3);
    RunStep(s1, SConfigure, [SOnline] + rest, s2);
    RunStep(s0, SOpen, [SConfigure] + ([SOnline] + rest), s1);
  }

  /** From any reachable closed state with an empty read list: the straggler is lost, and no continuation
      ever replies to it. */
  lemma StragglerNeverCompletes(nRx: nat, nTx: nat, before: seq<Step>, s0: State, later: seq<Step>)
    requires Reaches(nRx, nTx, before, s0) && s0.irq.at == Outside && !s0.unit.open && s0.unit.readQ == []
    requires 7 !in s0.log.submitted
    ensures Inv(s0) && Runs(s0, StragglerRun())
    ensures var lost := After(s0, StragglerRun());
            Runs(lost, later) ==> After(lost, later).log.lost[7] == 1 && After(lost, later).log.replies[7] == 0
  {
    ReachableInv(nRx, nTx, before, s0);
    StragglerIsLost(s0);
    RunKeepsInv(s0, StragglerRun());
    var lost := After(s0, StragglerRun());
    if Runs(lost, later) { LostIsForever(lost, later, 7); }
  }
}
