/**
 Closed forms for the CIA's timers (crates/machine-core/src/cia.rs `tick_one_eclock`, `step_timer`):
 how often a timer has underflowed after `n` E-clocks, alone and cascaded.
 */
module CiaTimers {
  import opened Bits
  import opened Wrappers
  import opened Cia

  /** Underflows after `n` counts of a timer that starts at `count` and reloads from `latch`. */
  function Underflows(count: nat, latch: nat, n: nat): nat {
    if n <= count then 0 else 1 + (n - count - 1) / (latch + 1)
  }

  function CountA(s: State, n: nat): nat
    decreases n
  {
    if n == 0 then 0 else (if UnderflowsA(s) then 1 else 0) + CountA(TickOne(s), n - 1)
  }

  function CountB(s: State, n: nat): nat
    decreases n
  {
    if n == 0 then 0 else (if UnderflowsB(s) then 1 else 0) + CountB(TickOne(s), n - 1)
  }

  predicate ContinuousA(s: State) { RunsA(s) && s.cra & CR_RUNMODE == 0 }
  predicate ContinuousB(s: State) { s.crb & CR_START != 0 && s.crb & CR_RUNMODE == 0 }
  predicate Cascaded(s: State) {
    s.crb & CRB_INMODE_MASK != 0 && s.crb & CRB_INMODE_MASK != CRB_INMODE_CNT
  }

  /** What one E-clock does to the timers and their control registers. */
  lemma TimerStep(s: State)
    ensures var t := TickOne(s);
            && t.ta == (if RunsA(s) then StepTimer(s.ta) else s.ta)
            && t.tb == (if CountsB(s) then StepTimer(s.tb) else s.tb)
            && t.cra == (if UnderflowsA(s) then AfterUnderflow(s.cra) else s.cra)
            && t.crb == (if UnderflowsB(s) then AfterUnderflow(s.crb) else s.crb)
  {
    TimerFields(s);
    KeysKeepTimers(StepB(s, StepA(s)));
  }

  lemma KeysKeepTimers(s: State)
    ensures var t := StepKeyboard(s);
            t.ta == s.ta && t.tb == s.tb && t.cra == s.cra && t.crb == s.crb
  {
  }

  /** The closed form satisfies the recurrence of a counting timer. */
  lemma UnderflowsStep(count: nat, latch: nat, n: nat)
    requires n > 0
    ensures Underflows(count, latch, n) ==
            if count == 0 then 1 + Underflows(latch, latch, n - 1) else Underflows(count - 1, latch, n - 1)
  {
    if count == 0 && n - 1 > latch {
      var d, p := n - 1, latch + 1;
      DivModLaw(d - p, p);
      ModUnique(d, p, (d - p) / p + 1, (d - p) % p) by {
        assert p * ((d - p) / p + 1) == p * ((d - p) / p) + p;
      }
    } else if count == 0 {
      SmallMod(n - 1, latch + 1);
    }
  }

  /** A continuous timer A, by the closed form. */
  lemma {:induction false} ContinuousAClosedForm(s: State, n: nat)
    requires ContinuousA(s)
    ensures CountA(s, n) == Underflows(s.ta.count, s.ta.latch, n)
    decreases n
  {
    if n > 0 {
      TimerStep(s);
      UnderflowsStep(s.ta.count, s.ta.latch, n);
      ContinuousAClosedForm(TickOne(s), n - 1);
    }
  }

  /** A continuous timer B on the E-clock obeys the same law. */
  lemma {:induction false} ContinuousBClosedForm(s: State, n: nat)
    requires ContinuousB(s) && s.crb & CRB_INMODE_MASK == 0
    ensures CountB(s, n) == Underflows(s.tb.count, s.tb.latch, n)
    decreases n
  {
    if n > 0 {
      TimerStep(s);
      UnderflowsStep(s.tb.count, s.tb.latch, n);
      ContinuousBClosedForm(TickOne(s), n - 1);
    }
  }

  /** A continuous timer B fed by timer A obeys the same law in A's underflows, whatever mode A is
      in. */
  lemma {:induction false} CascadeClosedForm(s: State, n: nat)
    requires ContinuousB(s) && Cascaded(s)
    ensures CountB(s, n) == Underflows(s.tb.count, s.tb.latch, CountA(s, n))
    decreases n
  {
    if n > 0 {
      TimerStep(s);
      if UnderflowsA(s) {
        UnderflowsStep(s.tb.count, s.tb.latch, CountA(s, n));
      }
      CascadeClosedForm(TickOne(s), n - 1);
    }
  }

  lemma ReloadedUnderflows(latch: nat, n: nat)
    ensures Underflows(latch, latch, n) == n / (latch + 1)
  {
    var p := latch + 1;
    if n <= latch {
      SmallMod(n, p);
    } else {
      DivModLaw(n - p, p);
      ModUnique(n, p, (n - p) / p + 1, (n - p) % p) by {
        assert p * ((n - p) / p + 1) == p * ((n - p) / p) + p;
      }
    }
  }

  lemma NestedDivision(n: nat, p: nat, q: nat)
    requires p > 0 && q > 0
    ensures p * q > 0 && n / p / q == n / (p * q)
  {
    var a, r := n / p, n % p;
    var b, t := a / q, a % q;
    DivModLaw(n, p);
    DivModLaw(a, q);
    assert n == p * q * b + (p * t + r) by {
      assert p * (q * b + t) == p * (q * b) + p * t;
      assert p * (q * b) == p * q * b;
    }
    assert p * t + r < p * q by {
      MulMono(p, t + 1, q);
      assert p * (t + 1) == p * t + p;
    }
    assert p * t >= 0 by { MulMono(p, 0, t); }
    assert p * q > 0 by { MulAtLeast(p, q); }
    ModUnique(n, p * q, b, p * t + r);
  }

  /** Once both timers have reloaded, the cascade fires once every `(latchA + 1) * (latchB + 1)`
      E-clocks, first at the end of the first such period. */
  lemma CascadePeriod(s: State, n: nat)
    requires ContinuousA(s) && ContinuousB(s) && Cascaded(s)
    requires s.ta.count == s.ta.latch && s.tb.count == s.tb.latch
    ensures (s.ta.latch + 1) * (s.tb.latch + 1) > 0
    ensures CountB(s, n) == n / ((s.ta.latch + 1) * (s.tb.latch + 1))
  {
    CascadeClosedForm(s, n);
    ContinuousAClosedForm(s, n);
    ReloadedUnderflows(s.ta.latch, n);
    ReloadedUnderflows(s.tb.latch, CountA(s, n));
    NestedDivision(n, s.ta.latch + 1, s.tb.latch + 1);
  }

  /** A stopped timer A stays as it is. */
  lemma {:induction false} StoppedA(s: State, n: nat)
    requires s.cra & CR_START == 0
    ensures CountA(s, n) == 0 && TickN(s, n).ta == s.ta && TickN(s, n).cra == s.cra
    decreases n
  {
    if n > 0 {
      TimerStep(s);
      StoppedA(TickOne(s), n - 1);
    }
  }

  /** A one-shot timer A underflows exactly once, `count + 1` E-clocks from now, and is then stopped
      and reloaded. */
  lemma {:induction false} OneShotA(s: State, n: nat)
    requires RunsA(s) && s.cra & CR_RUNMODE != 0
    ensures CountA(s, n) == if n <= s.ta.count then 0 else 1
    ensures n <= s.ta.count ==> TickN(s, n).cra == s.cra && TickN(s, n).ta.count == s.ta.count - n
    ensures n > s.ta.count ==> TickN(s, n).cra & CR_START == 0 && TickN(s, n).ta.count == s.ta.latch
    decreases n
  {
    if n > 0 {
      TimerStep(s);
      if s.ta.count == 0 {
        assert AfterUnderflow(s.cra) & CR_START == 0;
        StoppedA(TickOne(s), n - 1);
      } else {
        OneShotA(TickOne(s), n - 1);
      }
    }
  }

  /** A stopped timer B stays as it is, whatever its input mode. */
  lemma {:induction false} StoppedB(s: State, n: nat)
    requires s.crb & CR_START == 0
    ensures CountB(s, n) == 0 && TickN(s, n).tb == s.tb && TickN(s, n).crb == s.crb
    decreases n
  {
    if n > 0 {
      TimerStep(s);
      StoppedB(TickOne(s), n - 1);
    }
  }

  predicate OneShotMode(cr: Byte) { cr & CR_START != 0 && cr & CR_RUNMODE != 0 }

  /** What a one-shot timer that started from `t` and `cr` is after `k` counts. */
  predicate OneShotAfter(t: Timer, cr: Byte, k: nat, t': Timer, cr': Byte, underflows: nat) {
    if k <= t.count then underflows == 0 && cr' == cr && t'.count == t.count - k && t'.latch == t.latch
    else underflows == 1 && cr' & CR_START == 0 && t' == t.(count := t.latch)
  }

  /** Timer B in one-shot mode, from one count to the next. */
  lemma OneShotStep(t: Timer, cr: Byte, k: nat, t1: Timer, cr1: Byte, t': Timer, cr': Byte, u: nat)
    requires t.count > 0 && t1 == StepTimer(t) && cr1 == cr && k > 0 && OneShotAfter(t1, cr1, k - 1, t', cr', u)
    ensures OneShotAfter(t, cr, k, t', cr', u)
  {
  }

  lemma StoppedByUnderflow(cr: Byte)
    requires OneShotMode(cr)
    ensures AfterUnderflow(cr) & CR_START == 0
  {
  }

  /** A one-shot timer B on the E-clock underflows exactly once, `count + 1` E-clocks from now, and is
      then stopped and reloaded. */
  lemma {:induction false} OneShotB(s: State, n: nat)
    requires OneShotMode(s.crb) && s.crb & CRB_INMODE_MASK == 0
    ensures OneShotAfter(s.tb, s.crb, n, TickN(s, n).tb, TickN(s, n).crb, CountB(s, n))
    decreases n
  {
    if n > 0 {
      TimerStep(s);
      var next := TickOne(s);
      if s.tb.count == 0 {
        StoppedByUnderflow(s.crb);
        StoppedB(next, n - 1);
      } else {
        OneShotB(next, n - 1);
        OneShotStep(s.tb, s.crb, n, next.tb, next.crb, TickN(s, n).tb, TickN(s, n).crb, CountB(s, n));
      }
    }
  }

  /** A cascaded one-shot timer B underflows exactly once, on underflow `count + 1` of timer A, and is
      then stopped and reloaded, whatever mode timer A is in. */
  lemma {:induction false} OneShotCascade(s: State, n: nat)
    requires OneShotMode(s.crb) && Cascaded(s)
    ensures OneShotAfter(s.tb, s.crb, CountA(s, n), TickN(s, n).tb, TickN(s, n).crb, CountB(s, n))
    decreases n
  {
    if n > 0 {
      TimerStep(s);
      var next := TickOne(s);
      if !UnderflowsA(s) {
        OneShotCascade(next, n - 1);
      } else if s.tb.count == 0 {
        StoppedByUnderflow(s.crb);
        StoppedB(next, n - 1);
      } else {
        OneShotCascade(next, n - 1);
        OneShotStep(s.tb, s.crb, CountA(s, n), next.tb, next.crb, TickN(s, n).tb, TickN(s, n).crb, CountB(s, n));
      }
    }
  }
}
