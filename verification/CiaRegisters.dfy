/**
 The 8520 as its software sees it (crates/machine-core/src/cia.rs `read`, `write`, `tick_one_eclock`, `queue_keycode`,
 `tod_tick`): which interrupt source each event raises, how key codes arrive, and what the registers hold.
 */
module CiaRegisters {
  import opened Bits
  import opened Wrappers
  import opened Cia
  import CiaTimers

  // ---- interrupt sources ----------------------------------------------------------------------------------------

  /** Timer A is started, counts the E-clock and stands at 0. */
  predicate TimerAFires(s: State) { s.cra & 0x21 == 0x01 && s.ta.count == 0 }

  /** Timer B is started and stands at 0, and counts the E-clock or an underflow of timer A. */
  predicate TimerBFires(s: State) {
    && s.crb & 0x01 == 0x01 && s.tb.count == 0
    && (s.crb & 0x60 == 0 || (s.crb & 0x40 == 0x40 && TimerAFires(s)))
  }

  /** The handshake delay of a queued key runs out, on CIA-A with the serial port set to input. */
  predicate KeyArrives(s: State) { s.isA && s.cra & 0x40 == 0 && s.serial.len > 0 && s.serial.delay == 1 }

  function With(d: Byte, fires: bool, bit: Byte): Byte { if fires then d | bit else d }

  lemma StartedOnEclock(cr: Byte)
    ensures (cr & 0x01 != 0 && cr & 0x20 == 0) == (cr & 0x21 == 0x01)
    ensures (cr & 0x01 != 0) == (cr & 0x01 == 0x01)
  {
  }

  lemma CascadeModes(cr: Byte)
    ensures (cr & 0x60 != 0 && cr & 0x60 != 0x20) == (cr & 0x40 == 0x40)
  {
  }

  lemma FiresIsUnderflow(s: State)
    ensures TimerAFires(s) == UnderflowsA(s) && TimerBFires(s) == UnderflowsB(s)
  {
    StartedOnEclock(s.cra);
    StartedOnEclock(s.crb);
    CascadeModes(s.crb);
  }

  lemma StepSources(s: State)
    ensures StepB(s, StepA(s)).icrData == With(With(s.icrData, UnderflowsA(s), 1), UnderflowsB(s), 2)
  {
  }

  lemma KeySource(s: State)
    requires KeysInv(s.serial) && s.isA
    ensures StepKeyboard(s).icrData == With(s.icrData, KeyArrives(s), 8)
  {
  }

  predicate Raises(s: State, d': Byte) {
    d' == With(With(With(s.icrData, TimerAFires(s), 1), TimerBFires(s), 2), KeyArrives(s), 8)
  }

  lemma ArrivalUnmoved(s: State, t: State)
    requires t.serial == s.serial && t.isA == s.isA && t.cra & CRA_SPMODE == s.cra & CRA_SPMODE
    ensures KeyArrives(t) == KeyArrives(s)
  {
  }

  /** The timers first, then the keyboard. */
  lemma TickData(s: State, t: State)
    requires KeysInv(s.serial) && t == StepB(s, StepA(s))
    ensures TickOne(s).icrData == With(t.icrData, KeyArrives(s), 8)
  {
    TimerFields(s);
    StoppingKeepsSerialMode(s.cra);
    ArrivalUnmoved(s, t);
    if s.isA { KeySource(t); }
  }

  /** One E-clock raises bit 0 for timer A, bit 1 for timer B, bit 3 for a key, and no other. */
  lemma TickRaises(s: State)
    requires KeysInv(s.serial)
    ensures Raises(s, TickOne(s).icrData)
  {
    TickData(s, StepB(s, StepA(s)));
    StepSources(s);
    FiresIsUnderflow(s);
  }

  predicate Pending(s: State, bit: Byte) { s.icrData & bit != 0 }

  /** Each of the three sources is pending if it was or if its event happened, and no other bit changes. */
  predicate Joined(d: Byte, a: bool, b: bool, k: bool, d': Byte) {
    && (d' & 1 != 0) == (d & 1 != 0 || a) && (d' & 2 != 0) == (d & 2 != 0 || b)
    && (d' & 8 != 0) == (d & 8 != 0 || k) && d' & 0xF4 == d & 0xF4
  }

  lemma OrJoins(d: Byte, a: bool, b: bool, k: bool, d': Byte)
    requires d' == With(With(With(d, a, 1), b, 2), k, 8)
    ensures Joined(d, a, b, k, d')
  {
  }

  lemma OneMoreTick(s: State, d': Byte)
    requires Raises(s, d')
    ensures Joined(s.icrData, TimerAFires(s), TimerBFires(s), KeyArrives(s), d')
  {
    OrJoins(s.icrData, TimerAFires(s), TimerBFires(s), KeyArrives(s), d');
  }

  /** A source is pending exactly if it was, or if its event happened in one of the E-clocks; nothing else becomes
      pending. */
  lemma {:induction false} SourceHistory(s: State, n: nat)
    requires KeysInv(s.serial)
    ensures Pending(TickN(s, n), 1) == (Pending(s, 1) || exists i: nat :: i < n && TimerAFires(TickN(s, i)))
    ensures Pending(TickN(s, n), 2) == (Pending(s, 2) || exists i: nat :: i < n && TimerBFires(TickN(s, i)))
    ensures Pending(TickN(s, n), 8) == (Pending(s, 8) || exists i: nat :: i < n && KeyArrives(TickN(s, i)))
    ensures TickN(s, n).icrData & 0xF4 == s.icrData & 0xF4
  {
    if n > 0 {
      var m := n - 1;
      SourceHistory(s, m);
      TickNKeepsKeys(s, m);
      TickNLast(s, m, n);
      TickRaises(TickN(s, m));
      OneMoreTick(TickN(s, m), TickN(s, n).icrData);
    }
  }

  // ---- key codes -------------------------------------------------------------------------------------------------

  /** The keys waiting, oldest first. */
  function Keys(k: Serial): seq<Byte>
    requires KeysInv(k)
  {
    seq(k.len, i requires 0 <= i < k.len => KeyAt(k, i))
  }

  function KeyAt(k: Serial, i: nat): Byte
    requires KeysInv(k)
  {
    k.queue[(k.head + i) % 16]
  }

  /** What `keyboard.device` makes of the byte in SDR: inverted, then rotated right. */
  function Unwired(wire: Byte): Byte { ((!wire) >> 1) | ((!wire) << 7) }

  lemma KeyRoundTrip(raw: Byte)
    ensures Unwired(EncodeKey(raw)) == raw
  {
  }

  /** A key joins the end of the queue, or is dropped when sixteen are waiting. */
  lemma QueuedLast(s: State, raw: Byte)
    requires KeysInv(s.serial)
    ensures KeysInv(Queued(s, raw).serial)
    ensures Keys(Queued(s, raw).serial) ==
            if |Keys(s.serial)| < 16 then Keys(s.serial) + [raw] else Keys(s.serial)
  {
    var k, t := s.serial, Queued(s, raw).serial;
    if k.len < 16 {
      forall i: nat | i < k.len
        ensures KeyAt(t, i) == KeyAt(k, i)
      {
        DistinctResidues(16, k.head, k.len, i);
      }
    }
  }

  /** When a key arrives it is the oldest, it is in SDR as the keyboard sends it, and it is waiting to be read;
      otherwise the queue and SDR are left alone. */
  lemma KeyTick(s: State)
    requires KeysInv(s.serial)
    ensures KeysInv(TickOne(s).serial)
    ensures var k, t := s.serial, TickOne(s).serial;
            if KeyArrives(s) then
              Keys(k) != [] && Keys(t) == Keys(k)[1..] && Unwired(t.sdr) == Keys(k)[0] && t.loaded && t.delay == 0
            else Keys(t) == Keys(k) && t.sdr == k.sdr && t.loaded == k.loaded
  {
    TickOneKeepsKeys(s);
    TimerFields(s);
    StoppingKeepsSerialMode(s.cra);
    if s.isA { KeyStep(StepB(s, StepA(s))); }
  }

  lemma KeyStep(s: State)
    requires KeysInv(s.serial) && s.isA
    ensures KeysInv(StepKeyboard(s).serial)
    ensures var k, t := s.serial, StepKeyboard(s).serial;
            if KeyArrives(s) then
              Keys(k) != [] && Keys(t) == Keys(k)[1..] && Unwired(t.sdr) == Keys(k)[0] && t.loaded && t.delay == 0
            else Keys(t) == Keys(k) && t.sdr == k.sdr && t.loaded == k.loaded
  {
    KeyStepKeepsKeys(s);
    var k, t := s.serial, StepKeyboard(s).serial;
    if KeyArrives(s) {
      SmallMod(k.head, 16);
      KeyRoundTrip(k.queue[k.head]);
      forall i: nat | i < t.len
        ensures KeyAt(t, i) == KeyAt(k, i + 1)
      {
        Congruent(16, (k.head + 1) % 16, k.head + 1, i);
      }
    } else {
      forall i: nat | i < k.len
        ensures KeyAt(t, i) == KeyAt(k, i)
      {
      }
    }
  }

  /** The keys that arrive in `n` E-clocks, as software decodes them. */
  function Arrivals(s: State, n: nat): seq<Byte>
    decreases n
  {
    if n == 0 then []
    else (if KeyArrives(s) then [Unwired(TickOne(s).serial.sdr)] else []) + Arrivals(TickOne(s), n - 1)
  }

  lemma {:induction false} ArrivalsAreOldest(s: State, n: nat)
    requires KeysInv(s.serial)
    ensures KeysInv(TickN(s, n).serial)
    ensures Keys(s.serial) == Arrivals(s, n) + Keys(TickN(s, n).serial)
    decreases n
  {
    if n > 0 {
      KeyTick(s);
      ArrivalsAreOldest(TickOne(s), n - 1);
    }
  }

  /** The handshake under way: CIA-A, serial port set to input, a key waiting and `d` E-clocks to go. */
  predicate UnderWay(s: State, d: nat) {
    s.isA && s.cra & 0x40 == 0 && KeysInv(s.serial) && s.serial.len > 0 && s.serial.delay == d
  }

  lemma InputStays(s: State)
    requires s.cra & 0x40 == 0
    ensures TickOne(s).cra & 0x40 == 0 && TickOne(s).isA == s.isA
  {
    TimerFields(s);
    StoppingKeepsSerialMode(s.cra);
    var t := StepB(s, StepA(s));
    assert StepKeyboard(t).cra == t.cra && StepKeyboard(t).isA == t.isA;
  }

  lemma HandshakeCounts(s: State, d: nat)
    requires UnderWay(s, d) && d != 1 && (d == 0 ==> !s.serial.loaded)
    ensures UnderWay(TickOne(s), if d == 0 then 708 else d - 1) && Keys(TickOne(s).serial) == Keys(s.serial)
  {
    InputStays(s);
    TimerFields(s);
    StoppingKeepsSerialMode(s.cra);
    KeyTick(s);
  }

  lemma {:induction false} DelayRunsOut(s: State, d: nat, n: nat)
    requires UnderWay(s, d) && 0 < n <= d
    ensures Arrivals(s, n) == if n < d then [] else [Keys(s.serial)[0]]
    decreases n
  {
    var t := TickOne(s);
    if d == 1 {
      KeyTick(s);
      assert Arrivals(t, 0) == [];
    } else {
      HandshakeCounts(s, d);
      if n == 1 { assert Arrivals(t, 0) == []; } else { DelayRunsOut(t, d - 1, n - 1); }
    }
  }

  /** A waiting key arrives once SDR has been read: in the 709th E-clock from then, a millisecond of them. */
  lemma KeyTakesAMillisecond(s: State, n: nat)
    requires UnderWay(s, 0) && !s.serial.loaded && n <= 709
    ensures Arrivals(s, n) == if n < 709 then [] else [Keys(s.serial)[0]]
  {
    if n > 0 {
      HandshakeCounts(s, 0);
      if n > 1 { DelayRunsOut(TickOne(s), 708, n - 1); } else { assert Arrivals(TickOne(s), 0) == []; }
    }
  }

  /** The keys that one action accepts from the host, and those that arrive during it. */
  function Accepted(c: Clocked, a: Action): seq<Byte> {
    if a.QueueKey? && c.chip.serial.len < 16 then [a.raw] else []
  }

  function Arrived(c: Clocked, a: Action, ratio: nat): seq<Byte>
    requires ratio > 0
  {
    if a.Tick? then Arrivals(c.chip, (c.carry + a.clocks) / ratio) else []
  }

  function AllAccepted(c: Clocked, acts: seq<Action>, ratio: nat): seq<Byte>
    requires ratio > 0
    decreases |acts|
  {
    if acts == [] then [] else Accepted(c, acts[0]) + AllAccepted(Apply(c, acts[0], ratio), acts[1..], ratio)
  }

  function AllArrived(c: Clocked, acts: seq<Action>, ratio: nat): seq<Byte>
    requires ratio > 0
    decreases |acts|
  {
    if acts == [] then [] else Arrived(c, acts[0], ratio) + AllArrived(Apply(c, acts[0], ratio), acts[1..], ratio)
  }

  lemma SameRing(k: Serial, t: Serial)
    requires KeysInv(k) && t == k.(sdr := t.sdr, loaded := t.loaded)
    ensures KeysInv(t) && Keys(t) == Keys(k)
  {
    assert forall i: nat :: i < k.len ==> KeyAt(t, i) == KeyAt(k, i);
  }

  lemma OtherActionsKeepKeys(c: Clocked, a: Action, ratio: nat)
    requires ratio > 0 && !a.QueueKey? && !a.Tick?
    ensures var k, t := c.chip.serial, Apply(c, a, ratio).chip.serial; t == k.(sdr := t.sdr, loaded := t.loaded)
  {
    match a
    case WriteReg(reg, v) => WriteKeepsKeys(c.chip, reg, v);
    case ReadReg(reg) => ReadKeepsRing(c.chip, reg);
    case TickTod =>
    case SetPins(_) =>
  }

  lemma ReadKeepsRing(s: State, reg: nat)
    ensures var k, t := s.serial, AfterRead(s, reg).serial; t == k.(loaded := t.loaded)
  {
  }

  lemma ActionKeepsOrder(c: Clocked, a: Action, ratio: nat)
    requires ratio > 0 && KeysInv(c.chip.serial)
    ensures var d := Apply(c, a, ratio);
            && KeysInv(d.chip.serial)
            && Keys(c.chip.serial) + Accepted(c, a) == Arrived(c, a, ratio) + Keys(d.chip.serial)
  {
    if a.QueueKey? { QueuedLast(c.chip, a.raw); }
    else if a.Tick? { ArrivalsAreOldest(c.chip, (c.carry + a.clocks) / ratio); }
    else {
      OtherActionsKeepKeys(c, a, ratio);
      SameRing(c.chip.serial, Apply(c, a, ratio).chip.serial);
    }
  }

  lemma OrderJoins(k: seq<Byte>, a: seq<Byte>, v: seq<Byte>, mid: seq<Byte>, a': seq<Byte>, v': seq<Byte>,
                   end: seq<Byte>)
    requires k + a == v + mid && mid + a' == v' + end
    ensures k + (a + a') == (v + v') + end
  {
    assert k + (a + a') == (k + a) + a';
    assert (v + mid) + a' == v + (mid + a');
    assert v + (v' + end) == (v + v') + end;
  }

  /** Over any run: the keys that were waiting and those accepted since are, in that order, the keys that have arrived
      and those still waiting. */
  lemma {:induction false} KeysArriveInOrder(c: Clocked, acts: seq<Action>, ratio: nat)
    requires ratio > 0 && KeysInv(c.chip.serial)
    ensures KeysInv(Run(c, acts, ratio).chip.serial)
    ensures Keys(c.chip.serial) + AllAccepted(c, acts, ratio) ==
            AllArrived(c, acts, ratio) + Keys(Run(c, acts, ratio).chip.serial)
    decreases |acts|
  {
    if acts != [] {
      var d := Apply(c, acts[0], ratio);
      ActionKeepsOrder(c, acts[0], ratio);
      KeysArriveInOrder(d, acts[1..], ratio);
      OrderJoins(Keys(c.chip.serial), Accepted(c, acts[0]), Arrived(c, acts[0], ratio), Keys(d.chip.serial),
                 AllAccepted(d, acts[1..], ratio), AllArrived(d, acts[1..], ratio),
                 Keys(Run(d, acts[1..], ratio).chip.serial));
    }
  }

  /** SDR holds a key that has not been read. */
  predicate Unread(c: Clocked) { c.chip.serial.loaded && c.chip.serial.delay == 0 }

  predicate TouchesSdr(a: Action) { (a.ReadReg? && a.reg % 16 == 12) || (a.WriteReg? && a.reg % 16 == 12) }

  lemma {:induction false} UnreadStays(s: State, n: nat)
    requires KeysInv(s.serial) && s.serial.loaded && s.serial.delay == 0
    ensures TickN(s, n).serial == s.serial
    decreases n
  {
    if n > 0 {
      TimerFields(s);
      UnreadStays(TickOne(s), n - 1);
    }
  }

  lemma ActionKeepsUnread(c: Clocked, a: Action, ratio: nat)
    requires ratio > 0 && KeysInv(c.chip.serial) && Unread(c) && !TouchesSdr(a)
    ensures var d := Apply(c, a, ratio);
            KeysInv(d.chip.serial) && Unread(d) && d.chip.serial.sdr == c.chip.serial.sdr
  {
    if a.QueueKey? { QueuedLast(c.chip, a.raw); }
    else if a.Tick? { UnreadStays(c.chip, (c.carry + a.clocks) / ratio); }
    else if a.WriteReg? { WriteKeepsKeys(c.chip, a.reg, a.v); }
  }

  /** The handshake: until SDR is read or written, no later key takes the place of the one in it. */
  lemma {:induction false} UnreadKeyIsKept(c: Clocked, acts: seq<Action>, ratio: nat)
    requires ratio > 0 && KeysInv(c.chip.serial) && Unread(c)
    requires forall i :: 0 <= i < |acts| ==> !TouchesSdr(acts[i])
    ensures Run(c, acts, ratio).chip.serial.sdr == c.chip.serial.sdr && Unread(Run(c, acts, ratio))
    decreases |acts|
  {
    if acts != [] {
      ActionKeepsUnread(c, acts[0], ratio);
      UnreadKeyIsKept(Apply(c, acts[0], ratio), acts[1..], ratio);
    }
  }

  // ---- ports ------------------------------------------------------------------------------------

  /** A port reads back what was written on its output pins and the outside level on its input pins. */
  predicate ShowsPins(read: Byte, written: Byte, outside: Byte, ddr: Byte) {
    read & ddr == written & ddr && read & !ddr == outside & !ddr
  }

  lemma Pins(latch: Byte, outside: Byte, ddr: Byte)
    ensures ShowsPins((latch & ddr) | (outside & !ddr), latch, outside, ddr)
  {
  }

  lemma PortRegisters(s: State, reg: nat, v: Byte)
    requires reg < 4
    ensures AfterWrite(s, reg, v) == s.(ports := PortWritten(s.ports, reg, v))
    ensures ReadValue(s, reg) == PortRead(s.ports, reg)
  {
    SmallMod(reg, 16);
  }

  lemma PortsShow(p: Ports)
    ensures ShowsPins(PortRead(p, 0), p.pra, p.praInput, p.ddra) && ShowsPins(PortRead(p, 1), p.prb, p.prbInput, p.ddrb)
    ensures PortRead(p, 2) == p.ddra && PortRead(p, 3) == p.ddrb
  {
    Pins(p.pra, p.praInput, p.ddra);
    Pins(p.prb, p.prbInput, p.ddrb);
  }

  lemma PortsReadPins(s: State)
    ensures var p := s.ports;
            && ShowsPins(ReadValue(s, 0), p.pra, p.praInput, p.ddra)
            && ShowsPins(ReadValue(s, 1), p.prb, p.prbInput, p.ddrb)
            && ReadValue(s, 2) == p.ddra && ReadValue(s, 3) == p.ddrb
  {
    PortRegisters(s, 0, 0);
    PortRegisters(s, 1, 0);
    PortRegisters(s, 2, 0);
    PortRegisters(s, 3, 0);
    PortsShow(s.ports);
  }

  /** The first four registers are the two latches and the two directions. */
  lemma PortsAreWritten(s: State, reg: nat, v: Byte)
    requires reg < 4
    ensures var p := s.ports;
            AfterWrite(s, reg, v) ==
            s.(ports := Ports(if reg == 0 then v else p.pra, if reg == 1 then v else p.prb,
                              if reg == 2 then v else p.ddra, if reg == 3 then v else p.ddrb, p.praInput, p.prbInput))
  {
    PortRegisters(s, reg, v);
  }

  // ---- timers -----------------------------------------------------------------------------------

  function Word(lo: Byte, hi: Byte): nat { 0x100 * Val(hi) + Val(lo) }

  /** Writing the two bytes of a timer sets its latch; the count follows if the timer is stopped or in one-shot mode,
      and one-shot mode starts it. */
  predicate Programmed(t: Timer, cr: Byte, word: nat, t': Timer, cr': Byte) {
    && t'.latch == word
    && t'.count == (if cr & 0x08 != 0 || cr & 0x01 == 0 then word else t.count)
    && cr' == if cr & 0x08 != 0 then cr | 0x01 else cr
  }

  lemma LowPart(latch: nat, lo: nat)
    requires lo < 0x100
    ensures (latch / 0x100 * 0x100 + lo) % 0x100 == lo
  {
    ModUnique(latch / 0x100 * 0x100 + lo, 0x100, latch / 0x100, lo);
  }

  lemma BytesToLatch(latch: u16, lo: Byte, hi: Byte)
    ensures SetHigh(SetLow(latch, lo), hi) == Word(lo, hi)
  {
    LowPart(latch, Val(lo));
  }

  lemma HighProgrammed(t: Timer, cr: Byte, hi: Byte, word: nat)
    requires SetHigh(t.latch, hi) == word
    ensures Programmed(t, cr, word, HighWritten(t, cr, hi), StartedByHigh(cr))
  {
  }

  lemma TimerAWrites(s: State, v: Byte)
    ensures AfterWrite(s, 4, v) == s.(ta := s.ta.(latch := SetLow(s.ta.latch, v)))
    ensures AfterWrite(s, 5, v) == s.(ta := HighWritten(s.ta, s.cra, v), cra := StartedByHigh(s.cra))
  {
  }

  lemma TimerBWrites(s: State, v: Byte)
    ensures AfterWrite(s, 6, v) == s.(tb := s.tb.(latch := SetLow(s.tb.latch, v)))
    ensures AfterWrite(s, 7, v) == s.(tb := HighWritten(s.tb, s.crb, v), crb := StartedByHigh(s.crb))
  {
  }

  lemma TimerAProgrammed(s: State, lo: Byte, hi: Byte, h: State, t: State)
    requires h == AfterWrite(s, 4, lo) && t == AfterWrite(h, 5, hi)
    ensures Programmed(s.ta, s.cra, Word(lo, hi), t.ta, t.cra) && t == s.(ta := t.ta, cra := t.cra)
  {
    TimerAWrites(s, lo);
    TimerAWrites(h, hi);
    BytesToLatch(s.ta.latch, lo, hi);
    HighProgrammed(h.ta, s.cra, hi, Word(lo, hi));
  }

  lemma TimerBProgrammed(s: State, lo: Byte, hi: Byte, h: State, t: State)
    requires h == AfterWrite(s, 6, lo) && t == AfterWrite(h, 7, hi)
    ensures Programmed(s.tb, s.crb, Word(lo, hi), t.tb, t.crb) && t == s.(tb := t.tb, crb := t.crb)
  {
    TimerBWrites(s, lo);
    TimerBWrites(h, hi);
    BytesToLatch(s.tb.latch, lo, hi);
    HighProgrammed(h.tb, s.crb, hi, Word(lo, hi));
  }

  lemma ByteIs(v: nat, place: nat)
    requires place > 0
    ensures Val(ByteOf(v, place)) == v / place % 0x100
  {
  }

  lemma BytesOfCount(n: u16)
    ensures Word(ByteOf(n, 1), ByteOf(n, 0x100)) == n
  {
    ByteIs(n, 1);
    ByteIs(n, 0x100);
    SplitWord(n);
  }

  lemma SplitWord(n: u16)
    ensures 0x100 * (n / 0x100 % 0x100) + n / 1 % 0x100 == n
  {
    DivModLaw(n, 0x100);
  }

  lemma TimerReads(s: State)
    ensures ReadValue(s, 4) == ByteOf(s.ta.count, 1) && ReadValue(s, 5) == ByteOf(s.ta.count, 0x100)
    ensures ReadValue(s, 6) == ByteOf(s.tb.count, 1) && ReadValue(s, 7) == ByteOf(s.tb.count, 0x100)
  {
  }

  /** The two bytes read give the count. */
  lemma TimersReadBack(s: State, lo: Byte, hi: Byte, timerB: bool)
    requires lo == ReadValue(s, if timerB then 6 else 4) && hi == ReadValue(s, if timerB then 7 else 5)
    ensures Word(lo, hi) == if timerB then s.tb.count else s.ta.count
  {
    TimerReads(s);
    BytesOfCount(if timerB then s.tb.count else s.ta.count);
  }

  /** Reading a port, a timer or a control register changes nothing. */
  lemma ReadsWithoutEffect(s: State, reg: nat)
    requires reg < 8 || 14 <= reg < 16
    ensures AfterRead(s, reg) == s
  {
  }

  /** An interval timer: in one-shot mode on the E-clock, writing the two bytes alone runs the timer for that many
      E-clocks and one more; it raises its source then, once, and not before. */
  lemma OneShotInterval(s: State, lo: Byte, hi: Byte, h: State, t: State, n: nat)
    requires s.cra & 0x08 != 0 && s.cra & 0x20 == 0
    requires h == AfterWrite(s, 4, lo) && t == AfterWrite(h, 5, hi)
    ensures CiaTimers.CountA(t, n) == if n <= Word(lo, hi) then 0 else 1
  {
    TimerAProgrammed(s, lo, hi, h, t);
    OneShotStarts(s.cra);
    CiaTimers.OneShotA(t, n);
  }

  lemma OneShotStarts(cr: Byte)
    requires cr & 0x08 != 0 && cr & 0x20 == 0
    ensures var v := cr | 0x01; v & 0x01 != 0 && v & 0x20 == 0 && v & 0x08 != 0
  {
  }

  lemma WithoutLoad(v: Byte)
    ensures v & !CR_LOAD == v & 0xEF
  {
  }

  lemma ControlRegisters(s: State, v: Byte)
    ensures AfterWrite(s, 14, v) == s.(cra := v & !CR_LOAD, ta := Strobed(s.ta, v)) && ReadValue(s, 14) == s.cra
    ensures AfterWrite(s, 15, v) == s.(crb := v & !CR_LOAD, tb := Strobed(s.tb, v)) && ReadValue(s, 15) == s.crb
  {
  }

  /** A control register reads back what was written but for LOAD, which reloads its own timer and no other. */
  lemma ControlAWritten(s: State, v: Byte, t: State)
    requires t == AfterWrite(s, 14, v)
    ensures ReadValue(t, 14) == v & 0xEF && t == s.(ta := t.ta, cra := t.cra) && t.ta.latch == s.ta.latch
    ensures t.ta.count == if v & 0x10 != 0 then s.ta.latch else s.ta.count
  {
    ControlRegisters(s, v);
    ControlRegisters(t, v);
    WithoutLoad(v);
  }

  lemma ControlBWritten(s: State, v: Byte, t: State)
    requires t == AfterWrite(s, 15, v)
    ensures ReadValue(t, 15) == v & 0xEF && t == s.(tb := t.tb, crb := t.crb) && t.tb.latch == s.tb.latch
    ensures t.tb.count == if v & 0x10 != 0 then s.tb.latch else s.tb.count
  {
    ControlRegisters(s, v);
    ControlRegisters(t, v);
    WithoutLoad(v);
  }

  // ---- interrupt control ------------------------------------------------------------------------

  /** Bit 7 of a write to ICR says whether its five source bits set or clear the mask; the others are kept. */
  lemma MaskIsWritten(s: State, v: Byte, bit: Byte)
    requires bit in {1, 2, 4, 8, 0x10}
    ensures var t := AfterWrite(s, 13, v);
            && (t.icrMask & bit != 0) == (if v & bit != 0 then v & 0x80 != 0 else s.icrMask & bit != 0)
            && t.icrMask & 0xE0 == s.icrMask & 0xE0 && t == s.(icrMask := t.icrMask)
  {
    MaskBit(s.icrMask, v, bit);
  }

  lemma MaskBit(mask: Byte, v: Byte, bit: Byte)
    requires bit in {1, 2, 4, 8, 0x10}
    ensures var m := MaskWritten(mask, v);
            && (m & bit != 0) == (if v & bit != 0 then v & 0x80 != 0 else mask & bit != 0)
            && m & 0xE0 == mask & 0xE0
  {
  }

  /** Reading ICR returns the pending sources, with bit 7 set if an enabled one is among them, and clears them all. */
  lemma InterruptRead(s: State, v: Byte, t: State)
    requires v == ReadValue(s, 13) && t == AfterRead(s, 13)
    ensures v & 0x7F == s.icrData & 0x7F
    ensures (v & 0x80 != 0) == (s.icrData & s.icrMask != 0 || s.icrData & 0x80 != 0)
    ensures t == s.(icrData := 0) && ReadValue(t, 13) == 0
  {
    TopBit(s.icrData);
    NothingPending(s.icrMask);
  }

  lemma TopBit(d: Byte)
    ensures (d | 0x80) & 0x7F == d & 0x7F && (d | 0x80) & 0x80 != 0
  {
  }

  lemma NothingPending(mask: Byte)
    ensures (0 as Byte) & mask == 0
  {
  }

  // ---- time of day ------------------------------------------------------------------------------

  function Time(hi: Byte, mid: Byte, lo: Byte): nat { 0x1_0000 * Val(hi) + 0x100 * Val(mid) + Val(lo) }

  lemma TimeBytes(was: nat, h: nat, m: nat, l: nat, x: nat, y: nat)
    requires h < 0x100 && m < 0x100 && l < 0x100
    requires x == h * 0x1_0000 + was % 0x1_0000 && y == x / 0x1_0000 * 0x1_0000 + m * 0x100 + x % 0x100
    ensures y / 0x100 * 0x100 + l == 0x1_0000 * h + 0x100 * m + l
  {
    ModUnique(x, 0x1_0000, h, was % 0x1_0000);
    ModUnique(y, 0x100, 0x100 * h + m, x % 0x100);
  }

  lemma ThreeBytes(was: nat, hi: Byte, mid: Byte, lo: Byte, x: nat, y: nat)
    requires x == SetTodByte(was, 10, hi) && y == SetTodByte(x, 9, mid)
    ensures SetTodByte(y, 8, lo) == Time(hi, mid, lo)
  {
    TimeBytes(was, Val(hi), Val(mid), Val(lo), x, y);
  }

  lemma TodRegisters(s: State, reg: nat, v: Byte)
    requires 8 <= reg % 16 < 11
    ensures AfterWrite(s, reg, v) == WriteTod(s, reg % 16, v)
  {
  }

  /** A write to the time of day changes the counter to `now`, or the alarm to `alarm`, and compares the two. */
  predicate TodWritten(s: State, toAlarm: bool, reg: nat, now: nat, alarm: nat, t: State) {
    && t == s.(tod := t.tod, icrData := t.icrData) && t.tod.latched == s.tod.latched
    && t.tod.now == (if toAlarm then s.tod.now else now) && t.tod.alarm == (if toAlarm then alarm else s.tod.alarm)
    && t.tod.stopped == (if toAlarm then s.tod.stopped else reg == 10 || (reg == 9 && s.tod.stopped))
    && t.tod.matching == (t.tod.now == t.tod.alarm)
    && t.icrData == With(s.icrData, t.tod.now == t.tod.alarm && !s.tod.matching, 4)
  }

  /** The byte goes to the counter or to the alarm. */
  predicate TodMoved(tod: Tod, toAlarm: bool, reg: nat, now: nat, alarm: nat, tod': Tod) {
    && tod'.now == (if toAlarm then tod.now else now) && tod'.alarm == (if toAlarm then alarm else tod.alarm)
    && tod'.stopped == (if toAlarm then tod.stopped else reg == 10 || (reg == 9 && tod.stopped))
    && tod'.matching == tod.matching && tod'.latched == tod.latched
  }

  lemma TodSetMoves(tod: Tod, toAlarm: bool, reg: nat, v: Byte, now: nat, alarm: nat)
    requires 8 <= reg < 11 && now == SetTodByte(tod.now, reg, v) && alarm == SetTodByte(tod.alarm, reg, v)
    ensures TodMoved(tod, toAlarm, reg, now, alarm, TodSet(tod, toAlarm, reg, v))
  {
  }

  /** The clock `tod'` compared, in place of that of `s`. */
  function Comparing(s: State, tod': Tod): State {
    var equal := tod'.now == tod'.alarm;
    s.(tod := tod'.(matching := equal), icrData := With(s.icrData, equal && !tod'.matching, 4))
  }

  lemma WriteTodIs(s: State, reg: nat, v: Byte, toAlarm: bool, tod': Tod)
    requires toAlarm == (s.crb & 0x80 != 0) && tod' == TodSet(s.tod, toAlarm, reg, v)
    ensures WriteTod(s, reg, v) == CheckAlarm(s.(tod := tod'))
  {
  }

  lemma CheckCompares(s: State, tod': Tod)
    ensures CheckAlarm(s.(tod := tod')) == Comparing(s, tod')
  {
  }

  lemma CheckedMoves(s: State, toAlarm: bool, reg: nat, now: nat, alarm: nat, tod': Tod, t: State)
    requires TodMoved(s.tod, toAlarm, reg, now, alarm, tod') && t == Comparing(s, tod')
    ensures TodWritten(s, toAlarm, reg, now, alarm, t)
  {
  }

  /** The alarm is written if bit 7 of CRB is set. */
  lemma TodWrites(s: State, reg: nat, r: nat, v: Byte, toAlarm: bool, now: nat, alarm: nat)
    requires 8 <= r < 11 && r == reg % 16 && toAlarm == (s.crb & 0x80 != 0)
    requires now == SetTodByte(s.tod.now, r, v) && alarm == SetTodByte(s.tod.alarm, r, v)
    ensures TodWritten(s, toAlarm, r, now, alarm, AfterWrite(s, reg, v))
  {
    TodRegisters(s, reg, v);
    TodSetMoves(s.tod, toAlarm, r, v, now, alarm);
    WriteTodIs(s, r, v, toAlarm, TodSet(s.tod, toAlarm, r, v));
    CheckCompares(s, TodSet(s.tod, toAlarm, r, v));
    CheckedMoves(s, toAlarm, r, now, alarm, TodSet(s.tod, toAlarm, r, v), AfterWrite(s, reg, v));
  }

  /** Writing the three bytes, highest first, sets the time and leaves it running, or sets the alarm and nothing else of
      the clock if bit 7 of CRB is set. */
  lemma TimeIsSet(s: State, hi: Byte, mid: Byte, lo: Byte, toAlarm: bool, h: State, m: State, t: State)
    requires h == AfterWrite(s, 10, hi) && m == AfterWrite(h, 9, mid) && t == AfterWrite(m, 8, lo)
    requires toAlarm == (s.crb & 0x80 != 0)
    ensures t == s.(tod := t.tod, icrData := t.icrData)
    ensures t.tod.now == if toAlarm then s.tod.now else Time(hi, mid, lo)
    ensures t.tod.alarm == if toAlarm then Time(hi, mid, lo) else s.tod.alarm
    ensures t.tod.stopped == (toAlarm && s.tod.stopped)
  {
    TodWrites(s, 10, 10, hi, toAlarm, SetTodByte(s.tod.now, 10, hi), SetTodByte(s.tod.alarm, 10, hi));
    TodWrites(h, 9, 9, mid, toAlarm, SetTodByte(h.tod.now, 9, mid), SetTodByte(h.tod.alarm, 9, mid));
    TodWrites(m, 8, 8, lo, toAlarm, SetTodByte(m.tod.now, 8, lo), SetTodByte(m.tod.alarm, 8, lo));
    if toAlarm { ThreeBytes(s.tod.alarm, hi, mid, lo, h.tod.alarm, m.tod.alarm); }
    else { ThreeBytes(s.tod.now, hi, mid, lo, h.tod.now, m.tod.now); }
  }

  /** Between the first and the last byte the time stands still. */
  lemma HalfWrittenTimeStops(s: State, hi: Byte)
    requires s.crb & 0x80 == 0
    ensures var t := AfterWrite(s, 10, hi); t.tod.stopped && TodTicked(t) == t
  {
  }

  /** The alarm is compared with the time the moment either changes. */
  predicate Compared(s: State) { s.tod.matching == (s.tod.now == s.tod.alarm) && s.tod.now < 0x100_0000 }

  lemma TodByteRange(v: nat, reg: nat, b: Byte)
    requires v < 0x100_0000
    ensures SetTodByte(v, reg, b) < 0x100_0000
  {
    ByteWithin(v, Val(b));
  }

  lemma ByteWithin(v: nat, b: nat)
    requires v < 0x100_0000 && b < 0x100
    ensures v / 0x100 * 0x100 + b < 0x100_0000 && b * 0x1_0000 + v % 0x1_0000 < 0x100_0000
    ensures v / 0x1_0000 * 0x1_0000 + b * 0x100 + v % 0x100 < 0x100_0000
  {
    DivModLaw(v, 0x100);
    DivModLaw(v, 0x1_0000);
  }

  lemma OtherWritesKeepTod(s: State, reg: nat, v: Byte)
    requires !(8 <= reg % 16 < 11)
    ensures AfterWrite(s, reg, v).tod == s.tod
  {
  }

  /** A write leaves the clock alone, or is one of the three above. */
  lemma WriteCases(s: State, reg: nat, v: Byte, now: nat, alarm: nat)
    requires 8 <= reg % 16 < 11 ==>
               now == SetTodByte(s.tod.now, reg % 16, v) && alarm == SetTodByte(s.tod.alarm, reg % 16, v)
    ensures var t := AfterWrite(s, reg, v);
            t.tod == s.tod || (8 <= reg % 16 < 11 && TodWritten(s, s.crb & 0x80 != 0, reg % 16, now, alarm, t))
  {
    if 8 <= reg % 16 < 11 {
      TodWrites(s, reg, reg % 16, v, s.crb & 0x80 != 0, now, alarm);
    } else {
      OtherWritesKeepTod(s, reg, v);
    }
  }

  lemma WriteKeepsCompared(s: State, reg: nat, v: Byte)
    requires Compared(s)
    ensures Compared(AfterWrite(s, reg, v))
  {
    var now, alarm := SetTodByte(s.tod.now, reg % 16, v), SetTodByte(s.tod.alarm, reg % 16, v);
    WriteCases(s, reg, v, now, alarm);
    TodByteRange(s.tod.now, reg % 16, v);
  }

  lemma TickKeepsTod(s: State)
    ensures TickOne(s).tod == s.tod
  {
    assert StepA(s).tod == s.tod && StepB(s, StepA(s)).tod == s.tod;
  }

  lemma {:induction false} TickNKeepsTod(s: State, n: nat)
    ensures TickN(s, n).tod == s.tod
    decreases n
  {
    if n > 0 {
      TickKeepsTod(s);
      TickNKeepsTod(TickOne(s), n - 1);
    }
  }

  lemma ReadKeepsCompared(s: State, reg: nat)
    requires Compared(s)
    ensures Compared(AfterRead(s, reg))
  {
  }

  lemma TickKeepsCompared(s: State)
    requires Compared(s)
    ensures Compared(TodTicked(s))
  {
  }

  lemma ActionKeepsCompared(c: Clocked, a: Action, ratio: nat)
    requires ratio > 0 && Compared(c.chip)
    ensures Compared(Apply(c, a, ratio).chip)
  {
    match a
    case WriteReg(reg, v) => WriteKeepsCompared(c.chip, reg, v);
    case Tick(clocks) => TickNKeepsTod(c.chip, (c.carry + clocks) / ratio);
    case ReadReg(reg) => ReadKeepsCompared(c.chip, reg);
    case QueueKey(_) =>
    case TickTod => TickKeepsCompared(c.chip);
    case SetPins(_) =>
  }

  /** Every state reachable from reset. */
  lemma {:induction false} AlwaysCompared(c: Clocked, acts: seq<Action>, ratio: nat)
    requires ratio > 0 && Compared(c.chip)
    ensures Compared(Run(c, acts, ratio).chip)
    decreases |acts|
  {
    if acts != [] {
      ActionKeepsCompared(c, acts[0], ratio);
      AlwaysCompared(Apply(c, acts[0], ratio), acts[1..], ratio);
    }
  }

  /** A tick of a running clock counts in 24 bits, and raises bit 2 exactly when the new time is the alarm. */
  lemma AlarmOnTheTick(s: State)
    requires Compared(s) && !s.tod.stopped
    ensures var t := TodTicked(s);
            && t.tod.now == (if s.tod.now == 0xFF_FFFF then 0 else s.tod.now + 1) && t.tod.alarm == s.tod.alarm
            && t.icrData == if t.tod.now == s.tod.alarm then s.icrData | 4 else s.icrData
  {
  }

  /** A write raises it exactly when it makes the two equal. */
  lemma AlarmOnTheWrite(s: State, reg: nat, v: Byte)
    requires Compared(s) && 8 <= reg < 11
    ensures var t := AfterWrite(s, reg, v);
            t.icrData == With(s.icrData, t.tod.now == t.tod.alarm && s.tod.now != s.tod.alarm, 4)
  {
    TodWrites(s, reg, reg, v, s.crb & 0x80 != 0, SetTodByte(s.tod.now, reg, v), SetTodByte(s.tod.alarm, reg, v));
  }

  predicate ReadsLow(a: Action) { a.ReadReg? && a.reg % 16 == 8 }

  lemma ActionKeepsSnapshot(c: Clocked, a: Action, ratio: nat)
    requires ratio > 0 && c.chip.tod.latched.Some? && !ReadsLow(a)
    ensures Apply(c, a, ratio).chip.tod.latched == c.chip.tod.latched
  {
    match a
    case Tick(clocks) => TickNKeepsTod(c.chip, (c.carry + clocks) / ratio);
    case WriteReg(reg, v) => WriteKeepsSnapshot(c.chip, reg, v);
    case ReadReg(reg) =>
    case QueueKey(_) =>
    case TickTod =>
    case SetPins(_) =>
  }

  lemma WriteKeepsSnapshot(s: State, reg: nat, v: Byte)
    ensures AfterWrite(s, reg, v).tod.latched == s.tod.latched
  {
    WriteCases(s, reg, v, SetTodByte(s.tod.now, reg % 16, v), SetTodByte(s.tod.alarm, reg % 16, v));
  }

  predicate LeavesSnapshot(acts: seq<Action>) { forall i :: 0 <= i < |acts| ==> !ReadsLow(acts[i]) }

  lemma {:induction false} SnapshotStays(c: Clocked, acts: seq<Action>, ratio: nat)
    requires ratio > 0 && c.chip.tod.latched.Some? && LeavesSnapshot(acts)
    ensures Run(c, acts, ratio).chip.tod.latched == c.chip.tod.latched
    decreases |acts|
  {
    if acts != [] {
      ActionKeepsSnapshot(c, acts[0], ratio);
      SnapshotStays(Apply(c, acts[0], ratio), acts[1..], ratio);
    }
  }

  lemma BytesOfTime(v: nat)
    requires v < 0x100_0000
    ensures Time(ByteOf(v, 0x1_0000), ByteOf(v, 0x100), ByteOf(v, 1)) == v
  {
    ByteIs(v, 0x1_0000);
    ByteIs(v, 0x100);
    ByteIs(v, 1);
    SplitTime(v);
  }

  lemma SplitTime(v: nat)
    requires v < 0x100_0000
    ensures 0x1_0000 * (v / 0x1_0000 % 0x100) + 0x100 * (v / 0x100 % 0x100) + v / 1 % 0x100 == v
  {
    DivModLaw(v, 0x100);
    DivModLaw(v / 0x100, 0x100);
  }

  lemma TimeReads(s: State)
    ensures ReadValue(s, 10) == ByteOf(TimeRead(s), 0x1_0000) && ReadValue(s, 9) == ByteOf(TimeRead(s), 0x100)
    ensures ReadValue(s, 8) == ByteOf(TimeRead(s), 1)
  {
  }

  lemma HighLatches(s: State)
    requires s.tod.latched.None?
    ensures AfterRead(s, 10).tod.latched == Some(s.tod.now) && AfterRead(s, 10).tod.now == s.tod.now
  {
  }

  lemma MidKeepsLatched(s: State)
    ensures AfterRead(s, 9) == s && AfterRead(s, 8).tod.latched.None?
  {
  }

  lemma BytesRead(first: State, second: State, third: State, v: nat)
    requires v < 0x100_0000 && TimeRead(first) == v && TimeRead(second) == v && TimeRead(third) == v
    ensures Time(ReadValue(first, 10), ReadValue(second, 9), ReadValue(third, 8)) == v
  {
    TimeReads(first);
    TimeReads(second);
    TimeReads(third);
    BytesOfTime(v);
  }

  /** Reading the highest byte first gives one coherent time, whatever happens before the lowest is read: the bytes are
      those of the time at the first read, and the clock runs on. */
  lemma TimeReadsCoherently(c: Clocked, acts: seq<Action>, more: seq<Action>, ratio: nat, first: Clocked,
                            second: Clocked, third: Clocked)
    requires ratio > 0 && Compared(c.chip) && c.chip.tod.latched.None? && LeavesSnapshot(acts) && LeavesSnapshot(more)
    requires first == c.(chip := AfterRead(c.chip, 10)) && second == Run(first, acts, ratio)
    requires third == Run(second.(chip := AfterRead(second.chip, 9)), more, ratio)
    ensures Time(ReadValue(c.chip, 10), ReadValue(second.chip, 9), ReadValue(third.chip, 8)) == c.chip.tod.now
    ensures AfterRead(third.chip, 8).tod.latched.None? && first.chip.tod.now == c.chip.tod.now
  {
    HighLatches(c.chip);
    SnapshotStays(first, acts, ratio);
    MidKeepsLatched(second.chip);
    SnapshotStays(second.(chip := AfterRead(second.chip, 9)), more, ratio);
    MidKeepsLatched(third.chip);
    BytesRead(c.chip, second.chip, third.chip, c.chip.tod.now);
  }

  // ---- reset ------------------------------------------------------------------------------------

  /** After reset the overlay is on at CIA-A, all pins are inputs and idle high, both timers stand at their full count,
      stopped, no interrupt is enabled or pending, the time of day runs from 0 and no key is waiting. */
  lemma ResetReads(isA: bool, s: State)
    requires s == New(isA)
    ensures OvlAsserted(s) == isA && Compared(s) && !s.tod.stopped && s.tod.now == 0 && s.tod.latched.None?
    ensures ReadValue(s, 0) == 0xFF && ReadValue(s, 1) == 0xFF && ReadValue(s, 2) == 0 && ReadValue(s, 3) == 0
    ensures s.ta == Timer(0xFFFF, 0xFFFF) && s.tb == Timer(0xFFFF, 0xFFFF) && s.cra == 0 && s.crb == 0
    ensures s.icrMask == 0 && s.icrData == 0 && KeysInv(s.serial) && Keys(s.serial) == [] && !s.serial.loaded
  {
    PortRegisters(s, 0, 0);
    PortRegisters(s, 1, 0);
    PortRegisters(s, 2, 0);
    PortRegisters(s, 3, 0);
  }
}
