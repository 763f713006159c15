/**
 The 8520 CIA (crates/machine-core/src/cia.rs): timers A and B on the E-clock, the keyboard serial
 handshake, the interrupt latch and the time-of-day counter.

 `TickOne` is one E-clock; the chip's `Tick` advances by CPU clocks and skips the E-clock loop when
 the chip is idle. `ClocksUntilEvent` is the deadline a caller may defer ticking to.
 */
module Cia {
  import opened Bits
  import opened Wrappers

  // ---- registers -----------------------------------------------------------------

  type Byte = bv8

  const CR_START: Byte := 0x01
  const CR_RUNMODE: Byte := 0x08
  const CR_LOAD: Byte := 0x10
  const CRA_INMODE: Byte := 0x20
  const CRA_SPMODE: Byte := 0x40
  const CRB_INMODE_MASK: Byte := 0x60
  const CRB_INMODE_CNT: Byte := 0x20
  const CRB_ALARM: Byte := 0x80

  const ICR_TA: Byte := 0x01
  const ICR_TB: Byte := 0x02
  const ICR_ALRM: Byte := 0x04
  const ICR_SP: Byte := 0x08
  const ICR_SETCLR: Byte := 0x80

  const E_CLOCK_HZ := 709_379
  const HANDSHAKE_TICKS: nat := E_CLOCK_HZ / 1000
  const QUEUE_LEN := 16

  datatype Timer = Timer(count: u16, latch: u16)

  /** The keyboard side: SDR, the ring of queued key codes and the handshake delay. */
  datatype Serial = Serial(sdr: Byte, queue: seq<Byte>, head: nat, len: nat, delay: nat, loaded: bool)

  datatype Tod = Tod(now: nat, alarm: nat, latched: Option<nat>, stopped: bool, matching: bool)

  datatype Ports = Ports(pra: Byte, prb: Byte, ddra: Byte, ddrb: Byte, praInput: Byte, prbInput: Byte)

  datatype State = State(
    isA: bool, ports: Ports, ta: Timer, tb: Timer, cra: Byte, crb: Byte, tod: Tod,
    icrMask: Byte, icrData: Byte, serial: Serial)

  /** The chip and the CPU clocks carried towards its next E-clock. */
  datatype Clocked = Clocked(chip: State, carry: nat)

  function New(isA: bool): State {
    State(isA, Ports(if isA then 0x01 else 0x00, 0, 0, 0, 0xFF, 0xFF),
          Timer(0xFFFF, 0xFFFF), Timer(0xFFFF, 0xFFFF), 0, 0,
          Tod(0, 0, None, false, true), 0, 0,
          Serial(0, seq(QUEUE_LEN, _ => 0), 0, 0, 0, false))
  }

  /** The ROM overlay follows the latched bit 0 of CIA-A's port A. */
  predicate OvlAsserted(s: State) { s.isA && s.ports.pra & 0x01 != 0 }

  // ---- one E-clock -----------------------------------------------------------------

  predicate RunsA(s: State) { s.cra & CR_START != 0 && s.cra & CRA_INMODE == 0 }

  predicate UnderflowsA(s: State) { RunsA(s) && s.ta.count == 0 }

  /** Timer B counts the E-clock (mode 00) or timer A's underflows (modes 10 and 11), never CNT. */
  predicate CountsB(s: State) {
    s.crb & CR_START != 0 &&
    (s.crb & CRB_INMODE_MASK == 0 || (s.crb & CRB_INMODE_MASK != CRB_INMODE_CNT && UnderflowsA(s)))
  }

  predicate UnderflowsB(s: State) { CountsB(s) && s.tb.count == 0 }

  function StepTimer(t: Timer): Timer {
    if t.count == 0 then t.(count := t.latch) else t.(count := t.count - 1)
  }

  function AfterUnderflow(cr: Byte): Byte { if cr & CR_RUNMODE != 0 then cr & !CR_START else cr }

  function Raise(s: State, bit: Byte): State { s.(icrData := s.icrData | bit) }

  function StepA(s: State): State {
    if !RunsA(s) then s
    else
      var t := s.(ta := StepTimer(s.ta));
      if UnderflowsA(s) then Raise(t, ICR_TA).(cra := AfterUnderflow(s.cra)) else t
  }

  /** Timer B after timer A's step `a` of `s`. */
  function StepB(s: State, a: State): State {
    if !CountsB(s) then a
    else
      var t := a.(tb := StepTimer(s.tb));
      if UnderflowsB(s) then Raise(t, ICR_TB).(crb := AfterUnderflow(s.crb)) else t
  }

  /** The wire form of a key code: rotated left one bit, then inverted. */
  function EncodeKey(raw: Byte): Byte { !((raw << 1) | (raw >> 7)) }

  function StepKeyboard(s: State): State {
    var k := s.serial;
    if s.cra & CRA_SPMODE != 0 then s
    else
      var delay := if k.delay == 0 && !k.loaded && k.len > 0 then HANDSHAKE_TICKS else k.delay;
      if delay == 0 then s
      else if delay > 1 || k.len == 0 || k.head >= |k.queue| then s.(serial := k.(delay := delay - 1))
      else
        Raise(s.(serial := Serial(EncodeKey(k.queue[k.head]), k.queue, (k.head + 1) % QUEUE_LEN, k.len - 1, 0, true)),
              ICR_SP)
  }

  function TickOne(s: State): State {
    var t := StepB(s, StepA(s));
    if s.isA then StepKeyboard(t) else t
  }

  function TickN(s: State, n: nat): State
    decreases n
  {
    if n == 0 then s else TickN(TickOne(s), n - 1)
  }

  predicate Idle(s: State) {
    s.cra & CR_START == 0 && s.crb & CR_START == 0 && s.serial.len == 0 && s.serial.delay == 0
  }

  /** Advance by CPU clocks: whole E-clocks run, the remainder is carried. */
  function Ticked(c: Clocked, clocks: nat, ratio: nat): Clocked
    requires ratio > 0
  {
    var total := c.carry + clocks;
    Clocked(TickN(c.chip, total / ratio), total % ratio)
  }

  /** One call, whose 32-bit sum must not overflow. */
  function Tick32(c: Clocked, clocks: u32, ratio: nat): Option<Clocked>
    requires ratio > 0
  {
    if c.carry + clocks >= U32_RANGE then None else Some(Ticked(c, clocks, ratio))
  }

  // ---- the deadline -----------------------------------------------------------------

  function Min(a: Option<nat>, v: nat): Option<nat> {
    match a case None => Some(v) case Some(m) => Some(if m < v then m else v)
  }

  function UntilA(s: State): Option<nat> {
    if RunsA(s) then Some(s.ta.count + 1) else None
  }

  function UntilB(s: State): Option<nat> {
    if s.crb & CR_START != 0 && s.crb & CRB_INMODE_MASK == 0 then Some(s.tb.count + 1) else None
  }

  function UntilKey(s: State): Option<nat> {
    if s.isA && s.cra & CRA_SPMODE == 0 then
      if s.serial.delay > 0 then Some(s.serial.delay)
      else if !s.serial.loaded && s.serial.len > 0 then Some(HANDSHAKE_TICKS)
      else None
    else None
  }

  /** E-clocks until something here changes on its own. */
  function EclocksUntilEvent(s: State): Option<nat> {
    var a := UntilA(s);
    var ab := if UntilB(s).Some? then Min(a, UntilB(s).value) else a;
    if UntilKey(s).Some? then Min(ab, UntilKey(s).value) else ab
  }

  /** The same in CPU clocks, truncated to 32 bits by the final cast. */
  function ClocksUntilEvent(c: Clocked, ratio: nat): Option<u32> {
    match EclocksUntilEvent(c.chip)
    case None => None
    case Some(n) =>
      var total := n * ratio;
      Some((if total >= c.carry then total - c.carry else 0) % U32_RANGE)
  }

  // ---- register accesses -------------------------------------------------------------

  function CheckAlarm(s: State): State {
    var equal := s.tod.now == s.tod.alarm;
    var t := if equal && !s.tod.matching then Raise(s, ICR_ALRM) else s;
    t.(tod := t.tod.(matching := equal))
  }

  function TodTicked(s: State): State {
    if s.tod.stopped then s
    else CheckAlarm(s.(tod := s.tod.(now := (s.tod.now + 1) % 0x100_0000)))
  }

  /** The value of a byte. */
  function Val(b: Byte): (n: nat)
    ensures n < 0x100
  {
    b as int
  }

  function SetTodByte(v: nat, reg: nat, value: Byte): nat {
    var b := Val(value);
    match reg
    case 8 => v / 0x100 * 0x100 + b
    case 9 => v / 0x1_0000 * 0x1_0000 + b * 0x100 + v % 0x100
    case _ => b * 0x1_0000 + v % 0x1_0000
  }

  /** Writing TODHI stops the counter and TODLO restarts it; with the ALARM bit the writes go to the alarm. */
  function TodSet(tod: Tod, toAlarm: bool, reg: nat, value: Byte): Tod {
    if toAlarm then tod.(alarm := SetTodByte(tod.alarm, reg, value))
    else tod.(now := SetTodByte(tod.now, reg, value),
              stopped := if reg == 10 then true else if reg == 8 then false else tod.stopped)
  }

  function WriteTod(s: State, reg: nat, value: Byte): State {
    CheckAlarm(s.(tod := TodSet(s.tod, s.crb & CRB_ALARM != 0, reg, value)))
  }

  /** The state effect of a register read: reading SDR acknowledges the key, reading ICR clears it,
      reading TODHI latches the time and TODLO releases it. */
  function AfterRead(s: State, reg: nat): State {
    match reg % 16
    case 8 => s.(tod := s.tod.(latched := None))
    case 10 => if s.tod.latched.None? then s.(tod := s.tod.(latched := Some(s.tod.now))) else s
    case 12 => s.(serial := s.serial.(loaded := false))
    case 13 => s.(icrData := 0)
    case _ => s
  }

  /** The byte of value `n`. */
  function ToByte(n: nat): (b: Byte)
    requires n < 0x100
    ensures b as int == n
  {
    if n == 0 then 0 else ToByte(n - 1) + 1
  }

  function ByteOf(v: nat, place: nat): Byte
    requires place > 0
  {
    ToByte(v / place % 0x100)
  }


  /** The value of a register read. */
  function ReadValue(s: State, reg: nat): Byte {
    var r := reg % 16;
    if r < 4 then PortRead(s.ports, r)
    else if r < 8 then ByteOf(if r < 6 then s.ta.count else s.tb.count, if r % 2 == 0 then 1 else 0x100)
    else if r < 11 then ByteOf(TimeRead(s), if r == 8 then 1 else if r == 9 then 0x100 else 0x1_0000)
    else if r == 12 then s.serial.sdr
    else if r == 13 then Requests(s.icrData, s.icrMask)
    else if r == 14 then s.cra
    else if r == 15 then s.crb
    else 0xFF
  }

  function PortRead(p: Ports, reg: nat): Byte {
    match reg
    case 0 => (p.pra & p.ddra) | (p.praInput & !p.ddra)
    case 1 => (p.prb & p.ddrb) | (p.prbInput & !p.ddrb)
    case 2 => p.ddra
    case _ => p.ddrb
  }

  /** The pending sources, with bit 7 for an enabled one. */
  function Requests(data: Byte, mask: Byte): Byte { if data & mask != 0 then data | ICR_SETCLR else data }

  /** The latched time, or the running one. */
  function TimeRead(s: State): nat { if s.tod.latched.Some? then s.tod.latched.value else s.tod.now }

  function SetLow(latch: u16, v: Byte): u16 { latch / 0x100 * 0x100 + Val(v) }
  function SetHigh(latch: u16, v: Byte): u16 { Val(v) * 0x100 + latch % 0x100 }

  /** Writing a timer's high byte reloads a stopped timer, and starts a one-shot one. */
  function HighWritten(t: Timer, cr: Byte, v: Byte): Timer {
    var latch := SetHigh(t.latch, v);
    Timer(if cr & CR_RUNMODE != 0 || cr & CR_START == 0 then latch else t.count, latch)
  }

  function StartedByHigh(cr: Byte): Byte { if cr & CR_RUNMODE != 0 then cr | CR_START else cr }

  function MaskWritten(mask: Byte, v: Byte): Byte {
    var bits := v & 0x1F;
    if v & ICR_SETCLR != 0 then mask | bits else mask & !bits
  }

  /** LOAD forces a reload and is not stored. */
  function Strobed(t: Timer, v: Byte): Timer { if v & CR_LOAD != 0 then t.(count := t.latch) else t }

  function PortWritten(p: Ports, reg: nat, v: Byte): Ports {
    match reg
    case 0 => p.(pra := v)
    case 1 => p.(prb := v)
    case 2 => p.(ddra := v)
    case _ => p.(ddrb := v)
  }

  /** The state after a register write. */
  function AfterWrite(s: State, reg: nat, v: Byte): State {
    var r := reg % 16;
    if r < 4 then s.(ports := PortWritten(s.ports, r, v))
    else if r == 4 then s.(ta := s.ta.(latch := SetLow(s.ta.latch, v)))
    else if r == 5 then s.(ta := HighWritten(s.ta, s.cra, v), cra := StartedByHigh(s.cra))
    else if r == 6 then s.(tb := s.tb.(latch := SetLow(s.tb.latch, v)))
    else if r == 7 then s.(tb := HighWritten(s.tb, s.crb, v), crb := StartedByHigh(s.crb))
    else if r < 11 then WriteTod(s, r, v)
    else if r == 12 then s.(serial := s.serial.(sdr := v))
    else if r == 13 then s.(icrMask := MaskWritten(s.icrMask, v))
    else if r == 14 then s.(cra := v & !CR_LOAD, ta := Strobed(s.ta, v))
    else if r == 15 then s.(crb := v & !CR_LOAD, tb := Strobed(s.tb, v))
    else s
  }

  function Queued(s: State, raw: Byte): State {
    var k := s.serial;
    if k.len < QUEUE_LEN && |k.queue| == QUEUE_LEN then
      var tail := (k.head + k.len) % QUEUE_LEN;
      s.(serial := k.(queue := k.queue[tail := raw], len := k.len + 1))
    else s
  }

  // ---- reachable states ---------------------------------------------------------------

  datatype Action = ReadReg(reg: nat) | WriteReg(reg: nat, v: Byte) | QueueKey(raw: Byte)
                  | Tick(clocks: nat) | TickTod | SetPins(praInput: Byte)

  function Apply(c: Clocked, a: Action, ratio: nat): Clocked
    requires ratio > 0
  {
    match a
    case ReadReg(reg) => c.(chip := AfterRead(c.chip, reg))
    case WriteReg(reg, v) => c.(chip := AfterWrite(c.chip, reg, v))
    case QueueKey(raw) => c.(chip := Queued(c.chip, raw))
    case Tick(clocks) => Ticked(c, clocks, ratio)
    case TickTod => c.(chip := TodTicked(c.chip))
    case SetPins(p) => c.(chip := c.chip.(ports := c.chip.ports.(praInput := p)))
  }

  function Run(c: Clocked, acts: seq<Action>, ratio: nat): Clocked
    requires ratio > 0
    decreases |acts|
  {
    if acts == [] then c else Run(Apply(c, acts[0], ratio), acts[1..], ratio)
  }

  /** What every reachable state keeps: the key ring is well formed, a handshake in flight has a key
      to deliver, and less than one E-clock is carried. */
  predicate KeysInv(k: Serial) {
    && |k.queue| == QUEUE_LEN && k.head < QUEUE_LEN && k.len <= QUEUE_LEN
    && (k.delay > 0 ==> k.len > 0)
  }

  predicate Inv(c: Clocked, ratio: nat) { KeysInv(c.chip.serial) && c.carry < ratio }

  lemma KeyStepKeepsKeys(s: State)
    requires KeysInv(s.serial)
    ensures KeysInv(StepKeyboard(s).serial)
  {
    var k, t := s.serial, StepKeyboard(s).serial;
    KeyStepFields(s);
    if t.len < k.len { DivModLaw(k.head + 1, QUEUE_LEN); }
  }

  /** The keyboard step changes nothing, counts the delay down, or delivers one key. */
  lemma KeyStepFields(s: State)
    ensures var k, t := s.serial, StepKeyboard(s).serial;
            && t.queue == k.queue
            && (|| t == k
                || (t == k.(delay := t.delay) && k.len > 0)
                || (t == k.(delay := t.delay) && k.delay > 0)
                || (k.len > 0 && t.delay == 0 && t.len == k.len - 1 && t.head == (k.head + 1) % QUEUE_LEN))
  {
  }

  lemma TickOneKeepsKeys(s: State)
    requires KeysInv(s.serial)
    ensures KeysInv(TickOne(s).serial)
  {
    var t := StepB(s, StepA(s));
    assert t.serial == s.serial;
    KeyStepKeepsKeys(t);
  }

  lemma {:induction false} TickNKeepsKeys(s: State, n: nat)
    requires KeysInv(s.serial)
    ensures KeysInv(TickN(s, n).serial)
    decreases n
  {
    if n > 0 {
      TickOneKeepsKeys(s);
      TickNKeepsKeys(TickOne(s), n - 1);
    }
  }

  lemma ApplyKeepsInv(c: Clocked, a: Action, ratio: nat)
    requires ratio > 0 && Inv(c, ratio)
    ensures Inv(Apply(c, a, ratio), ratio)
  {
    match a
    case ReadReg(reg) =>
    case WriteReg(reg, v) => WriteKeepsKeys(c.chip, reg, v);
    case QueueKey(raw) =>
    case Tick(clocks) =>
      TickNKeepsKeys(c.chip, (c.carry + clocks) / ratio);
      DivModLaw(c.carry + clocks, ratio);
    case TickTod =>
    case SetPins(_) =>
  }

  /** Every state reachable from reset through register accesses, queued keys, ticks and pins. */
  lemma {:induction false} ReachableInv(c: Clocked, acts: seq<Action>, ratio: nat)
    requires ratio > 0 && Inv(c, ratio)
    ensures Inv(Run(c, acts, ratio), ratio)
    decreases |acts|
  {
    if acts != [] {
      ApplyKeepsInv(c, acts[0], ratio);
      ReachableInv(Apply(c, acts[0], ratio), acts[1..], ratio);
    }
  }

  lemma WriteKeepsKeys(s: State, reg: nat, v: Byte)
    ensures AfterWrite(s, reg, v).serial == if reg % 16 == 12 then s.serial.(sdr := v) else s.serial
  {
    TodWriteKeepsKeys(s, reg % 16, v);
  }

  lemma TodWriteKeepsKeys(s: State, reg: nat, v: Byte)
    ensures WriteTod(s, reg, v).serial == s.serial
  {
  }

  // ---- the chip ------------------------------------------------------------------------

  class Chip {
    const isA: bool
    var ports: Ports
    var ta: Timer
    var tb: Timer
    var cra: Byte
    var crb: Byte
    var tod: Tod
    var icrMask: Byte
    var icrData: Byte
    var serial: Serial
    var carry: nat

    function St(): State
      reads this
    {
      State(isA, ports, ta, tb, cra, crb, tod, icrMask, icrData, serial)
    }

    constructor (isA: bool)
      ensures St() == New(isA) && carry == 0
    {
      var s := New(isA);
      this.isA := isA;
      ports, ta, tb, cra, crb, tod := s.ports, s.ta, s.tb, s.cra, s.crb, s.tod;
      icrMask, icrData, serial, carry := s.icrMask, s.icrData, s.serial, 0;
    }

    /** Read a register. */
    method ReadReg(reg: nat) returns (value: Byte)
      modifies this`tod, this`serial, this`icrData
      ensures value == ReadValue(old(St()), reg) && St() == AfterRead(old(St()), reg)
    {
      value := ReadValue(St(), reg);
      match reg % 16
      case 8 => tod := tod.(latched := None);
      case 10 =>
        if tod.latched.None? {
          tod := tod.(latched := Some(tod.now));
        }
      case 12 => serial := serial.(loaded := false);
      case 13 => icrData := 0;
      case _ =>
    }

    /** Write a register. */
    method WriteReg(reg: nat, v: Byte)
      modifies this
      ensures St() == AfterWrite(old(St()), reg, v) && carry == old(carry)
    {
      var r := reg % 16;
      if r < 4 {
        WritePort(r, v);
      } else if r == 4 {
        ta := ta.(latch := SetLow(ta.latch, v));
      } else if r == 5 {
        WriteTaHigh(v);
      } else if r == 6 {
        tb := tb.(latch := SetLow(tb.latch, v));
      } else if r == 7 {
        WriteTbHigh(v);
      } else if r < 11 {
        WriteTodReg(r, v);
      } else if r == 12 {
        serial := serial.(sdr := v);
      } else if r == 13 {
        WriteMask(v);
      } else if r == 14 {
        WriteCra(v);
      } else if r == 15 {
        WriteCrb(v);
      }
    }

    method WritePort(reg: nat, v: Byte)
      requires reg < 4
      modifies this`ports
      ensures ports == PortWritten(old(ports), reg, v)
    {
      match reg
      case 0 => ports := ports.(pra := v);
      case 1 => ports := ports.(prb := v);
      case 2 => ports := ports.(ddra := v);
      case 3 => ports := ports.(ddrb := v);
    }

    method WriteTaHigh(v: Byte)
      modifies this`ta, this`cra
      ensures ta == HighWritten(old(ta), old(cra), v) && cra == StartedByHigh(old(cra))
    {
      ta := ta.(latch := SetHigh(ta.latch, v));
      if cra & CR_RUNMODE != 0 {
        ta := ta.(count := ta.latch);
        cra := cra | CR_START;
      } else if cra & CR_START == 0 {
        ta := ta.(count := ta.latch);
      }
    }

    method WriteTbHigh(v: Byte)
      modifies this`tb, this`crb
      ensures tb == HighWritten(old(tb), old(crb), v) && crb == StartedByHigh(old(crb))
    {
      tb := tb.(latch := SetHigh(tb.latch, v));
      if crb & CR_RUNMODE != 0 {
        tb := tb.(count := tb.latch);
        crb := crb | CR_START;
      } else if crb & CR_START == 0 {
        tb := tb.(count := tb.latch);
      }
    }

    method WriteMask(v: Byte)
      modifies this`icrMask
      ensures icrMask == MaskWritten(old(icrMask), v)
    {
      var bits := v & 0x1F;
      if v & ICR_SETCLR != 0 {
        icrMask := icrMask | bits;
      } else {
        icrMask := icrMask & !bits;
      }
    }

    method WriteCra(v: Byte)
      modifies this`ta, this`cra
      ensures cra == v & !CR_LOAD && ta == Strobed(old(ta), v)
    {
      cra := v & !CR_LOAD;
      if v & CR_LOAD != 0 {
        ta := ta.(count := ta.latch);
      }
    }

    method WriteCrb(v: Byte)
      modifies this`tb, this`crb
      ensures crb == v & !CR_LOAD && tb == Strobed(old(tb), v)
    {
      crb := v & !CR_LOAD;
      if v & CR_LOAD != 0 {
        tb := tb.(count := tb.latch);
      }
    }

    method WriteTodReg(reg: nat, v: Byte)
      modifies this`tod, this`icrData
      ensures St() == WriteTod(old(St()), reg, v)
    {
      if crb & CRB_ALARM != 0 {
        tod := tod.(alarm := SetTodByte(tod.alarm, reg, v));
      } else {
        tod := tod.(now := SetTodByte(tod.now, reg, v));
        if reg == 10 {
          tod := tod.(stopped := true);
        } else if reg == 8 {
          tod := tod.(stopped := false);
        }
      }
      CheckTodAlarm();
    }

    /** One tick of the time of day. */
    method TodTick()
      modifies this`tod, this`icrData
      ensures St() == TodTicked(old(St()))
    {
      if tod.stopped {
        return;
      }
      tod := tod.(now := (tod.now + 1) % 0x100_0000);
      CheckTodAlarm();
    }

    method CheckTodAlarm()
      modifies this`tod, this`icrData
      ensures St() == CheckAlarm(old(St()))
    {
      var equal := tod.now == tod.alarm;
      if equal && !tod.matching {
        icrData := icrData | ICR_ALRM;
      }
      tod := tod.(matching := equal);
    }

    /** A key code from the host, dropped if the queue is full. */
    method QueueKeycode(raw: Byte)
      requires KeysInv(serial)
      modifies this`serial
      ensures St() == Queued(old(St()), raw)
    {
      if serial.len < QUEUE_LEN {
        var tail := (serial.head + serial.len) % QUEUE_LEN;
        serial := serial.(queue := serial.queue[tail := raw], len := serial.len + 1);
      }
    }

    /** Feed a queued key code into SDR through the handshake delay. */
    method TickKeyboard()
      requires KeysInv(serial)
      modifies this`serial, this`icrData
      ensures St() == StepKeyboard(old(St()))
    {
      if cra & CRA_SPMODE != 0 {
        return;
      }
      if serial.delay == 0 && !serial.loaded && serial.len > 0 {
        serial := serial.(delay := HANDSHAKE_TICKS);
      }
      if serial.delay > 0 {
        serial := serial.(delay := serial.delay - 1);
        if serial.delay == 0 && serial.len > 0 {
          var raw := serial.queue[serial.head];
          serial := serial.(head := (serial.head + 1) % QUEUE_LEN, len := serial.len - 1);
          serial := serial.(sdr := EncodeKey(raw), loaded := true);
          icrData := icrData | ICR_SP;
        }
      }
    }

    method StepTimerA() returns (underflow: bool)
      modifies this`ta, this`icrData, this`cra
      ensures St() == StepA(old(St())) && underflow == old(UnderflowsA(St()))
    {
      underflow := false;
      if cra & CR_START != 0 && cra & CRA_INMODE == 0 {
        underflow := ta.count == 0;
        ta := StepTimer(ta);
        if underflow {
          icrData := icrData | ICR_TA;
          if cra & CR_RUNMODE != 0 {
            cra := cra & !CR_START;
          }
        }
      }
    }

    method StepTimerB(taUnderflow: bool, ghost before: State)
      requires taUnderflow == UnderflowsA(before) && tb == before.tb && crb == before.crb
      modifies this`tb, this`icrData, this`crb
      ensures St() == StepB(before, old(St()))
    {
      var mode := crb & CRB_INMODE_MASK;
      var counts := if mode == 0 then true else if mode == CRB_INMODE_CNT then false else taUnderflow;
      if crb & CR_START != 0 && counts {
        var underflow := tb.count == 0;
        tb := StepTimer(tb);
        if underflow {
          icrData := icrData | ICR_TB;
          if crb & CR_RUNMODE != 0 {
            crb := crb & !CR_START;
          }
        }
      }
    }

    method TickOneEclock()
      requires KeysInv(serial)
      modifies this`ta, this`tb, this`cra, this`crb, this`icrData, this`serial
      ensures St() == TickOne(old(St()))
    {
      ghost var before := St();
      var taUnderflow := StepTimerA();
      ghost var afterA := StepA(before);
      StepTimerB(taUnderflow, before);
      assert St() == StepB(before, afterA);
      if isA {
        TickKeyboard();
      }
    }

    /** The E-clock loop, skipped when the chip is idle. */
    method TickEclock(ticks: nat)
      requires KeysInv(serial)
      modifies this
      ensures St() == TickN(old(St()), ticks) && carry == old(carry)
    {
      if cra & CR_START == 0 && crb & CR_START == 0 && serial.len == 0 && serial.delay == 0 {
        IdleIsStill(St(), ticks);
        return;
      }
      ghost var goal := TickN(St(), ticks);
      for i := 0 to ticks
        invariant KeysInv(serial) && carry == old(carry)
        invariant TickN(St(), ticks - i) == goal
      {
        TickOneKeepsKeys(St());
        TickOneEclock();
      }
    }

    /** `None` stands for the overflow of the 32-bit sum of carried and new clocks. */
    method TickClocks(clocks: u32, ratio: nat, ghost before: Clocked) returns (irq: Option<bool>)
      requires ratio > 0 && KeysInv(serial) && before == Clocked(St(), carry)
      modifies this
      ensures irq.Some? == Tick32(before, clocks, ratio).Some?
      ensures irq.None? ==> Clocked(St(), carry) == before
      ensures irq.Some? ==>
                Clocked(St(), carry) == Ticked(before, clocks, ratio) && irq.value == (icrData & icrMask != 0)
    {
      if carry + clocks >= U32_RANGE {
        return None;
      }
      var eclocks: nat, rest: nat := (carry + clocks) / ratio, (carry + clocks) % ratio;
      TickedIs(before, clocks, ratio, eclocks, rest);
      carry := rest;
      if eclocks > 0 {
        TickEclock(eclocks);
      }
      irq := Some(icrData & icrMask != 0);
    }
  }

  lemma TickedIs(c: Clocked, clocks: nat, ratio: nat, eclocks: nat, rest: nat)
    requires ratio > 0 && eclocks == (c.carry + clocks) / ratio && rest == (c.carry + clocks) % ratio
    ensures Ticked(c, clocks, ratio) == Clocked(TickN(c.chip, eclocks), rest)
  {
  }

  /** An idle chip does not change, so the loop may be skipped. */
  lemma {:induction false} IdleIsStill(s: State, n: nat)
    requires Idle(s)
    ensures TickN(s, n) == s
    decreases n
  {
    if n > 0 {
      assert TickOne(s) == s;
      IdleIsStill(s, n - 1);
    }
  }

  // ---- ticking in pieces -------------------------------------------------------------------

  lemma {:induction false} TickNAdds(s: State, m: nat, n: nat)
    ensures TickN(TickN(s, m), n) == TickN(s, m + n)
    decreases m
  {
    if m > 0 { TickNAdds(TickOne(s), m - 1, n); }
  }

  /** Ticking in two pieces is ticking once. */
  lemma TickedAdds(c: Clocked, a: nat, b: nat, ratio: nat)
    requires ratio > 0
    ensures Ticked(Ticked(c, a, ratio), b, ratio) == Ticked(c, a + b, ratio)
  {
    var total := c.carry + a;
    SplitCarry(c.carry, a, b, ratio);
    TickNAdds(c.chip, total / ratio, (total % ratio + b) / ratio);
  }

  // ---- the deadline is sound and tight ---------------------------------------------------------

  /** No source raised, no control register and no SDR changed. */
  predicate Quiet(s: State, t: State) {
    s.icrData == t.icrData && s.cra == t.cra && s.crb == t.crb && s.serial.sdr == t.serial.sdr
  }

  /** Something happens in this very E-clock. */
  predicate EventNow(s: State) { UnderflowsA(s) || UnderflowsB(s) || UntilKey(s) == Some(1) }

  function Less(a: Option<nat>): Option<nat> {
    if a.Some? && a.value > 0 then Some(a.value - 1) else None
  }

  lemma QuietTimers(s: State)
    requires !UnderflowsA(s) && !UnderflowsB(s)
    ensures StepB(s, StepA(s)) ==
            s.(ta := if RunsA(s) then StepTimer(s.ta) else s.ta, tb := if CountsB(s) then StepTimer(s.tb) else s.tb)
  {
  }

  lemma QuietKeys(s: State)
    requires KeysInv(s.serial) && s.isA && UntilKey(s) != Some(1)
    ensures var t := StepKeyboard(s);
            t == s.(serial := t.serial) && t.serial.sdr == s.serial.sdr && UntilKey(t) == Less(UntilKey(s))
  {
  }

  lemma QuietStep(s: State)
    requires KeysInv(s.serial) && !EventNow(s)
    ensures var t := TickOne(s);
            && Quiet(s, t)
            && UntilA(t) == Less(UntilA(s)) && UntilB(t) == Less(UntilB(s)) && UntilKey(t) == Less(UntilKey(s))
  {
    QuietTimers(s);
    if s.isA { QuietKeys(StepB(s, StepA(s))); }
  }

  lemma OrRaises(x: Byte, y: Byte)
    requires x != 0 || y != 0
    ensures x | y != 0
  {
  }

  lemma TimerRaises(s: State)
    requires UnderflowsA(s) || UnderflowsB(s)
    ensures StepB(s, StepA(s)).icrData != 0
  {
    OrRaises(s.icrData, ICR_TA);
    OrRaises(StepA(s).icrData, ICR_TB);
  }

  lemma KeyRaises(s: State)
    requires KeysInv(s.serial) && s.isA && (s.icrData != 0 || UntilKey(s) == Some(1))
    ensures StepKeyboard(s).icrData != 0
  {
    OrRaises(s.icrData, ICR_SP);
  }

  lemma StepAFields(s: State)
    ensures var a := StepA(s);
            && a.ta == (if RunsA(s) then StepTimer(s.ta) else s.ta)
            && a.cra == (if UnderflowsA(s) then AfterUnderflow(s.cra) else s.cra)
            && a.tb == s.tb && a.crb == s.crb && a.serial == s.serial && a.isA == s.isA
  {
  }

  /** What one E-clock does to the timers and their control registers, before the keyboard. */
  lemma TimerFields(s: State)
    ensures var t := StepB(s, StepA(s));
            && t.ta == (if RunsA(s) then StepTimer(s.ta) else s.ta)
            && t.cra == (if UnderflowsA(s) then AfterUnderflow(s.cra) else s.cra)
            && t.tb == (if CountsB(s) then StepTimer(s.tb) else s.tb)
            && t.crb == (if UnderflowsB(s) then AfterUnderflow(s.crb) else s.crb)
            && t.serial == s.serial && t.isA == s.isA
  {
    StepAFields(s);
  }

  lemma StoppingKeepsSerialMode(cr: Byte)
    ensures AfterUnderflow(cr) & CRA_SPMODE == cr & CRA_SPMODE
  {
  }

  lemma EventRaises(s: State)
    requires KeysInv(s.serial) && EventNow(s)
    ensures TickOne(s).icrData != 0
  {
    var t := StepB(s, StepA(s));
    TimerFields(s);
    StoppingKeepsSerialMode(s.cra);
    if UnderflowsA(s) || UnderflowsB(s) { TimerRaises(s); }
    if s.isA { KeyRaises(t); }
  }

  /** The deadline is one E-clock away exactly when something happens now. */
  lemma DueNow(s: State)
    ensures EclocksUntilEvent(s) == Some(1) <==> EventNow(s)
    ensures EclocksUntilEvent(s).Some? ==> EclocksUntilEvent(s).value >= 1
  {
  }

  lemma DeadlineStep(s: State)
    requires KeysInv(s.serial) && !EventNow(s)
    ensures Quiet(s, TickOne(s)) && KeysInv(TickOne(s).serial)
    ensures EclocksUntilEvent(TickOne(s)) == Less(EclocksUntilEvent(s))
  {
    QuietStep(s);
    TickOneKeepsKeys(s);
    MinLess(UntilA(s), UntilB(s), UntilKey(s));
  }

  function Earliest(a: Option<nat>, b: Option<nat>, k: Option<nat>): Option<nat> {
    var ab := if b.Some? then Min(a, b.value) else a;
    if k.Some? then Min(ab, k.value) else ab
  }

  lemma MinLess(a: Option<nat>, b: Option<nat>, k: Option<nat>)
    requires (a.Some? ==> a.value > 0) && (b.Some? ==> b.value > 0) && (k.Some? ==> k.value > 0)
    ensures Earliest(Less(a), Less(b), Less(k)) == Less(Earliest(a, b, k))
  {
  }

  /** Before the deadline: nothing but counting. */
  lemma {:induction false} SoundInEclocks(s: State, n: nat)
    requires KeysInv(s.serial)
    requires EclocksUntilEvent(s).Some? ==> n < EclocksUntilEvent(s).value
    ensures Quiet(s, TickN(s, n)) && KeysInv(TickN(s, n).serial)
    ensures EclocksUntilEvent(TickN(s, n)) ==
            (if EclocksUntilEvent(s).Some? then Some(EclocksUntilEvent(s).value - n) else None)
    decreases n
  {
    if n > 0 {
      DueNow(s);
      DeadlineStep(s);
      SoundInEclocks(TickOne(s), n - 1);
    }
  }

  /** At the deadline: a source is raised, whatever was pending before. */
  lemma TightInEclocks(s: State)
    requires KeysInv(s.serial) && s.icrData == 0 && EclocksUntilEvent(s).Some?
    ensures TickN(s, EclocksUntilEvent(s).value).icrData != 0
  {
    var n := EclocksUntilEvent(s).value;
    DueNow(s);
    var m := n - 1;
    SoundInEclocks(s, m);
    TickNLast(s, m, n);
    var last := TickN(s, m);
    DueNow(last);
    EventRaises(last);
  }

  lemma {:induction false} TickNLast(s: State, m: nat, n: nat)
    requires n == m + 1
    ensures TickN(s, n) == TickOne(TickN(s, m))
    decreases m
  {
    var next := TickOne(s);
    if m > 0 { TickNLast(next, m - 1, m); } else { assert TickN(next, 0) == next; }
  }

  // ---- and in CPU clocks -------------------------------------------------------------------

  /** `q` whole E-clocks against a deadline of `n`. */
  lemma FewerClocks(carry: nat, clocks: nat, n: nat, ratio: nat, q: nat)
    requires ratio > 0 && q == (carry + clocks) / ratio
    ensures carry + clocks < n * ratio ==> q < n
    ensures carry + clocks == n * ratio ==> q == n
  {
    var total := carry + clocks;
    DivModLaw(total, ratio);
    if total < n * ratio && q >= n { MulMono(ratio, n, q); }
    if total == n * ratio { ModUnique(total, ratio, n, 0); }
  }

  /** Sound: ticking fewer clocks than the deadline (any number if there is none) raises no source
      and changes no control register and no SDR. */
  lemma DeadlineIsSound(c: Clocked, clocks: nat, ratio: nat)
    requires ratio > 0 && Inv(c, ratio)
    requires ClocksUntilEvent(c, ratio).Some? ==> clocks < ClocksUntilEvent(c, ratio).value
    ensures Quiet(c.chip, Ticked(c, clocks, ratio).chip)
  {
    var n: nat := (c.carry + clocks) / ratio;
    if EclocksUntilEvent(c.chip).Some? {
      DeadlineInClocks(c, ratio);
      FewerClocks(c.carry, clocks, EclocksUntilEvent(c.chip).value, ratio, n);
    }
    TickedChip(c, clocks, ratio, n);
    SoundInEclocks(c.chip, n);
  }

  lemma TickedChip(c: Clocked, clocks: nat, ratio: nat, n: nat)
    requires ratio > 0 && n == (c.carry + clocks) / ratio
    ensures Ticked(c, clocks, ratio).chip == TickN(c.chip, n)
  {
  }

  /** The deadline before truncation is positive, and truncation only shortens it. */
  lemma DeadlineInClocks(c: Clocked, ratio: nat)
    requires ratio > 0 && Inv(c, ratio) && EclocksUntilEvent(c.chip).Some?
    ensures var due := EclocksUntilEvent(c.chip).value * ratio - c.carry;
            && due > 0
            && ClocksUntilEvent(c, ratio) == Some(due % U32_RANGE)
            && due % U32_RANGE <= due
  {
    var n := EclocksUntilEvent(c.chip).value;
    DueNow(c.chip);
    MulAtLeast(ratio, n);
    var due := n * ratio - c.carry;
    assert n * ratio == ratio * n;
    DivModLaw(due, U32_RANGE);
  }

  /** Tight, exactly when the deadline fits the 32 bits it is returned in: ticking exactly that many
      clocks raises a source. (The pending sources are cleared first, so that what is seen is what
      the tick raised.) */
  lemma DeadlineIsTight(c: Clocked, ratio: nat)
    requires ratio > 0 && Inv(c, ratio) && c.chip.icrData == 0
    requires EclocksUntilEvent(c.chip).Some?
    ensures var due := EclocksUntilEvent(c.chip).value * ratio - c.carry;
            Ticked(c, ClocksUntilEvent(c, ratio).value, ratio).chip.icrData != 0 <==> due < U32_RANGE
  {
    var n := EclocksUntilEvent(c.chip).value;
    var due := n * ratio - c.carry;
    DeadlineInClocks(c, ratio);
    var told := ClocksUntilEvent(c, ratio).value;
    var q: nat := (c.carry + told) / ratio;
    FewerClocks(c.carry, told, n, ratio, q);
    TickedChip(c, told, ratio, q);
    if due < U32_RANGE {
      SmallMod(due, U32_RANGE);
      TightInEclocks(c.chip);
    } else {
      SoundInEclocks(c.chip, q);
    }
  }

  /** In one call: the reported number of clocks is accepted and raises a source exactly when all the clocks
      of those E-clocks, carried ones included, fit 32 bits. */
  lemma OneCallReachesDeadline(c: Clocked, ratio: nat)
    requires ratio > 0 && Inv(c, ratio) && c.chip.icrData == 0 && EclocksUntilEvent(c.chip).Some?
    ensures var told := Tick32(c, ClocksUntilEvent(c, ratio).value, ratio);
            told.Some? && told.value.chip.icrData != 0 <==> EclocksUntilEvent(c.chip).value * ratio < U32_RANGE
  {
    var due := EclocksUntilEvent(c.chip).value * ratio - c.carry;
    DeadlineInClocks(c, ratio);
    DeadlineIsTight(c, ratio);
    if due < U32_RANGE { SmallMod(due, U32_RANGE); }
  }

  /** Sound, and tight once pending sources are cleared. */
  predicate DeadlineHolds(c: Clocked, clocks: nat, ratio: nat)
    requires ratio > 0
  {
    var due := ClocksUntilEvent(c, ratio);
    && ((due.Some? ==> clocks < due.value) ==> Quiet(c.chip, Ticked(c, clocks, ratio).chip))
    && (due.Some? && EclocksUntilEvent(c.chip).value * ratio - c.carry < U32_RANGE ==>
          Ticked(Cleared(c), due.value, ratio).chip.icrData != 0)
  }

  function Cleared(c: Clocked): Clocked { c.(chip := c.chip.(icrData := 0)) }

  lemma ClearedDeadline(c: Clocked, ratio: nat)
    ensures EclocksUntilEvent(Cleared(c).chip) == EclocksUntilEvent(c.chip)
    ensures ClocksUntilEvent(Cleared(c), ratio) == ClocksUntilEvent(c, ratio)
  {
  }

  lemma DeadlineHoldsAt(c: Clocked, clocks: nat, ratio: nat)
    requires ratio > 0 && Inv(c, ratio)
    ensures DeadlineHolds(c, clocks, ratio)
  {
    var due := ClocksUntilEvent(c, ratio);
    if due.Some? ==> clocks < due.value { DeadlineIsSound(c, clocks, ratio); }
    ClearedDeadline(c, ratio);
    if due.Some? { DeadlineIsTight(Cleared(c), ratio); }
  }

  /** The deadline theorem for every state a run of the machine can reach. */
  lemma ReachableDeadlines(isA: bool, acts: seq<Action>, ratio: nat, clocks: nat)
    requires ratio > 0
    ensures DeadlineHolds(Run(Clocked(New(isA), 0), acts, ratio), clocks, ratio)
  {
    ReachableInv(Clocked(New(isA), 0), acts, ratio);
    DeadlineHoldsAt(Run(Clocked(New(isA), 0), acts, ratio), clocks, ratio);
  }

  /** With 65536 CPU clocks per E-clock a freshly started timer is 2^32 clocks away, and the deadline
      comes out as 0. */
  lemma DeadlineTruncates()
    ensures var s := New(false).(cra := CR_START);
            ClocksUntilEvent(Clocked(s, 0), 0x1_0000) == Some(0)
  {
  }
}
