/**
 * The AVR TWI (I2C) bus engine: bus ownership (begin/end), request
 * building over a scatter/gather vector, and the interrupt handler as a
 * deterministic transition function from a bus status code to the next
 * engine state plus the register writes and events it produces.
 *
 * Bus protocol terms follow the NXP I2C-bus specification UM10204:
 * START/STOP (section 3.1.4), ACK/NACK (section 3.1.6), arbitration
 * (section 3.1.8) and the 7-bit address with R/W bit (section 3.1.10).
 */
module TWI {
  import opened Common

  /** Read/write bit OR'ed into the shifted device address. */
  const WRITE_OP: byte := 0x00
  const READ_OP: byte := 0x01

  /** Number of entries of the scatter/gather vector. */
  const VEC_MAX: nat := 4

  /** Slave buffer slots of the vector. */
  const WRITE_IX: nat := 0
  const READ_IX: nat := 1

  /**
   * Engine states, in declaration order. The order matters: completion
   * is awaited while the state is above Idle.
   */
  datatype State = Error | Idle | MasterTransmit | MasterReceive | SlaveTransmit | SlaveReceive

  function Rank(s: State): nat
  {
    match s
    case Error => 0
    case Idle => 1
    case MasterTransmit => 2
    case MasterReceive => 3
    case SlaveTransmit => 4
    case SlaveReceive => 5
  }

  /** The await loop stops when the state is no longer above Idle. */
  predicate IsTerminal(s: State)
  {
    Rank(s) <= Rank(Idle)
  }

  lemma TerminalStates(s: State)
    ensures IsTerminal(s) <==> s == Error || s == Idle
  {
  }

  /** Bus conditions reported by the status register. */
  datatype Status =
    | Start | RepStart | ArbLost
    | MtSlaAck | MtSlaNack | MtDataAck | MtDataNack
    | MrSlaAck | MrSlaNack | MrDataAck | MrDataNack
    | StSlaAck | StArbLostSlaAck | StDataAck | StDataNack | StLastData
    | SrSlaAck | SrGcallAck | SrArbLostSlaAck | SrArbLostGcallAck
    | SrDataAck | SrGcallDataAck | SrDataNack | SrGcallDataNack | SrStop
    | NoInfo | BusError
    | Unknown(code: byte)

  /** Status register code of each named condition (ATmega TWI status tables). */
  function Code(s: Status): byte
  {
    match s
    case BusError => 0x00
    case Start => 0x08
    case RepStart => 0x10
    case MtSlaAck => 0x18
    case MtSlaNack => 0x20
    case MtDataAck => 0x28
    case MtDataNack => 0x30
    case ArbLost => 0x38
    case MrSlaAck => 0x40
    case MrSlaNack => 0x48
    case MrDataAck => 0x50
    case MrDataNack => 0x58
    case SrSlaAck => 0x60
    case SrArbLostSlaAck => 0x68
    case SrGcallAck => 0x70
    case SrArbLostGcallAck => 0x78
    case SrDataAck => 0x80
    case SrDataNack => 0x88
    case SrGcallDataAck => 0x90
    case SrGcallDataNack => 0x98
    case SrStop => 0xA0
    case StSlaAck => 0xA8
    case StArbLostSlaAck => 0xB0
    case StDataAck => 0xB8
    case StDataNack => 0xC0
    case StLastData => 0xC8
    case NoInfo => 0xF8
    case Unknown(c) => c & 0xF8
  }

  /** Decode a raw status register value; the prescaler bits 0..2 are masked off. */
  function Decode(raw: byte): Status
  {
    var c := raw & 0xF8;
    if c == 0x00 then BusError
    else if c == 0x08 then Start
    else if c == 0x10 then RepStart
    else if c == 0x18 then MtSlaAck
    else if c == 0x20 then MtSlaNack
    else if c == 0x28 then MtDataAck
    else if c == 0x30 then MtDataNack
    else if c == 0x38 then ArbLost
    else if c == 0x40 then MrSlaAck
    else if c == 0x48 then MrSlaNack
    else if c == 0x50 then MrDataAck
    else if c == 0x58 then MrDataNack
    else if c == 0x60 then SrSlaAck
    else if c == 0x68 then SrArbLostSlaAck
    else if c == 0x70 then SrGcallAck
    else if c == 0x78 then SrArbLostGcallAck
    else if c == 0x80 then SrDataAck
    else if c == 0x88 then SrDataNack
    else if c == 0x90 then SrGcallDataAck
    else if c == 0x98 then SrGcallDataNack
    else if c == 0xA0 then SrStop
    else if c == 0xA8 then StSlaAck
    else if c == 0xB0 then StArbLostSlaAck
    else if c == 0xB8 then StDataAck
    else if c == 0xC0 then StDataNack
    else if c == 0xC8 then StLastData
    else if c == 0xF8 then NoInfo
    else Unknown(c)
  }

  /** Every named condition survives encoding and decoding. */
  lemma DecodeCode(s: Status)
    requires !s.Unknown?
    ensures Decode(Code(s)) == s
  {
    // one concrete evaluation per condition
    match s
    case Start => case RepStart => case ArbLost => case MtSlaAck =>
    case MtSlaNack => case MtDataAck => case MtDataNack => case MrSlaAck =>
    case MrSlaNack => case MrDataAck => case MrDataNack => case StSlaAck =>
    case StArbLostSlaAck => case StDataAck => case StDataNack => case StLastData =>
    case SrSlaAck => case SrGcallAck => case SrArbLostSlaAck => case SrArbLostGcallAck =>
    case SrDataAck => case SrGcallDataAck => case SrDataNack => case SrGcallDataNack =>
    case SrStop => case NoInfo => case BusError =>
  }

  /** Decoding ignores the prescaler bits, and a value decoded as Unknown re-encodes to itself. */
  lemma DecodeMasksPrescaler(raw: byte)
    ensures Decode(raw) == Decode(raw & 0xF8)
    ensures Code(Decode(raw)) == raw & 0xF8
  {
  }

  /** Control register commands. Disable is the plain write TWCR = 0. */
  datatype Command = IdleCmd | StartCmd | DataCmd | AckCmd | NackCmd | StopCmd | Disable

  datatype EventType = WriteCompleted | ReadCompleted | ErrorEvent

  /** Observable effects: register writes and pushed events, in program order. */
  datatype Action =
    | Control(cmd: Command)     // TWCR
    | Data(b: byte)             // TWDR
    | AddressMatch(b: byte)     // TWAR
    | BitRate(b: byte)          // TWBR
    | PullUps                   // SDA/SCL pull-ups enabled
    | ClearPrescaler            // TWPS0/TWPS1 cleared
    | Push(ev: EventType, value: int)

  /** One scatter/gather entry; End is the NULL terminator. */
  datatype IoVec = Buf(data: seq<byte>) | End

  function Bytes(v: IoVec): seq<byte>
  {
    if v.Buf? then v.data else []
  }

  /** A bus client; the address is stored shifted left by one. */
  datatype Driver = Driver(addr: byte)

  function MakeDriver(addr7: byte): (d: Driver)
    ensures d.addr & 0x01 == 0
    ensures d.addr >> 1 == addr7 & 0x7F
  {
    Driver(addr7 << 1)
  }

  /**
   * The byte cursor: m_next/m_last point into vec[seg]; pos is the
   * offset of m_next, and m_last is the end of that entry.
   */
  datatype Cursor = Cursor(seg: nat, pos: nat)

  datatype Engine = Engine(
    dev: Option<Driver>,   // bound driver, None when NULL
    target: bool,          // a completion event target is set
    state: State,
    status: Status,
    addr: byte,            // address byte with R/W bit
    vec: seq<IoVec>,
    ix: nat,               // m_ix, the segment index of the master transmitter
    cur: Cursor,
    count: int)

  /** The engine at program start: static storage is zero. */
  function Init(): (e: Engine)
    ensures Valid(e) && e.dev.None? && !e.target && e.state == Error
  {
    Engine(None, false, Error, BusError, 0, [End, End, End, End], 0, Cursor(0, 0), 0)
  }

  predicate Valid(e: Engine)
  {
    |e.vec| == VEC_MAX
  }

  /** The entry under the cursor; past the end of the vector nothing is left. */
  function Seg(e: Engine, seg: nat): seq<byte>
  {
    if seg < |e.vec| then Bytes(e.vec[seg]) else []
  }

  /** m_last - m_next, the bytes left under the cursor. */
  function Remaining(e: Engine): int
  {
    |Seg(e, e.cur.seg)| - e.cur.pos
  }

  predicate Exhausted(e: Engine)
  {
    e.cur.pos >= |Seg(e, e.cur.seg)|
  }

  datatype Out = Out(e: Engine, trace: seq<Action>)

  /**
   * The TWBR value ((F_CPU / FREQ) - 16) / 2, computed in signed long
   * arithmetic (division truncating toward zero) and stored into the
   * 8-bit register, so it is kept modulo 256.
   */
  function BitRateDivisor(fCpu: nat, freq: nat): (r: nat)
    requires freq > 0
    ensures r < 256
    ensures fCpu / freq >= 16 && (fCpu / freq - 16) / 2 < 256 ==> r == (fCpu / freq - 16) / 2
    ensures fCpu / freq == 15 ==> r == 0
  {
    var x := fCpu / freq - 16;
    (if x >= 0 then x / 2 else -((-x) / 2)) % 256
  }

  lemma BitRateStandardMode()
    ensures BitRateDivisor(16000000, 100000) == 72
  {
  }

  /** begin: refuses while a driver is bound; otherwise binds it and programs the bus clock. */
  function Begin(e: Engine, d: Driver, target: bool, twbr: byte): (r: (bool, Out))
    ensures e.dev.Some? ==> r == (false, Out(e, []))
    ensures e.dev.None? ==> r.0 && r.1.e == e.(dev := Some(d), target := target)
    ensures e.dev.None? ==> r.1.trace == [PullUps, ClearPrescaler, BitRate(twbr), Control(IdleCmd)]
  {
    if e.dev.Some? then (false, Out(e, []))
    else (true, Out(e.(dev := Some(d), target := target),
                    [PullUps, ClearPrescaler, BitRate(twbr), Control(IdleCmd)]))
  }

  /** Two begins without an end: the second is refused and changes nothing. */
  lemma BeginTwice(e: Engine, d1: Driver, d2: Driver, t1: bool, t2: bool, b: byte)
    requires e.dev.None?
    ensures var first := Begin(e, d1, t1, b);
            first.0 && Begin(first.1.e, d2, t2, b) == (false, Out(first.1.e, []))
  {
  }

  /** await_completed: the count once the state is terminal; None while it would sleep. */
  function AwaitCompleted(e: Engine): (r: Option<int>)
    ensures r.Some? <==> e.state == Error || e.state == Idle
    ensures r.Some? ==> r.value == e.count
  {
    if Rank(e.state) > Rank(Idle) then None else Some(e.count)
  }

  /** Outcome of end: it either waits for the transaction or releases the bus. */
  datatype EndResult = Blocked | Released(out: Out)

  function EndBus(e: Engine): (r: EndResult)
    ensures r.Blocked? <==> e.target && !IsTerminal(e.state)
    ensures r.Released? ==> r.out.e == e.(dev := None, target := false)
    ensures r.Released? ==> r.out.trace == [Control(Disable)]
  {
    if e.target && AwaitCompleted(e).None? then Blocked
    else Released(Out(e.(dev := None, target := false), [Control(Disable)]))
  }

  /** After a completed end, the bus can be bound again. */
  lemma EndThenBegin(e: Engine, d: Driver, target: bool, b: byte)
    requires EndBus(e).Released?
    ensures Begin(EndBus(e).out.e, d, target, b).0
  {
  }

  /** request(op): arms the engine for a master transfer over vec[0] and issues START. */
  function Request(e: Engine, op: byte): (r: Out)
    requires e.dev.Some?
    ensures r.e.state == (if op == READ_OP then MasterReceive else MasterTransmit)
    ensures r.e.addr == e.dev.value.addr | op
    ensures r.e.count == 0 && r.e.ix == 0 && r.e.cur == Cursor(0, 0)
    ensures r.e.status == NoInfo
    ensures r.e.vec == e.vec && r.e.dev == e.dev && r.e.target == e.target
    ensures r.trace == [Control(StartCmd)]
  {
    Out(e.(state := if op == READ_OP then MasterReceive else MasterTransmit,
           addr := e.dev.value.addr | op,
           status := NoInfo,
           cur := Cursor(0, 0),
           ix := 0,
           count := 0),
        [Control(StartCmd)])
  }

  /** write_request(buf, size): vector [buf, End]. */
  function WriteRequest(e: Engine, buf: seq<byte>): (r: Out)
    requires Valid(e) && e.dev.Some?
    ensures Valid(r.e)
    ensures r.e.vec[0] == Buf(buf) && r.e.vec[1] == End
    ensures r.e.vec[2..] == e.vec[2..]
    ensures r.e.state == MasterTransmit && r.e.addr == e.dev.value.addr
  {
    Request(e.(vec := e.vec[0 := Buf(buf)][1 := End]), WRITE_OP)
  }

  /** write_request(uint8_t header, buf, size): vector [header, buf, End]. */
  function WriteRequestHeader8(e: Engine, header: byte, buf: seq<byte>): (r: Out)
    requires Valid(e) && e.dev.Some?
    ensures Valid(r.e)
    ensures r.e.vec[0] == Buf([header]) && r.e.vec[1] == Buf(buf) && r.e.vec[2] == End
    ensures r.e.vec[3] == e.vec[3]
    ensures r.e.state == MasterTransmit && r.e.addr == e.dev.value.addr
  {
    Request(e.(vec := e.vec[0 := Buf([header])][1 := Buf(buf)][2 := End]), WRITE_OP)
  }

  /** write_request(uint16_t header, buf, size): vector [header high byte, low byte; buf; End]. */
  function WriteRequestHeader16(e: Engine, header: bv16, buf: seq<byte>): (r: Out)
    requires Valid(e) && e.dev.Some?
    ensures Valid(r.e)
    ensures r.e.vec[0] == Buf([High(header), Low(header)])
    ensures r.e.vec[1] == Buf(buf) && r.e.vec[2] == End
    ensures r.e.state == MasterTransmit && r.e.addr == e.dev.value.addr
  {
    Request(e.(vec := e.vec[0 := Buf([High(header), Low(header)])][1 := Buf(buf)][2 := End]), WRITE_OP)
  }

  /** The header is sent most significant byte first. */
  function High(h: bv16): byte { (h >> 8) as bv8 }
  function Low(h: bv16): byte { (h & 0xFF) as bv8 }

  /** The two header bytes sent reassemble the 16-bit header. */
  lemma HeaderBytes(h: bv16)
    ensures ((High(h) as bv16) << 8) | (Low(h) as bv16) == h
  {
  }

  /** read_request(buf, size): vector [buf, End]; buf is filled by the interrupt handler. */
  function ReadRequest(e: Engine, buf: seq<byte>): (r: Out)
    requires Valid(e) && e.dev.Some?
    ensures Valid(r.e)
    ensures r.e.vec[0] == Buf(buf) && r.e.vec[1] == End
    ensures r.e.state == MasterReceive && r.e.addr == e.dev.value.addr | READ_OP
  {
    Request(e.(vec := e.vec[0 := Buf(buf)][1 := End]), READ_OP)
  }

  /** isr_start: NextIx advances m_ix and keeps the count; an explicit index resets the count. */
  datatype IxSel = NextIx | Ix(n: nat)

  function IsrStart(e: Engine, state: State, sel: IxSel): (r: Engine)
    ensures r.state == state && r.cur.pos == 0
    ensures sel.NextIx? ==> r.ix == e.ix + 1 && r.cur.seg == e.ix + 1 && r.count == e.count
    ensures sel.Ix? ==> r.ix == e.ix && r.cur.seg == sel.n && r.count == 0
    ensures r.vec == e.vec && r.dev == e.dev && r.target == e.target && r.addr == e.addr
  {
    match sel
    case NextIx => e.(ix := e.ix + 1, cur := Cursor(e.ix + 1, 0), state := state)
    case Ix(n) => e.(cur := Cursor(n, 0), count := 0, state := state)
  }

  /** The STOP command, followed by the completion event when a target is set. */
  function Stopped(target: bool, ev: EventType, count: int): (r: seq<Action>)
    ensures |r| == if target then 2 else 1
    ensures r[0] == Control(StopCmd)
  {
    [Control(StopCmd)] + (if target then [Push(ev, count)] else [])
  }

  /** isr_stop: STOP, the count forced to -1 on error, and an event if a target is set. */
  function IsrStop(e: Engine, state: State, ev: Option<EventType>): (r: Out)
    ensures r.e.state == state
    ensures r.e.count == (if state == Error then -1 else e.count)
    ensures ev.Some? ==> r.trace == Stopped(e.target, ev.value, r.e.count)
    ensures ev.None? ==> r.trace == [Control(StopCmd)]
    ensures r.e.vec == e.vec && r.e.cur == e.cur && r.e.dev == e.dev && r.e.target == e.target
  {
    var e1 := e.(count := if state == Error then -1 else e.count, state := state);
    Out(e1, if ev.Some? then Stopped(e.target, ev.value, e1.count) else [Control(StopCmd)])
  }

  /** isr_write: send the next byte and count it, or report the cursor exhausted. */
  function IsrWrite(e: Engine, cmd: Command): (r: (bool, Out))
    ensures !r.0 <==> Exhausted(e)
    ensures !r.0 ==> r.1 == Out(e, [])
    ensures r.0 ==> r.1.e == e.(cur := Cursor(e.cur.seg, e.cur.pos + 1), count := e.count + 1)
    ensures r.0 ==> r.1.trace == [Data(Seg(e, e.cur.seg)[e.cur.pos]), Control(cmd)]
  {
    if Exhausted(e) then (false, Out(e, []))
    else
      var b := Seg(e, e.cur.seg)[e.cur.pos];
      (true, Out(e.(cur := Cursor(e.cur.seg, e.cur.pos + 1), count := e.count + 1),
                 [Data(b), Control(cmd)]))
  }

  /** isr_read: store the received byte and count it, or report the cursor exhausted. */
  function IsrRead(e: Engine, cmd: Option<Command>, twdr: byte): (r: (bool, Out))
    ensures !r.0 <==> Exhausted(e)
    ensures !r.0 ==> r.1 == Out(e, [])
    ensures r.0 ==> r.1.e.count == e.count + 1 && r.1.e.cur == Cursor(e.cur.seg, e.cur.pos + 1)
    ensures r.0 ==> |r.1.e.vec| == |e.vec| && Seg(r.1.e, e.cur.seg) == Seg(e, e.cur.seg)[e.cur.pos := twdr]
    ensures r.0 ==> r.1.trace == (if cmd.Some? then [Control(cmd.value)] else [])
    ensures r.1.e.state == e.state && r.1.e.target == e.target && r.1.e.dev == e.dev
  {
    if Exhausted(e) then (false, Out(e, []))
    else
      var s := e.cur.seg;
      var data := Seg(e, s)[e.cur.pos := twdr];
      (true, Out(e.(vec := e.vec[s := Buf(data)],
                    cur := Cursor(s, e.cur.pos + 1),
                    count := e.count + 1),
                 if cmd.Some? then [Control(cmd.value)] else []))
  }

  /** isr_read writes only the segment under the cursor. */
  lemma IsrReadKeepsOthers(e: Engine, cmd: Option<Command>, twdr: byte, seg: nat)
    requires seg != e.cur.seg
    ensures Seg(IsrRead(e, cmd, twdr).1.e, seg) == Seg(e, seg)
  {
  }

  /** The master receiver ACKs the next byte only while two or more bytes of room remain. */
  function AckDecision(e: Engine): Command
  {
    if e.cur.pos < |Seg(e, e.cur.seg)| - 1 then AckCmd else NackCmd
  }

  /** The interrupt handler: one bus status, and the received data byte for reads. */
  function Step(e0: Engine, st: Status, twdr: byte): (r: Out)
  {
    var e := e0.(status := st);
    match st
    case Start => Out(e, [Data(e.addr), Control(DataCmd)])
    case RepStart => Out(e, [Data(e.addr), Control(DataCmd)])
    case ArbLost => Out(e.(state := Error, count := -1), [Control(IdleCmd)])
    case MtSlaAck => MasterTransmitAck(e)
    case MtDataAck => MasterTransmitAck(e)
    case MtDataNack => IsrStop(e, Idle, Some(WriteCompleted))
    case MtSlaNack => IsrStop(e, Error, Some(ErrorEvent))
    case MrDataAck => MasterReceiveData(e, twdr)
    case MrSlaAck => Out(e, [Control(AckDecision(e))])
    case MrDataNack => MasterReceiveLast(e, twdr)
    case MrSlaNack => IsrStop(e, Error, Some(ErrorEvent))
    case StSlaAck => SlaveTransmitData(IsrStart(e, SlaveTransmit, Ix(READ_IX)))
    case StArbLostSlaAck => SlaveTransmitData(IsrStart(e, SlaveTransmit, Ix(READ_IX)))
    case StDataAck => SlaveTransmitData(e)
    case StDataNack => Out(e.(state := Idle), [Control(AckCmd)])
    case StLastData => Out(e.(state := Idle), [Control(AckCmd)])
    case SrSlaAck => Out(IsrStart(e, SlaveReceive, Ix(WRITE_IX)), [Control(AckCmd)])
    case SrGcallAck => Out(IsrStart(e, SlaveReceive, Ix(WRITE_IX)), [Control(AckCmd)])
    case SrArbLostSlaAck => Out(IsrStart(e, SlaveReceive, Ix(WRITE_IX)), [Control(AckCmd)])
    case SrArbLostGcallAck => Out(IsrStart(e, SlaveReceive, Ix(WRITE_IX)), [Control(AckCmd)])
    case SrDataAck => SlaveReceiveData(e, twdr)
    case SrGcallDataAck => SlaveReceiveData(e, twdr)
    case SrDataNack => Out(e, [Control(NackCmd)])
    case SrGcallDataNack => Out(e, [Control(NackCmd)])
    case SrStop => SlaveStop(e)
    case NoInfo => Out(e, [])
    case BusError => IsrStop(e, Error, None)
    case Unknown(_) => Out(e, [Control(IdleCmd)])
  }

  /**
   * MT_SLA_ACK / MT_DATA_ACK: an exhausted segment chains to the next one
   * (keeping the count); if nothing is left to send, fall through to the
   * data-NACK completion.
   */
  function MasterTransmitAck(e: Engine): Out
  {
    var e1 := if Exhausted(e) then IsrStart(e, MasterTransmit, NextIx) else e;
    var w := IsrWrite(e1, DataCmd);
    if w.0 then w.1 else IsrStop(e1, Idle, Some(WriteCompleted))
  }

  /** MR_DATA_ACK: store the byte, then ACK or NACK the next one. */
  function MasterReceiveData(e: Engine, twdr: byte): Out
  {
    var rd := IsrRead(e, None, twdr);
    Out(rd.1.e, rd.1.trace + [Control(AckDecision(rd.1.e))])
  }

  /** MR_DATA_NACK: store the last byte and complete the read. */
  function MasterReceiveLast(e: Engine, twdr: byte): Out
  {
    var rd := IsrRead(e, None, twdr);
    var st := IsrStop(rd.1.e, Idle, Some(ReadCompleted));
    Out(st.e, rd.1.trace + st.trace)
  }

  /** SR_STOP: complete the slave write and clear the address match register. */
  function SlaveStop(e: Engine): Out
  {
    var st := IsrStop(e, Idle, Some(WriteCompleted));
    Out(st.e, st.trace + [AddressMatch(0)])
  }

  /** ST_DATA_ACK: send the next byte with ACK, or NACK when the read buffer is exhausted. */
  function SlaveTransmitData(e: Engine): Out
  {
    var w := IsrWrite(e, AckCmd);
    if w.0 then w.1 else Out(e, [Control(NackCmd)])
  }

  /** SR_DATA_ACK: store the byte and ACK, or NACK when the write buffer is full. */
  function SlaveReceiveData(e: Engine, twdr: byte): Out
  {
    var rd := IsrRead(e, Some(AckCmd), twdr);
    if rd.0 then rd.1 else Out(e, [Control(NackCmd)])
  }

  /** Run the handler over a sequence of (status, data byte) interrupts. */
  function Run(e: Engine, irqs: seq<(Status, byte)>): Out
    decreases |irqs|
  {
    if |irqs| == 0 then Out(e, [])
    else
      var o := Step(e, irqs[0].0, irqs[0].1);
      var rest := Run(o.e, irqs[1..]);
      Out(rest.e, o.trace + rest.trace)
  }

  // ---------------------------------------------------------------------
  // Properties of the handler
  // ---------------------------------------------------------------------

  /** The statuses that end a transfer in ERROR: arbitration lost, an address NACK, a bus error. */
  predicate ErrorStatus(st: Status)
  {
    st == ArbLost || st == MtSlaNack || st == MrSlaNack || st == BusError
  }

  /** The receive statuses, the only ones that store into the vector. */
  predicate StoringStatus(st: Status)
  {
    st == MrDataAck || st == MrDataNack || st == SrDataAck || st == SrGcallDataAck
  }

  /**
   * Every interrupt records its status; the device, target, address byte
   * and vector length never change, and only the receive statuses store
   * into the vector.
   */
  lemma StepFrame(e0: Engine, st: Status, twdr: byte)
    ensures var r := Step(e0, st, twdr);
            r.e.status == st
            && r.e.dev == e0.dev && r.e.target == e0.target && r.e.addr == e0.addr && |r.e.vec| == |e0.vec|
            && (!StoringStatus(st) ==> r.e.vec == e0.vec)
  {
    var e := e0.(status := st);
    match st
    case MtSlaAck => MasterTransmitAckSpec(e);
    case MtDataAck => MasterTransmitAckSpec(e);
    case MrDataAck => MasterReceiveDataSpec(e, twdr);
    case MrDataNack => MasterReceiveLastSpec(e, twdr);
    case StSlaAck => SlaveTransmitDataSpec(IsrStart(e, SlaveTransmit, Ix(READ_IX)));
    case StArbLostSlaAck => SlaveTransmitDataSpec(IsrStart(e, SlaveTransmit, Ix(READ_IX)));
    case StDataAck => SlaveTransmitDataSpec(e);
    case SrDataAck => SlaveReceiveDataSpec(e, twdr);
    case SrGcallDataAck => SlaveReceiveDataSpec(e, twdr);
    case SrStop => SlaveStopSpec(e);
    case _ =>
  }

  /**
   * Every status but NO_INFO writes the control register. An error status
   * ends in ERROR with count -1, and no other status enters ERROR.
   */
  lemma StepOutcome(e0: Engine, st: Status, twdr: byte)
    ensures var r := Step(e0, st, twdr);
            (r.trace == [] <==> st == NoInfo)
            && (ErrorStatus(st) ==> r.e.state == Error && r.e.count == -1)
            && (r.e.state == Error && e0.state != Error ==> ErrorStatus(st))
  {
    var e := e0.(status := st);
    match st
    case MtSlaAck => MasterTransmitAckSpec(e);
    case MtDataAck => MasterTransmitAckSpec(e);
    case MrDataAck => MasterReceiveDataSpec(e, twdr);
    case MrDataNack => MasterReceiveLastSpec(e, twdr);
    case StSlaAck => SlaveTransmitDataSpec(IsrStart(e, SlaveTransmit, Ix(READ_IX)));
    case StArbLostSlaAck => SlaveTransmitDataSpec(IsrStart(e, SlaveTransmit, Ix(READ_IX)));
    case StDataAck => SlaveTransmitDataSpec(e);
    case SrDataAck => SlaveReceiveDataSpec(e, twdr);
    case SrGcallDataAck => SlaveReceiveDataSpec(e, twdr);
    case SrStop => SlaveStopSpec(e);
    case _ =>
  }

  /**
   * MT_SLA_ACK and MT_DATA_ACK: the next byte of the segment is sent with
   * DATA and counted; an exhausted segment chains to the next one, whose
   * first byte is sent; with nothing left the write completes with STOP,
   * IDLE and the count so far. Device, target, address, status and vector
   * are kept.
   */
  lemma MasterTransmitAckSpec(e: Engine)
    ensures var r := MasterTransmitAck(e);
            r.e.dev == e.dev && r.e.target == e.target && r.e.addr == e.addr && r.e.status == e.status && r.e.vec == e.vec
            && (!Exhausted(e) ==>
                  r.e == e.(cur := Cursor(e.cur.seg, e.cur.pos + 1), count := e.count + 1)
                  && r.trace == [Data(Seg(e, e.cur.seg)[e.cur.pos]), Control(DataCmd)])
            && (Exhausted(e) && |Seg(e, e.ix + 1)| > 0 ==>
                  r.e.state == MasterTransmit && r.e.ix == e.ix + 1 && r.e.cur == Cursor(e.ix + 1, 1)
                  && r.e.count == e.count + 1 && r.trace == [Data(Seg(e, e.ix + 1)[0]), Control(DataCmd)])
            && (Exhausted(e) && |Seg(e, e.ix + 1)| == 0 ==>
                  r.e.state == Idle && r.e.count == e.count && r.trace == Stopped(e.target, WriteCompleted, e.count))
  {
    if Exhausted(e) {
      var e1 := IsrStart(e, MasterTransmit, NextIx);
      assert Seg(e1, e1.cur.seg) == Seg(e, e.ix + 1);
      assert Exhausted(e1) <==> |Seg(e, e.ix + 1)| == 0;
    }
  }

  /**
   * MR_DATA_ACK: the byte is stored under the cursor and counted when
   * there is room, and the next byte is ACKed exactly when two or more
   * bytes of room remain after the store, NACKed otherwise.
   */
  lemma MasterReceiveDataSpec(e: Engine, twdr: byte)
    ensures var r := MasterReceiveData(e, twdr);
            r.e.dev == e.dev && r.e.target == e.target && r.e.addr == e.addr && r.e.state == e.state
            && r.e.status == e.status && |r.e.vec| == |e.vec|
            && (Exhausted(e) ==> r.e == e)
            && (!Exhausted(e) ==>
                  r.e.count == e.count + 1 && r.e.cur == Cursor(e.cur.seg, e.cur.pos + 1)
                  && Seg(r.e, e.cur.seg) == Seg(e, e.cur.seg)[e.cur.pos := twdr])
            && |r.trace| == 1 && (r.trace[0] == Control(AckCmd) <==> Remaining(r.e) >= 2)
            && (r.trace[0] == Control(AckCmd) || r.trace[0] == Control(NackCmd))
  {
    var rd := IsrRead(e, None, twdr);
    assert rd.1.trace == [];
    assert MasterReceiveData(e, twdr) == Out(rd.1.e, [Control(AckDecision(rd.1.e))]);
  }

  /**
   * MR_DATA_NACK: the last byte is stored and counted when there is room,
   * then the read completes with STOP, IDLE and the count.
   */
  lemma MasterReceiveLastSpec(e: Engine, twdr: byte)
    ensures var r := MasterReceiveLast(e, twdr);
            r.e.dev == e.dev && r.e.target == e.target && r.e.addr == e.addr && r.e.state == Idle
            && r.e.status == e.status && |r.e.vec| == |e.vec|
            && r.e.count == e.count + (if Exhausted(e) then 0 else 1)
            && (!Exhausted(e) ==> Seg(r.e, e.cur.seg) == Seg(e, e.cur.seg)[e.cur.pos := twdr])
            && (Exhausted(e) ==> r.e.vec == e.vec)
            && r.trace == Stopped(e.target, ReadCompleted, r.e.count)
  {
    var rd := IsrRead(e, None, twdr);
    assert rd.1.trace == [];
    var st := IsrStop(rd.1.e, Idle, Some(ReadCompleted));
    assert MasterReceiveLast(e, twdr) == st;
  }

  /** SR_STOP: the slave write completes with STOP, IDLE and the count, then the address match register is cleared. */
  lemma SlaveStopSpec(e: Engine)
    ensures var r := SlaveStop(e);
            r.e.state == Idle && r.e.count == e.count && r.e.vec == e.vec && r.e.cur == e.cur
            && r.e.dev == e.dev && r.e.target == e.target && r.e.addr == e.addr && r.e.status == e.status
            && r.trace == Stopped(e.target, WriteCompleted, e.count) + [AddressMatch(0)]
  {
  }

  /** ST_DATA_ACK: the next byte of the read buffer is sent with ACK and counted, or NACK once it is exhausted. */
  lemma SlaveTransmitDataSpec(e: Engine)
    ensures var r := SlaveTransmitData(e);
            (Exhausted(e) ==> r == Out(e, [Control(NackCmd)]))
            && (!Exhausted(e) ==>
                  r.e == e.(cur := Cursor(e.cur.seg, e.cur.pos + 1), count := e.count + 1)
                  && r.trace == [Data(Seg(e, e.cur.seg)[e.cur.pos]), Control(AckCmd)])
  {
  }

  /** SR_DATA_ACK: the byte is stored under the cursor, counted and ACKed, or NACKed once the write buffer is full. */
  lemma SlaveReceiveDataSpec(e: Engine, twdr: byte)
    ensures var r := SlaveReceiveData(e, twdr);
            (Exhausted(e) ==> r == Out(e, [Control(NackCmd)]))
            && (!Exhausted(e) ==>
                  r.e.count == e.count + 1 && r.e.cur == Cursor(e.cur.seg, e.cur.pos + 1)
                  && Seg(r.e, e.cur.seg) == Seg(e, e.cur.seg)[e.cur.pos := twdr]
                  && r.trace == [Control(AckCmd)])
            && r.e.dev == e.dev && r.e.target == e.target && r.e.addr == e.addr && r.e.state == e.state
            && r.e.status == e.status && |r.e.vec| == |e.vec|
  {
  }

  /**
   * Over a run of interrupts the device, target, address byte and vector
   * length are kept, and each interrupt but NO_INFO adds to the trace.
   */
  lemma {:induction false} RunFrame(e: Engine, irqs: seq<(Status, byte)>)
    ensures var r := Run(e, irqs);
            r.e.dev == e.dev && r.e.target == e.target && r.e.addr == e.addr && |r.e.vec| == |e.vec|
            && ((forall i :: 0 <= i < |irqs| ==> irqs[i].0 != NoInfo) ==> |r.trace| >= |irqs|)
    decreases |irqs|
  {
    if |irqs| > 0 {
      StepFrame(e, irqs[0].0, irqs[0].1);
      StepOutcome(e, irqs[0].0, irqs[0].1);
      var o := Step(e, irqs[0].0, irqs[0].1);
      RunFrame(o.e, irqs[1..]);
      if forall i :: 0 <= i < |irqs| ==> irqs[i].0 != NoInfo {
        assert forall i :: 0 <= i < |irqs[1..]| ==> irqs[1..][i].0 != NoInfo by {
          forall i | 0 <= i < |irqs[1..]|
            ensures irqs[1..][i].0 != NoInfo
          {
            assert irqs[1..][i] == irqs[i + 1];
          }
        }
      }
    }
  }

  function PushesIn(t: seq<Action>): seq<Action>
  {
    if |t| == 0 then []
    else (if t[0].Push? then [t[0]] else []) + PushesIn(t[1..])
  }

  /** Arbitration loss: ERROR with count -1, the bus released without STOP and no event. */
  lemma ArbitrationLost(e: Engine, twdr: byte)
    ensures var r := Step(e, ArbLost, twdr);
            r.e.state == Error && r.e.count == -1
            && r.trace == [Control(IdleCmd)]
            && Control(StopCmd) !in r.trace && PushesIn(r.trace) == []
  {
  }

  /** Address NACK in either master mode: STOP, ERROR, count -1, and an error event only with a target. */
  lemma AddressNack(e: Engine, st: Status, twdr: byte)
    requires st == MtSlaNack || st == MrSlaNack
    ensures var r := Step(e, st, twdr);
            r.e.state == Error && r.e.count == -1
            && r.trace == Stopped(e.target, ErrorEvent, -1)
  {
  }

  /** Bus error: STOP, ERROR and count -1, but no event. */
  lemma BusErrorStep(e: Engine, twdr: byte)
    ensures var r := Step(e, BusError, twdr);
            r.e.state == Error && r.e.count == -1 && r.trace == [Control(StopCmd)]
  {
  }

  /** A data NACK while transmitting completes normally: IDLE, count kept, WRITE_COMPLETED. */
  lemma DataNackCompletes(e: Engine, twdr: byte)
    ensures var r := Step(e, MtDataNack, twdr);
            r.e.state == Idle && r.e.count == e.count
            && r.trace == Stopped(e.target, WriteCompleted, e.count)
  {
  }

  /** Master transmit ACK with bytes left: exactly the next byte goes out and is counted. */
  lemma TransmitAckSendsNext(e: Engine, st: Status, twdr: byte)
    requires st == MtSlaAck || st == MtDataAck
    requires !Exhausted(e)
    ensures var r := Step(e, st, twdr);
            r.e.count == e.count + 1 && r.e.cur == Cursor(e.cur.seg, e.cur.pos + 1)
            && r.trace == [Data(Seg(e, e.cur.seg)[e.cur.pos]), Control(DataCmd)]
            && r.e.state == e.state
  {
  }

  /**
   * Master transmit ACK with the segment exhausted chains to segment m_ix+1
   * without resetting the count, and sends its first byte if it has one.
   */
  lemma TransmitAckChains(e: Engine, st: Status, twdr: byte)
    requires st == MtSlaAck || st == MtDataAck
    requires Exhausted(e) && |Seg(e, e.ix + 1)| > 0
    ensures var r := Step(e, st, twdr);
            r.e.state == MasterTransmit && r.e.ix == e.ix + 1
            && r.e.cur == Cursor(e.ix + 1, 1) && r.e.count == e.count + 1
            && r.trace == [Data(Seg(e, e.ix + 1)[0]), Control(DataCmd)]
  {
  }

  /** Master transmit ACK with nothing left in the next segment either: STOP and WRITE_COMPLETED(count). */
  lemma TransmitAckCompletes(e: Engine, st: Status, twdr: byte)
    requires st == MtSlaAck || st == MtDataAck
    requires Exhausted(e) && |Seg(e, e.ix + 1)| == 0
    ensures var r := Step(e, st, twdr);
            r.e.state == Idle && r.e.count == e.count
            && r.trace == Stopped(e.target, WriteCompleted, e.count)
  {
  }

  /** Master receive: the byte is stored, and the next one is ACKed iff at least two bytes of room remain. */
  lemma ReceiveAck(e: Engine, twdr: byte)
    requires !Exhausted(e)
    ensures var r := Step(e, MrDataAck, twdr);
            r.e.count == e.count + 1 && r.e.cur == Cursor(e.cur.seg, e.cur.pos + 1)
            && r.e.state == e.state && r.e.target == e.target
            && Seg(r.e, e.cur.seg) == Seg(e, e.cur.seg)[e.cur.pos := twdr]
            && r.trace == [Control(if e.cur.pos + 1 < |Seg(e, e.cur.seg)| - 1 then AckCmd else NackCmd)]
  {
  }

  /** The last byte arrives NACKed: stored, and the read completes to IDLE with READ_COMPLETED. */
  lemma ReceiveLast(e: Engine, twdr: byte)
    requires !Exhausted(e)
    ensures var r := Step(e, MrDataNack, twdr);
            r.e.state == Idle && r.e.count == e.count + 1
            && Seg(r.e, e.cur.seg) == Seg(e, e.cur.seg)[e.cur.pos := twdr]
            && r.trace == Stopped(e.target, ReadCompleted, e.count + 1)
  {
  }

  /** Slave receive ends at STOP: WRITE_COMPLETED(count), idle, and the address match register cleared. */
  lemma SlaveReceiveStop(e: Engine, twdr: byte)
    ensures var r := Step(e, SrStop, twdr);
            r.e.state == Idle && r.e.count == e.count
            && r.trace == Stopped(e.target, WriteCompleted, e.count)
                          + [AddressMatch(0)]
  {
  }

  // ---------------------------------------------------------------------
  // Whole transfers
  // ---------------------------------------------------------------------

  /** Run over a non-empty interrupt sequence: the first step, then the rest. */
  lemma RunCons(e: Engine, i: (Status, byte), rest: seq<(Status, byte)>)
    ensures var o := Step(e, i.0, i.1);
            Run(e, [i] + rest) == Out(Run(o.e, rest).e, o.trace + Run(o.e, rest).trace)
  {
    assert ([i] + rest)[1..] == rest;
  }

  /** k copies of x. */
  function Repeat<T>(x: T, k: nat): (r: seq<T>)
    ensures |r| == k
  {
    if k == 0 then [] else [x] + Repeat(x, k - 1)
  }

  /** The transmitter's register writes for a byte string: each byte, then a DATA command. */
  function DataTrace(bs: seq<byte>): (r: seq<Action>)
    ensures |r| == 2 * |bs|
  {
    if |bs| == 0 then [] else [Data(bs[0]), Control(DataCmd)] + DataTrace(bs[1..])
  }

  /** Byte i of a transmitted string is the 2i-th register write, followed by a DATA command. */
  lemma {:induction false} DataTraceAt(bs: seq<byte>, i: nat)
    requires i < |bs|
    ensures DataTrace(bs)[2 * i] == Data(bs[i]) && DataTrace(bs)[2 * i + 1] == Control(DataCmd)
    decreases i
  {
    if i > 0 {
      DataTraceAt(bs[1..], i - 1);
    }
  }

  /** The acknowledgements a master receiver gives for n bytes: ACK for all but the last, NACK for the last. */
  function AckThenNack(n: nat): (r: seq<Action>)
    ensures |r| == n
    ensures n > 0 ==> r[n - 1] == Control(NackCmd)
  {
    if n == 0 then [] else if n == 1 then [Control(NackCmd)] else [Control(AckCmd)] + AckThenNack(n - 1)
  }

  /** Every acknowledgement before the last one is an ACK. */
  lemma {:induction false} AckThenNackAt(n: nat, i: nat)
    requires i < n - 1
    ensures AckThenNack(n)[i] == Control(AckCmd)
    decreases n
  {
    if i > 0 {
      AckThenNackAt(n - 1, i - 1);
    }
  }

  /**
   * The segments from k on that the master transmitter chains through:
   * chaining stops at the first empty entry (a zero-size buffer or End).
   */
  function Chain(vec: seq<IoVec>, k: nat): seq<byte>
    decreases |vec| - k
  {
    if k >= |vec| || |Bytes(vec[k])| == 0 then [] else Bytes(vec[k]) + Chain(vec, k + 1)
  }

  /** The bytes a master transmitter still has to send. */
  function Pending(e: Engine): seq<byte>
    requires e.cur.pos <= |Seg(e, e.cur.seg)|
  {
    Seg(e, e.cur.seg)[e.cur.pos..] + Chain(e.vec, e.cur.seg + 1)
  }

  predicate Transmitting(e: Engine)
  {
    e.state == MasterTransmit && e.cur.seg == e.ix && e.cur.pos <= |Seg(e, e.cur.seg)|
  }

  /**
   * Closed form of one transmit ACK: send the next byte of the current
   * segment; else chain to segment m_ix+1 and send its first byte; else
   * complete the write.
   */
  function TxStep(e: Engine): Out
  {
    var s := Seg(e, e.cur.seg);
    if e.cur.pos < |s| then
      Out(e.(cur := Cursor(e.cur.seg, e.cur.pos + 1), count := e.count + 1), [Data(s[e.cur.pos]), Control(DataCmd)])
    else
      var n := Seg(e, e.ix + 1);
      if |n| > 0 then
        Out(e.(ix := e.ix + 1, cur := Cursor(e.ix + 1, 1), count := e.count + 1, state := MasterTransmit),
            [Data(n[0]), Control(DataCmd)])
      else
        Out(e.(ix := e.ix + 1, cur := Cursor(e.ix + 1, 0), state := Idle), Stopped(e.target, WriteCompleted, e.count))
  }

  /** The transmit ACK handler, with its fall-throughs, is exactly the closed form. */
  lemma TransmitAckClosedForm(e: Engine)
    ensures MasterTransmitAck(e) == TxStep(e)
  {
  }

  /** Both transmit ACKs (address and data) step the engine by the closed form. */
  lemma StepTransmitAck(e: Engine, st: Status)
    requires st == MtSlaAck || st == MtDataAck
    ensures Step(e, st, 0) == TxStep(e.(status := st))
  {
    TransmitAckClosedForm(e.(status := st));
    if st == MtSlaAck {
      assert Step(e, st, 0) == MasterTransmitAck(e.(status := st));
    } else {
      assert Step(e, st, 0) == MasterTransmitAck(e.(status := st));
    }
  }

  /** The master transmitter driven by the first ACK (address or data) and n further data ACKs. */
  function TransmitRun(e: Engine, first: Status, n: nat): Out
    decreases n
  {
    var o := TxStep(e.(status := first));
    if n == 0 then o
    else
      var r := TransmitRun(o.e, MtDataAck, n - 1);
      Out(r.e, o.trace + r.trace)
  }

  lemma {:induction false} RunTransmit(e: Engine, first: Status, n: nat)
    requires first == MtSlaAck || first == MtDataAck
    ensures Run(e, [(first, 0)] + Repeat((MtDataAck, 0 as byte), n)) == TransmitRun(e, first, n)
    decreases n
  {
    RunCons(e, (first, 0), Repeat((MtDataAck, 0 as byte), n));
    var o := Step(e, first, 0);
    StepTransmitAck(e, first);
    if n > 0 {
      assert Repeat((MtDataAck, 0 as byte), n) == [(MtDataAck, 0 as byte)] + Repeat((MtDataAck, 0 as byte), n - 1);
      RunTransmit(o.e, MtDataAck, n - 1);
    }
  }

  /** Dropping the first byte of a suffix followed by more bytes. */
  lemma DropFirst(s: seq<byte>, i: nat, c: seq<byte>)
    requires i < |s|
    ensures (s[i..] + c)[0] == s[i] && (s[i..] + c)[1..] == s[i + 1..] + c
  {
    assert s[i..] + c == [s[i]] + (s[i + 1..] + c);
  }

  /** The facts one transmit ACK establishes when a byte is still pending. */
  predicate SentFirst(e: Engine, o: Out, p: seq<byte>)
    requires p != []
  {
    Transmitting(o.e) && Pending(o.e) == p[1..] && o.e.count == e.count + 1
    && o.e.target == e.target && o.trace == [Data(p[0]), Control(DataCmd)]
  }

  /** A transmit ACK inside the current segment sends its next byte. */
  lemma TransmitInSegment(e: Engine, st: Status)
    requires Transmitting(e) && e.cur.pos < |Seg(e, e.cur.seg)|
    ensures Pending(e) != [] && SentFirst(e, TxStep(e.(status := st)), Pending(e))
  {
    DropFirst(Seg(e, e.cur.seg), e.cur.pos, Chain(e.vec, e.cur.seg + 1));
  }

  /** A transmit ACK at the end of a segment sends the first byte of the next non-empty one. */
  lemma TransmitNextSegment(e: Engine, st: Status)
    requires Transmitting(e) && e.cur.pos == |Seg(e, e.cur.seg)| && |Seg(e, e.ix + 1)| > 0
    ensures Pending(e) != [] && SentFirst(e, TxStep(e.(status := st)), Pending(e))
  {
    var n := Seg(e, e.ix + 1);
    assert Seg(e, e.cur.seg)[e.cur.pos..] == [];
    assert Chain(e.vec, e.ix + 1) == n + Chain(e.vec, e.ix + 2);
    DropFirst(n, 0, Chain(e.vec, e.ix + 2));
  }

  /** A transmit ACK with nothing left completes the write. */
  lemma TransmitNothingLeft(e: Engine, st: Status)
    requires Transmitting(e) && e.cur.pos == |Seg(e, e.cur.seg)| && |Seg(e, e.ix + 1)| == 0
    ensures var o := TxStep(e.(status := st));
            Pending(e) == [] && o.e.state == Idle && o.e.count == e.count
            && o.trace == Stopped(e.target, WriteCompleted, e.count)
  {
    assert Seg(e, e.cur.seg)[e.cur.pos..] == [];
  }

  /** One transmit ACK: the first pending byte goes out, or, with nothing pending, the write completes. */
  lemma TransmitStep(e: Engine, st: Status)
    requires Transmitting(e)
    ensures var p := Pending(e);
            var o := TxStep(e.(status := st));
            (p == [] ==> o.e.state == Idle && o.e.count == e.count
                         && o.trace == Stopped(e.target, WriteCompleted, e.count))
            && (p != [] ==> SentFirst(e, o, p))
  {
    if e.cur.pos < |Seg(e, e.cur.seg)| {
      TransmitInSegment(e, st);
    } else if |Seg(e, e.ix + 1)| > 0 {
      TransmitNextSegment(e, st);
    } else {
      TransmitNothingLeft(e, st);
    }
  }

  /**
   * From any point of a master transmission, ACKs for the address or
   * data send every pending byte in order, counting each, and the ACK
   * after the last byte completes the transfer with WRITE_COMPLETED.
   */
  lemma TransmitRest(e: Engine, first: Status, p: seq<byte>)
    requires Transmitting(e) && Pending(e) == p
    ensures var r := TransmitRun(e, first, |p|);
            r.e.state == Idle && r.e.count == e.count + |p|
            && r.trace == DataTrace(p) + Stopped(e.target, WriteCompleted, e.count + |p|)
  {
    TransmitCount(e, first, p);
    TransmitTrace(e, first, p);
  }

  /** The state part of TransmitRest: idle, with every pending byte counted. */
  lemma {:induction false} TransmitCount(e: Engine, first: Status, p: seq<byte>)
    requires Transmitting(e) && Pending(e) == p
    ensures var r := TransmitRun(e, first, |p|);
            r.e.state == Idle && r.e.count == e.count + |p|
    decreases |p|
  {
    TransmitStep(e, first);
    if p != [] {
      var o := TxStep(e.(status := first));
      assert SentFirst(e, o, p);
      TransmitCount(o.e, MtDataAck, p[1..]);
      TransmitRunCons(e, first, |p|);
    }
  }

  /** The trace part of TransmitRest: every pending byte in order, then STOP and the completion. */
  lemma {:induction false} TransmitTrace(e: Engine, first: Status, p: seq<byte>)
    requires Transmitting(e) && Pending(e) == p
    ensures TransmitRun(e, first, |p|).trace == DataTrace(p) + Stopped(e.target, WriteCompleted, e.count + |p|)
    decreases |p|
  {
    if p == [] {
      TransmitNone(e, first);
    } else {
      var o := TxStep(e.(status := first));
      TransmitTraceStep(e, first, p);
      TransmitTrace(o.e, MtDataAck, p[1..]);
      var tail := Stopped(e.target, WriteCompleted, e.count + |p|);
      assert Stopped(o.e.target, WriteCompleted, o.e.count + |p[1..]|) == tail;
      TraceGlue(p, o.trace, TransmitRun(o.e, MtDataAck, |p| - 1).trace, tail);
    }
  }

  /** With a byte pending, the trace of a transmission is the first ACK's trace followed by the rest's. */
  lemma TransmitTraceStep(e: Engine, first: Status, p: seq<byte>)
    requires Transmitting(e) && Pending(e) == p && p != []
    ensures var o := TxStep(e.(status := first));
            SentFirst(e, o, p)
            && TransmitRun(e, first, |p|).trace == o.trace + TransmitRun(o.e, MtDataAck, |p| - 1).trace
  {
    TransmitStep(e, first);
    TransmitRunCons(e, first, |p|);
  }

  /** With nothing pending, the ACK ends the write: STOP and the completion event, count unchanged. */
  lemma TransmitNone(e: Engine, first: Status)
    requires Transmitting(e) && Pending(e) == []
    ensures var r := TransmitRun(e, first, 0);
            r.e.state == Idle && r.e.count == e.count
            && r.trace == DataTrace([]) + Stopped(e.target, WriteCompleted, e.count)
  {
    TransmitStep(e, first);
    assert DataTrace([]) + Stopped(e.target, WriteCompleted, e.count) == Stopped(e.target, WriteCompleted, e.count);
  }

  /** A transmission of n > 0 further bytes is one step followed by the transmission of n - 1. */
  lemma TransmitRunCons(e: Engine, first: Status, n: nat)
    requires n > 0
    ensures var o := TxStep(e.(status := first));
            var r1 := TransmitRun(o.e, MtDataAck, n - 1);
            TransmitRun(e, first, n) == Out(r1.e, o.trace + r1.trace)
  {
  }

  /** Sending the first pending byte, then the rest, is the trace of the whole string. */
  lemma TraceGlue(p: seq<byte>, head: seq<Action>, rest: seq<Action>, tail: seq<Action>)
    requires p != [] && head == [Data(p[0]), Control(DataCmd)] && rest == DataTrace(p[1..]) + tail
    ensures head + rest == DataTrace(p) + tail
  {
    assert DataTrace(p) == head + DataTrace(p[1..]);
    AppendAssoc(head, DataTrace(p[1..]), tail);
  }

  /** The interrupts of a master write of n bytes: START, the address ACK, then one ACK per byte. */
  function WriteIrqs(n: nat): seq<(Status, byte)>
  {
    [(Start, 0)] + ([(MtSlaAck, 0)] + Repeat((MtDataAck, 0 as byte), n))
  }

  /** START: the address goes out with a DATA command; nothing else but the status changes. */
  lemma StartStep(e: Engine)
    ensures Step(e, Start, 0) == Out(e.(status := Start), [Data(e.addr), Control(DataCmd)])
  {
  }

  /** The interrupts of a master write: START, then the transmitter's run. */
  lemma WriteRun(e: Engine, n: nat)
    ensures var r := TransmitRun(e.(status := Start), MtSlaAck, n);
            Run(e, WriteIrqs(n)) == Out(r.e, [Data(e.addr), Control(DataCmd)] + r.trace)
  {
    RunCons(e, (Start, 0), [(MtSlaAck, 0 as byte)] + Repeat((MtDataAck, 0 as byte), n));
    StartStep(e);
    RunTransmit(e.(status := Start), MtSlaAck, n);
  }

  /** A master write of the bytes p, from request to completion. */
  lemma WriteTransfer(e: Engine, p: seq<byte>)
    requires Transmitting(e) && e.cur == Cursor(0, 0) && e.count == 0 && Pending(e) == p
    ensures var r := Run(e, WriteIrqs(|p|));
            r.trace == [Data(e.addr), Control(DataCmd)] + DataTrace(p) + Stopped(e.target, WriteCompleted, |p|)
            && r.e.state == Idle && AwaitCompleted(r.e) == Some(|p|)
  {
    var e1 := e.(status := Start);
    assert Transmitting(e1) && Pending(e1) == p && e1.count == 0 && e1.target == e.target;
    WriteRun(e, |p|);
    TransmitRest(e1, MtSlaAck, p);
    AppendAssoc([Data(e.addr), Control(DataCmd)], DataTrace(p), Stopped(e.target, WriteCompleted, |p|));
  }

  /** A vector [buf, End] with the cursor at its start has exactly buf pending. */
  lemma PendingOne(e: Engine)
    requires Valid(e) && e.cur == Cursor(0, 0) && e.vec[0].Buf? && e.vec[1] == End
    ensures Pending(e) == Bytes(e.vec[0])
  {
    assert Chain(e.vec, 1) == [];
  }

  /** A vector [header, buf, End] with a non-empty header has the header, then buf, pending. */
  lemma PendingTwo(e: Engine)
    requires Valid(e) && e.cur == Cursor(0, 0) && e.vec[0].Buf? && e.vec[1].Buf? && e.vec[2] == End
    ensures Pending(e) == Bytes(e.vec[0]) + Bytes(e.vec[1])
  {
    assert Chain(e.vec, 2) == [];
    assert Chain(e.vec, 1) == Bytes(e.vec[1]);
  }

  /** write_request(buf): exactly the bytes of buf go out after the address; the count is |buf|. */
  lemma WriteRequestSendsBuffer(e: Engine, buf: seq<byte>)
    requires Valid(e) && e.dev.Some?
    ensures var e0 := WriteRequest(e, buf).e;
            var r := Run(e0, WriteIrqs(|buf|));
            r.trace == [Data(e.dev.value.addr | WRITE_OP), Control(DataCmd)] + DataTrace(buf)
                       + Stopped(e.target, WriteCompleted, |buf|)
            && AwaitCompleted(r.e) == Some(|buf|)
  {
    var e0 := WriteRequest(e, buf).e;
    PendingOne(e0);
    WriteTransfer(e0, buf);
  }

  /** write_request(header, buf): the header byte, then the buffer; the count includes the header. */
  lemma WriteRequestSendsHeader(e: Engine, header: byte, buf: seq<byte>)
    requires Valid(e) && e.dev.Some?
    ensures var e0 := WriteRequestHeader8(e, header, buf).e;
            var r := Run(e0, WriteIrqs(1 + |buf|));
            r.trace == [Data(e.dev.value.addr | WRITE_OP), Control(DataCmd)] + DataTrace([header] + buf)
                       + Stopped(e.target, WriteCompleted, 1 + |buf|)
            && AwaitCompleted(r.e) == Some(1 + |buf|)
  {
    var e0 := WriteRequestHeader8(e, header, buf).e;
    var p := [header] + buf;
    PendingTwo(e0);
    assert Pending(e0) == p && |p| == 1 + |buf|;
    assert e0.addr == e.dev.value.addr | WRITE_OP && e0.target == e.target;
    WriteTransfer(e0, p);
  }

  /** write_request(uint16_t header, buf): high byte, low byte, then the buffer. */
  lemma WriteRequestSendsHeader16(e: Engine, header: bv16, buf: seq<byte>)
    requires Valid(e) && e.dev.Some?
    ensures var e0 := WriteRequestHeader16(e, header, buf).e;
            var r := Run(e0, WriteIrqs(2 + |buf|));
            r.trace == [Data(e.dev.value.addr | WRITE_OP), Control(DataCmd)]
                       + DataTrace([High(header), Low(header)] + buf)
                       + Stopped(e.target, WriteCompleted, 2 + |buf|)
            && AwaitCompleted(r.e) == Some(2 + |buf|)
  {
    var e0 := WriteRequestHeader16(e, header, buf).e;
    var p := [High(header), Low(header)] + buf;
    PendingTwo(e0);
    assert Pending(e0) == p && |p| == 2 + |buf|;
    assert e0.addr == e.dev.value.addr | WRITE_OP && e0.target == e.target;
    WriteTransfer(e0, p);
  }

  /** The data interrupts of a master read: ACKed bytes, the last one NACKed. */
  function ReadIrqs(data: seq<byte>): seq<(Status, byte)>
    requires |data| >= 1
  {
    if |data| == 1 then [(MrDataNack, data[0])] else [(MrDataAck, data[0])] + ReadIrqs(data[1..])
  }

  predicate Receiving(e: Engine)
  {
    e.state == MasterReceive && e.cur.pos <= |Seg(e, e.cur.seg)|
  }

  /** The bytes a receiver has stored so far in the current segment. */
  function Received(e: Engine): seq<byte>
    requires e.cur.pos <= |Seg(e, e.cur.seg)|
  {
    Seg(e, e.cur.seg)[..e.cur.pos]
  }

  /**
   * Closed form of one MR_DATA_ACK: store the byte at the cursor and
   * decide ACK iff at least two bytes of room were left; with the
   * segment full, store nothing and NACK.
   */
  function RxData(e: Engine, x: byte): Out
  {
    var s := Seg(e, e.cur.seg);
    if e.cur.pos >= |s| then Out(e, [Control(NackCmd)])
    else
      Out(e.(vec := e.vec[e.cur.seg := Buf(s[e.cur.pos := x])],
             cur := Cursor(e.cur.seg, e.cur.pos + 1), count := e.count + 1),
          [Control(if e.cur.pos + 2 < |s| then AckCmd else NackCmd)])
  }

  /** Closed form of MR_DATA_NACK: store the byte if there is room, then complete the read. */
  function RxLast(e: Engine, x: byte): Out
  {
    var s := Seg(e, e.cur.seg);
    if e.cur.pos >= |s| then Out(e.(state := Idle), Stopped(e.target, ReadCompleted, e.count))
    else
      Out(e.(vec := e.vec[e.cur.seg := Buf(s[e.cur.pos := x])],
             cur := Cursor(e.cur.seg, e.cur.pos + 1), count := e.count + 1, state := Idle),
          Stopped(e.target, ReadCompleted, e.count + 1))
  }

  /** The receive handlers are exactly their closed forms. */
  lemma ReceiveClosedForms(e: Engine, x: byte)
    ensures MasterReceiveData(e, x) == RxData(e, x)
    ensures MasterReceiveLast(e, x) == RxLast(e, x)
  {
    var rd := IsrRead(e, None, x);
    assert rd.1.trace == [];
    assert [] + Stopped(e.target, ReadCompleted, rd.1.e.count) == Stopped(e.target, ReadCompleted, rd.1.e.count);
  }

  /** The master receiver driven by data interrupts: ACKed bytes, then the NACKed last one. */
  function ReceiveRun(e: Engine, rest: seq<byte>): Out
    requires |rest| >= 1
    decreases |rest|
  {
    if |rest| == 1 then RxLast(e.(status := MrDataNack), rest[0])
    else
      var o := RxData(e.(status := MrDataAck), rest[0]);
      var r := ReceiveRun(o.e, rest[1..]);
      Out(r.e, o.trace + r.trace)
  }

  lemma {:induction false} RunReceive(e: Engine, rest: seq<byte>)
    requires |rest| >= 1
    ensures Run(e, ReadIrqs(rest)) == ReceiveRun(e, rest)
    decreases |rest|
  {
    if |rest| == 1 {
      RunCons(e, (MrDataNack, rest[0]), []);
      ReceiveClosedForms(e.(status := MrDataNack), rest[0]);
      assert ReadIrqs(rest) == [(MrDataNack, rest[0])] + [];
    } else {
      RunCons(e, (MrDataAck, rest[0]), ReadIrqs(rest[1..]));
      ReceiveClosedForms(e.(status := MrDataAck), rest[0]);
      RunReceive(Step(e, MrDataAck, rest[0]).e, rest[1..]);
    }
  }

  /** One data ACK while receiving: the byte is appended to what was received. */
  lemma ReceiveDataStep(e: Engine, st: Status, x: byte)
    requires Receiving(e) && !Exhausted(e)
    ensures var o := RxData(e.(status := st), x);
            Receiving(o.e) && o.e.cur.seg == e.cur.seg && o.e.cur.pos == e.cur.pos + 1
            && |Seg(o.e, e.cur.seg)| == |Seg(e, e.cur.seg)|
            && Received(o.e) == Received(e) + [x]
            && o.e.count == e.count + 1 && o.e.target == e.target
            && o.trace == [Control(if e.cur.pos + 2 < |Seg(e, e.cur.seg)| then AckCmd else NackCmd)]
  {
    var s := Seg(e, e.cur.seg);
    assert s[e.cur.pos := x][..e.cur.pos + 1] == s[..e.cur.pos] + [x];
  }

  /** The part of ReceiveDataStep the bus sees: the ACK/NACK decision and the count. */
  lemma ReceiveDataDecision(e: Engine, st: Status, x: byte)
    requires Receiving(e) && !Exhausted(e)
    ensures var o := RxData(e.(status := st), x);
            Receiving(o.e) && o.e.cur.pos + (|Seg(e, e.cur.seg)| - e.cur.pos - 1) == |Seg(o.e, o.e.cur.seg)|
            && o.e.count == e.count + 1 && o.e.target == e.target
            && o.trace == [Control(if e.cur.pos + 2 < |Seg(e, e.cur.seg)| then AckCmd else NackCmd)]
  {
  }

  /** The NACKed last byte: stored at the end of the segment, and the read completes. */
  lemma ReceiveLastStep(e: Engine, st: Status, x: byte)
    requires Receiving(e) && e.cur.pos + 1 == |Seg(e, e.cur.seg)|
    ensures var o := RxLast(e.(status := st), x);
            o.e.state == Idle && o.e.count == e.count + 1
            && Seg(o.e, e.cur.seg) == Received(e) + [x]
            && o.trace == Stopped(e.target, ReadCompleted, e.count + 1)
  {
    var s := Seg(e, e.cur.seg);
    assert s[e.cur.pos := x] == s[..e.cur.pos] + [x];
  }

  /** Appending the head of a non-empty sequence, then its tail, appends the whole. */
  lemma AppendHeadTail<T>(a: seq<T>, xs: seq<T>)
    requires xs != []
    ensures a + [xs[0]] + xs[1..] == a + xs
  {
    assert [xs[0]] + xs[1..] == xs;
    AppendAssoc(a, [xs[0]], xs[1..]);
  }

  /** One more decision in front of the ACK/NACK decisions of the remaining bytes. */
  lemma AckGlue(m: nat, head: seq<Action>, rest: seq<Action>, tail: seq<Action>)
    requires m >= 1 && head == [Control(if m >= 2 then AckCmd else NackCmd)]
    requires rest == AckThenNack(m - 1) + tail
    ensures head + rest == AckThenNack(m) + tail
  {
    assert AckThenNack(m) == head + AckThenNack(m - 1);
    AppendAssoc(head, AckThenNack(m - 1), tail);
  }

  /**
   * From any point of a master reception with exactly |rest| bytes of
   * room left, the remaining bytes are stored in order, each but the
   * last is followed by ACK, and the NACKed last byte completes the read.
   */
  lemma ReceiveRest(e: Engine, rest: seq<byte>)
    requires Receiving(e) && |rest| >= 1 && e.cur.pos + |rest| == |Seg(e, e.cur.seg)|
    ensures var r := ReceiveRun(e, rest);
            r.e.state == Idle && r.e.count == e.count + |rest|
            && Seg(r.e, e.cur.seg) == Received(e) + rest
            && r.trace == AckThenNack(|rest| - 1) + Stopped(e.target, ReadCompleted, e.count + |rest|)
  {
    ReceiveRestStores(e, rest);
    ReceiveRestTrace(e, rest);
  }

  /** The engine side of ReceiveRest: every byte stored, counted, and the receiver idle. */
  lemma {:induction false} ReceiveRestStores(e: Engine, rest: seq<byte>)
    requires Receiving(e) && |rest| >= 1 && e.cur.pos + |rest| == |Seg(e, e.cur.seg)|
    ensures var r := ReceiveRun(e, rest);
            r.e.state == Idle && r.e.count == e.count + |rest|
            && Seg(r.e, e.cur.seg) == Received(e) + rest
    decreases |rest|
  {
    if |rest| == 1 {
      ReceiveLastStep(e, MrDataNack, rest[0]);
      assert [rest[0]] == rest;
    } else {
      var o := RxData(e.(status := MrDataAck), rest[0]);
      ReceiveDataStep(e, MrDataAck, rest[0]);
      ReceiveRestStores(o.e, rest[1..]);
      var r1 := ReceiveRun(o.e, rest[1..]);
      assert ReceiveRun(e, rest).e == r1.e;
      AppendHeadTail(Received(e), rest);
    }
  }

  /** The bus side of ReceiveRest: ACK for every byte but the last, NACK, STOP and the event. */
  lemma {:induction false} ReceiveRestTrace(e: Engine, rest: seq<byte>)
    requires Receiving(e) && |rest| >= 1 && e.cur.pos + |rest| == |Seg(e, e.cur.seg)|
    ensures ReceiveRun(e, rest).trace
            == AckThenNack(|rest| - 1) + Stopped(e.target, ReadCompleted, e.count + |rest|)
    decreases |rest|
  {
    var tail := Stopped(e.target, ReadCompleted, e.count + |rest|);
    if |rest| == 1 {
      ReceiveLastStep(e, MrDataNack, rest[0]);
      assert AckThenNack(0) + tail == tail;
    } else {
      var o := RxData(e.(status := MrDataAck), rest[0]);
      ReceiveDataDecision(e, MrDataAck, rest[0]);
      ReceiveRestTrace(o.e, rest[1..]);
      assert |rest[1..]| == |rest| - 1;
      assert Stopped(o.e.target, ReadCompleted, o.e.count + |rest[1..]|) == tail;
      ReceiveTraceStep(e, rest, o, tail);
    }
  }

  /** One ACKed byte in front of a receive whose trace is already known. */
  lemma ReceiveTraceStep(e: Engine, rest: seq<byte>, o: Out, tail: seq<Action>)
    requires Receiving(e) && |rest| >= 2 && e.cur.pos + |rest| == |Seg(e, e.cur.seg)|
    requires o == RxData(e.(status := MrDataAck), rest[0])
    requires ReceiveRun(o.e, rest[1..]).trace == AckThenNack(|rest| - 2) + tail
    ensures ReceiveRun(e, rest).trace == AckThenNack(|rest| - 1) + tail
  {
    ReceiveRunCons(e, rest);
    RxDataTrace(e, rest[0], |rest|);
    AckGlue(|rest| - 1, o.trace, ReceiveRun(o.e, rest[1..]).trace, tail);
  }

  /** With n bytes left to receive, the data step ACKs exactly when at least two more follow. */
  lemma RxDataTrace(e: Engine, x: byte, n: nat)
    requires 2 <= n && e.cur.pos + n == |Seg(e, e.cur.seg)|
    ensures RxData(e.(status := MrDataAck), x).trace == [Control(if n - 1 >= 2 then AckCmd else NackCmd)]
  {
    var e1 := e.(status := MrDataAck);
    assert Seg(e1, e1.cur.seg) == Seg(e, e.cur.seg) && e1.cur == e.cur;
  }

  /** A receive run of two or more bytes starts with the data step of its first byte. */
  lemma ReceiveRunCons(e: Engine, rest: seq<byte>)
    requires |rest| >= 2
    ensures var o := RxData(e.(status := MrDataAck), rest[0]);
            ReceiveRun(e, rest).trace == o.trace + ReceiveRun(o.e, rest[1..]).trace
  {
  }

  /** The address ACK of a master read: the first ACK/NACK decision, nothing else changes. */
  lemma ReadAddressStep(e: Engine)
    requires Receiving(e)
    ensures var o := Step(e, MrSlaAck, 0);
            o.e == e.(status := MrSlaAck)
            && o.trace == [Control(if e.cur.pos + 1 < |Seg(e, e.cur.seg)| then AckCmd else NackCmd)]
  {
  }

  /**
   * A master read of |data| >= 1 bytes into the segment under the cursor,
   * from START to the NACKed last byte.
   */
  lemma ReadTransfer(e: Engine, data: seq<byte>)
    requires Receiving(e) && e.cur.pos == 0 && e.count == 0 && |data| == |Seg(e, e.cur.seg)| >= 1
    ensures var r := Run(e, [(Start, 0)] + ([(MrSlaAck, 0)] + ReadIrqs(data)));
            r.trace == [Data(e.addr), Control(DataCmd)] + AckThenNack(|data|)
                       + Stopped(e.target, ReadCompleted, |data|)
            && Seg(r.e, e.cur.seg) == data && r.e.state == Idle && r.e.count == |data|
  {
    ReadTransferStore(e, data);
    ReadTransferTrace(e, data);
  }

  /** The buffer and state part of ReadTransfer. */
  lemma ReadTransferStore(e: Engine, data: seq<byte>)
    requires Receiving(e) && e.cur.pos == 0 && e.count == 0 && |data| == |Seg(e, e.cur.seg)| >= 1
    ensures var r := Run(e, [(Start, 0)] + ([(MrSlaAck, 0)] + ReadIrqs(data)));
            Seg(r.e, e.cur.seg) == data && r.e.state == Idle && r.e.count == |data|
  {
    var e2 := e.(status := MrSlaAck);
    ReadRun(e, data);
    ReceiveRest(e2, data);
    assert Received(e2) == [];
  }

  /** The trace part of ReadTransfer. */
  lemma ReadTransferTrace(e: Engine, data: seq<byte>)
    requires Receiving(e) && e.cur.pos == 0 && e.count == 0 && |data| == |Seg(e, e.cur.seg)| >= 1
    ensures Run(e, [(Start, 0)] + ([(MrSlaAck, 0)] + ReadIrqs(data))).trace
            == [Data(e.addr), Control(DataCmd)] + AckThenNack(|data|) + Stopped(e.target, ReadCompleted, |data|)
  {
    var e2 := e.(status := MrSlaAck);
    var r := ReceiveRun(e2, data);
    ReadRun(e, data);
    ReceiveRestTrace(e2, data);
    assert r.trace == AckThenNack(|data| - 1) + Stopped(e.target, ReadCompleted, |data|);
    ReadTraceGlue(e.addr, |data|, ReceiveRun(e2, data).trace, Stopped(e.target, ReadCompleted, |data|));
  }

  /** The header, the address-ACK decision and the receiver's trace make the whole read trace. */
  lemma ReadTraceGlue(addr: byte, m: nat, rest: seq<Action>, tail: seq<Action>)
    requires m >= 1 && rest == AckThenNack(m - 1) + tail
    ensures [Data(addr), Control(DataCmd)] + ([Control(if m >= 2 then AckCmd else NackCmd)] + rest)
            == [Data(addr), Control(DataCmd)] + AckThenNack(m) + tail
  {
    AckGlue(m, [Control(if m >= 2 then AckCmd else NackCmd)], rest, tail);
    AppendAssoc([Data(addr), Control(DataCmd)], AckThenNack(m), tail);
  }

  /** The interrupts of a master read: START, the address ACK with its decision, then the receiver's run. */
  lemma ReadRun(e: Engine, data: seq<byte>)
    requires Receiving(e) && e.cur.pos == 0 && |data| == |Seg(e, e.cur.seg)| >= 1
    ensures var r := ReceiveRun(e.(status := MrSlaAck), data);
            Run(e, [(Start, 0)] + ([(MrSlaAck, 0)] + ReadIrqs(data)))
            == Out(r.e, [Data(e.addr), Control(DataCmd)]
                        + ([Control(if |data| >= 2 then AckCmd else NackCmd)] + r.trace))
  {
    StartStep(e);
    var e1 := e.(status := Start);
    var s2 := Step(e1, MrSlaAck, 0);
    ReadAddressStep(e1);
    assert s2.e == e.(status := MrSlaAck);
    RunCons(e, (Start, 0), [(MrSlaAck, 0)] + ReadIrqs(data));
    RunCons(e1, (MrSlaAck, 0), ReadIrqs(data));
    RunReceive(s2.e, data);
  }

  /**
   * read_request(buf) with |buf| >= 1: the received bytes fill the buffer,
   * every byte but the last is ACKed and the last NACKed (a one-byte read
   * NACKs its only byte), and the read completes with count |buf|.
   */
  lemma ReadRequestFillsBuffer(e: Engine, buf: seq<byte>, data: seq<byte>)
    requires Valid(e) && e.dev.Some?
    requires |data| == |buf| >= 1
    ensures var e0 := ReadRequest(e, buf).e;
            var r := Run(e0, [(Start, 0)] + ([(MrSlaAck, 0)] + ReadIrqs(data)));
            r.trace == [Data(e.dev.value.addr | READ_OP), Control(DataCmd)] + AckThenNack(|data|)
                       + Stopped(e.target, ReadCompleted, |data|)
            && Seg(r.e, 0) == data && AwaitCompleted(r.e) == Some(|data|)
  {
    var e0 := ReadRequest(e, buf).e;
    assert Receiving(e0) && e0.cur == Cursor(0, 0) && e0.count == 0 && Seg(e0, 0) == buf;
    ReadTransfer(e0, data);
  }

  /** The smallest read: one byte, NACKed at once after the address. */
  lemma SingleByteRead(e: Engine, b: byte, x: byte)
    requires Valid(e) && e.dev.Some? && e.target
    ensures var r := Run(ReadRequest(e, [b]).e, [(Start, 0)] + ([(MrSlaAck, 0)] + ReadIrqs([x])));
            r.trace == [Data(e.dev.value.addr | READ_OP), Control(DataCmd), Control(NackCmd),
                        Control(StopCmd), Push(ReadCompleted, 1)]
            && Seg(r.e, 0) == [x]
  {
    ReadRequestFillsBuffer(e, [b], [x]);
  }

  // ---------------------------------------------------------------------
  // Slave role
  // ---------------------------------------------------------------------

  /** Slave::begin: binds the slave unconditionally as driver and event target and arms TWAR. */
  function SlaveBegin(e: Engine, s: Driver, twbr: byte): (r: Out)
    ensures r.e == e.(dev := Some(s), target := true)
    ensures r.trace == [AddressMatch(s.addr), ClearPrescaler, BitRate(twbr), Control(IdleCmd)]
  {
    Out(e.(dev := Some(s), target := true),
        [AddressMatch(s.addr), ClearPrescaler, BitRate(twbr), Control(IdleCmd)])
  }

  function SetWriteBuf(e: Engine, buf: seq<byte>): (r: Engine)
    requires Valid(e)
    ensures Valid(r) && Seg(r, WRITE_IX) == buf && r.vec[READ_IX] == e.vec[READ_IX]
  {
    e.(vec := e.vec[WRITE_IX := Buf(buf)])
  }

  function SetReadBuf(e: Engine, buf: seq<byte>): (r: Engine)
    requires Valid(e)
    ensures Valid(r) && Seg(r, READ_IX) == buf && r.vec[WRITE_IX] == e.vec[WRITE_IX]
  {
    e.(vec := e.vec[READ_IX := Buf(buf)])
  }

  /** The on_request call a slave makes: its write buffer and the received size. */
  datatype SlaveRequest = SlaveRequest(buf: seq<byte>, size: int)

  /**
   * Slave::on_event: only WRITE_COMPLETED is served; it hands the write
   * buffer and size to on_request and then re-arms the address match.
   */
  function SlaveOnEvent(e: Engine, ev: EventType, value: bv16): (r: (Option<SlaveRequest>, seq<Action>))
    requires e.dev.Some?
    ensures ev != WriteCompleted ==> r == (None, [])
    ensures ev == WriteCompleted ==>
              r.0 == Some(SlaveRequest(Seg(e, WRITE_IX), value as int))
              && r.1 == [AddressMatch(e.dev.value.addr)]
  {
    if ev != WriteCompleted then (None, [])
    else (Some(SlaveRequest(Seg(e, WRITE_IX), value as int)), [AddressMatch(e.dev.value.addr)])
  }

  /** The interrupts of a slave reception: one data ACK per byte, then STOP. */
  function SlaveIrqs(data: seq<byte>): seq<(Status, byte)>
  {
    if |data| == 0 then [(SrStop, 0)] else [(SrDataAck, data[0])] + SlaveIrqs(data[1..])
  }

  /** The slave receiver driven by data interrupts and the final STOP. */
  function SlaveRun(e: Engine, data: seq<byte>): Out
    decreases |data|
  {
    if |data| == 0 then SlaveStop(e.(status := SrStop))
    else
      var o := SlaveReceiveData(e.(status := SrDataAck), data[0]);
      var r := SlaveRun(o.e, data[1..]);
      Out(r.e, o.trace + r.trace)
  }

  lemma {:induction false} RunSlave(e: Engine, data: seq<byte>)
    ensures Run(e, SlaveIrqs(data)) == SlaveRun(e, data)
    decreases |data|
  {
    if |data| == 0 {
      RunCons(e, (SrStop, 0), []);
      StepSlaveStop(e);
      assert SlaveIrqs(data) == [(SrStop, 0 as byte)] + [];
    } else {
      assert SlaveIrqs(data) == [(SrDataAck, data[0])] + SlaveIrqs(data[1..]);
      RunCons(e, (SrDataAck, data[0]), SlaveIrqs(data[1..]));
      StepSlaveData(e, data[0]);
      RunSlave(Step(e, SrDataAck, data[0]).e, data[1..]);
    }
  }

  /** A data interrupt of a slave receiver is SlaveReceiveData. */
  lemma StepSlaveData(e: Engine, x: byte)
    ensures Step(e, SrDataAck, x) == SlaveReceiveData(e.(status := SrDataAck), x)
  {
  }

  /** The STOP interrupt of a slave receiver is SlaveStop. */
  lemma StepSlaveStop(e: Engine)
    ensures Step(e, SrStop, 0) == SlaveStop(e.(status := SrStop))
  {
  }

  /** One data byte with room left: stored at the cursor and ACKed. */
  lemma SlaveDataStep(e: Engine, st: Status, x: byte)
    requires e.cur.pos < |Seg(e, e.cur.seg)|
    ensures var o := SlaveReceiveData(e.(status := st), x);
            o.e.cur == Cursor(e.cur.seg, e.cur.pos + 1) && o.e.count == e.count + 1
            && o.e.target == e.target
            && Seg(o.e, e.cur.seg) == Seg(e, e.cur.seg)[e.cur.pos := x]
            && o.trace == [Control(AckCmd)]
  {
  }

  /** The STOP that ends a slave reception. */
  lemma SlaveStopStep(e: Engine)
    ensures var o := SlaveStop(e.(status := SrStop));
            o.e.state == Idle && o.e.count == e.count && o.e.vec == e.vec
            && o.trace == Stopped(e.target, WriteCompleted, e.count) + [AddressMatch(0)]
  {
  }

  /** Storing x at position i, then the rest of data after it, is storing [x] + rest at i. */
  lemma StoreGlue(s: seq<byte>, i: nat, data: seq<byte>)
    requires data != [] && i + |data| <= |s|
    ensures var s' := s[i := data[0]];
            s'[..i + 1] + data[1..] + s'[i + 1 + |data[1..]|..] == s[..i] + data + s[i + |data|..]
  {
    var s' := s[i := data[0]];
    assert s'[..i + 1] == s[..i] + [data[0]];
    AppendHeadTail(s[..i], data);
    assert s'[i + 1 + |data[1..]|..] == s[i + |data|..];
  }

  /** A slave's ACK in front of the ACKs for the rest. */
  lemma SlaveGlue(n: nat, rest: seq<Action>, tail: seq<Action>)
    requires n >= 1 && rest == Repeat(Control(AckCmd), n - 1) + tail
    ensures [Control(AckCmd)] + rest == Repeat(Control(AckCmd), n) + tail
  {
    AppendAssoc([Control(AckCmd)], Repeat(Control(AckCmd), n - 1), tail);
  }

  /**
   * A slave receiver with |data| bytes of room stores them at the cursor,
   * ACKs each, and the STOP completes with WRITE_COMPLETED(count).
   */
  lemma SlaveReceiveRest(e: Engine, data: seq<byte>)
    requires e.cur.pos + |data| <= |Seg(e, e.cur.seg)|
    ensures var r := SlaveRun(e, data);
            var s := Seg(e, e.cur.seg);
            r.e.state == Idle && r.e.count == e.count + |data|
            && Seg(r.e, e.cur.seg) == s[..e.cur.pos] + data + s[e.cur.pos + |data|..]
            && r.trace == Repeat(Control(AckCmd), |data|)
                          + (Stopped(e.target, WriteCompleted, e.count + |data|) + [AddressMatch(0)])
  {
    SlaveReceiveCount(e, data);
    SlaveReceiveStore(e, data);
    SlaveReceiveTrace(e, data);
  }

  /** The state part of SlaveReceiveRest: idle, with |data| more bytes counted. */
  lemma {:induction false} SlaveReceiveCount(e: Engine, data: seq<byte>)
    requires e.cur.pos + |data| <= |Seg(e, e.cur.seg)|
    ensures var r := SlaveRun(e, data);
            r.e.state == Idle && r.e.count == e.count + |data|
    decreases |data|
  {
    if |data| == 0 {
      SlaveStopStep(e);
    } else {
      var o := SlaveReceiveData(e.(status := SrDataAck), data[0]);
      SlaveDataStep(e, SrDataAck, data[0]);
      SlaveReceiveCount(o.e, data[1..]);
    }
  }

  /** The store part of SlaveReceiveRest: data lands at the cursor, the rest of the segment is kept. */
  lemma {:induction false} SlaveReceiveStore(e: Engine, data: seq<byte>)
    requires e.cur.pos + |data| <= |Seg(e, e.cur.seg)|
    ensures var s := Seg(e, e.cur.seg);
            Seg(SlaveRun(e, data).e, e.cur.seg) == s[..e.cur.pos] + data + s[e.cur.pos + |data|..]
    decreases |data|
  {
    var s := Seg(e, e.cur.seg);
    if |data| == 0 {
      SlaveStopStep(e);
      assert s == s[..e.cur.pos] + data + s[e.cur.pos..];
    } else {
      var o := SlaveReceiveData(e.(status := SrDataAck), data[0]);
      SlaveDataStep(e, SrDataAck, data[0]);
      SlaveReceiveStore(o.e, data[1..]);
      StoreGlue(s, e.cur.pos, data);
    }
  }

  /** The trace part of SlaveReceiveRest: one ACK per byte, then the completion. */
  lemma {:induction false} SlaveReceiveTrace(e: Engine, data: seq<byte>)
    requires e.cur.pos + |data| <= |Seg(e, e.cur.seg)|
    ensures SlaveRun(e, data).trace == Repeat(Control(AckCmd), |data|)
                                       + (Stopped(e.target, WriteCompleted, e.count + |data|) + [AddressMatch(0)])
    decreases |data|
  {
    var tail := Stopped(e.target, WriteCompleted, e.count + |data|) + [AddressMatch(0)];
    if |data| == 0 {
      SlaveStopStep(e);
      assert Repeat(Control(AckCmd), 0) + tail == tail;
    } else {
      var o := SlaveReceiveData(e.(status := SrDataAck), data[0]);
      SlaveDataStep(e, SrDataAck, data[0]);
      SlaveReceiveTrace(o.e, data[1..]);
      var r1 := SlaveRun(o.e, data[1..]);
      assert |data[1..]| == |data| - 1;
      assert Stopped(o.e.target, WriteCompleted, o.e.count + |data[1..]|) + [AddressMatch(0)] == tail;
      SlaveGlue(|data|, r1.trace, tail);
    }
  }

  /** A slave receiver with its buffer full NACKs the byte and keeps its count. */
  lemma SlaveReceiveOverflow(e: Engine, x: byte)
    requires Exhausted(e)
    ensures var r := Step(e, SrDataAck, x);
            r.trace == [Control(NackCmd)] && r.e.count == e.count && r.e.vec == e.vec
  {
  }

  /**
   * A master writing |data| <= |buf| bytes to a slave armed with write
   * buffer buf: the bytes land at the front of buf, every byte and the
   * address are ACKed, and STOP reports WRITE_COMPLETED(|data|) and
   * clears the address match.
   */
  lemma SlaveReceivesWrite(e: Engine, s: Driver, twbr: byte, buf: seq<byte>, data: seq<byte>)
    requires Valid(e) && |data| <= |buf|
    ensures var e1 := SetWriteBuf(SlaveBegin(e, s, twbr).e, buf);
            var r := Run(e1, [(SrSlaAck, 0)] + SlaveIrqs(data));
            r.e.state == Idle && r.e.count == |data|
            && Seg(r.e, WRITE_IX) == data + buf[|data|..]
            && r.trace == [Control(AckCmd)] + Repeat(Control(AckCmd), |data|)
                          + [Control(StopCmd), Push(WriteCompleted, |data|), AddressMatch(0)]
  {
    var e1 := SetWriteBuf(SlaveBegin(e, s, twbr).e, buf);
    assert Seg(e1, WRITE_IX) == buf && e1.target;
    SlaveWrite(e1, data);
  }

  /** A master write to a slave with a target bound, from the address match to STOP. */
  lemma SlaveWrite(e: Engine, data: seq<byte>)
    requires |data| <= |Seg(e, WRITE_IX)| && e.target
    ensures var r := Run(e, [(SrSlaAck, 0)] + SlaveIrqs(data));
            r.e.state == Idle && r.e.count == |data|
            && Seg(r.e, WRITE_IX) == data + Seg(e, WRITE_IX)[|data|..]
            && r.trace == [Control(AckCmd)] + Repeat(Control(AckCmd), |data|)
                          + [Control(StopCmd), Push(WriteCompleted, |data|), AddressMatch(0)]
  {
    var buf := Seg(e, WRITE_IX);
    var e1 := e.(status := SrSlaAck, cur := Cursor(WRITE_IX, 0), count := 0, state := SlaveReceive);
    SlaveWriteRun(e, data);
    SlaveReceiveRest(e1, data);
    EmptyPrefix(buf, data, buf[|data|..]);
    SlaveStopTrace(WriteCompleted, |data|);
    var r := SlaveRun(e1, data);
    AppendAssoc([Control(AckCmd)], Repeat(Control(AckCmd), |data|),
                [Control(StopCmd), Push(WriteCompleted, |data|), AddressMatch(0)]);
  }

  /** The interrupts of a write to a slave: the address match, then the receiver's run from the front of the write buffer. */
  lemma SlaveWriteRun(e: Engine, data: seq<byte>)
    ensures var e1 := e.(status := SrSlaAck, cur := Cursor(WRITE_IX, 0), count := 0, state := SlaveReceive);
            var r := SlaveRun(e1, data);
            Run(e, [(SrSlaAck, 0)] + SlaveIrqs(data)) == Out(r.e, [Control(AckCmd)] + r.trace)
  {
    var s1 := Step(e, SrSlaAck, 0);
    assert s1.e == e.(status := SrSlaAck, cur := Cursor(WRITE_IX, 0), count := 0, state := SlaveReceive);
    RunCons(e, (SrSlaAck, 0), SlaveIrqs(data));
    RunSlave(s1.e, data);
  }

  /** An empty prefix adds nothing in front of a concatenation. */
  lemma EmptyPrefix<T>(a: seq<T>, b: seq<T>, c: seq<T>)
    ensures a[..0] + b + c == b + c
  {
    assert a[..0] == [];
  }

  /** With a target bound, a slave's completion is STOP, the event, and the cleared address match. */
  lemma SlaveStopTrace(ev: EventType, count: int)
    ensures Stopped(true, ev, count) + [AddressMatch(0)] == [Control(StopCmd), Push(ev, count), AddressMatch(0)]
  {
  }

  /** The address match of a slave receiver: ACK, and the cursor at the front of the write buffer. */
  lemma SlaveAddressStep(e: Engine)
    ensures var o := Step(e, SrSlaAck, 0);
            o.e.state == SlaveReceive && o.e.cur == Cursor(WRITE_IX, 0) && o.e.count == 0
            && o.e.target == e.target && o.e.vec == e.vec && o.trace == [Control(AckCmd)]
  {
  }

  // ---------------------------------------------------------------------
  // Slave transmitter
  // ---------------------------------------------------------------------

  /** The slave transmitter's register writes for a byte string: each byte, then an ACK command. */
  function AckedTrace(bs: seq<byte>): (r: seq<Action>)
    ensures |r| == 2 * |bs|
  {
    if |bs| == 0 then [] else [Data(bs[0]), Control(AckCmd)] + AckedTrace(bs[1..])
  }

  /** The interrupts of a slave transmission after its first byte: n data ACKs, then the master's NACK. */
  function SlaveSendIrqs(n: nat): seq<(Status, byte)>
  {
    if n == 0 then [(StDataNack, 0)] else [(StDataAck, 0)] + SlaveSendIrqs(n - 1)
  }

  /**
   * A slave transmitter with at least n bytes left at the cursor: n data
   * ACKs send them in order, each with ACK, and the master's NACK ends
   * the transmission in the idle state.
   */
  lemma SlaveSendRest(e: Engine, n: nat)
    requires e.cur.pos + n <= |Seg(e, e.cur.seg)|
    ensures var r := Run(e, SlaveSendIrqs(n));
            r.e.state == Idle && r.e.count == e.count + n && r.e.vec == e.vec
            && r.trace == AckedTrace(Seg(e, e.cur.seg)[e.cur.pos..e.cur.pos + n]) + [Control(AckCmd)]
  {
    RunSend(e, n);
    SendState(e, n);
    SendTrace(e, n);
  }

  /** The run of n ST_DATA_ACK interrupts and the final ST_DATA_NACK, unrolled on n. */
  function SendRun(e: Engine, n: nat): Out
    decreases n
  {
    if n == 0 then Out(e.(status := StDataNack, state := Idle), [Control(AckCmd)])
    else
      var o := SlaveTransmitData(e.(status := StDataAck));
      var r := SendRun(o.e, n - 1);
      Out(r.e, o.trace + r.trace)
  }

  /** The interrupt run of a slave transmission is its unrolled form SendRun. */
  lemma {:induction false} RunSend(e: Engine, n: nat)
    ensures Run(e, SlaveSendIrqs(n)) == SendRun(e, n)
    decreases n
  {
    if n == 0 {
      assert SlaveSendIrqs(0) == [(StDataNack, 0 as byte)] + [];
      RunCons(e, (StDataNack, 0), []);
    } else {
      assert SlaveSendIrqs(n) == [(StDataAck, 0 as byte)] + SlaveSendIrqs(n - 1);
      RunCons(e, (StDataAck, 0), SlaveSendIrqs(n - 1));
      assert Step(e, StDataAck, 0) == SlaveTransmitData(e.(status := StDataAck));
      RunSend(Step(e, StDataAck, 0).e, n - 1);
    }
  }

  /** The state part of SlaveSendRest: idle, n more bytes counted, vector kept. */
  lemma {:induction false} SendState(e: Engine, n: nat)
    requires e.cur.pos + n <= |Seg(e, e.cur.seg)|
    ensures var r := SendRun(e, n);
            r.e.state == Idle && r.e.count == e.count + n && r.e.vec == e.vec
    decreases n
  {
    if n > 0 {
      var o := SlaveTransmitData(e.(status := StDataAck));
      SlaveSendStep(e);
      SendState(o.e, n - 1);
    }
  }

  /** The trace part of SlaveSendRest: the n bytes at the cursor, each with ACK, then the final ACK. */
  lemma {:induction false} SendTrace(e: Engine, n: nat)
    requires e.cur.pos + n <= |Seg(e, e.cur.seg)|
    ensures SendRun(e, n).trace == AckedTrace(Seg(e, e.cur.seg)[e.cur.pos..e.cur.pos + n]) + [Control(AckCmd)]
    decreases n
  {
    var s := Seg(e, e.cur.seg);
    if n == 0 {
      assert s[e.cur.pos..e.cur.pos] == [];
    } else {
      var o := SlaveTransmitData(e.(status := StDataAck));
      SlaveSendStep(e);
      SendTrace(o.e, n - 1);
      var bs := s[e.cur.pos..e.cur.pos + n];
      SlaveSendSlice(s, e.cur.pos, n);
      AppendAssoc(o.trace, AckedTrace(bs[1..]), [Control(AckCmd)]);
    }
  }

  /** ST_DATA_ACK with a byte left: the byte is sent with ACK and the cursor moves past it. */
  lemma SlaveSendStep(e: Engine)
    requires e.cur.pos < |Seg(e, e.cur.seg)|
    ensures var o := SlaveTransmitData(e.(status := StDataAck));
            o.e.cur == Cursor(e.cur.seg, e.cur.pos + 1) && o.e.count == e.count + 1 && o.e.vec == e.vec
            && o.trace == [Data(Seg(e, e.cur.seg)[e.cur.pos]), Control(AckCmd)]
  {
  }

  /** The AckedTrace of a slice of n >= 1 bytes: its first byte with ACK, then the rest of the slice. */
  lemma SlaveSendSlice(s: seq<byte>, pos: nat, n: nat)
    requires 0 < n && pos + n <= |s|
    ensures s[pos..pos + n][1..] == s[pos + 1..pos + 1 + (n - 1)]
    ensures AckedTrace(s[pos..pos + n]) == [Data(s[pos]), Control(AckCmd)] + AckedTrace(s[pos + 1..pos + 1 + (n - 1)])
  {
    assert s[pos..pos + n][1..] == s[pos + 1..pos + 1 + (n - 1)];
  }

  /**
   * A master reading n >= 1 bytes from a slave whose read buffer holds at
   * least n: the address match sends byte 0 with ACK, each data ACK the
   * next byte, and the master's NACK after the last ends the transfer
   * with the count n.
   */
  lemma SlaveRead(e: Engine, n: nat)
    requires 1 <= n <= |Seg(e, READ_IX)|
    ensures var r := Run(e, [(StSlaAck, 0)] + SlaveSendIrqs(n - 1));
            r.e.state == Idle && r.e.count == n && r.e.vec == e.vec
            && r.trace == AckedTrace(Seg(e, READ_IX)[..n]) + [Control(AckCmd)]
  {
    RunRead(e, n);
    ReadSend(e, n);
  }

  /** SlaveRead on the unrolled run: the address match's byte, then the sending run. */
  lemma ReadSend(e: Engine, n: nat)
    requires 1 <= n <= |Seg(e, READ_IX)|
    ensures var o := SlaveTransmitData(IsrStart(e.(status := StSlaAck), SlaveTransmit, Ix(READ_IX)));
            var r := SendRun(o.e, n - 1);
            r.e.state == Idle && r.e.count == n && r.e.vec == e.vec
            && o.trace + r.trace == AckedTrace(Seg(e, READ_IX)[..n]) + [Control(AckCmd)]
  {
    var s := Seg(e, READ_IX);
    var e1 := IsrStart(e.(status := StSlaAck), SlaveTransmit, Ix(READ_IX));
    var o := SlaveTransmitData(e1);
    assert Seg(e1, e1.cur.seg) == s && !Exhausted(e1);
    SlaveTransmitDataSpec(e1);
    assert o.e.cur == Cursor(READ_IX, 1) && o.e.count == 1 && o.e.vec == e.vec;
    assert o.trace == [Data(s[0]), Control(AckCmd)];
    SendState(o.e, n - 1);
    SendTrace(o.e, n - 1);
    assert s[..n][1..] == s[1..1 + (n - 1)];
    AppendAssoc(o.trace, AckedTrace(s[..n][1..]), [Control(AckCmd)]);
  }

  /** The address match of a read, then the sending run. */
  lemma RunRead(e: Engine, n: nat)
    requires 1 <= n
    ensures var o := SlaveTransmitData(IsrStart(e.(status := StSlaAck), SlaveTransmit, Ix(READ_IX)));
            Run(e, [(StSlaAck, 0)] + SlaveSendIrqs(n - 1)) == Out(SendRun(o.e, n - 1).e, o.trace + SendRun(o.e, n - 1).trace)
  {
    RunCons(e, (StSlaAck, 0), SlaveSendIrqs(n - 1));
    RunSend(Step(e, StSlaAck, 0).e, n - 1);
  }

  /** A slave with an empty read buffer NACKs at the address match and sends nothing. */
  lemma SlaveReadEmpty(e: Engine)
    requires |Seg(e, READ_IX)| == 0
    ensures var r := Step(e, StSlaAck, 0);
            r.e.state == SlaveTransmit && r.e.count == 0 && r.e.vec == e.vec
            && r.trace == [Control(NackCmd)]
  {
  }
}
