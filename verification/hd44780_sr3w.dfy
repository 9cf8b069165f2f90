/**
 * The SR3W adapter: an HD44780 in 4-bit mode behind a 74HC595 shift
 * register driven by three output pins. write4b shifts the six used
 * bits of the port byte out on SDA, most significant first, pulsing SCL
 * once per bit, and then pulses EN, which both latches the register
 * onto its outputs (RCLK) and strobes the display. The pin activity is
 * a trace of events; the receiver (register plus display) is the
 * partner the trace is proved against.
 */
module HD44780Sr3w {
  import opened Common
  import opened HD44780

  /** One pin operation: a write of SDA, or a toggle of SCL or EN. */
  datatype PinOp = Sda(high: bool) | SclToggle | EnToggle

  /** The port as constructed: all bits zero. */
  function InitialPort(): (p: Port)
    ensures PackSr3w(p) == 0 && WellFormed(p)
  {
    Port(0, false, false, false, false)
  }

  /** One bit shifted out: SDA set to the bit under mask, then SCL toggled twice. */
  function ShiftOut(value: byte, mask: byte): seq<PinOp>
  {
    [Sda(value & mask != 0), SclToggle, SclToggle]
  }

  /** The EN pulse: two toggles. */
  function Pulse(): seq<PinOp>
  {
    [EnToggle, EnToggle]
  }

  /**
   * write4b: the data field takes the low nibble; the six low bits of the
   * port byte are shifted out from bit 5 down to bit 0; then EN pulses.
   */
  function Write4b(p: Port, data: byte): (r: (Port, seq<PinOp>))
    ensures r.0 == p.(data := data & 0x0f)
    ensures |r.1| == 20
  {
    var q := p.(data := data & 0x0f);
    var v := PackSr3w(q);
    (q, ShiftOut(v, 0x20) + ShiftOut(v, 0x10) + ShiftOut(v, 0x08)
        + ShiftOut(v, 0x04) + ShiftOut(v, 0x02) + ShiftOut(v, 0x01) + Pulse())
  }

  /** write8b: write4b of the high nibble, then of the low nibble. */
  function Write8b(p: Port, data: byte): (r: (Port, seq<PinOp>))
    ensures r.0 == p.(data := data & 0x0f)
    ensures |r.1| == 40
  {
    var hi := Write4b(p, data >> 4);
    var lo := Write4b(hi.0, data);
    (lo.0, hi.1 + lo.1)
  }

  /** set_mode: the one-bit rs field takes the low bit of the flag. */
  function SetMode(p: Port, flag: byte): (r: Port)
    ensures r.rs <==> flag & 1 == 1
    ensures r.(rs := p.rs) == p
  {
    p.(rs := flag & 1 == 1)
  }

  /** set_backlight: the one-bit bt field takes the low bit of the flag; it is shifted out with the next nibble. */
  function SetBacklight(p: Port, flag: byte): (r: Port)
    ensures r.bt <==> flag & 1 == 1
    ensures r.(bt := p.bt) == p
  {
    p.(bt := flag & 1 == 1)
  }

  // ---- The receiving side ----

  /**
   * The pin levels, the shift register, its output latch, and the
   * nibbles the display has latched so far.
   */
  datatype Rx = Rx(sda: bool, scl: bool, en: bool, reg: byte, out: byte, seen: seq<Port>)

  /** A rising SCLK edge shifts SER into Q0 and the register up by one. */
  function ShiftIn(reg: byte, bit: bool): byte
  {
    (reg << 1) | (if bit then 1 else 0)
  }

  /**
   * One pin operation at the receiver: a rising SCL shifts the register;
   * a rising EN copies the register to the outputs (RCLK); a falling EN
   * makes the display latch D4-D7 and RS from the outputs.
   */
  function Step(rx: Rx, op: PinOp): Rx
  {
    match op
    case Sda(h) => rx.(sda := h)
    case SclToggle =>
      if rx.scl then rx.(scl := false) else rx.(scl := true, reg := ShiftIn(rx.reg, rx.sda))
    case EnToggle =>
      if rx.en then rx.(en := false, seen := rx.seen + [UnpackSr3w(rx.out)])
      else rx.(en := true, out := rx.reg)
  }

  /** A sequence of pin operations at the receiver. */
  function Run(rx: Rx, ops: seq<PinOp>): Rx
    decreases |ops|
  {
    if ops == [] then rx else Run(Step(rx, ops[0]), ops[1..])
  }

  /** Running a concatenation is running one part after the other. */
  lemma {:induction false} RunAppend(rx: Rx, a: seq<PinOp>, b: seq<PinOp>)
    ensures Run(rx, a + b) == Run(Run(rx, a), b)
    decreases |a|
  {
    if a == [] {
      assert a + b == b;
    } else {
      assert (a + b)[0] == a[0];
      assert (a + b)[1..] == a[1..] + b;
      RunAppend(Step(rx, a[0]), a[1..], b);
    }
  }

  /** Whatever the SCL level, one shifted-out bit enters the register once and SCL returns to its level. */
  lemma ShiftOutShifts(rx: Rx, value: byte, mask: byte)
    ensures Run(rx, ShiftOut(value, mask))
            == rx.(sda := value & mask != 0, reg := ShiftIn(rx.reg, value & mask != 0))
  {
    var ops := ShiftOut(value, mask);
    var r1 := Step(rx, ops[0]);
    var r2 := Step(r1, SclToggle);
    var r3 := Step(r2, SclToggle);
    assert ops[1..] == [SclToggle, SclToggle];
    assert ops[1..][1..] == [SclToggle];
    assert ops[1..][1..][1..] == [];
    assert Run(r3, []) == r3;
    assert Run(r2, [SclToggle]) == r3;
    assert Run(r1, ops[1..]) == r3;
  }

  /** From EN low, the pulse latches the register and the display then takes the outputs. */
  lemma PulseLatches(rx: Rx)
    requires !rx.en
    ensures Run(rx, Pulse()) == rx.(out := rx.reg, seen := rx.seen + [UnpackSr3w(rx.reg)])
  {
    assert Pulse()[1..] == [EnToggle];
    assert Pulse()[1..][1..] == [];
  }

  /** Six bits shifted in from bit 5 down to bit 0 leave them in Q5..Q0. */
  lemma SixShifts(reg: byte, v: byte)
    ensures ShiftIn(ShiftIn(ShiftIn(ShiftIn(ShiftIn(ShiftIn(reg,
              v & 0x20 != 0), v & 0x10 != 0), v & 0x08 != 0),
              v & 0x04 != 0), v & 0x02 != 0), v & 0x01 != 0) & 0x3f == v & 0x3f
  {
  }

  /** The fields the display reads from the outputs depend only on Q0-Q5. */
  lemma UnpackLowSix(a: byte, b: byte)
    requires a & 0x3f == b & 0x3f
    ensures UnpackSr3w(a) == UnpackSr3w(b)
  {
  }

  /**
   * With EN low, write4b makes the display latch exactly the nibble and
   * the port's rs bit, puts the port's six bits (with the backlight) on
   * Q0-Q5, and leaves SCL and EN at the levels they had.
   */
  lemma Write4bDelivers(p: Port, data: byte, rx: Rx)
    requires !rx.en
    ensures var w := Write4b(p, data);
            var rx1 := Run(rx, w.1);
            rx1.seen == rx.seen + [w.0.(en := false, rw := false)]
            && rx1.out & 0x3f == PackSr3w(w.0)
            && rx1.scl == rx.scl && !rx1.en
  {
    var q := p.(data := data & 0x0f);
    var v := PackSr3w(q);
    var a := ShiftOut(v, 0x20);
    var b := ShiftOut(v, 0x10);
    var c := ShiftOut(v, 0x08);
    var d := ShiftOut(v, 0x04);
    var e := ShiftOut(v, 0x02);
    var f := ShiftOut(v, 0x01);
    RunAppend(rx, a + b + c + d + e + f, Pulse());
    RunAppend(rx, a + b + c + d + e, f);
    RunAppend(rx, a + b + c + d, e);
    RunAppend(rx, a + b + c, d);
    RunAppend(rx, a + b, c);
    RunAppend(rx, a, b);
    var r1 := Run(rx, a);
    ShiftOutShifts(rx, v, 0x20);
    ShiftOutShifts(r1, v, 0x10);
    var r2 := Run(r1, b);
    ShiftOutShifts(r2, v, 0x08);
    var r3 := Run(r2, c);
    ShiftOutShifts(r3, v, 0x04);
    var r4 := Run(r3, d);
    ShiftOutShifts(r4, v, 0x02);
    var r5 := Run(r4, e);
    ShiftOutShifts(r5, v, 0x01);
    var r6 := Run(r5, f);
    SixShifts(rx.reg, v);
    PulseLatches(r6);
    Sr3wLayout(q, 0);
    UnpackLowSix(r6.reg, v);
  }

  /**
   * With EN low, write8b makes the display latch two nibbles that
   * reassemble to the byte, both with the port's rs bit.
   */
  lemma Write8bDelivers(p: Port, data: byte, rx: Rx)
    requires !rx.en
    ensures var w := Write8b(p, data);
            var rx1 := Run(rx, w.1);
            |rx1.seen| == |rx.seen| + 2
            && Join(rx1.seen[|rx.seen|..]) == [data]
            && rx1.seen[|rx.seen|].rs == p.rs && rx1.seen[|rx.seen| + 1].rs == p.rs
            && rx1.scl == rx.scl && !rx1.en
  {
    var hi := Write4b(p, data >> 4);
    var lo := Write4b(hi.0, data);
    RunAppend(rx, hi.1, lo.1);
    Write4bDelivers(p, data >> 4, rx);
    var rx1 := Run(rx, hi.1);
    Write4bDelivers(hi.0, data, rx1);
    var rx2 := Run(rx1, lo.1);
    var ps := rx2.seen[|rx.seen|..];
    assert ps == [hi.0.(en := false, rw := false), lo.0.(en := false, rw := false)];
    assert ps[2..] == [];
    NibblesJoin(data);
  }
}
