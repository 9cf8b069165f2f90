/**
 * The HD44780 LCD driver core: the instruction constants, the mirrors of
 * the entry-mode, control and function-set registers, the helpers that
 * set or clear one attribute bit and write the updated instruction, and
 * the bit layouts of the IO adapters' port bytes. Every instruction the
 * driver writes goes through the adapter's write8b; here it is appended
 * to a trace of instruction bytes.
 */
module HD44780 {
  import opened Common

  // Instructions (RS = 0)
  const CLEAR_DISPLAY: byte := 0x01
  const RETURN_HOME: byte := 0x02
  const ENTRY_MODE_SET: byte := 0x04
  const CONTROL_SET: byte := 0x08
  const SHIFT_SET: byte := 0x10
  const FUNCTION_SET: byte := 0x20
  const SET_DDATA_LENGTH: byte := 0x80
  const SET_DDATA_MASK: byte := 0x7f

  // ENTRY_MODE_SET attributes
  const DISPLAY_SHIFT: byte := 0x01
  const INCREMENT: byte := 0x02

  // CONTROL_SET attributes
  const BLINK_ON: byte := 0x01
  const CURSOR_ON: byte := 0x02
  const DISPLAY_ON: byte := 0x04

  // SHIFT_SET attributes
  const MOVE_LEFT: byte := 0x00
  const MOVE_RIGHT: byte := 0x04
  const DISPLAY_MOVE: byte := 0x08

  // FUNCTION_SET attributes
  const DATA_LENGTH_4BITS: byte := 0x00
  const DATA_LENGTH_8BITS: byte := 0x10
  const NR_LINES_2: byte := 0x08
  const FONT_5X8DOTS: byte := 0x00
  const EXTENDED_SET: byte := 0x04

  /** The driver state: the three register mirrors, the row offset table choice and the size. */
  datatype Lcd = Lcd(mode: byte, cntl: byte, func: byte, offset1: bool, width: byte, height: byte)

  /**
   * The constructor: entry mode increment, control set with everything
   * off, 4-bit two-line 5x8 function set, and the second row-offset
   * table only for a 16x4 display.
   */
  function Create(width: byte, height: byte): (r: Lcd)
    ensures r.mode == 0x06 && r.cntl == 0x08 && r.func == 0x28
    ensures r.offset1 <==> height == 4 && width == 16
    ensures r.width == width && r.height == height
  {
    Lcd(ENTRY_MODE_SET | INCREMENT, CONTROL_SET,
        FUNCTION_SET | DATA_LENGTH_4BITS | NR_LINES_2 | FONT_5X8DOTS,
        height == 4 && width == 16, width, height)
  }

  /** set(cmd, mask): the mirror becomes cmd | mask, and that byte is written. */
  function Set(cmd: byte, mask: byte): (r: (byte, seq<byte>))
    ensures r.1 == [r.0]
    ensures forall k :: 0 <= k < 8 ==> (HasBit(r.0, k) <==> HasBit(cmd, k) || HasBit(mask, k))
  {
    forall k | 0 <= k < 8 ensures HasBit(cmd | mask, k) <==> HasBit(cmd, k) || HasBit(mask, k) {
      OrBits(cmd, mask, k);
    }
    (cmd | mask, [cmd | mask])
  }

  /** clear(cmd, mask): the mirror becomes cmd & ~mask, and that byte is written. */
  function Clear(cmd: byte, mask: byte): (r: (byte, seq<byte>))
    ensures r.1 == [r.0]
    ensures forall k :: 0 <= k < 8 ==> (HasBit(r.0, k) <==> HasBit(cmd, k) && !HasBit(mask, k))
  {
    forall k | 0 <= k < 8 ensures HasBit(cmd & !mask, k) <==> HasBit(cmd, k) && !HasBit(mask, k) {
      AndNotBits(cmd, mask, k);
    }
    (cmd & !mask, [cmd & !mask])
  }

  /** set is idempotent: setting the same mask twice gives the mirror of setting it once. */
  lemma SetIdempotent(cmd: byte, mask: byte)
    ensures Set(Set(cmd, mask).0, mask) == Set(cmd, mask)
  {
  }

  /** set followed by clear of the same mask restores a mirror in which the mask bits were clear. */
  lemma SetThenClearRestores(cmd: byte, mask: byte)
    requires cmd & mask == 0
    ensures Clear(Set(cmd, mask).0, mask).0 == cmd
  {
  }

  /** The three mirrors. */
  datatype Mirror = ModeReg | CntlReg | FuncReg

  /** The attribute helpers of the driver. */
  datatype Helper =
    | UnderlineOn | UnderlineOff | BlinkOn | BlinkOff
    | FlowLeftToRight | FlowRightToLeft | ScrollLeftAdjust | ScrollRightAdjust

  /** The mirror a helper works on. */
  function Target(h: Helper): Mirror
  {
    match h
    case UnderlineOn | UnderlineOff | BlinkOn | BlinkOff => CntlReg
    case _ => ModeReg
  }

  /** The bit a helper works on. */
  function HelperBit(h: Helper): (k: nat)
    ensures k < 8
  {
    match h
    case UnderlineOn | UnderlineOff | FlowLeftToRight | FlowRightToLeft => 1
    case _ => 0
  }

  /** Whether a helper sets (true) or clears its bit. */
  function Sets(h: Helper): bool
  {
    h.UnderlineOn? || h.BlinkOn? || h.FlowLeftToRight? || h.ScrollLeftAdjust?
  }

  function Get(l: Lcd, m: Mirror): byte
  {
    match m
    case ModeReg => l.mode
    case CntlReg => l.cntl
    case FuncReg => l.func
  }

  /**
   * The helpers as the driver writes them: underline uses CURSOR_ON and
   * blink BLINK_ON of the control mirror; text flow uses INCREMENT and
   * scroll adjust DISPLAY_SHIFT of the entry-mode mirror.
   */
  function Apply(l: Lcd, h: Helper): (r: (Lcd, seq<byte>))
  {
    match h
    case UnderlineOn => var s := Set(l.cntl, CURSOR_ON); (l.(cntl := s.0), s.1)
    case UnderlineOff => var s := Clear(l.cntl, CURSOR_ON); (l.(cntl := s.0), s.1)
    case BlinkOn => var s := Set(l.cntl, BLINK_ON); (l.(cntl := s.0), s.1)
    case BlinkOff => var s := Clear(l.cntl, BLINK_ON); (l.(cntl := s.0), s.1)
    case FlowLeftToRight => var s := Set(l.mode, INCREMENT); (l.(mode := s.0), s.1)
    case FlowRightToLeft => var s := Clear(l.mode, INCREMENT); (l.(mode := s.0), s.1)
    case ScrollLeftAdjust => var s := Set(l.mode, DISPLAY_SHIFT); (l.(mode := s.0), s.1)
    case ScrollRightAdjust => var s := Clear(l.mode, DISPLAY_SHIFT); (l.(mode := s.0), s.1)
  }

  /**
   * Each helper changes exactly one bit of one mirror to the value the
   * helper names, leaves the other mirrors alone, and writes the updated
   * mirror as one instruction byte.
   */
  lemma HelperTouchesOneBit(l: Lcd, h: Helper)
    ensures var r := Apply(l, h);
            r.1 == [Get(r.0, Target(h))]
            && HasBit(Get(r.0, Target(h)), HelperBit(h)) == Sets(h)
            && (forall k :: 0 <= k < 8 && k != HelperBit(h) ==>
                  HasBit(Get(r.0, Target(h)), k) == HasBit(Get(l, Target(h)), k))
            && (forall m :: m != Target(h) ==> Get(r.0, m) == Get(l, m))
            && r.0.offset1 == l.offset1 && r.0.width == l.width && r.0.height == l.height
  {
    match h
    case UnderlineOn => SetTouchesOneBit(l.cntl, CURSOR_ON, 1);
    case UnderlineOff => ClearTouchesOneBit(l.cntl, CURSOR_ON, 1);
    case BlinkOn => SetTouchesOneBit(l.cntl, BLINK_ON, 0);
    case BlinkOff => ClearTouchesOneBit(l.cntl, BLINK_ON, 0);
    case FlowLeftToRight => SetTouchesOneBit(l.mode, INCREMENT, 1);
    case FlowRightToLeft => ClearTouchesOneBit(l.mode, INCREMENT, 1);
    case ScrollLeftAdjust => SetTouchesOneBit(l.mode, DISPLAY_SHIFT, 0);
    case ScrollRightAdjust => ClearTouchesOneBit(l.mode, DISPLAY_SHIFT, 0);
  }

  /** Setting a one-bit mask sets that bit and keeps the others. */
  lemma SetTouchesOneBit(cmd: byte, mask: byte, b: nat)
    requires b < 8 && mask == Bit(b)
    ensures HasBit(Set(cmd, mask).0, b)
    ensures forall k :: 0 <= k < 8 && k != b ==> HasBit(Set(cmd, mask).0, k) == HasBit(cmd, k)
  {
    var c := cmd | mask;
    assert Set(cmd, mask).0 == c;
    forall k | 0 <= k < 8 ensures HasBit(c, k) == (k == b || HasBit(cmd, k)) {
      OrBit(cmd, b, k);
    }
  }

  /** Clearing a one-bit mask clears that bit and keeps the others. */
  lemma ClearTouchesOneBit(cmd: byte, mask: byte, b: nat)
    requires b < 8 && mask == Bit(b)
    ensures !HasBit(Clear(cmd, mask).0, b)
    ensures forall k :: 0 <= k < 8 && k != b ==> HasBit(Clear(cmd, mask).0, k) == HasBit(cmd, k)
  {
    var c := cmd & !mask;
    assert Clear(cmd, mask).0 == c;
    forall k | 0 <= k < 8 ensures HasBit(c, k) == (k != b && HasBit(cmd, k)) {
      AndNotBit(cmd, b, k);
    }
  }

  /** display_scroll_left and display_scroll_right: one shift instruction each. */
  function DisplayScroll(right: bool): (r: seq<byte>)
    ensures r == if right then [0x1c] else [0x18]
  {
    [SHIFT_SET | DISPLAY_MOVE | (if right then MOVE_RIGHT else MOVE_LEFT)]
  }

  /** The fields of an adapter's port byte. */
  datatype Port = Port(data: byte, en: bool, rw: bool, rs: bool, bt: bool)

  /** The mask of a set flag. */
  function Flag(b: bool, mask: byte): byte
  {
    if b then mask else 0
  }

  /** A port with a 4-bit data field. */
  predicate WellFormed(p: Port)
  {
    p.data < 16
  }

  /** SR3W shift-register byte, LSB first: data Q0-Q3, rs Q4, bt Q5, Q6 and Q7 unused. */
  function PackSr3w(p: Port): byte
  {
    (p.data & 0x0f) | Flag(p.rs, 0x10) | Flag(p.bt, 0x20)
  }

  function UnpackSr3w(b: byte): Port
  {
    Port(b & 0x0f, false, false, b & 0x10 != 0, b & 0x20 != 0)
  }

  /** MJKDZ expander byte, LSB first: data P0-P3, en P4, rw P5, rs P6, bt P7. */
  function PackMjkdz(p: Port): byte
  {
    (p.data & 0x0f) | Flag(p.en, 0x10) | Flag(p.rw, 0x20) | Flag(p.rs, 0x40) | Flag(p.bt, 0x80)
  }

  function UnpackMjkdz(b: byte): Port
  {
    Port(b & 0x0f, b & 0x10 != 0, b & 0x20 != 0, b & 0x40 != 0, b & 0x80 != 0)
  }

  /** DFRobot expander byte, LSB first: rs P0, rw P1, en P2, bt P3, data P4-P7. */
  function PackDfrobot(p: Port): byte
  {
    Flag(p.rs, 0x01) | Flag(p.rw, 0x02) | Flag(p.en, 0x04) | Flag(p.bt, 0x08) | ((p.data & 0x0f) << 4)
  }

  function UnpackDfrobot(b: byte): Port
  {
    Port(b >> 4, b & 0x04 != 0, b & 0x02 != 0, b & 0x01 != 0, b & 0x08 != 0)
  }

  /** The SR3W layout: the six used bits carry the fields and nothing else. */
  lemma Sr3wLayout(p: Port, b: byte)
    ensures WellFormed(p) ==> UnpackSr3w(PackSr3w(p)) == p.(en := false, rw := false)
    ensures b < 0x40 ==> PackSr3w(UnpackSr3w(b)) == b
  {
  }

  /** The MJKDZ layout is a bijection between well-formed ports and bytes. */
  lemma MjkdzLayout(p: Port, b: byte)
    ensures WellFormed(p) ==> UnpackMjkdz(PackMjkdz(p)) == p
    ensures PackMjkdz(UnpackMjkdz(b)) == b
  {
  }

  /** The DFRobot layout is a bijection between well-formed ports and bytes. */
  lemma DfrobotLayout(p: Port, b: byte)
    ensures WellFormed(p) ==> UnpackDfrobot(PackDfrobot(p)) == p
    ensures PackDfrobot(UnpackDfrobot(b)) == b
  {
  }

  /** The characters the controller assembles from pairs of nibbles latched in 4-bit mode, high nibble first. */
  function Join(ps: seq<Port>): seq<byte>
    decreases |ps|
  {
    if |ps| < 2 then [] else [(ps[0].data << 4) | (ps[1].data & 0x0f)] + Join(ps[2..])
  }

  /** Reassembling the two nibbles of a byte gives the byte. */
  lemma NibblesJoin(d: byte)
    ensures (((d >> 4) & 0x0f) << 4) | ((d & 0x0f) & 0x0f) == d
  {
  }
}
