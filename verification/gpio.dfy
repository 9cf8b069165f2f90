/**
 * The Raspberry Pi GPIO driver: Arduino pin numbers are mapped through
 * the board table to BCM2835 GPIO numbers, whose function select fields
 * (ten 3-bit fields per 32-bit GPFSEL register) and level bits (32 per
 * GPSET/GPCLR/GPLEV register) the driver addresses. The operations
 * return the register stores they make; Apply gives their effect, with
 * the level register taken to show what the set and clear stores drove.
 */
module PiGpio {
  import opened Common

  const NOT_A_PIN: nat := 0xff
  const LOW: byte := 0
  const HIGH: byte := 1
  const INPUT: byte := 0
  const OUTPUT: byte := 1
  const INPUT_PULLUP: byte := 3
  const LSBFIRST: byte := 0
  const MSBFIRST: byte := 1
  const FSEL_INPT: byte := 0
  const FSEL_OUTP: byte := 1

  /** The number of GPIO lines of the BCM2835. */
  const GPIO_LINES: nat := 54

  /** A board: digitalPinToGPIO, one entry per pin; DIGITAL_PINS is its length. */
  datatype Board = Board(table: seq<nat>)

  /** Every entry is NOT_A_PIN or a GPIO line of the chip. */
  predicate ValidBoard(b: Board)
  {
    |b.table| < 256
    && forall i :: 0 <= i < |b.table| ==> b.table[i] == NOT_A_PIN || b.table[i] < GPIO_LINES
  }

  /** raspberryPinNumber: the table entry, or NOT_A_PIN outside the table. */
  function PinNumber(b: Board, pin: nat): (g: nat)
    requires ValidBoard(b)
    ensures g == NOT_A_PIN || g < GPIO_LINES
  {
    if pin < |b.table| then b.table[pin] else NOT_A_PIN
  }

  /** A pin the driver acts on: inside the table and mapped. */
  predicate Mapped(b: Board, pin: nat)
    requires ValidBoard(b)
  {
    pin < |b.table| && PinNumber(b, pin) != NOT_A_PIN
  }

  /**
   * A GPFSEL register as the driver addresses it: the bit-fields fsel0
   * to fsel9 (3 bits each, from bit 0 up) and 2 reserved bits on top.
   */
  datatype FselReg = FselReg(fields: seq<bv3>, reserved: bv2)

  predicate WfFsel(f: FselReg)
  {
    |f.fields| == 10
  }

  /** The 32-bit value of a GPFSEL register: field k in bits 3k .. 3k+2. */
  function Pack(f: FselReg): (w: word)
    requires WfFsel(f)
  {
    (f.fields[0] as word) | (f.fields[1] as word << 3) | (f.fields[2] as word << 6)
    | (f.fields[3] as word << 9) | (f.fields[4] as word << 12) | (f.fields[5] as word << 15)
    | (f.fields[6] as word << 18) | (f.fields[7] as word << 21) | (f.fields[8] as word << 24)
    | (f.fields[9] as word << 27) | (f.reserved as word << 30)
  }

  /** The bit-fields of a 32-bit GPFSEL value. */
  function Unpack(w: word): (f: FselReg)
    ensures WfFsel(f)
  {
    FselReg([(w & 7) as bv3, ((w >> 3) & 7) as bv3, ((w >> 6) & 7) as bv3, ((w >> 9) & 7) as bv3,
             ((w >> 12) & 7) as bv3, ((w >> 15) & 7) as bv3, ((w >> 18) & 7) as bv3,
             ((w >> 21) & 7) as bv3, ((w >> 24) & 7) as bv3, ((w >> 27) & 7) as bv3],
            (w >> 30) as bv2)
  }

  /** The bit-fields cover the whole register: unpacking then packing is the identity. */
  lemma PackUnpack(w: word)
    ensures Pack(Unpack(w)) == w
  {
  }

  /** ... and packing then unpacking is the identity: the fields do not overlap. */
  lemma UnpackPack(f: FselReg)
    requires WfFsel(f)
    ensures Unpack(Pack(f)) == f
  {
    var a := f.fields;
    var u := Unpack(Pack(f));
    LowFields(f);
    HighFields(f);
    assert u.fields == a;
  }

  /** Fields 0 to 4 read back from the packed word. */
  lemma LowFields(f: FselReg)
    requires WfFsel(f)
    ensures var u := Unpack(Pack(f));
            u.fields[0] == f.fields[0] && u.fields[1] == f.fields[1] && u.fields[2] == f.fields[2]
            && u.fields[3] == f.fields[3] && u.fields[4] == f.fields[4]
  {
    var a := f.fields;
    FieldsOfPacked(a[0], a[1], a[2], a[3], a[4], a[5], a[6], a[7], a[8], a[9], f.reserved);
  }

  /** Fields 5 to 9 and the reserved bits read back from the packed word. */
  lemma HighFields(f: FselReg)
    requires WfFsel(f)
    ensures var u := Unpack(Pack(f));
            u.fields[5] == f.fields[5] && u.fields[6] == f.fields[6] && u.fields[7] == f.fields[7]
            && u.fields[8] == f.fields[8] && u.fields[9] == f.fields[9] && u.reserved == f.reserved
  {
    var a := f.fields;
    FieldsOfPacked(a[0], a[1], a[2], a[3], a[4], a[5], a[6], a[7], a[8], a[9], f.reserved);
  }

  /** Each field and the reserved bits read back from the packed word. */
  lemma FieldsOfPacked(a0: bv3, a1: bv3, a2: bv3, a3: bv3, a4: bv3, a5: bv3, a6: bv3, a7: bv3, a8: bv3, a9: bv3, rs: bv2)
    ensures var w := (a0 as word) | (a1 as word << 3) | (a2 as word << 6) | (a3 as word << 9) | (a4 as word << 12)
                     | (a5 as word << 15) | (a6 as word << 18) | (a7 as word << 21) | (a8 as word << 24)
                     | (a9 as word << 27) | (rs as word << 30);
            (w & 7) as bv3 == a0 && ((w >> 3) & 7) as bv3 == a1 && ((w >> 6) & 7) as bv3 == a2
            && ((w >> 9) & 7) as bv3 == a3 && ((w >> 12) & 7) as bv3 == a4 && ((w >> 15) & 7) as bv3 == a5
            && ((w >> 18) & 7) as bv3 == a6 && ((w >> 21) & 7) as bv3 == a7 && ((w >> 24) & 7) as bv3 == a8
            && ((w >> 27) & 7) as bv3 == a9 && (w >> 30) as bv2 == rs
  {
  }

  /**
   * The registers the driver uses: GPFSEL0..5, and the level bits of
   * GPLEV0..1, one per GPIO line.
   */
  datatype Regs = Regs(fsel: seq<FselReg>, lev: seq<seq<bool>>)

  predicate ValidRegs(r: Regs)
  {
    |r.fsel| == 6 && |r.lev| == 2
    && (forall i :: 0 <= i < 6 ==> WfFsel(r.fsel[i]))
    && (forall i :: 0 <= i < 2 ==> |r.lev[i]| == 32)
  }

  /**
   * A store: a value into bit-field slot of GPFSEL(bank), or 1 << slot
   * into GPSET(bank) or GPCLR(bank).
   */
  datatype Store = FieldStore(bank: nat, slot: nat, value: bv3) | Set(bank: nat, slot: nat) | Clr(bank: nat, slot: nat)

  /** The effect of a store: the field takes the value; a set line rises, a cleared line falls. */
  function Apply(r: Regs, s: Store): (r': Regs)
    requires ValidRegs(r)
    ensures ValidRegs(r')
  {
    match s
    case FieldStore(bank, slot, v) =>
      if bank < 6 && slot < 10 then r.(fsel := r.fsel[bank := r.fsel[bank].(fields := r.fsel[bank].fields[slot := v])])
      else r
    case Set(bank, slot) => if bank < 2 && slot < 32 then r.(lev := r.lev[bank := r.lev[bank][slot := true]]) else r
    case Clr(bank, slot) => if bank < 2 && slot < 32 then r.(lev := r.lev[bank := r.lev[bank][slot := false]]) else r
  }

  /** A run of stores. */
  function ApplyAll(r: Regs, ss: seq<Store>): (r': Regs)
    requires ValidRegs(r)
    ensures ValidRegs(r')
    decreases |ss|
  {
    if ss == [] then r else ApplyAll(Apply(r, ss[0]), ss[1..])
  }

  /** One store. */
  lemma ApplyOne(r: Regs, a: Store)
    requires ValidRegs(r)
    ensures ApplyAll(r, [a]) == Apply(r, a)
  {
    assert [a][1..] == [];
  }

  /** Two stores in a row. */
  lemma ApplyTwo(r: Regs, a: Store, b: Store)
    requires ValidRegs(r)
    ensures ApplyAll(r, [a, b]) == Apply(Apply(r, a), b)
  {
    assert [a, b][1..] == [b];
    ApplyOne(Apply(r, a), b);
  }

  /**
   * selectFunction: pins outside the table and unmapped pins are
   * ignored; otherwise field g % 10 of GPFSEL(g / 10), for the GPIO line
   * g, is stored 0 and then func & 7.
   */
  function SelectFunction(b: Board, pin: nat, func: byte): (stores: seq<Store>)
    requires ValidBoard(b)
    ensures !Mapped(b, pin) ==> stores == []
    ensures Mapped(b, pin) ==>
              |stores| == 2 && stores[0].FieldStore? && stores[1].FieldStore?
              && stores[0].value == 0 && stores[1].value == (func & 7) as bv3
              && stores[0].bank == stores[1].bank < 6 && stores[0].slot == stores[1].slot < 10
  {
    if !Mapped(b, pin) then []
    else
      var g := PinNumber(b, pin);
      [FieldStore(g / 10, g % 10, 0), FieldStore(g / 10, g % 10, (func & 7) as bv3)]
  }

  /** The function a pin is selected to: its field. */
  function Function(b: Board, r: Regs, pin: nat): bv3
    requires ValidBoard(b) && ValidRegs(r) && Mapped(b, pin)
  {
    r.fsel[PinNumber(b, pin) / 10].fields[PinNumber(b, pin) % 10]
  }

  /** Distinct GPIO lines in one bank of width n have distinct slots. */
  lemma DistinctSlots(g: nat, h: nat, n: nat)
    requires 0 < n && g != h && g / n == h / n
    ensures g % n != h % n
  {
    ModUnique(g, n, g / n, g % n);
    ModUnique(h, n, h / n, h % n);
  }

  /**
   * After selectFunction the pin reads back func & 7; every pin on
   * another GPIO line keeps its function, the reserved bits and the
   * levels stay. An ignored pin changes nothing.
   */
  lemma SelectFunctionSelects(b: Board, r: Regs, pin: nat, func: byte, other: nat)
    requires ValidBoard(b) && ValidRegs(r)
    ensures var r' := ApplyAll(r, SelectFunction(b, pin, func));
            r'.lev == r.lev
            && (forall i :: 0 <= i < 6 ==> r'.fsel[i].reserved == r.fsel[i].reserved)
            && (!Mapped(b, pin) ==> r' == r)
            && (Mapped(b, pin) ==> Function(b, r', pin) == (func & 7) as bv3)
            && (Mapped(b, other) && (!Mapped(b, pin) || PinNumber(b, other) != PinNumber(b, pin)) ==>
                  Function(b, r', other) == Function(b, r, other))
  {
    var ss := SelectFunction(b, pin, func);
    if Mapped(b, pin) {
      ApplyTwo(r, ss[0], ss[1]);
      if Mapped(b, other) {
        var g := PinNumber(b, pin);
        var h := PinNumber(b, other);
        if h != g && h / 10 == g / 10 {
          DistinctSlots(g, h, 10);
        }
      }
    }
  }

  /** pinMode: OUTPUT and INPUT select the output and input functions; other modes store nothing. */
  function PinMode(b: Board, pin: nat, mode: byte): (stores: seq<Store>)
    requires ValidBoard(b)
    ensures mode == OUTPUT ==> stores == SelectFunction(b, pin, FSEL_OUTP)
    ensures mode == INPUT ==> stores == SelectFunction(b, pin, FSEL_INPT)
    ensures mode != OUTPUT && mode != INPUT ==> stores == []
  {
    if mode == OUTPUT then SelectFunction(b, pin, FSEL_OUTP)
    else if mode == INPUT then SelectFunction(b, pin, FSEL_INPT)
    else []
  }

  /** A mapped pin set to OUTPUT or INPUT reads back FSEL_OUTP or FSEL_INPT. */
  lemma PinModeSelects(b: Board, r: Regs, pin: nat, mode: byte)
    requires ValidBoard(b) && ValidRegs(r) && Mapped(b, pin)
    ensures mode == OUTPUT ==> Function(b, ApplyAll(r, PinMode(b, pin, mode)), pin) == FSEL_OUTP as bv3
    ensures mode == INPUT ==> Function(b, ApplyAll(r, PinMode(b, pin, mode)), pin) == FSEL_INPT as bv3
    ensures mode != OUTPUT && mode != INPUT ==> ApplyAll(r, PinMode(b, pin, mode)) == r
  {
    SelectFunctionSelects(b, r, pin, FSEL_OUTP, pin);
    SelectFunctionSelects(b, r, pin, FSEL_INPT, pin);
  }

  /** digitalWrite: 1 << (g % 32) into GPCLR(g / 32) for LOW and into GPSET(g / 32) otherwise. */
  function DigitalWrite(b: Board, pin: nat, level: byte): (stores: seq<Store>)
    requires ValidBoard(b)
    ensures !Mapped(b, pin) ==> stores == []
    ensures Mapped(b, pin) ==>
              |stores| == 1 && (stores[0].Clr? <==> level == LOW)
              && stores[0].bank < 2 && stores[0].slot < 32
              && stores[0].bank * 32 + stores[0].slot == PinNumber(b, pin)
  {
    if !Mapped(b, pin) then []
    else
      var g := PinNumber(b, pin);
      if level == LOW then [Clr(g / 32, g % 32)] else [Set(g / 32, g % 32)]
  }

  /** digitalRead: 0 for ignored pins, otherwise HIGH exactly when bit g % 32 of GPLEV(g / 32) is set. */
  function DigitalRead(b: Board, r: Regs, pin: nat): (level: byte)
    requires ValidBoard(b) && ValidRegs(r)
    ensures level == LOW || level == HIGH
    ensures !Mapped(b, pin) ==> level == LOW
  {
    if !Mapped(b, pin) then LOW
    else
      var g := PinNumber(b, pin);
      if r.lev[g / 32][g % 32] then HIGH else LOW
  }

  /**
   * digitalWrite then digitalRead: the pin reads back LOW after a LOW
   * write and HIGH after any other level; pins on other GPIO lines read
   * as before, and no function changes.
   */
  lemma WriteThenRead(b: Board, r: Regs, pin: nat, level: byte, other: nat)
    requires ValidBoard(b) && ValidRegs(r) && Mapped(b, pin)
    ensures var r' := ApplyAll(r, DigitalWrite(b, pin, level));
            DigitalRead(b, r', pin) == (if level == LOW then LOW else HIGH)
            && r'.fsel == r.fsel
            && (PinNumber(b, other) != PinNumber(b, pin) ==> DigitalRead(b, r', other) == DigitalRead(b, r, other))
  {
    var g := PinNumber(b, pin);
    var ss := DigitalWrite(b, pin, level);
    assert ApplyAll(r, ss) == Apply(r, ss[0]) by {
      assert ss[1..] == [];
    }
    if Mapped(b, other) {
      var h := PinNumber(b, other);
      if h != g && h / 32 == g / 32 {
        DistinctSlots(g, h, 32);
      }
    }
  }

  /** A call the bit-serial routines make: a digitalWrite or a digitalRead. */
  datatype Call = Write(pin: nat, level: byte) | Read(pin: nat)

  /** The bit of val sent or received at step i: bit i for LSBFIRST, bit 7 - i otherwise. */
  function BitIndex(order: byte, i: nat): (k: nat)
    requires i < 8
    ensures k < 8
  {
    if order == LSBFIRST then i else 7 - i
  }

  /** Distinct steps address distinct bits. */
  lemma IndexDistinct(order: byte, i: nat, j: nat)
    requires i < 8 && j < 8
    ensures BitIndex(order, i) == BitIndex(order, j) <==> i == j
  {
  }

  /** The data pin write of step i of shiftOut. */
  function DataWrite(dataPin: nat, order: byte, val: byte, i: nat): Call
    requires i < 8
  {
    Write(dataPin, if HasBit(val, BitIndex(order, i)) then HIGH else LOW)
  }

  /** shiftOut: eight data bits, each followed by the clock taken HIGH then LOW. */
  function ShiftOut(dataPin: nat, clockPin: nat, order: byte, val: byte): (calls: seq<Call>)
    ensures |calls| == 24
    ensures forall i :: 0 <= i < 8 ==>
              calls[3 * i] == DataWrite(dataPin, order, val, i)
              && calls[3 * i + 1] == Write(clockPin, HIGH) && calls[3 * i + 2] == Write(clockPin, LOW)
  {
    ShiftOutSteps(dataPin, clockPin, order, val, 8);
    ShiftOutUpTo(dataPin, clockPin, order, val, 8)
  }

  /** The calls of the first n steps of shiftOut. */
  function ShiftOutUpTo(dataPin: nat, clockPin: nat, order: byte, val: byte, n: nat): (calls: seq<Call>)
    requires n <= 8
    ensures |calls| == 3 * n
  {
    if n == 0 then []
    else ShiftOutUpTo(dataPin, clockPin, order, val, n - 1)
         + [DataWrite(dataPin, order, val, n - 1), Write(clockPin, HIGH), Write(clockPin, LOW)]
  }

  /** Step j of shiftOut occupies calls 3j, 3j + 1 and 3j + 2. */
  lemma {:induction false} ShiftOutSteps(dataPin: nat, clockPin: nat, order: byte, val: byte, n: nat)
    requires n <= 8
    ensures var calls := ShiftOutUpTo(dataPin, clockPin, order, val, n);
            forall j :: 0 <= j < n ==>
              calls[3 * j] == DataWrite(dataPin, order, val, j)
              && calls[3 * j + 1] == Write(clockPin, HIGH) && calls[3 * j + 2] == Write(clockPin, LOW)
  {
    if n > 0 {
      ShiftOutSteps(dataPin, clockPin, order, val, n - 1);
    }
  }

  /** The three calls of a step of shiftIn: the clock HIGH, the data pin read, the clock LOW. */
  function InStep(dataPin: nat, clockPin: nat): (calls: seq<Call>)
  {
    [Write(clockPin, HIGH), Read(dataPin), Write(clockPin, LOW)]
  }

  /** n steps of shiftIn. */
  function InSteps(dataPin: nat, clockPin: nat, n: nat): (calls: seq<Call>)
    ensures |calls| == 3 * n
  {
    if n == 0 then [] else InSteps(dataPin, clockPin, n - 1) + InStep(dataPin, clockPin)
  }

  /**
   * shiftIn with the levels read from the data pin, one per step: the
   * value has bit i (LSBFIRST) or bit 7 - i (otherwise) set exactly when
   * read i is HIGH; each read is framed by the clock taken HIGH then LOW.
   */
  method ShiftIn(dataPin: nat, clockPin: nat, order: byte, levels: seq<bool>) returns (value: byte, calls: seq<Call>)
    requires |levels| == 8
    ensures forall i :: 0 <= i < 8 ==> HasBit(value, BitIndex(order, i)) == levels[i]
    ensures calls == InSteps(dataPin, clockPin, 8)
  {
    value := 0;
    calls := [];
    var i := 0;
    while i < 8
      invariant 0 <= i <= 8
      invariant Assembled(value, order, levels, i)
      invariant calls == InSteps(dataPin, clockPin, i)
    {
      var bit: byte := if levels[i] then HIGH else LOW;
      AssembleStep(value, order, levels, i);
      value := value | (if bit == HIGH then Bit(BitIndex(order, i)) else 0);
      calls := calls + [Write(clockPin, HIGH), Read(dataPin), Write(clockPin, LOW)];
      i := i + 1;
    }
  }

  /** After i steps of shiftIn, the bits of the first i reads are in place and the rest are clear. */
  predicate Assembled(value: byte, order: byte, levels: seq<bool>, i: nat)
    requires |levels| == 8
  {
    forall j :: 0 <= j < 8 ==> HasBit(value, BitIndex(order, j)) == (j < i && levels[j])
  }

  /** A step of shiftIn or-s in the bit of its read. */
  lemma AssembleStep(value: byte, order: byte, levels: seq<bool>, i: nat)
    requires |levels| == 8 && i < 8 && Assembled(value, order, levels, i)
    ensures Assembled(value | (if levels[i] then Bit(BitIndex(order, i)) else 0), order, levels, i + 1)
  {
    var value' := value | (if levels[i] then Bit(BitIndex(order, i)) else 0);
    forall j | 0 <= j < 8
      ensures HasBit(value', BitIndex(order, j)) == (j < i + 1 && levels[j])
    {
      AssembleBit(value, value', order, levels[i], i, j);
    }
  }

  /** Or-ing in the bit of step i when high changes the bit of step i only. */
  lemma AssembleBit(value: byte, value': byte, order: byte, high: bool, i: nat, j: nat)
    requires i < 8 && j < 8
    requires value' == value | (if high then Bit(BitIndex(order, i)) else 0)
    ensures HasBit(value', BitIndex(order, j)) == (HasBit(value, BitIndex(order, j)) || (high && i == j))
  {
    IndexDistinct(order, i, j);
    if high {
      OrBit(value, BitIndex(order, i), BitIndex(order, j));
    } else {
      assert value' == value;
    }
  }

  /** The levels written to the data pin, in order. */
  function DataLevels(calls: seq<Call>): (bits: seq<bool>)
    requires |calls| == 24
    ensures |bits| == 8
  {
    seq(8, i requires 0 <= i < 8 => calls[3 * i].Write? && calls[3 * i].level == HIGH)
  }

  /** shiftOut puts bit i (LSBFIRST) or bit 7 - i (otherwise) of the value on the data pin at step i. */
  lemma ShiftOutLevels(dataPin: nat, clockPin: nat, order: byte, val: byte)
    ensures var bits := DataLevels(ShiftOut(dataPin, clockPin, order, val));
            forall i :: 0 <= i < 8 ==> bits[i] == HasBit(val, BitIndex(order, i))
  {
    forall i | 0 <= i < 8
      ensures DataLevels(ShiftOut(dataPin, clockPin, order, val))[i] == HasBit(val, BitIndex(order, i))
    {
      ShiftOutLevel(dataPin, clockPin, order, val, i);
    }
  }

  /** The data level of step i of shiftOut. */
  lemma ShiftOutLevel(dataPin: nat, clockPin: nat, order: byte, val: byte, i: nat)
    requires i < 8
    ensures DataLevels(ShiftOut(dataPin, clockPin, order, val))[i] == HasBit(val, BitIndex(order, i))
  {
  }

  /** shiftIn over the levels shiftOut put on the data pin, in the same bit order, returns the value sent. */
  method ShiftRoundTrip(dataPin: nat, clockPin: nat, order: byte, val: byte) returns (got: byte)
    ensures got == val
  {
    var bits := DataLevels(ShiftOut(dataPin, clockPin, order, val));
    ShiftOutLevels(dataPin, clockPin, order, val);
    var calls;
    got, calls := ShiftIn(dataPin, clockPin, order, bits);
    forall k | 0 <= k < 8
      ensures HasBit(got, k) == HasBit(val, k)
    {
      var i := BitIndex(order, k);
      assert BitIndex(order, i) == k;
      assert HasBit(got, BitIndex(order, i)) == bits[i];
    }
    ByteExt(got, val);
  }
}
