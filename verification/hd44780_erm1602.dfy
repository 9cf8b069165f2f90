/**
 * The ERM1602-5 adapter: a serial display module in 8-bit mode. Each
 * write is one transaction framed by EN (chip select) clear and set; the
 * module's data register is selected by a function set with the extended
 * bit, after which every data write is preceded by a length instruction.
 * The adapter defers the function set until the next write (m_dirty) and
 * cancels it when the register select is switched back first.
 *
 * The partner is a model of the module's serial receiver: it tracks the
 * selected register and the number of data bytes still expected, and
 * sorts every received byte into instructions or display data.
 */
module HD44780Erm1602 {
  import opened Common
  import opened HD44780

  /** The module reports 8-bit mode to the driver (setup returns true). */
  const SETUP_8BIT: bool := true

  /** The adapter state: m_rs (0 instruction, 1 data) and m_dirty. */
  datatype Erm = Erm(rs: byte, dirty: bool)

  /** The constructor: instruction register, nothing pending. */
  function Create(): (e: Erm)
    ensures e.rs == 0 && !e.dirty
  {
    Erm(0, false)
  }

  /** The function set the adapter sends when dirty: 8-bit, two lines, extended for the data register. */
  function FunctionSet(rs: byte): (r: byte)
    ensures r == if rs != 0 then 0x3c else 0x38
  {
    var func := FUNCTION_SET | DATA_LENGTH_8BITS | NR_LINES_2;
    if rs != 0 then func | EXTENDED_SET else func
  }

  /** The pending function set, if any, and the state after it was sent. */
  function Prefix(e: Erm): (r: (seq<byte>, Erm))
    ensures !r.1.dirty && r.1.rs == e.rs
    ensures r.0 == if e.dirty then [FunctionSet(e.rs)] else []
  {
    if e.dirty then ([FunctionSet(e.rs)], e.(dirty := false)) else ([], e)
  }

  /** write8b: the pending function set, the length instruction 0x80 in data mode, then the byte. */
  function Write8b(e: Erm, data: byte): (r: (Erm, seq<byte>))
    ensures !r.0.dirty && r.0.rs == e.rs
    ensures |r.1| == (if e.dirty then 1 else 0) + (if e.rs != 0 then 1 else 0) + 1
    ensures r.1[|r.1| - 1] == data
  {
    var (pre, e1) := Prefix(e);
    (e1, pre + (if e.rs != 0 then [SET_DDATA_LENGTH] else []) + [data])
  }

  /** write4b: the module has no 4-bit mode; the nibble goes out as write8b. */
  function Write4b(e: Erm, data: byte): (r: (Erm, seq<byte>))
    ensures r == Write8b(e, data)
  {
    Write8b(e, data)
  }

  /** The length instruction of write8n: (size - 1) under the 7-bit mask. */
  function LengthInstruction(size: nat): (r: byte)
    requires 0 < size
    ensures r & 0x80 == 0x80
    ensures 0 < size <= 128 ==> (r & 0x7f) as nat == size - 1
  {
    var n := ((size - 1) % 256) as byte;
    LengthBits(n);
    SET_DDATA_LENGTH | (n & SET_DDATA_MASK)
  }

  /** The length bit is set, and a length below 128 survives the mask. */
  lemma LengthBits(n: byte)
    ensures (SET_DDATA_LENGTH | (n & SET_DDATA_MASK)) & 0x80 == 0x80
    ensures n < 0x80 ==> (SET_DDATA_LENGTH | (n & SET_DDATA_MASK)) & 0x7f == n
  {
  }

  /**
   * write8n: nothing at all for an empty buffer; otherwise one
   * transaction with the pending function set, the length instruction in
   * data mode, and the bytes.
   */
  function Write8n(e: Erm, bs: seq<byte>): (r: (Erm, seq<byte>))
    ensures bs == [] ==> r == (e, [])
    ensures bs != [] ==> !r.0.dirty && r.0.rs == e.rs && |r.1| >= |bs| && r.1[|r.1| - |bs|..] == bs
  {
    if bs == [] then (e, [])
    else
      var (pre, e1) := Prefix(e);
      (e1, pre + (if e.rs != 0 then [LengthInstruction(|bs|)] else []) + bs)
  }

  /** set_mode: a repeated flag is ignored; a change flips m_dirty, so switching back cancels it. */
  function SetMode(e: Erm, flag: byte): (r: Erm)
    ensures r.rs == flag
    ensures e.rs == flag ==> r == e
    ensures e.rs != flag ==> r.dirty == !e.dirty
  {
    if e.rs == flag then e else Erm(flag, !e.dirty)
  }

  /** Two mode switches that return to the current flag leave the state as it was. */
  lemma SwitchBackCancels(e: Erm, flag: byte)
    ensures SetMode(SetMode(e, flag), e.rs) == e
  {
  }

  // ---- The module's receiver ----

  /**
   * The module: whether the data register is selected (ext), the number
   * of data bytes still expected, and the instructions and display data
   * received so far.
   */
  datatype Module = Module(ext: bool, pending: nat, instrs: seq<byte>, data: seq<byte>)

  /** An instruction byte of the function set group. */
  predicate IsFunctionSet(b: byte)
  {
    b & 0xe0 == FUNCTION_SET
  }

  /** One byte at the module. */
  function Receive(m: Module, b: byte): Module
  {
    if m.pending > 0 then m.(pending := m.pending - 1, data := m.data + [b])
    else if IsFunctionSet(b) then m.(ext := b & EXTENDED_SET != 0, instrs := m.instrs + [b])
    else if m.ext && b & SET_DDATA_LENGTH != 0 then m.(pending := (b & SET_DDATA_MASK) as nat + 1)
    else m.(instrs := m.instrs + [b])
  }

  /** A sequence of bytes at the module. */
  function Feed(m: Module, bs: seq<byte>): Module
    decreases |bs|
  {
    if bs == [] then m else Feed(Receive(m, bs[0]), bs[1..])
  }

  lemma {:induction false} FeedAppend(m: Module, a: seq<byte>, b: seq<byte>)
    ensures Feed(m, a + b) == Feed(Feed(m, a), b)
    decreases |a|
  {
    if a == [] {
      assert a + b == b;
    } else {
      assert (a + b)[0] == a[0];
      assert (a + b)[1..] == a[1..] + b;
      FeedAppend(Receive(m, a[0]), a[1..], b);
    }
  }

  /** Expected data bytes are taken as display data, whatever their value. */
  lemma {:induction false} FeedData(m: Module, bs: seq<byte>)
    requires m.pending >= |bs|
    ensures Feed(m, bs) == m.(pending := m.pending - |bs|, data := m.data + bs)
    decreases |bs|
  {
    if bs != [] {
      FeedData(Receive(m, bs[0]), bs[1..]);
      assert m.data + [bs[0]] + bs[1..] == m.data + bs;
    }
  }

  /** An instruction that does not select the data register. */
  predicate PlainInstruction(b: byte)
  {
    !(IsFunctionSet(b) && b & EXTENDED_SET != 0)
  }

  /** In instruction mode, plain instructions are received as instructions and keep the mode. */
  lemma {:induction false} FeedInstructions(m: Module, bs: seq<byte>)
    requires !m.ext && m.pending == 0
    requires forall i :: 0 <= i < |bs| ==> PlainInstruction(bs[i])
    ensures Feed(m, bs) == m.(instrs := m.instrs + bs)
    decreases |bs|
  {
    if bs != [] {
      FeedInstructions(Receive(m, bs[0]), bs[1..]);
      assert m.instrs + [bs[0]] + bs[1..] == m.instrs + bs;
    }
  }

  /** The adapter and the module agree: m_dirty is set exactly when m_rs differs from the module's register. */
  predicate InSync(e: Erm, m: Module)
  {
    (e.rs == 0 || e.rs == 1) && e.dirty == ((e.rs == 1) != m.ext) && m.pending == 0
  }

  /** set_mode with the flags the driver passes keeps the adapter in sync; nothing is sent. */
  lemma SetModeKeepsSync(e: Erm, m: Module, flag: byte)
    requires InSync(e, m) && (flag == 0 || flag == 1)
    ensures InSync(SetMode(e, flag), m)
  {
  }

  /** The module after the pending function set. */
  lemma PrefixSelects(e: Erm, m: Module, rest: seq<byte>)
    requires InSync(e, m)
    ensures var p := Prefix(e);
            Feed(m, p.0 + rest) == Feed(m.(ext := e.rs == 1, instrs := m.instrs + p.0), rest)
  {
    var p := Prefix(e);
    var ma := m.(ext := e.rs == 1, instrs := m.instrs + p.0);
    if e.dirty {
      var f := FunctionSet(e.rs);
      assert (p.0 + rest)[0] == f;
      assert (p.0 + rest)[1..] == rest;
      assert IsFunctionSet(f) && (f & EXTENDED_SET != 0 <==> e.rs == 1);
      assert Receive(m, f) == ma;
    } else {
      assert p.0 + rest == rest;
      assert m.instrs + p.0 == m.instrs;
      assert ma == m;
    }
  }

  /**
   * In sync, write8n of 1 to 128 bytes delivers the buffer: in data mode
   * all bytes arrive as display data, in instruction mode as instructions
   * after the pending function set; afterwards the module's register
   * matches m_rs and the adapter is in sync again.
   */
  lemma Write8nDelivers(e: Erm, m: Module, bs: seq<byte>)
    requires InSync(e, m) && 0 < |bs| <= 128
    requires e.rs == 0 ==> forall i :: 0 <= i < |bs| ==> PlainInstruction(bs[i])
    ensures var w := Write8n(e, bs);
            var m1 := Feed(m, w.1);
            InSync(w.0, m1) && m1.ext == (e.rs == 1)
            && (e.rs == 1 ==> m1.data == m.data + bs
                              && m1.instrs == m.instrs + Prefix(e).0)
            && (e.rs == 0 ==> m1.data == m.data
                              && m1.instrs == m.instrs + Prefix(e).0 + bs)
  {
    var p := Prefix(e);
    var ma := m.(ext := e.rs == 1, instrs := m.instrs + p.0);
    if e.rs == 1 {
      var len := LengthInstruction(|bs|);
      var w := Write8n(e, bs);
      assert w.1 == p.0 + ([len] + bs);
      PrefixSelects(e, m, [len] + bs);
      var mb := Receive(ma, len);
      assert mb == ma.(pending := |bs|);
      assert ([len] + bs)[1..] == bs;
      FeedData(mb, bs);
    } else {
      var w := Write8n(e, bs);
      assert w.1 == p.0 + bs;
      PrefixSelects(e, m, bs);
      FeedInstructions(ma, bs);
    }
  }

  /** In sync, write8b delivers its byte the same way, as one byte of display data or one instruction. */
  lemma Write8bDelivers(e: Erm, m: Module, data: byte)
    requires InSync(e, m)
    requires e.rs == 0 ==> PlainInstruction(data)
    ensures var w := Write8b(e, data);
            var m1 := Feed(m, w.1);
            InSync(w.0, m1)
            && (e.rs == 1 ==> m1.data == m.data + [data] && m1.instrs == m.instrs + Prefix(e).0)
            && (e.rs == 0 ==> m1.data == m.data && m1.instrs == m.instrs + Prefix(e).0 + [data])
  {
    assert Write8b(e, data) == Write8n(e, [data]);
    Write8nDelivers(e, m, [data]);
  }

  /** Above 128 bytes the 7-bit length field wraps: the module expects fewer bytes than are sent. */
  lemma LongBufferLength(e: Erm, bs: seq<byte>)
    requires e.rs == 1 && |bs| == 129
    ensures LengthInstruction(|bs|) & 0x7f == 0
  {
  }
}
