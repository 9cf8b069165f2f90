/**
 * The Canvas display-script interpreter (Canvas::run). A script is a
 * byte program in a table of program-memory entries; the interpreter
 * reads an opcode and its operand bytes, makes the corresponding Canvas
 * call and continues until END_SCRIPT, an unknown opcode, or a table
 * index operand that is not below the table size. CALL_SCRIPT runs
 * another entry of the table as a script and then continues.
 *
 * The calls are collected as a trace. Reading past the end of an entry
 * (where the source would read whatever follows in program memory) and
 * a call nesting deeper than the fuel given are reported as outcomes of
 * their own.
 */
module CanvasScript {
  import opened Common
  import opened Canvas

  // Opcodes, numbered in the order of the script instruction enumeration.
  const END_SCRIPT: u8 := 0
  const CALL_SCRIPT: u8 := 1
  const SET_CANVAS_COLOR: u8 := 2
  const SET_PEN_COLOR: u8 := 3
  const SET_TEXT_COLOR: u8 := 4
  const SET_TEXT_SCALE: u8 := 5
  const SET_TEXT_FONT: u8 := 6
  const SET_CURSOR: u8 := 7
  const MOVE_CURSOR: u8 := 8
  const DRAW_BITMAP: u8 := 9
  const DRAW_ICON: u8 := 10
  const DRAW_PIXEL: u8 := 11
  const DRAW_LINE: u8 := 12
  const DRAW_POLY: u8 := 13
  const DRAW_STROKE: u8 := 14
  const DRAW_RECT: u8 := 15
  const FILL_RECT: u8 := 16
  const DRAW_ROUNDRECT: u8 := 17
  const FILL_ROUNDRECT: u8 := 18
  const DRAW_CIRCLE: u8 := 19
  const FILL_CIRCLE: u8 := 20
  const DRAW_CHAR: u8 := 21
  const DRAW_STRING: u8 := 22
  const FILL_SCREEN: u8 := 23

  /** A Canvas call made by a script; table operands are entry indices. */
  datatype Call =
    | SetCanvasColor(r: u8, g: u8, b: u8)
    | SetPenColor(r: u8, g: u8, b: u8)
    | SetTextColor(r: u8, g: u8, b: u8)
    | SetTextScale(scale: u8)
    | SetTextFont(ix: u8)
    | SetCursor(x: u8, y: u8)
    | MoveCursor(dx: u8, dy: u8)
    | DrawBitmap(ix: u8, width: u8, height: u8, scale: u8)
    | DrawIcon(ix: u8, scale: u8)
    | DrawPixel
    | DrawLine(x: u8, y: u8)
    | DrawPoly(ix: u8, scale: u8)
    | DrawStroke(ix: u8, scale: u8)
    | DrawRect(width: u8, height: u8)
    | FillRect(width: u8, height: u8)
    | DrawRoundRect(width: u8, height: u8, radius: u8)
    | FillRoundRect(width: u8, height: u8, radius: u8)
    | DrawCircle(radius: u8)
    | FillCircle(radius: u8)
    | DrawChar(c: u8)
    | DrawString(ix: u8)
    | FillScreen

  /** How a script run ended. */
  datatype Stop =
    | Ended              // END_SCRIPT
    | Unknown(op: u8)    // an opcode the switch does not list
    | BadIndex           // a table index operand >= max
    | ReadPast           // an entry ended inside an instruction
    | OutOfFuel          // CALL_SCRIPT nested deeper than the fuel

  /** A run that the source would have completed: the others are not modelled. */
  predicate Returns(s: Stop)
  {
    s.Ended? || s.Unknown? || s.BadIndex?
  }

  /** An opcode of the switch other than END_SCRIPT. */
  predicate Known(op: u8)
  {
    CALL_SCRIPT <= op <= FILL_SCREEN
  }

  /** The opcodes whose first operand is a table index, checked against max. */
  predicate Indexed(op: u8)
  {
    op == CALL_SCRIPT || op == SET_TEXT_FONT || op == DRAW_BITMAP || op == DRAW_ICON
    || op == DRAW_POLY || op == DRAW_STROKE || op == DRAW_STRING
  }

  /** The number of operand bytes an opcode reads. */
  function Arity(op: u8): nat
  {
    if op == SET_CANVAS_COLOR || op == SET_PEN_COLOR || op == SET_TEXT_COLOR then 3
    else if op == DRAW_ROUNDRECT || op == FILL_ROUNDRECT then 3
    else if op == DRAW_BITMAP then 4
    else if op == SET_CURSOR || op == MOVE_CURSOR || op == DRAW_ICON || op == DRAW_LINE
            || op == DRAW_POLY || op == DRAW_STROKE || op == DRAW_RECT || op == FILL_RECT then 2
    else if op == DRAW_PIXEL || op == FILL_SCREEN || op == END_SCRIPT then 0
    else 1
  }

  /** The call an instruction other than END_SCRIPT and CALL_SCRIPT makes, operands in reading order. */
  function Decode(op: u8, a: seq<u8>): Call
    requires Known(op) && op != CALL_SCRIPT && |a| == Arity(op)
  {
    if op == SET_CANVAS_COLOR then SetCanvasColor(a[0], a[1], a[2])
    else if op == SET_PEN_COLOR then SetPenColor(a[0], a[1], a[2])
    else if op == SET_TEXT_COLOR then SetTextColor(a[0], a[1], a[2])
    else if op == SET_TEXT_SCALE then SetTextScale(a[0])
    else if op == SET_TEXT_FONT then SetTextFont(a[0])
    else if op == SET_CURSOR then SetCursor(a[0], a[1])
    else if op == MOVE_CURSOR then MoveCursor(a[0], a[1])
    else if op == DRAW_BITMAP then DrawBitmap(a[0], a[1], a[2], a[3])
    else if op == DRAW_ICON then DrawIcon(a[0], a[1])
    else if op == DRAW_PIXEL then DrawPixel
    else if op == DRAW_LINE then DrawLine(a[0], a[1])
    else if op == DRAW_POLY then DrawPoly(a[0], a[1])
    else if op == DRAW_STROKE then DrawStroke(a[0], a[1])
    else if op == DRAW_RECT then DrawRect(a[0], a[1])
    else if op == FILL_RECT then FillRect(a[0], a[1])
    else if op == DRAW_ROUNDRECT then DrawRoundRect(a[0], a[1], a[2])
    else if op == FILL_ROUNDRECT then FillRoundRect(a[0], a[1], a[2])
    else if op == DRAW_CIRCLE then DrawCircle(a[0])
    else if op == FILL_CIRCLE then FillCircle(a[0])
    else if op == DRAW_CHAR then DrawChar(a[0])
    else if op == DRAW_STRING then DrawString(a[0])
    else FillScreen
  }

  /**
   * run(ix, tab, max): nothing for ix >= max, otherwise entry ix executed
   * as a script. Every call made has its table operand below max.
   */
  function Run(tab: seq<seq<u8>>, max: u8, ix: u8, fuel: nat): (r: (seq<Call>, Stop))
    requires max as nat <= |tab|
    ensures forall k :: 0 <= k < |r.0| ==> InTable(r.0[k], max)
    decreases fuel, 1, 0
  {
    if ix >= max then ([], BadIndex) else Exec(tab, max, tab[ix], 0, fuel)
  }

  /**
   * The instruction loop of run, from byte ip of the script code. Every
   * call made, by this script or one it calls, has its table operand
   * below max.
   */
  function Exec(tab: seq<seq<u8>>, max: u8, code: seq<u8>, ip: nat, fuel: nat): (r: (seq<Call>, Stop))
    requires max as nat <= |tab|
    ensures forall k :: 0 <= k < |r.0| ==> InTable(r.0[k], max)
    decreases fuel, 0, |code| - ip
  {
    if ip >= |code| then ([], ReadPast)
    else
      var op := code[ip];
      if op == END_SCRIPT then ([], Ended)
      else if !Known(op) then ([], Unknown(op))
      else if Indexed(op) && ip + 1 < |code| && code[ip + 1] >= max then ([], BadIndex)
      else if ip + 1 + Arity(op) > |code| then ([], ReadPast)
      else if op == CALL_SCRIPT then
        if fuel == 0 then ([], OutOfFuel)
        else
          var inner := Run(tab, max, code[ip + 1], fuel - 1);
          if !Returns(inner.1) then inner
          else
            var rest := Exec(tab, max, code, ip + 2, fuel);
            (inner.0 + rest.0, rest.1)
      else
        var a := code[ip + 1 .. ip + 1 + Arity(op)];
        var rest := Exec(tab, max, code, ip + 1 + Arity(op), fuel);
        EncodeDecode(op, a);
        assert Indexed(op) ==> a[0] == code[ip + 1];
        ([Decode(op, a)] + rest.0, rest.1)
  }

  /** An instruction read by the interpreter encodes back to its own bytes. */
  lemma EncodeDecode(op: u8, a: seq<u8>)
    requires Known(op) && op != CALL_SCRIPT && |a| == Arity(op)
    ensures OpOf(Decode(op, a)) == op && OperandsOf(Decode(op, a)) == a
    ensures Encode(Decode(op, a)) == [op] + a
  {
  }

  /** The opcode of a call. */
  function OpOf(c: Call): (op: u8)
    ensures Known(op) && op != CALL_SCRIPT
  {
    match c
    case SetCanvasColor(_, _, _) => SET_CANVAS_COLOR
    case SetPenColor(_, _, _) => SET_PEN_COLOR
    case SetTextColor(_, _, _) => SET_TEXT_COLOR
    case SetTextScale(_) => SET_TEXT_SCALE
    case SetTextFont(_) => SET_TEXT_FONT
    case SetCursor(_, _) => SET_CURSOR
    case MoveCursor(_, _) => MOVE_CURSOR
    case DrawBitmap(_, _, _, _) => DRAW_BITMAP
    case DrawIcon(_, _) => DRAW_ICON
    case DrawPixel => DRAW_PIXEL
    case DrawLine(_, _) => DRAW_LINE
    case DrawPoly(_, _) => DRAW_POLY
    case DrawStroke(_, _) => DRAW_STROKE
    case DrawRect(_, _) => DRAW_RECT
    case FillRect(_, _) => FILL_RECT
    case DrawRoundRect(_, _, _) => DRAW_ROUNDRECT
    case FillRoundRect(_, _, _) => FILL_ROUNDRECT
    case DrawCircle(_) => DRAW_CIRCLE
    case FillCircle(_) => FILL_CIRCLE
    case DrawChar(_) => DRAW_CHAR
    case DrawString(_) => DRAW_STRING
    case FillScreen => FILL_SCREEN
  }

  /** The operand bytes of a call, in reading order. */
  function OperandsOf(c: Call): seq<u8>
  {
    match c
    case SetCanvasColor(r, g, b) => [r, g, b]
    case SetPenColor(r, g, b) => [r, g, b]
    case SetTextColor(r, g, b) => [r, g, b]
    case SetTextScale(s) => [s]
    case SetTextFont(ix) => [ix]
    case SetCursor(x, y) => [x, y]
    case MoveCursor(dx, dy) => [dx, dy]
    case DrawBitmap(ix, w, h, s) => [ix, w, h, s]
    case DrawIcon(ix, s) => [ix, s]
    case DrawPixel => []
    case DrawLine(x, y) => [x, y]
    case DrawPoly(ix, s) => [ix, s]
    case DrawStroke(ix, s) => [ix, s]
    case DrawRect(w, h) => [w, h]
    case FillRect(w, h) => [w, h]
    case DrawRoundRect(w, h, r) => [w, h, r]
    case FillRoundRect(w, h, r) => [w, h, r]
    case DrawCircle(r) => [r]
    case FillCircle(r) => [r]
    case DrawChar(ch) => [ch]
    case DrawString(ix) => [ix]
    case FillScreen => []
  }

  /** The instruction bytes of a call. */
  function Encode(c: Call): (r: seq<u8>)
    ensures |r| == 1 + Arity(OpOf(c)) && r[0] == OpOf(c)
  {
    [OpOf(c)] + OperandsOf(c)
  }

  /** Decoding an encoded call gives the call back. */
  lemma DecodeEncode(c: Call)
    ensures Decode(OpOf(c), Encode(c)[1..]) == c
  {
    assert Encode(c)[1..] == OperandsOf(c);
  }

  /** The bytes of a sequence of calls. */
  function Assemble(cs: seq<Call>): (r: seq<u8>)
    ensures |r| >= |cs|
  {
    if cs == [] then [] else Encode(cs[0]) + Assemble(cs[1..])
  }

  /** A call whose table operand, if any, is a valid index. */
  predicate InTable(c: Call, max: u8)
  {
    Indexed(OpOf(c)) ==> OperandsOf(c)[0] < max
  }

  /** An encoded call at ip makes that call and goes on after its bytes. */
  lemma StepCall(tab: seq<seq<u8>>, max: u8, code: seq<u8>, ip: nat, c: Call, fuel: nat)
    requires max as nat <= |tab| && InTable(c, max)
    requires ip + |Encode(c)| <= |code| && code[ip..ip + |Encode(c)|] == Encode(c)
    ensures Exec(tab, max, code, ip, fuel)
            == ([c] + Exec(tab, max, code, ip + |Encode(c)|, fuel).0, Exec(tab, max, code, ip + |Encode(c)|, fuel).1)
  {
    ReadsCall(max, code, ip, c);
    ExecPlain(tab, max, code, ip, fuel);
  }

  /** The bytes of an encoded call at ip are an instruction the loop decodes back to that call. */
  lemma ReadsCall(max: u8, code: seq<u8>, ip: nat, c: Call)
    requires InTable(c, max)
    requires ip + |Encode(c)| <= |code| && code[ip..ip + |Encode(c)|] == Encode(c)
    ensures ip < |code| && code[ip] == OpOf(c) && ip + 1 + Arity(code[ip]) == ip + |Encode(c)|
    ensures Indexed(code[ip]) ==> code[ip + 1] < max
    ensures Decode(code[ip], code[ip + 1 .. ip + 1 + Arity(code[ip])]) == c
  {
    var e := Encode(c);
    var op := OpOf(c);
    assert code[ip] == e[0] == op;
    var a := code[ip + 1 .. ip + 1 + Arity(op)];
    assert a == e[1..];
    assert Indexed(op) ==> code[ip + 1] == OperandsOf(c)[0] by {
      if Indexed(op) {
        assert e[1] == OperandsOf(c)[0];
      }
    }
    assert Decode(op, a) == c by {
      DecodeEncode(c);
    }
  }

  /** An instruction other than END_SCRIPT and CALL_SCRIPT, read in full and in table, is decoded and the loop goes on. */
  lemma ExecPlain(tab: seq<seq<u8>>, max: u8, code: seq<u8>, ip: nat, fuel: nat)
    requires max as nat <= |tab| && ip < |code|
    requires Known(code[ip]) && code[ip] != END_SCRIPT && code[ip] != CALL_SCRIPT
    requires ip + 1 + Arity(code[ip]) <= |code|
    requires Indexed(code[ip]) ==> code[ip + 1] < max
    ensures var op := code[ip];
            var rest := Exec(tab, max, code, ip + 1 + Arity(op), fuel);
            Exec(tab, max, code, ip, fuel) == ([Decode(op, code[ip + 1 .. ip + 1 + Arity(op)])] + rest.0, rest.1)
  {
  }

  /**
   * A script assembled from calls with valid table operands and ended by
   * END_SCRIPT makes exactly those calls and ends normally; the fuel is
   * not used.
   */
  lemma AssembledRuns(tab: seq<seq<u8>>, max: u8, cs: seq<Call>, pre: seq<u8>, fuel: nat)
    requires max as nat <= |tab|
    requires forall i :: 0 <= i < |cs| ==> InTable(cs[i], max)
    ensures Exec(tab, max, pre + Assemble(cs) + [END_SCRIPT], |pre|, fuel) == (cs, Ended)
  {
    AssembledIsAt(pre, cs);
    AssembledRunsAt(tab, max, pre + Assemble(cs) + [END_SCRIPT], |pre|, cs, fuel);
  }

  /** The encodings of cs one after another from ip, then END_SCRIPT. */
  predicate AssembledAt(code: seq<u8>, ip: nat, cs: seq<Call>)
    decreases |cs|
  {
    if cs == [] then ip < |code| && code[ip] == END_SCRIPT
    else
      var e := Encode(cs[0]);
      ip + |e| <= |code| && code[ip..ip + |e|] == e && AssembledAt(code, ip + |e|, cs[1..])
  }

  /** A prefix, the assembled calls and END_SCRIPT lay the calls out right after the prefix. */
  lemma {:induction false} AssembledIsAt(pre: seq<u8>, cs: seq<Call>)
    ensures AssembledAt(pre + Assemble(cs) + [END_SCRIPT], |pre|, cs)
    decreases |cs|
  {
    var code := pre + Assemble(cs) + [END_SCRIPT];
    if cs == [] {
      assert code[|pre|] == END_SCRIPT;
    } else {
      var e := Encode(cs[0]);
      var t := Assemble(cs[1..]);
      assert code == (pre + e) + t + [END_SCRIPT];
      assert code[|pre|..|pre| + |e|] == e;
      AssembledIsAt(pre + e, cs[1..]);
    }
  }

  /**
   * Calls laid out from ip, each with a valid table operand, make exactly
   * those calls and end at the END_SCRIPT after them.
   */
  lemma {:induction false} AssembledRunsAt(tab: seq<seq<u8>>, max: u8, code: seq<u8>, ip: nat, cs: seq<Call>, fuel: nat)
    requires max as nat <= |tab|
    requires forall i :: 0 <= i < |cs| ==> InTable(cs[i], max)
    requires AssembledAt(code, ip, cs)
    ensures Exec(tab, max, code, ip, fuel) == (cs, Ended)
    decreases |cs|
  {
    if cs == [] {
      EndAndUnknownStop(tab, max, code, ip, fuel);
    } else {
      AssembledRunsAt(tab, max, code, ip + |Encode(cs[0])|, cs[1..], fuel);
      StepThen(tab, max, code, ip, cs, fuel);
    }
  }

  /** The first of cs in front of a script that makes the rest of cs and ends. */
  lemma StepThen(tab: seq<seq<u8>>, max: u8, code: seq<u8>, ip: nat, cs: seq<Call>, fuel: nat)
    requires max as nat <= |tab| && cs != [] && InTable(cs[0], max)
    requires ip + |Encode(cs[0])| <= |code| && code[ip..ip + |Encode(cs[0])|] == Encode(cs[0])
    requires Exec(tab, max, code, ip + |Encode(cs[0])|, fuel) == (cs[1..], Ended)
    ensures Exec(tab, max, code, ip, fuel) == (cs, Ended)
  {
    StepCall(tab, max, code, ip, cs[0], fuel);
    assert [cs[0]] + cs[1..] == cs;
  }

  /** A script made of the assembled calls alone, run from the table, makes exactly those calls. */
  lemma RunAssembled(tab: seq<seq<u8>>, max: u8, ix: u8, cs: seq<Call>, fuel: nat)
    requires max as nat <= |tab| && ix < max
    requires tab[ix] == Assemble(cs) + [END_SCRIPT]
    requires forall i :: 0 <= i < |cs| ==> InTable(cs[i], max)
    ensures Run(tab, max, ix, fuel) == (cs, Ended)
  {
    AssembledRuns(tab, max, cs, [], fuel);
    assert [] + Assemble(cs) + [END_SCRIPT] == tab[ix];
  }

  /**
   * CALL_SCRIPT makes the calls of the called script and then goes on
   * with the caller, whichever way the called script returned.
   */
  lemma CallInlines(tab: seq<seq<u8>>, max: u8, code: seq<u8>, ip: nat, fuel: nat)
    requires max as nat <= |tab|
    requires ip + 1 < |code| && code[ip] == CALL_SCRIPT && code[ip + 1] < max && fuel > 0
    requires Returns(Run(tab, max, code[ip + 1], fuel - 1).1)
    ensures Exec(tab, max, code, ip, fuel)
            == (Run(tab, max, code[ip + 1], fuel - 1).0 + Exec(tab, max, code, ip + 2, fuel).0,
                Exec(tab, max, code, ip + 2, fuel).1)
  {
  }

  /**
   * A table operand at or above max ends the script at once: no call is
   * made for the instruction, whatever follows it.
   */
  lemma BadOperandStops(tab: seq<seq<u8>>, max: u8, code: seq<u8>, ip: nat, fuel: nat)
    requires max as nat <= |tab|
    requires ip + 1 < |code| && Indexed(code[ip]) && code[ip + 1] >= max
    ensures Exec(tab, max, code, ip, fuel) == ([], BadIndex)
  {
  }

  /** END_SCRIPT and opcodes outside the switch end the script with no call. */
  lemma EndAndUnknownStop(tab: seq<seq<u8>>, max: u8, code: seq<u8>, ip: nat, fuel: nat)
    requires max as nat <= |tab|
    requires ip < |code| && !Known(code[ip])
    ensures Exec(tab, max, code, ip, fuel).0 == []
    ensures Exec(tab, max, code, ip, fuel).1 == if code[ip] == END_SCRIPT then Ended else Unknown(code[ip])
  {
  }

  /** run with ix >= max does nothing. */
  lemma RunOutOfTable(tab: seq<seq<u8>>, max: u8, ix: u8, fuel: nat)
    requires max as nat <= |tab| && ix >= max
    ensures Run(tab, max, ix, fuel) == ([], BadIndex)
  {
  }
}
