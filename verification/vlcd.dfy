/**
 * The virtual LCD: a master that forwards LCD operations over TWI and a
 * slave that parses each received request and calls its local LCD.
 * Commands travel as the frame [COMMAND, code]; text travels as plain
 * bytes. The bus is a parameter: whether begin succeeded and what each
 * write returned. The slave's local LCD calls are recorded as a trace.
 */
module VLCD {
  import opened Common

  const MAJOR: u8 := 1
  const MINOR: u8 := 0

  /** The command prefix byte. */
  const COMMAND: u8 := 255

  const BACKLIGHT_OFF_CMD: u8 := 0
  const BACKLIGHT_ON_CMD: u8 := 1
  const DISPLAY_OFF_CMD: u8 := 2
  const DISPLAY_ON_CMD: u8 := 3
  const INIT_CMD: u8 := 0xff

  /** The size of the slave's request buffer. */
  const BUF_MAX: nat := 40

  /** A call on the slave's local LCD. */
  datatype Call =
    | Put(c: u8) | BacklightOff | BacklightOn | DisplayOff | DisplayOn | DisplayClear
    | SetCursor(x: u8, y: u8)

  // ---- Slave ----

  /** The bytes of a request forwarded as text: the first byte always, then bytes 1 to size - 1. */
  function Forward(buf: seq<u8>, size: nat): (r: seq<Call>)
    requires 0 < |buf| && size <= |buf|
    ensures |r| == if size == 0 then 1 else size
    ensures forall i :: 0 <= i < |r| ==> r[i] == Put(buf[i])
  {
    if size == 0 then [Put(buf[0])] else seq(size, i requires 0 <= i < size => Put(buf[i]))
  }

  /** The meaning of a command code: what the slave's LCD is to do. */
  function CommandCalls(cmd: u8): seq<Call>
  {
    if cmd == BACKLIGHT_OFF_CMD then [BacklightOff]
    else if cmd == BACKLIGHT_ON_CMD then [BacklightOn]
    else if cmd == DISPLAY_OFF_CMD then [DisplayOff]
    else if cmd == DISPLAY_ON_CMD then [DisplayOn]
    else if cmd == INIT_CMD then [DisplayClear, DisplayOn, BacklightOn]
    else []
  }

  /** The version and size information the slave leaves in its buffer after INIT_CMD. */
  function Info(): seq<u8>
  {
    [MAJOR, MINOR, 16, 2]
  }

  /** The char conversion of a byte: char is signed, so 255 becomes -1. */
  function SignedChar(b: u8): int
  {
    if b < 128 then b else b - 256
  }

  /**
   * on_request as written: the first byte is read as a signed char and
   * compared with the unsigned COMMAND, so the comparison is between -1
   * and 255 for the prefix and every request is forwarded as text.
   */
  function OnRequestAsWritten(buf: seq<u8>, size: nat): (r: (seq<Call>, seq<u8>))
    requires |buf| == BUF_MAX && size <= BUF_MAX
    ensures buf[0] != COMMAND ==> r == OnRequest(buf, size)
    ensures r.1 == buf
  {
    // a signed char is never 255, so the command branch is dead
    if SignedChar(buf[0]) != COMMAND then (Forward(buf, size), buf)
    else assert false; ([], buf)
  }

  /**
   * on_request with the prefix compared as a byte: text is forwarded;
   * a two-byte command dispatches its code, and INIT_CMD also writes the
   * information block; a three-byte command sets the cursor; any other
   * command request is ignored.
   */
  function OnRequest(buf: seq<u8>, size: nat): (r: (seq<Call>, seq<u8>))
    requires |buf| == BUF_MAX && size <= BUF_MAX
    ensures |r.1| == BUF_MAX
    ensures buf[0] != COMMAND ==> r == (Forward(buf, size), buf)
    ensures buf[0] == COMMAND && size == 2 ==> r.0 == CommandCalls(buf[1])
    ensures buf[0] == COMMAND && size == 2 && buf[1] == INIT_CMD ==> r.1[..4] == Info() && r.1[4..] == buf[4..]
    ensures buf[0] == COMMAND && !(size == 2 && buf[1] == INIT_CMD) ==> r.1 == buf
    ensures buf[0] == COMMAND && size == 3 ==> r.0 == [SetCursor(buf[1], buf[2])]
    ensures buf[0] == COMMAND && size != 2 && size != 3 ==> r.0 == []
  {
    if buf[0] != COMMAND then (Forward(buf, size), buf)
    else if size == 2 && buf[1] == BACKLIGHT_OFF_CMD then ([BacklightOff], buf)
    else if size == 2 && buf[1] == BACKLIGHT_ON_CMD then ([BacklightOn], buf)
    else if size == 2 && buf[1] == DISPLAY_OFF_CMD then ([DisplayOff], buf)
    else if size == 2 && buf[1] == DISPLAY_ON_CMD then ([DisplayOn], buf)
    else if size == 2 && buf[1] == INIT_CMD then
      ([DisplayClear, DisplayOn, BacklightOn], buf[0 := MAJOR][1 := MINOR][2 := 16][3 := 2])
    else if size == 3 then ([SetCursor(buf[1], buf[2])], buf)
    else ([], buf)
  }

  /** As written, no request is ever taken as a command. */
  lemma AsWrittenForwardsAll(buf: seq<u8>, size: nat)
    requires |buf| == BUF_MAX && size <= BUF_MAX
    ensures OnRequestAsWritten(buf, size) == (Forward(buf, size), buf)
  {
  }

  /** A request buffer holding a frame, the rest of the buffer unchanged. */
  function Received(buf: seq<u8>, frame: seq<u8>): (r: seq<u8>)
    requires |buf| == BUF_MAX && |frame| <= BUF_MAX
    ensures |r| == BUF_MAX && r[..|frame|] == frame
  {
    frame + buf[|frame|..]
  }

  /** As written, the master's backlight-off frame reaches the slave's LCD as the two characters 255 and 0. */
  lemma CommandFrameIsText(buf: seq<u8>)
    requires |buf| == BUF_MAX
    ensures var b := Received(buf, [COMMAND, BACKLIGHT_OFF_CMD]);
            OnRequestAsWritten(b, 2).0 == [Put(255), Put(0)]
            && OnRequest(b, 2).0 == [BacklightOff]
  {
    var b := Received(buf, [COMMAND, BACKLIGHT_OFF_CMD]);
    assert b[0] == 255 && b[1] == 0;
  }

  // ---- Master ----

  /** The bus as seen by one master operation: whether begin succeeded, and the result of each write attempt. */
  datatype Bus = Bus(begins: bool, results: seq<int>)

  /** Up to k attempts to write the frame, stopping after the first that writes all its bytes. */
  function Attempts(frame: seq<u8>, results: seq<int>, k: nat): (r: seq<seq<u8>>)
    requires |results| >= k
    ensures |r| <= k && (k > 0 ==> |r| > 0)
    ensures forall i :: 0 <= i < |r| ==> r[i] == frame
    ensures forall i :: 0 <= i < |r| - 1 ==> results[i] != |frame|
    ensures 0 < |r| < k ==> results[|r| - 1] == |frame|
    decreases k
  {
    if k == 0 then []
    else if results[0] == |frame| then [frame]
    else [frame] + Attempts(frame, results[1..], k - 1)
  }

  /** write(cmd): nothing if begin fails; otherwise the frame [COMMAND, cmd], tried at most three times. */
  function WriteCommand(cmd: u8, bus: Bus): (r: seq<seq<u8>>)
    requires |bus.results| >= 3
    ensures !bus.begins ==> r == []
    ensures bus.begins ==> 1 <= |r| <= 3
  {
    if !bus.begins then [] else Attempts([COMMAND, cmd], bus.results, 3)
  }

  /**
   * Every frame the master sends for a command, received by the slave,
   * makes the slave's LCD do what the command names.
   */
  lemma CommandRoundTrip(cmd: u8, bus: Bus, buf: seq<u8>)
    requires |bus.results| >= 3 && |buf| == BUF_MAX
    ensures forall f :: f in WriteCommand(cmd, bus) ==>
              |f| == 2 && OnRequest(Received(buf, f), |f|).0 == CommandCalls(cmd)
  {
    forall f | f in WriteCommand(cmd, bus)
      ensures |f| == 2 && OnRequest(Received(buf, f), |f|).0 == CommandCalls(cmd)
    {
      var b := Received(buf, f);
      assert f == [COMMAND, cmd];
      assert b[0] == COMMAND && b[1] == cmd;
    }
  }

  /** The master's cursor and the display size it learnt. */
  datatype Vlcd = Vlcd(x: u8, y: u8, width: u8, height: u8, tab: u8)

  /** uint8_t addition: the byte congruent to a + n, which wraps below a once the sum passes 255. */
  function Add8(a: u8, n: nat): (r: u8)
    ensures a + n < 256 ==> r == a + n
    ensures (r as int - a as int - n) % 256 == 0
    ensures 256 <= a + n && n < 256 ==> r < a
  {
    (a + n) % 256
  }

  /** set_cursor: the frame [0, x, y] is sent and the cursor taken over, unless begin fails. */
  function SetCursorMaster(v: Vlcd, x: u8, y: u8, begins: bool): (r: (Vlcd, seq<seq<u8>>))
    ensures !begins ==> r == (v, [])
    ensures begins ==> r.0 == v.(x := x, y := y) && r.1 == [[0, x, y]]
  {
    if !begins then (v, []) else (v.(x := x, y := y), [[0, x, y]])
  }

  /** The set_cursor frame is not a command: the slave writes its three bytes as text. */
  lemma SetCursorIsText(v: Vlcd, x: u8, y: u8, buf: seq<u8>)
    requires |buf| == BUF_MAX
    ensures var f := SetCursorMaster(v, x, y, true).1[0];
            OnRequest(Received(buf, f), 3).0 == [Put(0), Put(x), Put(y)]
  {
    var f := SetCursorMaster(v, x, y, true).1[0];
    var b := Received(buf, f);
    assert b[0] == 0 && b[1] == x && b[2] == y;
  }

  /** The next tab stop after x: the next multiple of tab. */
  function NextTabStop(x: nat, tab: nat): (r: nat)
    requires 0 < tab
  {
    (x / tab + 1) * tab
  }

  /** The tab step x + tab - x % tab is the next tab stop. */
  lemma TabStep(x: nat, tab: nat)
    requires 0 < tab
    ensures x + tab - x % tab == NextTabStop(x, tab)
    ensures x < NextTabStop(x, tab) <= x + tab && NextTabStop(x, tab) % tab == 0
  {
    var q := x / tab;
    assert x == q * tab + x % tab;
    assert (q + 1) * tab == q * tab + tab;
    ModUnique((q + 1) * tab, tab, q + 1, 0);
  }

  /** The cursor after a control character (uint8_t arithmetic). */
  function Control(v: Vlcd, c: u8): (r: Vlcd)
    requires 0 < v.tab
  {
    if c == 0x08 then (if v.x > 0 then v.(x := v.x - 1) else v)
    else if c == 0x0c then v.(x := 0, y := 0)
    else if c == 0x0a then
      var y := Add8(v.y, 1);
      v.(x := 0, y := if y > v.height then 0 else y)
    else if c == 0x09 then
      var x := Add8(v.x, v.tab - v.x % v.tab);
      var y := Add8(v.y, if x >= v.width then 1 else 0);
      v.(x := if x >= v.width then 0 else x, y := y)
    else v
  }

  /**
   * putchar: one byte is written; -1 with the cursor unchanged if begin
   * fails or the write does not report one byte; otherwise the character
   * as 0..255, and control characters (as a signed char below ' ') move
   * the cursor.
   */
  function Putchar(v: Vlcd, c: u8, begins: bool, written: int): (r: (int, Vlcd, seq<seq<u8>>))
    requires 0 < v.tab
    ensures r.2 == if begins then [[c]] else []
    ensures r.0 == (if begins && written == 1 then c else -1)
    ensures r.0 == -1 ==> r.1 == v
    ensures SignedChar(c) >= 0x20 ==> r.1 == v
    ensures r.1.width == v.width && r.1.height == v.height && r.1.tab == v.tab
  {
    if !begins then (-1, v, [])
    else if written != 1 then (-1, v, [[c]])
    else if SignedChar(c) >= 0x20 then (c, v, [[c]])
    else (c, Control(v, c), [[c]])
  }

  /** Backspace moves one column left, stopping at column 0. */
  lemma BackspaceRule(v: Vlcd)
    requires 0 < v.tab
    ensures var w := Putchar(v, 0x08, true, 1).1;
            w.y == v.y && w.x == if v.x > 0 then v.x - 1 else 0
  {
  }

  /** Newline goes to column 0 of the next line; the line wraps to 0 only once it has passed the height. */
  lemma NewlineRule(v: Vlcd)
    requires 0 < v.tab
    ensures var w := Putchar(v, 0x0a, true, 1).1;
            w.x == 0
            && (v.y < v.height ==> w.y == v.y + 1)
            && (v.y >= v.height ==> w.y == 0)
  {
  }

  /**
   * Tab moves to the next tab stop; a stop at or beyond the width wraps to
   * column 0 of the next line (the line is not wrapped).
   */
  lemma TabRule(v: Vlcd)
    requires 0 < v.tab
    ensures var w := Putchar(v, 0x09, true, 1).1;
            var stop := NextTabStop(v.x, v.tab);
            (stop < v.width ==> w.x == stop && w.y == v.y)
            && (v.width <= stop < 256 ==> w.x == 0 && w.y == Add8(v.y, 1))
  {
    TabStep(v.x, v.tab);
  }

  /** display_clear: putchar of form feed, which homes the cursor. */
  lemma ClearHomes(v: Vlcd)
    requires 0 < v.tab
    ensures var r := Putchar(v, 0x0c, true, 1); r.1.x == 0 && r.1.y == 0 && r.0 == 0x0c
  {
  }

  /** write(buf, size): -1 on failure; otherwise the count, and the column advances by size (uint8_t). */
  function Write(v: Vlcd, buf: seq<u8>, begins: bool, written: int): (r: (int, Vlcd, seq<seq<u8>>))
    ensures !begins ==> r == (-1, v, [])
    ensures begins ==> r.2 == [buf]
    ensures begins && written < 0 ==> r.0 == -1 && r.1 == v
    ensures begins && written >= 0 ==> r.0 == written && r.1 == v.(x := Add8(v.x, |buf|))
  {
    if !begins then (-1, v, [])
    else if written < 0 then (-1, v, [buf])
    else (written, v.(x := Add8(v.x, |buf|)), [buf])
  }

  /** Written text, received by the slave, reaches its LCD as the same characters in order. */
  lemma TextRoundTrip(v: Vlcd, text: seq<u8>, buf: seq<u8>)
    requires |buf| == BUF_MAX && 0 < |text| <= BUF_MAX && text[0] != COMMAND
    ensures var f := Write(v, text, true, |text|).2[0];
            OnRequest(Received(buf, f), |f|).0 == seq(|text|, i requires 0 <= i < |text| => Put(text[i]))
  {
    var b := Received(buf, text);
    assert b[0] == text[0];
  }
}
