/**
 * The MJKDZ adapter: an HD44780 in 4-bit mode behind a PCF8574 I2C
 * expander. Every nibble is strobed by two expander bytes, EN high and
 * then EN low, and each TWI write carries at most TMP_MAX bytes. The
 * TWI writes are collected as a trace of byte blocks. The display side
 * is modelled as a receiver that latches the expander's data bits on
 * each falling EN edge, which is the partner the write functions are
 * proved against.
 */
module HD44780Mjkdz {
  import opened Common
  import opened HD44780

  /** The size of the write buffer of write8n. */
  const TMP_MAX: nat := 32

  /** The characters per TWI write of write8n: four expander bytes each. */
  const CHUNK: nat := TMP_MAX / 4

  /** The port as constructed: all bits zero. */
  function InitialPort(): (p: Port)
    ensures PackMjkdz(p) == 0 && !p.en && WellFormed(p)
  {
    Port(0, false, false, false, false)
  }

  /** The concatenation of a trace of TWI writes. */
  function Flatten(cs: seq<seq<byte>>): seq<byte>
  {
    if cs == [] then [] else cs[0] + Flatten(cs[1..])
  }

  /** The two expander bytes that strobe one nibble: data with EN high, then with EN low. */
  function Strobe(p: Port, nibble: byte): seq<byte>
  {
    var q := p.(data := nibble & 0x0f);
    [PackMjkdz(q.(en := true)), PackMjkdz(q.(en := false))]
  }

  /** The four bytes of one character: high nibble first. */
  function Frame(p: Port, data: byte): seq<byte>
  {
    Strobe(p, data >> 4) + Strobe(p, data)
  }

  /** The frames of a sequence of characters. */
  function Frames(p: Port, bs: seq<byte>): (r: seq<byte>)
    ensures |r| == 4 * |bs|
  {
    if bs == [] then [] else Frame(p, bs[0]) + Frames(p, bs[1..])
  }

  /** The port after a nibble or a character was written: the last nibble, EN low. */
  function After(p: Port, last: byte): Port
  {
    p.(data := last & 0x0f, en := false)
  }

  /** write4b: one TWI write of the two strobe bytes. */
  function Write4b(p: Port, data: byte): (r: (Port, seq<seq<byte>>))
    ensures |r.1| == 1 && |r.1[0]| == 2
  {
    (After(p, data), [Strobe(p, data)])
  }

  /** write8b: one TWI write of four bytes, high nibble then low nibble. */
  function Write8b(p: Port, data: byte): (r: (Port, seq<seq<byte>>))
    ensures |r.1| == 1 && |r.1[0]| == 4
  {
    (After(p, data), [Frame(p, data)])
  }

  /** The TWI writes of write8n: blocks of at most CHUNK characters. */
  function Chunks(p: Port, bs: seq<byte>): (r: seq<seq<byte>>)
    ensures |r| <= |bs|
    ensures r == [] <==> bs == []
    decreases |bs|
  {
    if bs == [] then []
    else
      var n := if |bs| > CHUNK then CHUNK else |bs|;
      [Frames(p, bs[..n])] + Chunks(p, bs[n..])
  }

  /** write8n: the characters of the buffer, written in blocks that fit the TMP_MAX buffer. */
  function Write8n(p: Port, bs: seq<byte>): (r: (Port, seq<seq<byte>>))
  {
    (if bs == [] then p else After(p, bs[|bs| - 1]), Chunks(p, bs))
  }

  /** set_mode: the one-bit rs field takes the low bit of the flag; nothing is written. */
  function SetMode(p: Port, flag: byte): (r: Port)
    ensures r.rs <==> flag & 1 == 1
    ensures r.(rs := p.rs) == p
  {
    p.(rs := flag & 1 == 1)
  }

  /** set_backlight: the backlight bit is active low; the port byte is written at once. */
  function SetBacklight(p: Port, flag: byte): (r: (Port, seq<seq<byte>>))
    ensures r.0.bt <==> flag == 0
    ensures r.0.(bt := p.bt) == p
    ensures r.1 == [[PackMjkdz(r.0)]]
  {
    var q := p.(bt := !(flag != 0));
    (q, [[PackMjkdz(q)]])
  }

  // ---- The display side: what the controller latches ----

  /** The ports latched at each falling EN edge of a byte stream, given the EN level before it. */
  function Latched(bytes: seq<byte>, en: bool): seq<Port>
  {
    if bytes == [] then []
    else
      var q := UnpackMjkdz(bytes[0]);
      (if en && !q.en then [q] else []) + Latched(bytes[1..], q.en)
  }

  /** The nibble the strobe of a nibble delivers, with the port's other fields. */
  function Delivered(p: Port, nibble: byte): Port
  {
    p.(data := nibble & 0x0f, en := false)
  }

  /** A strobe from EN low delivers exactly its nibble and leaves EN low. */
  lemma StrobeLatches(p: Port, nibble: byte, rest: seq<byte>)
    ensures Latched(Strobe(p, nibble) + rest, false) == [Delivered(p, nibble)] + Latched(rest, false)
  {
    var s := Strobe(p, nibble);
    var q := p.(data := nibble & 0x0f);
    MjkdzLayout(q.(en := true), 0);
    MjkdzLayout(q.(en := false), 0);
    assert (s + rest)[1..] == [s[1]] + rest;
    assert ([s[1]] + rest)[1..] == rest;
  }

  /** The latched ports all carry the rs, rw and backlight bits of p. */
  predicate FromPort(p: Port, ps: seq<Port>)
  {
    forall i :: 0 <= i < |ps| ==> ps[i] == Delivered(p, ps[i].data)
  }

  /** One character's frame from EN low delivers its two nibbles, high first. */
  lemma FrameLatches(p: Port, d: byte, rest: seq<byte>)
    ensures Latched(Frame(p, d) + rest, false)
            == [Delivered(p, d >> 4), Delivered(p, d)] + Latched(rest, false)
  {
    assert Frame(p, d) + rest == Strobe(p, d >> 4) + (Strobe(p, d) + rest);
    StrobeLatches(p, d, rest);
    StrobeLatches(p, d >> 4, Strobe(p, d) + rest);
  }

  /** Joining two delivered nibbles of d in front of l gives d in front of Join(l). */
  lemma JoinPair(p: Port, d: byte, l: seq<Port>)
    ensures Join([Delivered(p, d >> 4), Delivered(p, d)] + l) == [d] + Join(l)
  {
    var ps := [Delivered(p, d >> 4), Delivered(p, d)] + l;
    NibblesJoin(d);
    assert ps[2..] == l;
  }

  /** The frames of a buffer deliver two nibbles per character, which reassemble to the buffer. */
  lemma {:induction false} FramesDeliver(p: Port, bs: seq<byte>)
    ensures |Latched(Frames(p, bs), false)| == 2 * |bs|
    ensures Join(Latched(Frames(p, bs), false)) == bs
    ensures FromPort(p, Latched(Frames(p, bs), false))
    decreases |bs|
  {
    if bs != [] {
      var d := bs[0];
      var tail := Frames(p, bs[1..]);
      FrameLatches(p, d, tail);
      FramesDeliver(p, bs[1..]);
      var l := Latched(tail, false);
      JoinPair(p, d, l);
      assert bs == [d] + bs[1..];
    }
  }

  /** Frames of a concatenation are the concatenation of frames. */
  lemma {:induction false} FramesAppend(p: Port, a: seq<byte>, b: seq<byte>)
    ensures Frames(p, a + b) == Frames(p, a) + Frames(p, b)
    decreases |a|
  {
    if a != [] {
      assert (a + b)[0] == a[0];
      assert (a + b)[1..] == a[1..] + b;
      FramesAppend(p, a[1..], b);
      assert Frames(p, a + b) == Frame(p, a[0]) + Frames(p, a[1..] + b);
      assert Frames(p, a) == Frame(p, a[0]) + Frames(p, a[1..]);
      AppendAssoc(Frame(p, a[0]), Frames(p, a[1..]), Frames(p, b));
    } else {
      assert a + b == b;
    }
  }

  /**
   * write8n splits the buffer into TWI writes of at most TMP_MAX bytes,
   * none empty, whose concatenation is the frames of all characters.
   */
  lemma ChunksSplit(p: Port, bs: seq<byte>)
    ensures |Chunks(p, bs)| == (|bs| + CHUNK - 1) / CHUNK
    ensures forall i :: 0 <= i < |Chunks(p, bs)| ==>
              0 < |Chunks(p, bs)[i]| <= TMP_MAX && |Chunks(p, bs)[i]| % 4 == 0
    ensures Flatten(Chunks(p, bs)) == Frames(p, bs)
  {
    ChunksCount(p, bs);
    ChunksShape(p, bs);
    ChunksFlatten(p, bs);
  }

  /** write8n sends ceil(|bs| / CHUNK) TWI writes. */
  lemma {:induction false} ChunksCount(p: Port, bs: seq<byte>)
    ensures |Chunks(p, bs)| == (|bs| + CHUNK - 1) / CHUNK
    decreases |bs|
  {
    if bs != [] {
      var n := if |bs| > CHUNK then CHUNK else |bs|;
      ChunksCount(p, bs[n..]);
      assert Chunks(p, bs) == [Frames(p, bs[..n])] + Chunks(p, bs[n..]);
      CeilStep(|bs|, n);
    }
  }

  /** Every TWI write of write8n is nonempty, fits TMP_MAX and holds whole characters. */
  lemma {:induction false} ChunksShape(p: Port, bs: seq<byte>)
    ensures forall i :: 0 <= i < |Chunks(p, bs)| ==>
              0 < |Chunks(p, bs)[i]| <= TMP_MAX && |Chunks(p, bs)[i]| % 4 == 0
    decreases |bs|
  {
    if bs != [] {
      var n := if |bs| > CHUNK then CHUNK else |bs|;
      ChunksShape(p, bs[n..]);
      var c := Chunks(p, bs);
      var rest := Chunks(p, bs[n..]);
      assert c == [Frames(p, bs[..n])] + rest;
      forall i | 0 <= i < |c|
        ensures 0 < |c[i]| <= TMP_MAX && |c[i]| % 4 == 0
      {
        if i == 0 {
          assert |c[0]| == 4 * n;
        } else {
          assert c[i] == rest[i - 1];
        }
      }
    }
  }

  /** The TWI writes of write8n, concatenated, are the frames of all characters. */
  lemma {:induction false} ChunksFlatten(p: Port, bs: seq<byte>)
    ensures Flatten(Chunks(p, bs)) == Frames(p, bs)
    decreases |bs|
  {
    if bs != [] {
      var n := if |bs| > CHUNK then CHUNK else |bs|;
      ChunksFlatten(p, bs[n..]);
      FramesAppend(p, bs[..n], bs[n..]);
      assert bs[..n] + bs[n..] == bs;
      var c := Chunks(p, bs);
      assert c[1..] == Chunks(p, bs[n..]);
    }
  }

  /** Taking one block of n characters off m leaves one block fewer. */
  lemma CeilStep(m: nat, n: nat)
    requires 0 < n <= m && (n == CHUNK || n == m) && n <= CHUNK
    ensures 1 + (m - n + CHUNK - 1) / CHUNK == (m + CHUNK - 1) / CHUNK
  {
    assert CHUNK == 8;
  }

  /**
   * The display receives exactly the buffer: whatever the block split,
   * the nibbles latched from all of write8n's TWI writes reassemble to
   * the characters written, each with the port's rs, rw and backlight
   * bits, and the port ends with EN low and the last nibble.
   */
  lemma Write8nDelivers(p: Port, bs: seq<byte>)
    requires !p.en
    ensures var r := Write8n(p, bs);
            Join(Latched(Flatten(r.1), false)) == bs
            && FromPort(p, Latched(Flatten(r.1), false))
            && !r.0.en && r.0.rs == p.rs && r.0.bt == p.bt && r.0.rw == p.rw
  {
    ChunksSplit(p, bs);
    FramesDeliver(p, bs);
  }

  /** write8b is write8n of one character. */
  lemma Write8bIsWrite8n(p: Port, d: byte)
    ensures Flatten(Write8b(p, d).1) == Flatten(Write8n(p, [d]).1)
    ensures Write8b(p, d).0 == Write8n(p, [d]).0
  {
    assert [d][..1] == [d] && [d][1..] == [];
    assert Frames(p, [d]) == Frame(p, d) + Frames(p, []) == Frame(p, d);
    assert Chunks(p, [d]) == [Frames(p, [d])] + Chunks(p, []);
    assert Flatten([Frame(p, d)]) == Frame(p, d) + Flatten([]);
  }

  /** write4b delivers one nibble with the port's rs bit. */
  lemma Write4bDelivers(p: Port, data: byte)
    ensures Latched(Flatten(Write4b(p, data).1), false) == [Delivered(p, data)]
  {
    StrobeLatches(p, data, []);
    assert Strobe(p, data) + [] == Strobe(p, data);
    assert Flatten([Strobe(p, data)]) == Strobe(p, data) + Flatten([]);
  }
}
