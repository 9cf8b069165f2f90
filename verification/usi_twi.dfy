/**
 * The buffer cursor of the USI (ATtiny) TWI driver: a vector of VEC_MAX
 * buffers, a cursor m_next..m_last over one of them, and the byte count
 * of the current transfer. The bus bit-banging (start, transfer, stop)
 * is not part of this model; the cursor is what the interrupt handlers
 * use to move bytes.
 */
module UsiTwi {
  import opened Common
  import TWI

  /** Mask that recovers the shifted device address from an address byte. */
  const ADDR_MASK: byte := 0xfe

  /**
   * A driver stores its 7-bit address shifted left by one, so the R/W
   * bit can be OR'ed into bit 0 and ADDR_MASK recovers the address.
   */
  lemma AddressWithOp(addr7: byte, op: byte)
    requires op == TWI.WRITE_OP || op == TWI.READ_OP
    ensures var a := TWI.MakeDriver(addr7).addr;
            (a | op) & ADDR_MASK == a && (a | op) & 0x01 == op
  {
  }

  /**
   * The driver's buffers and cursor: bufs[seg] is the buffer under the
   * cursor, next is the offset of m_next in it and last the offset of
   * m_last.
   */
  datatype Usi = Usi(bufs: seq<seq<byte>>, seg: nat, next: nat, last: nat, count: int)

  /** The cursor lies within one of the VEC_MAX buffers and m_last is its end. */
  predicate Valid(u: Usi)
  {
    |u.bufs| == TWI.VEC_MAX && u.seg < |u.bufs| && u.next <= u.last && u.last == |u.bufs[u.seg]|
  }

  /** The count is the number of bytes the cursor has moved over since set_buf. */
  predicate Counting(u: Usi)
  {
    u.count == u.next
  }

  /** What set_buf does with its index as the source writes it. */
  datatype SetBufOutcome = Ignored | Pointed(u: Usi) | OutOfBounds

  /**
   * set_buf as written: the guard rejects only ix > VEC_MAX, so
   * ix == VEC_MAX reaches m_vec[VEC_MAX], one entry past the vector.
   */
  function SetBufAsWritten(u: Usi, ix: nat): (r: SetBufOutcome)
    requires |u.bufs| == TWI.VEC_MAX && ix < 256
    ensures r.Ignored? <==> ix > TWI.VEC_MAX
    ensures r.OutOfBounds? <==> ix == TWI.VEC_MAX
    ensures r.Pointed? ==> r.u.seg == ix && r.u.next == 0 && r.u.count == 0 && Valid(r.u)
  {
    if ix > TWI.VEC_MAX then Ignored
    else if ix < |u.bufs| then Pointed(u.(seg := ix, next := 0, last := |u.bufs[ix]|, count := 0))
    else OutOfBounds
  }

  /** The index set_buf's guard lets through although the vector has no such entry. */
  lemma SetBufAdmitsVecMax(u: Usi)
    requires |u.bufs| == TWI.VEC_MAX
    ensures SetBufAsWritten(u, TWI.VEC_MAX).OutOfBounds?
  {
  }

  /**
   * set_buf with the guard the vector needs (ix >= VEC_MAX is ignored):
   * the cursor covers buffer ix from its start and the count restarts.
   */
  function SetBuf(u: Usi, ix: nat): (r: Usi)
    requires |u.bufs| == TWI.VEC_MAX
    ensures ix >= TWI.VEC_MAX ==> r == u
    ensures ix < TWI.VEC_MAX ==>
              Valid(r) && Counting(r) && r.seg == ix && r.bufs == u.bufs && Available(r) == |u.bufs[ix]| % 256
  {
    if ix >= TWI.VEC_MAX then u
    else u.(seg := ix, next := 0, last := |u.bufs[ix]|, count := 0)
  }

  /** Below the guard, the corrected set_buf does what the written one does. */
  lemma SetBufAgrees(u: Usi, ix: nat)
    requires |u.bufs| == TWI.VEC_MAX && ix < TWI.VEC_MAX
    ensures SetBufAsWritten(u, ix) == Pointed(SetBuf(u, ix))
  {
  }

  /** available: m_last - m_next, returned as a uint8_t. */
  function Available(u: Usi): (r: nat)
    requires u.next <= u.last
    ensures r < 256
    ensures u.last - u.next < 256 ==> r == u.last - u.next
  {
    (u.last - u.next) % 256
  }

  /**
   * put: store the byte at m_next, advance, count it, and report whether
   * room remains. There is no full check, so this is put for a caller
   * that stops once put has answered false; PutAsWritten is put at any
   * cursor.
   */
  function Put(u: Usi, x: byte): (r: (bool, Usi))
    requires Valid(u) && u.next < u.last
    ensures Valid(r.1) && r.1.seg == u.seg && r.1.next == u.next + 1 && r.1.count == u.count + 1
    ensures r.1.bufs[u.seg] == u.bufs[u.seg][u.next := x]
    ensures forall k :: 0 <= k < |u.bufs| && k != u.seg ==> r.1.bufs[k] == u.bufs[k]
    ensures r.0 <==> r.1.next < r.1.last
  {
    var u1 := u.(bufs := u.bufs[u.seg := u.bufs[u.seg][u.next := x]], next := u.next + 1, count := u.count + 1);
    (u1.next < u1.last, u1)
  }

  /**
   * put at any cursor: None stands for the store at m_last, one byte past
   * the buffer, which put performs without a check.
   */
  function PutAsWritten(u: Usi, x: byte): (r: Option<(bool, Usi)>)
    requires Valid(u)
    ensures r.None? <==> u.next == u.last
    ensures r.Some? ==> r.value == Put(u, x)
  {
    if u.next == u.last then None else Some(Put(u, x))
  }

  /** The answer of put says whether the next put stays inside the buffer. */
  lemma PutAnswerGuardsNext(u: Usi, x: byte, y: byte)
    requires Valid(u) && u.next < u.last
    ensures Put(u, x).0 <==> PutAsWritten(Put(u, x).1, y).Some?
  {
  }

  /** A put at the end of a one-byte buffer, after a put that answered false, stores past the buffer. */
  lemma PutAfterFullOverruns(b: seq<byte>, x: byte, y: byte)
    requires |b| == 1
    ensures var u := Usi([b, [], [], []], 0, 0, 1, 0);
            Valid(u) && !Put(u, x).0 && PutAsWritten(Put(u, x).1, y) == None
  {
  }

  /** get: nothing when the cursor is at the end; otherwise the byte at m_next, advancing and counting. */
  function Get(u: Usi): (r: (Option<byte>, Usi))
    requires Valid(u)
    ensures u.next == u.last ==> r == (None, u)
    ensures u.next < u.last ==>
              r.0 == Some(u.bufs[u.seg][u.next]) && r.1 == u.(next := u.next + 1, count := u.count + 1)
    ensures Valid(r.1)
  {
    if u.next == u.last then (None, u)
    else (Some(u.bufs[u.seg][u.next]), u.(next := u.next + 1, count := u.count + 1))
  }

  /** end: always succeeds and leaves the cursor where it is. */
  function EndTransfer(u: Usi): (r: (bool, Usi))
    ensures r.0 && r.1 == u
  {
    (true, u)
  }

  /** Put and get both keep the count equal to the distance moved. */
  lemma CountingPreserved(u: Usi, x: byte)
    requires Valid(u) && Counting(u)
    ensures Counting(Get(u).1)
    ensures u.next < u.last ==> Counting(Put(u, x).1)
  {
  }

  /** Bytes remaining plus bytes counted is the buffer size, for buffers a uint8_t can measure. */
  lemma AvailablePlusCount(u: Usi)
    requires Valid(u) && Counting(u) && u.last < 256
    ensures Available(u) + u.count == |u.bufs[u.seg]|
  {
  }

  /** A sequence of put calls, one per byte of data. */
  function PutAll(u: Usi, data: seq<byte>): (r: Usi)
    requires Valid(u) && u.next + |data| <= u.last
    ensures Valid(r) && r.seg == u.seg && r.next == u.next + |data| && r.count == u.count + |data|
    ensures |r.bufs[r.seg]| == |u.bufs[u.seg]|
    decreases |data|
  {
    if data == [] then u else PutAll(Put(u, data[0]).1, data[1..])
  }

  /** A sequence of n get calls on a cursor with at least n bytes left, collecting the bytes. */
  function GetAll(u: Usi, n: nat): (r: (seq<byte>, Usi))
    requires Valid(u) && u.next + n <= u.last
    ensures Valid(r.1) && |r.0| == n && r.1.next == u.next + n && r.1.bufs == u.bufs
    decreases n
  {
    if n == 0 then ([], u)
    else
      var g := Get(u);
      var rest := GetAll(g.1, n - 1);
      ([g.0.value] + rest.0, rest.1)
  }

  /** put calls write data over the buffer at the cursor and leave the rest of the buffer alone. */
  lemma PutAllWrites(u: Usi, data: seq<byte>)
    requires Valid(u) && u.next + |data| <= u.last
    ensures var s := u.bufs[u.seg];
            PutAll(u, data).bufs[u.seg] == s[..u.next] + data + s[u.next + |data|..]
    ensures forall k :: 0 <= k < |u.bufs| && k != u.seg ==> PutAll(u, data).bufs[k] == u.bufs[k]
  {
    PutAllSegment(u, data);
    PutAllOthers(u, data);
  }

  /** put calls write data over the current buffer at the cursor. */
  lemma {:induction false} PutAllSegment(u: Usi, data: seq<byte>)
    requires Valid(u) && u.next + |data| <= u.last
    ensures var s := u.bufs[u.seg];
            PutAll(u, data).bufs[u.seg] == s[..u.next] + data + s[u.next + |data|..]
    decreases |data|
  {
    var s := u.bufs[u.seg];
    if data == [] {
      assert s == s[..u.next] + data + s[u.next..];
    } else {
      var u1 := Put(u, data[0]).1;
      assert PutAll(u, data) == PutAll(u1, data[1..]);
      PutAllSegment(u1, data[1..]);
      var s1 := u1.bufs[u.seg];
      assert s1[..u.next + 1] == s[..u.next] + [data[0]];
      assert s1[u.next + 1 + |data[1..]|..] == s[u.next + |data|..];
      assert [data[0]] + data[1..] == data;
    }
  }

  /** put calls leave every other buffer alone. */
  lemma {:induction false} PutAllOthers(u: Usi, data: seq<byte>)
    requires Valid(u) && u.next + |data| <= u.last
    ensures forall k :: 0 <= k < |u.bufs| && k != u.seg ==> PutAll(u, data).bufs[k] == u.bufs[k]
    decreases |data|
  {
    if data != [] {
      var u1 := Put(u, data[0]).1;
      assert PutAll(u, data) == PutAll(u1, data[1..]);
      PutAllOthers(u1, data[1..]);
    }
  }

  /** get calls return the bytes under the cursor, in order. */
  lemma {:induction false} GetAllReads(u: Usi, n: nat)
    requires Valid(u) && u.next + n <= u.last
    ensures GetAll(u, n).0 == u.bufs[u.seg][u.next..u.next + n]
    decreases n
  {
    if n > 0 {
      var g := Get(u);
      GetAllReads(g.1, n - 1);
      var s := u.bufs[u.seg];
      assert s[u.next..u.next + n] == [s[u.next]] + s[u.next + 1..u.next + n];
    }
  }

  /**
   * Round trip: the bytes put into buffer ix after set_buf(ix) are read
   * back, in order, by get after a second set_buf(ix).
   */
  lemma PutThenGet(u: Usi, ix: nat, data: seq<byte>)
    requires |u.bufs| == TWI.VEC_MAX && ix < TWI.VEC_MAX && |data| <= |u.bufs[ix]|
    ensures var w := PutAll(SetBuf(u, ix), data);
            GetAll(SetBuf(w, ix), |data|).0 == data
  {
    var u0 := SetBuf(u, ix);
    var w := PutAll(u0, data);
    PutAllWrites(u0, data);
    var u1 := SetBuf(w, ix);
    GetAllReads(u1, |data|);
    var s := u.bufs[ix];
    assert w.bufs[ix] == s[..0] + data + s[|data|..];
    assert (s[..0] + data + s[|data|..])[0..|data|] == data;
  }
}
