/**
 * IOBuffer<SIZE>: a circular character buffer with a head index (last
 * slot written) and a tail index (last slot read). SIZE is a power of two
 * of at most 128, so `x & MASK` with MASK = SIZE - 1 is `x % SIZE` for the
 * non-negative values the buffer computes; the model writes it that way.
 * One slot always stays unused, so the capacity is SIZE - 1.
 */
module IOBuffer {

  /** The end-of-file value the stream interface returns. */
  const EOF: int := -1

  /** A signed 8-bit char, the element type of m_buffer. */
  type schar = x: int | -128 <= x < 128

  /** n is a power of two. */
  predicate IsPow2(n: nat)
    decreases n
  {
    n == 1 || (n >= 2 && n % 2 == 0 && IsPow2(n / 2))
  }

  /** The buffer: SIZE, m_head, m_tail and m_buffer. */
  datatype Ring = Ring(size: nat, head: nat, tail: nat, buf: seq<schar>)

  predicate Valid(b: Ring)
  {
    IsPow2(b.size) && b.size <= 128 && |b.buf| == b.size && b.head < b.size && b.tail < b.size
  }

  /** `x & MASK` for a non-negative x and a power-of-two SIZE. */
  function Mask(b: Ring, x: nat): nat
    requires b.size > 0
  {
    x % b.size
  }

  /** Below twice the size, masking subtracts the size at most once. */
  lemma MaskSmall(b: Ring, x: nat)
    requires b.size > 0 && x < 2 * b.size
    ensures Mask(b, x) == if x < b.size then x else x - b.size
  {
  }

  /** The constructor: head and tail both at slot 0; the slots hold whatever was there. */
  function Create(size: nat, slots: seq<schar>): (r: Ring)
    requires IsPow2(size) && size <= 128 && |slots| == size
    ensures Valid(r) && Contents(r) == []
  {
    Ring(size, 0, 0, slots)
  }

  /** The number of characters held, counted without masking. */
  function Count(b: Ring): (r: nat)
    requires Valid(b)
    ensures r < b.size
  {
    if b.tail <= b.head then b.head - b.tail else b.size + b.head - b.tail
  }

  /** Slot of the i-th oldest character: the slots after the tail, wrapping once. */
  function Slot(b: Ring, i: nat): (r: nat)
    requires Valid(b) && i < b.size
    ensures r < b.size
  {
    if b.tail + 1 + i < b.size then b.tail + 1 + i else b.tail + 1 + i - b.size
  }

  /** The characters held, oldest first: the abstract value of the buffer. */
  function Contents(b: Ring): (r: seq<schar>)
    requires Valid(b)
    ensures |r| == Count(b)
  {
    seq(Count(b), i requires 0 <= i < Count(b) => b.buf[Slot(b, i)])
  }

  /** is_empty: head == tail, exactly when nothing is held. */
  function IsEmpty(b: Ring): (r: bool)
    requires Valid(b)
    ensures r <==> Contents(b) == []
  {
    b.head == b.tail
  }

  /** is_full: the slot after head is the tail, exactly when SIZE - 1 characters are held. */
  function IsFull(b: Ring): (r: bool)
    requires Valid(b)
    ensures r <==> |Contents(b)| == b.size - 1
  {
    MaskSmall(b, b.head + 1);
    Mask(b, b.head + 1) == b.tail
  }

  /** available: (SIZE + head - tail) & MASK, the number of characters held. */
  function Available(b: Ring): (r: nat)
    requires Valid(b)
    ensures r == |Contents(b)|
  {
    MaskSmall(b, b.size + b.head - b.tail);
    Mask(b, b.size + b.head - b.tail)
  }

  /** room: (SIZE - head + tail - 1) & MASK, the number of further characters that fit. */
  function Room(b: Ring): (r: nat)
    requires Valid(b)
    ensures r == b.size - 1 - |Contents(b)|
  {
    MaskSmall(b, b.size - b.head + b.tail - 1);
    Mask(b, b.size - b.head + b.tail - 1)
  }

  /** For every buffer, available + room is the capacity SIZE - 1. */
  lemma AvailablePlusRoom(b: Ring)
    requires Valid(b)
    ensures Available(b) + Room(b) == b.size - 1
  {
  }

  /**
   * putchar: on a full buffer EOF and no change; otherwise c is stored in
   * the slot after head, head moves there, and the result is c & 0xff.
   */
  function Putchar(b: Ring, c: schar): (r: (int, Ring))
    requires Valid(b)
    ensures Valid(r.1) && r.1.size == b.size
    ensures IsFull(b) ==> r == (EOF, b)
    ensures !IsFull(b) ==> r.0 == c % 256 && 0 <= r.0 < 256 && Contents(r.1) == Contents(b) + [c]
  {
    MaskSmall(b, b.head + 1);
    var next := Mask(b, b.head + 1);
    if next == b.tail then (EOF, b)
    else
      var b1 := b.(buf := b.buf[next := c], head := next);
      assert Count(b1) == Count(b) + 1;
      assert forall i :: 0 <= i < Count(b) ==> Slot(b1, i) == Slot(b, i) && Slot(b, i) != next;
      assert Slot(b1, Count(b)) == next;
      (c % 256, b1)
  }

  /** peekchar: EOF when empty, otherwise the oldest character as stored. */
  function Peekchar(b: Ring): (r: int)
    requires Valid(b)
    ensures IsEmpty(b) ==> r == EOF
    ensures !IsEmpty(b) ==> r == Contents(b)[0]
  {
    if b.head == b.tail then EOF
    else
      MaskSmall(b, b.tail + 1);
      b.buf[Mask(b, b.tail + 1)]
  }

  /**
   * getchar as written: EOF when empty; otherwise the tail advances and
   * the oldest character is returned as the signed char it was stored as.
   */
  function Getchar(b: Ring): (r: (int, Ring))
    requires Valid(b)
    ensures Valid(r.1) && r.1.head == b.head && r.1.buf == b.buf
    ensures IsEmpty(b) ==> r == (EOF, b)
    ensures !IsEmpty(b) ==> r.0 == Contents(b)[0] && Contents(r.1) == Contents(b)[1..]
  {
    if b.head == b.tail then (EOF, b)
    else
      TailAdvance(b);
      var next := Mask(b, b.tail + 1);
      (b.buf[next], b.(tail := next))
  }

  /** Advancing the tail of a non-empty buffer reads its oldest character and drops it. */
  lemma TailAdvance(b: Ring)
    requires Valid(b) && b.head != b.tail
    ensures var b1 := b.(tail := Mask(b, b.tail + 1));
            Valid(b1) && b.buf[Mask(b, b.tail + 1)] == Contents(b)[0] && Contents(b1) == Contents(b)[1..]
  {
    MaskSmall(b, b.tail + 1);
    var b1 := b.(tail := Mask(b, b.tail + 1));
    assert Count(b1) == Count(b) - 1;
    assert forall i :: 0 <= i < Count(b1) ==> Slot(b1, i) == Slot(b, i + 1);
  }

  /** peekchar returns what getchar would return, and changes nothing. */
  lemma PeekIsGet(b: Ring)
    requires Valid(b)
    ensures Peekchar(b) == Getchar(b).0
  {
  }

  /**
   * getchar with the character masked to 0..255, as putchar masks its
   * result: a stored 0xFF is 255 and only an empty buffer yields EOF.
   */
  function GetcharMasked(b: Ring): (r: (int, Ring))
    requires Valid(b)
    ensures r.1 == Getchar(b).1
    ensures IsEmpty(b) ==> r.0 == EOF
    ensures !IsEmpty(b) ==> 0 <= r.0 < 256 && r.0 == (Contents(b)[0] as int) % 256
  {
    var g := Getchar(b);
    if b.head == b.tail then g else (g.0 % 256, g.1)
  }

  /** With the as-written getchar, the stored char -1 (0xFF) comes back as EOF although putchar accepted it. */
  lemma GetcharReturnsEofForFF(size: nat, slots: seq<schar>)
    requires IsPow2(size) && 2 <= size <= 128 && |slots| == size
    ensures var p := Putchar(Create(size, slots), -1);
            p.0 == 255 && Getchar(p.1).0 == EOF && !IsEmpty(p.1)
  {
    var b := Create(size, slots);
    assert !IsFull(b);
  }

  /** With the masked getchar, every character read back equals what putchar returned for it. */
  lemma GetcharMaskedEchoesPutchar(b: Ring, c: schar)
    requires Valid(b) && IsEmpty(b) && !IsFull(b)
    ensures var p := Putchar(b, c);
            GetcharMasked(p.1).0 == p.0 && p.0 != EOF
  {
  }

  /** putchar for each character of cs in order, keeping only the buffer. */
  function PutAll(b: Ring, cs: seq<schar>): (r: Ring)
    requires Valid(b)
    ensures Valid(r) && r.size == b.size
    decreases |cs|
  {
    if cs == [] then b else PutAll(Putchar(b, cs[0]).1, cs[1..])
  }

  /** n getchar calls, collecting the results. */
  function GetAll(b: Ring, n: nat): (r: (seq<int>, Ring))
    requires Valid(b)
    ensures Valid(r.1) && |r.0| == n
    decreases n
  {
    if n == 0 then ([], b)
    else
      var g := Getchar(b);
      var rest := GetAll(g.1, n - 1);
      ([g.0] + rest.0, rest.1)
  }

  /** Puts that fit append to the contents, in order. */
  lemma {:induction false} PutAllAppends(b: Ring, cs: seq<schar>)
    requires Valid(b) && |Contents(b)| + |cs| <= b.size - 1
    ensures Contents(PutAll(b, cs)) == Contents(b) + cs
    decreases |cs|
  {
    if cs != [] {
      var b1 := Putchar(b, cs[0]).1;
      PutAllAppends(b1, cs[1..]);
      assert Contents(b) + [cs[0]] + cs[1..] == Contents(b) + cs;
    }
  }

  /** Gets of held characters return them oldest first. */
  lemma GetAllTakes(b: Ring, n: nat)
    requires Valid(b) && n <= |Contents(b)|
    ensures GetAll(b, n).0 == Contents(b)[..n]
    ensures Contents(GetAll(b, n).1) == Contents(b)[n..]
  {
    GetAllValues(b, n);
    GetAllLeaves(b, n);
  }

  /** The values part of GetAllTakes. */
  lemma {:induction false} GetAllValues(b: Ring, n: nat)
    requires Valid(b) && n <= |Contents(b)|
    ensures GetAll(b, n).0 == Contents(b)[..n]
    decreases n
  {
    if n > 0 {
      var g := Getchar(b);
      var c := Contents(b);
      GetAllValues(g.1, n - 1);
      assert Contents(g.1) == c[1..];
      assert c[..n] == [c[0]] + c[1..][..n - 1];
    }
  }

  /** The buffer part of GetAllTakes. */
  lemma {:induction false} GetAllLeaves(b: Ring, n: nat)
    requires Valid(b) && n <= |Contents(b)|
    ensures Contents(GetAll(b, n).1) == Contents(b)[n..]
    decreases n
  {
    if n > 0 {
      var g := Getchar(b);
      GetAllLeaves(g.1, n - 1);
      assert Contents(b)[n..] == Contents(b)[1..][n - 1..];
    }
  }

  /** FIFO: starting empty, the characters put are got back in the same order. */
  lemma FifoReplay(b: Ring, cs: seq<schar>)
    requires Valid(b) && IsEmpty(b) && |cs| <= b.size - 1
    ensures GetAll(PutAll(b, cs), |cs|).0 == cs
    ensures IsEmpty(GetAll(PutAll(b, cs), |cs|).1)
  {
    PutAllAppends(b, cs);
    GetAllTakes(PutAll(b, cs), |cs|);
  }

  /** n calls of the masked getchar, collecting the results. */
  function GetAllMasked(b: Ring, n: nat): (r: (seq<int>, Ring))
    requires Valid(b)
    ensures Valid(r.1) && |r.0| == n
    decreases n
  {
    if n == 0 then ([], b)
    else
      var g := GetcharMasked(b);
      var rest := GetAllMasked(g.1, n - 1);
      ([g.0] + rest.0, rest.1)
  }

  /** The bytes of a run of characters, as putchar returns them. */
  function Bytes(cs: seq<schar>): (r: seq<int>)
    ensures |r| == |cs| && forall i :: 0 <= i < |cs| ==> 0 <= r[i] < 256 && r[i] == (cs[i] as int) % 256
  {
    seq(|cs|, i requires 0 <= i < |cs| => (cs[i] as int) % 256)
  }

  /** Masked gets of held characters return their bytes oldest first. */
  lemma GetAllMaskedTakes(b: Ring, n: nat)
    requires Valid(b) && n <= |Contents(b)|
    ensures GetAllMasked(b, n).0 == Bytes(Contents(b)[..n])
    ensures Contents(GetAllMasked(b, n).1) == Contents(b)[n..]
  {
    GetAllMaskedValues(b, n);
    GetAllMaskedLeaves(b, n);
  }

  /** The values part of GetAllMaskedTakes. */
  lemma {:induction false} GetAllMaskedValues(b: Ring, n: nat)
    requires Valid(b) && n <= |Contents(b)|
    ensures GetAllMasked(b, n).0 == Bytes(Contents(b)[..n])
    decreases n
  {
    if n > 0 {
      var g := GetcharMasked(b);
      var c := Contents(b);
      GetAllMaskedValues(g.1, n - 1);
      assert Contents(g.1) == c[1..];
      BytesHead(c[..n], c[1..][..n - 1]);
    }
  }

  /** The bytes of a run are the byte of its first character, then the bytes of the rest. */
  lemma BytesHead(cs: seq<schar>, rest: seq<schar>)
    requires cs != [] && rest == cs[1..]
    ensures Bytes(cs) == [(cs[0] as int) % 256] + Bytes(rest)
  {
  }

  /** The buffer part of GetAllMaskedTakes. */
  lemma {:induction false} GetAllMaskedLeaves(b: Ring, n: nat)
    requires Valid(b) && n <= |Contents(b)|
    ensures Contents(GetAllMasked(b, n).1) == Contents(b)[n..]
    decreases n
  {
    if n > 0 {
      var g := GetcharMasked(b);
      GetAllMaskedLeaves(g.1, n - 1);
      assert Contents(b)[n..] == Contents(b)[1..][n - 1..];
    }
  }

  /**
   * FIFO with the masked getchar: starting empty, every character put is
   * got back as the byte putchar returned for it, never as EOF.
   */
  lemma FifoReplayMasked(b: Ring, cs: seq<schar>)
    requires Valid(b) && IsEmpty(b) && |cs| <= b.size - 1
    ensures GetAllMasked(PutAll(b, cs), |cs|).0 == Bytes(cs)
    ensures forall i :: 0 <= i < |cs| ==> GetAllMasked(PutAll(b, cs), |cs|).0[i] != EOF
    ensures IsEmpty(GetAllMasked(PutAll(b, cs), |cs|).1)
  {
    PutAllAppends(b, cs);
    GetAllMaskedTakes(PutAll(b, cs), |cs|);
    assert Contents(PutAll(b, cs))[..|cs|] == cs;
  }

  /** Below the capacity, the buffer is not full, so the next put succeeds. */
  lemma BelowCapacity(b: Ring, cs: seq<schar>)
    requires Valid(b) && IsEmpty(b) && |cs| < b.size - 1
    ensures !IsFull(PutAll(b, cs))
  {
    PutAllAppends(b, cs);
  }

  /** Capacity: from empty, after SIZE - 1 puts the buffer is full and the next put fails. */
  lemma Capacity(b: Ring, cs: seq<schar>, c: schar)
    requires Valid(b) && IsEmpty(b) && |cs| == b.size - 1
    ensures IsFull(PutAll(b, cs))
    ensures Putchar(PutAll(b, cs), c) == (EOF, PutAll(b, cs))
  {
    PutAllAppends(b, cs);
  }
}
