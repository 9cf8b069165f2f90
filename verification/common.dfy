/** Small shared vocabulary: optional values and 8/32-bit machine words. */
module Common {

  /** A value that may be absent; stands for a pointer that may be NULL. */
  datatype Option<+T> = None | Some(value: T)

  /** An 8-bit machine word (uint8_t). */
  type byte = bv8

  /** A 32-bit machine word (uint32_t). */
  type word = bv32

  /** An unsigned 8-bit value (uint8_t) used as a number. */
  type u8 = x: int | 0 <= x < 256

  /** An unsigned 16-bit value (uint16_t) used as a number. */
  type u16 = x: int | 0 <= x < 0x1_0000

  /** 2 to the power n. */
  function Pow2(n: nat): (r: nat)
    ensures r >= 1
  {
    if n == 0 then 1 else 2 * Pow2(n - 1)
  }

  /** Multiplication by a natural number is monotone. */
  lemma MulMono(a: nat, b: nat, c: nat)
    requires a <= b
    ensures a * c <= b * c
  {
  }

  /** Wrap-around difference of two 32-bit timestamps (uint32_t subtraction). */
  function Elapsed32(now: nat, start: nat): (r: nat)
    requires now < 0x1_0000_0000 && start < 0x1_0000_0000
    ensures r < 0x1_0000_0000
    ensures start <= now ==> r == now - start
    ensures now < start ==> r == now + 0x1_0000_0000 - start
  {
    (now - start) % 0x1_0000_0000
  }

  /** The single-bit mask 1 << k (_BV(k)) of a byte. */
  function Bit(k: nat): byte
    requires k < 8
  {
    match k
    case 0 => 0x01
    case 1 => 0x02
    case 2 => 0x04
    case 3 => 0x08
    case 4 => 0x10
    case 5 => 0x20
    case 6 => 0x40
    case _ => 0x80
  }

  /** Bit k of a byte is set. */
  predicate HasBit(x: byte, k: nat)
    requires k < 8
  {
    x & Bit(k) != 0
  }

  /** Setting bit j changes bit j only. */
  lemma OrBit(b: byte, j: nat, k: nat)
    requires j < 8 && k < 8
    ensures HasBit(b | Bit(j), k) == (j == k || HasBit(b, k))
  {
  }

  /** Clearing bit j changes bit j only. */
  lemma AndNotBit(b: byte, j: nat, k: nat)
    requires j < 8 && k < 8
    ensures HasBit(b & !Bit(j), k) == (j != k && HasBit(b, k))
  {
  }

  /** Bitwise or is union of bits. */
  lemma OrBits(b: byte, c: byte, k: nat)
    requires k < 8
    ensures HasBit(b | c, k) == (HasBit(b, k) || HasBit(c, k))
  {
  }

  /** Bitwise and-not is difference of bits. */
  lemma AndNotBits(b: byte, c: byte, k: nat)
    requires k < 8
    ensures HasBit(b & !c, k) == (HasBit(b, k) && !HasBit(c, k))
  {
  }

  /** Bytes with the same eight bits are equal. */
  lemma ByteExt(x: byte, y: byte)
    requires forall k | 0 <= k < 8 :: HasBit(x, k) == HasBit(y, k)
    ensures x == y
  {
    assert HasBit(x, 0) == HasBit(y, 0);
    assert HasBit(x, 1) == HasBit(y, 1);
    assert HasBit(x, 2) == HasBit(y, 2);
    assert HasBit(x, 3) == HasBit(y, 3);
    assert HasBit(x, 4) == HasBit(y, 4);
    assert HasBit(x, 5) == HasBit(y, 5);
    assert HasBit(x, 6) == HasBit(y, 6);
    assert HasBit(x, 7) == HasBit(y, 7);
  }

  /** A positive multiple of m is at least m. */
  lemma MulAtLeast(a: nat, m: nat)
    requires 1 <= a
    ensures a * m >= m
  {
  }

  /** Euclidean division of a natural number: a natural quotient and a remainder below m. */
  lemma DivMod(x: nat, m: nat)
    requires 0 < m
    ensures 0 <= x / m && 0 <= x % m < m && x == (x / m) * m + x % m
  {
  }

  /** The remainder is determined by any quotient/remainder decomposition. */
  lemma ModUnique(x: nat, m: nat, q: nat, r: nat)
    requires 0 < m && r < m && x == q * m + r
    ensures x % m == r && x / m == q
  {
    var q1 := x / m;
    var r1 := x % m;
    assert x == q1 * m + r1;
    if q < q1 {
      MulAtLeast(q1 - q, m);
      assert false;
    } else if q1 < q {
      MulAtLeast(q - q1, m);
      assert false;
    }
  }

  /** Concatenation is associative; stated once so that proofs can cite it. */
  lemma AppendAssoc<T>(a: seq<T>, b: seq<T>, c: seq<T>)
    ensures a + (b + c) == (a + b) + c
  {
  }
}
