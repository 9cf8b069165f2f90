/**
 * BitSet<N>: a set of the indices 0..N-1 stored as a byte vector, index
 * ix being bit ix % 8 of byte ix / 8. N is a uint16_t template parameter.
 */
module BitSet {
  import opened Common

  const CHARBITS: nat := 8

  /** Bound of the uint16_t parameter N. */
  const MAX_N: nat := 0x1_0000

  /** SET_MAX as written: (N + CHARBITS/2) / CHARBITS, which rounds to the nearest byte count. */
  function SetMaxAsWritten(n: nat): (r: nat)
    ensures r * CHARBITS <= n + CHARBITS / 2 < r * CHARBITS + CHARBITS
  {
    (n + CHARBITS / 2) / CHARBITS
  }

  /** The byte count the indices need: N / CHARBITS rounded up. */
  function SetMax(n: nat): (r: nat)
    ensures n <= r * CHARBITS < n + CHARBITS
  {
    (n + CHARBITS - 1) / CHARBITS
  }

  /** Every index below N has its byte inside the corrected storage, and no byte is spare. */
  lemma SetMaxCovers(n: nat, ix: nat)
    requires ix < n
    ensures ix / CHARBITS < SetMax(n)
    ensures (SetMax(n) - 1) * CHARBITS < n
  {
  }

  /** The written SET_MAX is short by one byte exactly when N mod 8 is 1, 2 or 3. */
  lemma SetMaxAsWrittenShort(n: nat)
    ensures SetMaxAsWritten(n) < SetMax(n) <==> 1 <= n % CHARBITS <= 3
    ensures SetMaxAsWritten(n) <= SetMax(n)
  {
  }

  /** With the written SET_MAX, the byte of the last index N-1 lies past m_set when N mod 8 is 1..3. */
  lemma LastIndexOverflows(n: nat)
    requires 1 <= n % CHARBITS <= 3
    ensures (n - 1) / CHARBITS == SetMaxAsWritten(n)
  {
    var q, r := n / CHARBITS, n % CHARBITS;
    DivMod(n, CHARBITS);
    ModUnique(n - 1, CHARBITS, q, r - 1);
    ModUnique(n + CHARBITS / 2, CHARBITS, q, r + CHARBITS / 2);
  }

  /** For instance N = 10 gets one byte although index 9 lives in byte 1. */
  lemma TenMembersOneByte()
    ensures SetMaxAsWritten(10) == 1 && 9 / CHARBITS == 1 && SetMax(10) == 2
  {
  }

  /** The set: N and the storage m_set. */
  datatype Bits = Bits(n: nat, bytes: seq<byte>)

  /** The storage bits that stand for no index (index N and above) are clear. */
  predicate Padded(s: Bits)
  {
    forall i, k :: 0 <= i < |s.bytes| && 0 <= k < 8 && s.n <= i * CHARBITS + k ==> !HasBit(s.bytes[i], k)
  }

  predicate Valid(s: Bits)
  {
    s.n < MAX_N && |s.bytes| == SetMax(s.n) && Padded(s)
  }

  /** members: the maximum number of elements, N. */
  function Members(s: Bits): (r: nat)
    requires Valid(s)
    ensures r < MAX_N && (r == 0 <==> |s.bytes| == 0)
  {
    s.n
  }

  /** operator[]: ix is a member; false for every ix >= N. */
  function Contains(s: Bits, ix: nat): (r: bool)
    requires Valid(s)
    ensures r ==> ix < s.n
  {
    if ix < s.n then
      SetMaxCovers(s.n, ix);
      HasBit(s.bytes[ix / CHARBITS], ix % CHARBITS)
    else false
  }

  /** The constructor and empty: all storage bytes zero, so nothing is a member. */
  function Empty(n: nat): (r: Bits)
    requires n < MAX_N
    ensures Valid(r) && r.n == n
    ensures forall ix :: !Contains(r, ix)
  {
    Bits(n, seq(SetMax(n), _ => 0))
  }

  /** A non-zero byte has a set bit. */
  lemma NonzeroBit(x: byte) returns (k: nat)
    requires x != 0
    ensures k < 8 && HasBit(x, k)
  {
    if HasBit(x, 0) { k := 0; }
    else if HasBit(x, 1) { k := 1; }
    else if HasBit(x, 2) { k := 2; }
    else if HasBit(x, 3) { k := 3; }
    else if HasBit(x, 4) { k := 4; }
    else if HasBit(x, 5) { k := 5; }
    else if HasBit(x, 6) { k := 6; }
    else if HasBit(x, 7) { k := 7; }
    else {
      ByteExt(x, 0);
      assert false;
    }
  }

  /** isempty: scans the storage for a non-zero byte; true exactly when no index is a member. */
  method IsEmpty(s: Bits) returns (r: bool)
    requires Valid(s)
    ensures r <==> forall ix :: !Contains(s, ix)
  {
    var i := 0;
    while i < |s.bytes|
      invariant 0 <= i <= |s.bytes|
      invariant forall j :: 0 <= j < i ==> s.bytes[j] == 0
    {
      if s.bytes[i] != 0 {
        var k := NonzeroBit(s.bytes[i]);
        var ix := i * CHARBITS + k;
        assert ix / CHARBITS == i && ix % CHARBITS == k;
        assert Contains(s, ix);
        return false;
      }
      i := i + 1;
    }
    return true;
  }

  /** operator+=(ix): sets the bit of ix when ix < N, otherwise nothing. */
  function Add(s: Bits, ix: nat): (r: Bits)
    requires Valid(s)
    ensures r.n == s.n && |r.bytes| == |s.bytes|
  {
    if ix < s.n then
      SetMaxCovers(s.n, ix);
      var q := ix / CHARBITS;
      s.(bytes := s.bytes[q := s.bytes[q] | Bit(ix % CHARBITS)])
    else s
  }

  /** operator-=(ix): clears the bit of ix when ix < N, otherwise nothing. */
  function Remove(s: Bits, ix: nat): (r: Bits)
    requires Valid(s)
    ensures r.n == s.n && |r.bytes| == |s.bytes|
  {
    if ix < s.n then
      SetMaxCovers(s.n, ix);
      var q := ix / CHARBITS;
      s.(bytes := s.bytes[q := s.bytes[q] & !Bit(ix % CHARBITS)])
    else s
  }

  /** After += ix, ix is a member when ix < N and every other index keeps its membership. */
  lemma AddMembers(s: Bits, ix: nat)
    requires Valid(s)
    ensures Valid(Add(s, ix))
    ensures forall j :: Contains(Add(s, ix), j) <==> Contains(s, j) || (j == ix && ix < s.n)
  {
    if ix < s.n {
      var r := Add(s, ix);
      var q := ix / CHARBITS;
      forall i, k | 0 <= i < |r.bytes| && 0 <= k < 8
        ensures HasBit(r.bytes[i], k) <==> HasBit(s.bytes[i], k) || (i == q && k == ix % CHARBITS)
      {
        if i == q { OrBit(s.bytes[q], ix % CHARBITS, k); }
      }
      forall j: nat | j < s.n
        ensures Contains(r, j) <==> Contains(s, j) || j == ix
      {
        SetMaxCovers(s.n, j);
      }
    }
  }

  /** After -= ix, ix is not a member and every other index keeps its membership. */
  lemma RemoveMembers(s: Bits, ix: nat)
    requires Valid(s)
    ensures Valid(Remove(s, ix))
    ensures forall j :: Contains(Remove(s, ix), j) <==> Contains(s, j) && j != ix
  {
    if ix < s.n {
      var r := Remove(s, ix);
      var q := ix / CHARBITS;
      forall i, k | 0 <= i < |r.bytes| && 0 <= k < 8
        ensures HasBit(r.bytes[i], k) <==> HasBit(s.bytes[i], k) && !(i == q && k == ix % CHARBITS)
      {
        if i == q { AndNotBit(s.bytes[q], ix % CHARBITS, k); }
      }
      forall j: nat | j < s.n
        ensures Contains(r, j) <==> Contains(s, j) && j != ix
      {
        SetMaxCovers(s.n, j);
      }
    }
  }

  /** += ix is idempotent. */
  lemma AddIdempotent(s: Bits, ix: nat)
    requires Valid(s)
    ensures Valid(Add(s, ix)) && Add(Add(s, ix), ix) == Add(s, ix)
  {
    AddMembers(s, ix);
  }

  /** Byte-wise combination of two storages of the same length. */
  function Zip(a: seq<byte>, b: seq<byte>, union: bool): (r: seq<byte>)
    requires |a| == |b|
    ensures |r| == |a|
  {
    seq(|a|, i requires 0 <= i < |a| => if union then a[i] | b[i] else a[i] & !b[i])
  }

  /** operator+=(rhs): byte-wise or; nothing when rhs has a different N. */
  function Union(s: Bits, rhs: Bits): (r: Bits)
    requires Valid(s) && Valid(rhs)
    ensures r.n == s.n
    ensures rhs.n != s.n ==> r == s
  {
    if rhs.n != s.n then s else s.(bytes := Zip(s.bytes, rhs.bytes, true))
  }

  /** operator-=(rhs): byte-wise and-not; nothing when rhs has a different N. */
  function Difference(s: Bits, rhs: Bits): (r: Bits)
    requires Valid(s) && Valid(rhs)
    ensures r.n == s.n
    ensures rhs.n != s.n ==> r == s
  {
    if rhs.n != s.n then s else s.(bytes := Zip(s.bytes, rhs.bytes, false))
  }

  /** operator=(rhs): byte-wise copy; nothing when rhs has a different N. */
  function Assign(s: Bits, rhs: Bits): (r: Bits)
    requires Valid(s) && Valid(rhs)
    ensures Valid(r) && r.n == s.n
    ensures rhs.n != s.n ==> r == s
    ensures rhs.n == s.n ==> forall j :: Contains(r, j) == Contains(rhs, j)
  {
    if rhs.n != s.n then s else s.(bytes := rhs.bytes)
  }

  /** With equal N, += rhs is set union. */
  lemma UnionMembers(s: Bits, rhs: Bits)
    requires Valid(s) && Valid(rhs) && rhs.n == s.n
    ensures Valid(Union(s, rhs))
    ensures forall j :: Contains(Union(s, rhs), j) <==> Contains(s, j) || Contains(rhs, j)
  {
    var r := Union(s, rhs);
    forall i, k | 0 <= i < |r.bytes| && 0 <= k < 8
      ensures HasBit(r.bytes[i], k) <==> HasBit(s.bytes[i], k) || HasBit(rhs.bytes[i], k)
    {
      OrBits(s.bytes[i], rhs.bytes[i], k);
    }
    forall j: nat | j < s.n
      ensures Contains(r, j) <==> Contains(s, j) || Contains(rhs, j)
    {
      SetMaxCovers(s.n, j);
    }
  }

  /** With equal N, -= rhs is set difference. */
  lemma DifferenceMembers(s: Bits, rhs: Bits)
    requires Valid(s) && Valid(rhs) && rhs.n == s.n
    ensures Valid(Difference(s, rhs))
    ensures forall j :: Contains(Difference(s, rhs), j) <==> Contains(s, j) && !Contains(rhs, j)
  {
    var r := Difference(s, rhs);
    forall i, k | 0 <= i < |r.bytes| && 0 <= k < 8
      ensures HasBit(r.bytes[i], k) <==> HasBit(s.bytes[i], k) && !HasBit(rhs.bytes[i], k)
    {
      AndNotBits(s.bytes[i], rhs.bytes[i], k);
    }
    forall j: nat | j < s.n
      ensures Contains(r, j) <==> Contains(s, j) && !Contains(rhs, j)
    {
      SetMaxCovers(s.n, j);
    }
  }

  /** operator==: false for a different N, otherwise byte-wise equality of the storage. */
  function Equal(s: Bits, rhs: Bits): (r: bool)
    requires Valid(s) && Valid(rhs)
    ensures r ==> s.n == rhs.n
  {
    s.n == rhs.n && s.bytes == rhs.bytes
  }

  /** == holds exactly when both sets have the same N and the same members. */
  lemma EqualIffSameMembers(s: Bits, rhs: Bits)
    requires Valid(s) && Valid(rhs)
    ensures Equal(s, rhs) <==> s.n == rhs.n && forall j :: Contains(s, j) == Contains(rhs, j)
  {
    if s.n == rhs.n && forall j :: Contains(s, j) == Contains(rhs, j) {
      forall i | 0 <= i < |s.bytes|
        ensures s.bytes[i] == rhs.bytes[i]
      {
        forall k | 0 <= k < 8
          ensures HasBit(s.bytes[i], k) == HasBit(rhs.bytes[i], k)
        {
          var ix := i * CHARBITS + k;
          assert ix / CHARBITS == i && ix % CHARBITS == k;
          if ix < s.n {
            assert Contains(s, ix) == Contains(rhs, ix);
          }
        }
        ByteExt(s.bytes[i], rhs.bytes[i]);
      }
    }
  }
}
