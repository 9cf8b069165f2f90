/**
 * The RC4 key schedule (restart): the 256-entry state is set to the
 * identity and then mixed with the key by 256 swaps driven by an 8-bit
 * index j. The stream generation itself is declared in a header and is
 * not part of this model.
 */
module RC4 {
  import opened Common

  /** The cipher: the permutation m_state and the stream indices m_x and m_y. */
  datatype Cipher = Cipher(state: seq<u8>, x: u8, y: u8)

  /** The identity state 0, 1, ..., 255. */
  function Identity(): (r: seq<u8>)
    ensures |r| == 256 && forall i :: 0 <= i < 256 ==> r[i] == i
  {
    seq(256, i requires 0 <= i < 256 => i)
  }

  /** s is a permutation of 0..255: the same multiset as the identity. */
  predicate IsPermutation(s: seq<u8>)
  {
    |s| == 256 && multiset(s) == multiset(Identity())
  }

  /** Exchange entries a and b (the tmp swap). */
  function Swap(s: seq<u8>, a: nat, b: nat): (r: seq<u8>)
    requires a < |s| && b < |s|
    ensures |r| == |s|
  {
    s[a := s[b]][b := s[a]]
  }

  /** A swap only reorders the entries. */
  lemma SwapPermutes(s: seq<u8>, a: nat, b: nat)
    requires a < |s| && b < |s|
    ensures multiset(Swap(s, a, b)) == multiset(s)
  {
  }

  /** One mixing step: j advances by state[i] and key byte i % len, modulo 256. */
  function NextJ(s: seq<u8>, i: nat, j: u8, key: seq<u8>): (r: u8)
    requires i < |s| && 0 < |key|
  {
    (j + s[i] + key[i % |key|]) % 256
  }

  /** The mixing loop from step i with index j: the reference definition of the schedule. */
  function MixFrom(s: seq<u8>, i: nat, j: u8, key: seq<u8>): (r: seq<u8>)
    requires |s| == 256 && i <= 256 && 0 < |key|
    ensures |r| == 256
    decreases 256 - i
  {
    if i == 256 then s
    else
      var j1 := NextJ(s, i, j, key);
      MixFrom(Swap(s, i, j1), i + 1, j1, key)
  }

  /** The state restart leaves for a key. */
  function Schedule(key: seq<u8>): (r: seq<u8>)
    requires 0 < |key|
  {
    MixFrom(Identity(), 0, 0, key)
  }

  /** The first loop of restart: entry i of the prior state is overwritten with i. */
  method FillIdentity(prior: seq<u8>) returns (s: seq<u8>)
    requires |prior| == 256
    ensures s == Identity()
  {
    s := prior;
    var i := 0;
    while i < 256
      invariant 0 <= i <= 256 && |s| == 256
      invariant forall k :: 0 <= k < i ==> s[k] == k
    {
      s := s[i := i];
      i := i + 1;
    }
  }

  /**
   * The second loop of restart: 256 swaps, j accumulating modulo 256.
   * The result is the loop's recursive form, and a permutation of the
   * entries it started from.
   */
  method Mix(s0: seq<u8>, key: seq<u8>) returns (s: seq<u8>)
    requires |s0| == 256 && 0 < |key|
    ensures s == MixFrom(s0, 0, 0, key)
    ensures multiset(s) == multiset(s0)
  {
    MixPermutes(s0, 0, 0, key);
    s := s0;
    var j: u8 := 0;
    var i := 0;
    while i < 256
      invariant 0 <= i <= 256 && |s| == 256
      invariant MixFrom(s, i, j, key) == MixFrom(s0, 0, 0, key)
    {
      j := NextJ(s, i, j, key);
      s := Swap(s, i, j);
      i := i + 1;
    }
  }

  /**
   * restart: every entry of the prior state is overwritten with its
   * index, the stream indices are reset, and the 256 swaps are applied.
   * The key must be non-empty (i % len).
   */
  method Restart(prior: Cipher, key: seq<u8>) returns (r: Cipher)
    requires 0 < |key| && |prior.state| == 256
    ensures r.x == 0 && r.y == 0
    ensures r.state == Schedule(key)
    ensures IsPermutation(r.state)
  {
    var s := FillIdentity(prior.state);
    s := Mix(s, key);
    ScheduleIsPermutation(key);
    r := Cipher(s, 0, 0);
  }

  /** The mixing loop only reorders the entries. */
  lemma {:induction false} MixPermutes(s: seq<u8>, i: nat, j: u8, key: seq<u8>)
    requires |s| == 256 && i <= 256 && 0 < |key|
    ensures multiset(MixFrom(s, i, j, key)) == multiset(s)
    decreases 256 - i
  {
    if i < 256 {
      var j1 := NextJ(s, i, j, key);
      SwapPermutes(s, i, j1);
      MixPermutes(Swap(s, i, j1), i + 1, j1, key);
    }
  }

  /** Every schedule is a permutation of 0..255. */
  lemma ScheduleIsPermutation(key: seq<u8>)
    requires 0 < |key|
    ensures IsPermutation(Schedule(key))
  {
    MixPermutes(Identity(), 0, 0, key);
  }

  /** Two keys that supply the same byte at every step give the same mixing. */
  lemma {:induction false} MixSameKeyBytes(s: seq<u8>, i: nat, j: u8, k1: seq<u8>, k2: seq<u8>)
    requires |s| == 256 && i <= 256 && 0 < |k1| && 0 < |k2|
    requires forall n :: i <= n < 256 ==> k1[n % |k1|] == k2[n % |k2|]
    ensures MixFrom(s, i, j, k1) == MixFrom(s, i, j, k2)
    decreases 256 - i
  {
    if i < 256 {
      assert NextJ(s, i, j, k1) == NextJ(s, i, j, k2);
      var j1 := NextJ(s, i, j, k1);
      MixSameKeyBytes(Swap(s, i, j1), i + 1, j1, k1, k2);
    }
  }

  /** The remainder modulo 2L is the remainder modulo L, or that plus L. */
  lemma ModDouble(n: nat, len: nat)
    requires 0 < len
    ensures n % (2 * len) == n % len || n % (2 * len) == n % len + len
  {
    DivMod(n, 2 * len);
    var q: nat := n / (2 * len);
    var m: nat := n % (2 * len);
    Doubled(q, len);
    if m < len {
      ModUnique(n, len, 2 * q, m);
    } else {
      ModUnique(n, len, 2 * q + 1, m - len);
    }
  }

  /** The multiples of 2L are the even multiples of L. */
  lemma Doubled(q: int, len: int)
    ensures q * (2 * len) == (2 * q) * len
    ensures (2 * q + 1) * len == (2 * q) * len + len
  {
  }

  /** A key and its repetition key ++ key give the same state. */
  lemma RepeatedKey(key: seq<u8>)
    requires 0 < |key|
    ensures Schedule(key + key) == Schedule(key)
  {
    var kk := key + key;
    forall n | 0 <= n < 256
      ensures kk[n % |kk|] == key[n % |key|]
    {
      ModDouble(n, |key|);
    }
    MixSameKeyBytes(Identity(), 0, 0, kk, key);
  }
}
