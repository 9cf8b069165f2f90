/**
 * IR::Receiver: an infrared remote receiver that times the edges of one
 * code. Each edge interrupt measures the time since the previous edge;
 * the periods between the first two and the last two samples are
 * skipped, and every other period adds one bit to the code (1 for a
 * period above the threshold). After max edges the code is pushed as a
 * completion event, whose value is 16 bits wide. The time of an edge
 * (RTC::micros) is a parameter.
 */
module IRReceiver {
  import opened Common

  /** The 16-bit value of a code: the event value is a uint16_t. */
  function Low16(c: nat): u16
  {
    c % 0x1_0000
  }

  /**
   * The receiver: sample index and count, start of the current period,
   * the code so far, the optional sample buffer and the threshold.
   */
  datatype Receiver = Receiver(ix: nat, max: nat, start: nat, code: nat,
                               sample: Option<seq<nat>>, threshold: nat)

  /** A receiver in a state on_interrupt can be called in. */
  predicate Valid(r: Receiver)
  {
    r.ix <= r.max && r.start < 0x1_0000_0000
    && (r.sample.Some? ==> |r.sample.value| == r.max)
  }

  /** What an interrupt does besides changing the receiver. */
  datatype Effect = Effect(attach: bool, completed: Option<u16>)

  /** Sample ix of the code adds a bit: all but the first two and the last two. */
  predicate CodeSample(ix: nat, max: nat)
  {
    1 < ix && ix < max - 2
  }

  /**
   * Receiver::on_interrupt at time now: nothing once max samples are in;
   * otherwise the period is recorded, a code bit added for the inner
   * samples, and at the last sample the code is completed as a 16-bit
   * event value.
   */
  function OnInterrupt(r: Receiver, now: nat): (res: (Receiver, Effect))
    requires Valid(r) && now < 0x1_0000_0000
    ensures Valid(res.0) && res.0.max == r.max && res.0.threshold == r.threshold
    ensures r.ix == r.max ==> res == (r, Effect(false, None))
    ensures r.ix < r.max ==>
              var us := Elapsed32(now, r.start);
              res.0.ix == r.ix + 1 && res.0.start == now
              && (r.sample.Some? ==> res.0.sample == Some(r.sample.value[r.ix := us]))
              && (r.sample.None? ==> res.0.sample.None?)
              && res.0.code == (if CodeSample(r.ix, r.max) then 2 * r.code + (if us > r.threshold then 1 else 0) else r.code)
              && res.1.attach == (r.ix == 0)
              && (res.1.completed.Some? <==> r.ix + 1 == r.max)
              && (res.1.completed.Some? ==> res.1.completed.value == Low16(res.0.code))
  {
    if r.ix == r.max then (r, Effect(false, None))
    else
      var us := Elapsed32(now, r.start);
      var sample := if r.sample.Some? then Some(r.sample.value[r.ix := us]) else None;
      var code := if CodeSample(r.ix, r.max) then 2 * r.code + (if us > r.threshold then 1 else 0) else r.code;
      var r' := r.(ix := r.ix + 1, start := now, sample := sample, code := code);
      (r', Effect(r.ix == 0, if r.ix + 1 == r.max then Some(Low16(code)) else None))
  }

  /** Receiver::reset at time now: index and code back to 0, a new period starts. */
  function Reset(r: Receiver, now: nat): (res: Receiver)
    requires Valid(r) && now < 0x1_0000_0000
    ensures Valid(res) && res.ix == 0 && res.code == 0 && res.start == now
    ensures res.max == r.max && res.threshold == r.threshold && res.sample == r.sample
  {
    r.(ix := 0, code := 0, start := now)
  }

  /** A sequence of edge interrupts: the receiver after them and the codes completed. */
  function Feed(r: Receiver, times: seq<nat>): (res: (Receiver, seq<u16>))
    requires Valid(r)
    requires forall i :: 0 <= i < |times| ==> times[i] < 0x1_0000_0000
    ensures Valid(res.0) && res.0.max == r.max && res.0.threshold == r.threshold
    decreases |times|
  {
    if times == [] then (r, [])
    else
      var step := OnInterrupt(r, times[0]);
      var rest := Feed(step.0, times[1..]);
      (rest.0, (if step.1.completed.Some? then [step.1.completed.value] else []) + rest.1)
  }

  /** Once max samples are in, further edges change nothing and complete nothing. */
  lemma {:induction false} FullIgnores(r: Receiver, times: seq<nat>)
    requires Valid(r) && r.ix == r.max
    requires forall i :: 0 <= i < |times| ==> times[i] < 0x1_0000_0000
    ensures Feed(r, times) == (r, [])
    decreases |times|
  {
    if times != [] {
      assert OnInterrupt(r, times[0]) == (r, Effect(false, None));
      FullIgnores(r, times[1..]);
      assert [] + Feed(r, times[1..]).1 == [];
    }
  }

  /** The periods between successive edge times, the first measured from start. */
  function Periods(start: nat, times: seq<nat>): (ps: seq<nat>)
    requires start < 0x1_0000_0000
    requires forall i :: 0 <= i < |times| ==> times[i] < 0x1_0000_0000
    ensures |ps| == |times|
    decreases |times|
  {
    if times == [] then []
    else [Elapsed32(times[0], start)] + Periods(times[0], times[1..])
  }

  /** The code of a sequence of periods, first period in the highest bit. */
  function Bits(ps: seq<nat>, threshold: nat): (c: nat)
    ensures c < Pow2(|ps|)
    decreases |ps|
  {
    if ps == [] then 0
    else 2 * Bits(ps[..|ps| - 1], threshold) + (if ps[|ps| - 1] > threshold then 1 else 0)
  }

  /** The periods of samples 2 .. min(k, max - 2) - 1, the ones that add code bits. */
  function CodeWindow(ps: seq<nat>, k: nat, max: nat): (w: seq<nat>)
    requires k <= |ps|
  {
    var hi := if k < max - 2 then k else if max >= 2 then max - 2 else 0;
    if hi <= 2 then [] else ps[2..hi]
  }

  /**
   * After k <= max edges from a reset receiver, the index is k, the
   * period runs from the last edge, the code holds the bits of the inner
   * periods seen so far, and no code has been completed before the max-th
   * edge.
   */
  lemma {:induction false} FeedPrefix(r: Receiver, times: seq<nat>, k: nat)
    requires Valid(r) && r.ix == 0 && r.code == 0
    requires forall i :: 0 <= i < |times| ==> times[i] < 0x1_0000_0000
    requires k <= |times| && k <= r.max
    ensures var res := Feed(r, times[..k]);
            res.0.ix == k
            && res.0.start == (if k == 0 then r.start else times[k - 1])
            && res.0.code == Bits(CodeWindow(Periods(r.start, times), k, r.max), r.threshold)
            && res.1 == (if k == r.max && k > 0 then [Low16(res.0.code)] else [])
    decreases k
  {
    var ps := Periods(r.start, times);
    if k == 0 {
      assert times[..0] == [];
    } else {
      FeedPrefix(r, times, k - 1);
      var prev := Feed(r, times[..k - 1]);
      FeedAppend(r, times[..k - 1], [times[k - 1]]);
      assert times[..k - 1] + [times[k - 1]] == times[..k];
      PeriodAt(r.start, times, k - 1);
      FeedOne(prev.0, times[k - 1]);
      WindowStep(ps, k, r.max, r.threshold);
    }
  }

  /** Feeding one edge is one interrupt. */
  lemma FeedOne(r: Receiver, t: nat)
    requires Valid(r) && t < 0x1_0000_0000
    ensures var step := OnInterrupt(r, t);
            Feed(r, [t]) == (step.0, if step.1.completed.Some? then [step.1.completed.value] else [])
  {
    var step := OnInterrupt(r, t);
    assert [t][1..] == [];
    var e: seq<u16> := if step.1.completed.Some? then [step.1.completed.value] else [];
    assert e + [] == e;
  }

  /** Feeding two runs of edges is feeding their concatenation. */
  lemma {:induction false} FeedAppend(r: Receiver, a: seq<nat>, b: seq<nat>)
    requires Valid(r)
    requires forall i :: 0 <= i < |a| ==> a[i] < 0x1_0000_0000
    requires forall i :: 0 <= i < |b| ==> b[i] < 0x1_0000_0000
    ensures var ab := a + b;
            forall i :: 0 <= i < |ab| ==> ab[i] < 0x1_0000_0000
    ensures Feed(r, a + b) == (Feed(Feed(r, a).0, b).0, Feed(r, a).1 + Feed(Feed(r, a).0, b).1)
    decreases |a|
  {
    if a == [] {
      assert a + b == b;
      assert Feed(r, a).1 == [];
      assert [] + Feed(r, b).1 == Feed(r, b).1;
    } else {
      assert (a + b)[0] == a[0];
      assert (a + b)[1..] == a[1..] + b;
      var step := OnInterrupt(r, a[0]);
      FeedAppend(step.0, a[1..], b);
      var e := if step.1.completed.Some? then [step.1.completed.value] else [];
      AppendAssoc(e, Feed(step.0, a[1..]).1, Feed(Feed(step.0, a[1..]).0, b).1);
    }
  }

  /** The period of edge i runs from the edge before it, or from start for the first. */
  lemma {:induction false} PeriodAt(start: nat, times: seq<nat>, i: nat)
    requires start < 0x1_0000_0000
    requires forall j :: 0 <= j < |times| ==> times[j] < 0x1_0000_0000
    requires i < |times|
    ensures Periods(start, times)[i] == Elapsed32(times[i], if i == 0 then start else times[i - 1])
    decreases i
  {
    if i > 0 {
      PeriodAt(times[0], times[1..], i - 1);
    }
  }

  /** Edge k adds the bit of period k - 1 exactly when sample k - 1 is inside the code window. */
  lemma WindowStep(ps: seq<nat>, k: nat, max: nat, threshold: nat)
    requires 0 < k <= |ps| && k <= max
    ensures var before := Bits(CodeWindow(ps, k - 1, max), threshold);
            Bits(CodeWindow(ps, k, max), threshold)
              == if CodeSample(k - 1, max) then 2 * before + (if ps[k - 1] > threshold then 1 else 0) else before
  {
    if CodeSample(k - 1, max) {
      var w := CodeWindow(ps, k, max);
      assert w == ps[2..k];
      assert w[..|w| - 1] == CodeWindow(ps, k - 1, max);
    } else {
      assert CodeWindow(ps, k, max) == CodeWindow(ps, k - 1, max);
    }
  }

  /**
   * A whole code: max >= 4 edges after a reset complete exactly one code,
   * made of the max - 4 inner periods, first period in the highest bit;
   * the first two and the last two periods are skipped. The event carries
   * the low 16 bits, which is the code accumulated in 16 bits.
   */
  lemma ReceiveCode(r: Receiver, times: seq<nat>)
    requires Valid(r) && r.ix == 0 && r.code == 0 && r.max >= 4
    requires forall i :: 0 <= i < |times| ==> times[i] < 0x1_0000_0000
    requires |times| == r.max
    ensures var ps := Periods(r.start, times);
            Feed(r, times).1 == [Low16(Bits(ps[2..r.max - 2], r.threshold))]
            && Feed(r, times).1 == [Bits16(ps[2..r.max - 2], r.threshold)]
            && |ps[2..r.max - 2]| == r.max - 4
  {
    FeedPrefix(r, times, r.max);
    assert times[..r.max] == times;
    Bits16Low(Periods(r.start, times)[2..r.max - 2], r.threshold);
  }

  /** With at most 16 inner periods (max <= 20) the event carries the whole code. */
  lemma ShortCodeWhole(r: Receiver, times: seq<nat>)
    requires Valid(r) && r.ix == 0 && r.code == 0 && 4 <= r.max <= 20
    requires forall i :: 0 <= i < |times| ==> times[i] < 0x1_0000_0000
    requires |times| == r.max
    ensures Feed(r, times).1 == [Bits(Periods(r.start, times)[2..r.max - 2], r.threshold)]
  {
    var w := Periods(r.start, times)[2..r.max - 2];
    var b := Bits(w, r.threshold);
    assert b < 0x1_0000 by {
      Pow2Mono(|w|, 16);
      Pow2Values();
    }
    assert Low16(b) == b;
    ReceiveCode(r, times);
  }

  /** The code accumulated in a 16-bit word: each shift and add wraps. */
  function Bits16(ps: seq<nat>, threshold: nat): (c: u16)
    decreases |ps|
  {
    if ps == [] then 0
    else Low16(2 * Bits16(ps[..|ps| - 1], threshold) + (if ps[|ps| - 1] > threshold then 1 else 0))
  }

  /** Accumulating in 16 bits loses nothing but the high bits: the result is the low 16 bits of the code. */
  lemma {:induction false} Bits16Low(ps: seq<nat>, threshold: nat)
    ensures Bits16(ps, threshold) == Low16(Bits(ps, threshold))
    decreases |ps|
  {
    if ps != [] {
      var init := ps[..|ps| - 1];
      var b := if ps[|ps| - 1] > threshold then 1 else 0;
      Bits16Low(init, threshold);
      var c := Bits(init, threshold);
      DivMod(c, 0x1_0000);
      assert 2 * c + b == 0x1_0000 * (2 * (c / 0x1_0000)) + (2 * (c % 0x1_0000) + b);
      ModShift(2 * (c % 0x1_0000) + b, 2 * (c / 0x1_0000));
    }
  }

  /** Adding a multiple of 2^16 does not change the low 16 bits. */
  lemma ModShift(x: nat, q: nat)
    ensures (0x1_0000 * q + x) % 0x1_0000 == x % 0x1_0000
  {
    DivMod(x, 0x1_0000);
    ModUnique(0x1_0000 * q + x, 0x1_0000, q + x / 0x1_0000, x % 0x1_0000);
  }

  /** Pow2 grows with its exponent. */
  lemma {:induction false} Pow2Mono(m: nat, n: nat)
    requires m <= n
    ensures Pow2(m) <= Pow2(n)
    decreases n
  {
    if m < n {
      Pow2Mono(m, n - 1);
    }
  }

  /** 2^16 is 0x10000, and 2^17 is 0x20000. */
  lemma Pow2Values()
    ensures Pow2(16) == 0x1_0000 && Pow2(17) == 0x2_0000
  {
    assert Pow2(2) == 4;
    assert Pow2(4) == 16;
    assert Pow2(6) == 64;
    assert Pow2(8) == 256;
    assert Pow2(10) == 1024;
    assert Pow2(12) == 4096;
    assert Pow2(14) == 0x4000;
  }

  /** Periods all above the threshold give a code of all ones. */
  lemma {:induction false} AllLong(ps: seq<nat>, threshold: nat)
    requires forall i :: 0 <= i < |ps| ==> ps[i] > threshold
    ensures Bits(ps, threshold) == Pow2(|ps|) - 1
    decreases |ps|
  {
    if ps != [] {
      AllLong(ps[..|ps| - 1], threshold);
    }
  }

  /**
   * With more than 16 inner periods the high bits are lost: 17 periods
   * above the threshold make the code 0x1FFFF, and the event carries 0xFFFF.
   */
  lemma LongCodeTruncated(ps: seq<nat>, threshold: nat)
    requires |ps| == 17 && forall i :: 0 <= i < |ps| ==> ps[i] > threshold
    ensures Bits(ps, threshold) == 0x1_FFFF && Bits16(ps, threshold) == 0xFFFF
  {
    AllLong(ps, threshold);
    Pow2Values();
    Bits16Low(ps, threshold);
  }

  /** A keymap entry: a code and its key, two program-memory words. */
  datatype Key = Key(code: u16, key: u16)

  /** A key word read as the 16-bit signed int lookup returns. */
  function AsInt16(w: u16): (r: int)
    ensures -0x8000 <= r < 0x8000
    ensures r % 0x1_0000 == w
  {
    if w < 0x8000 then w else w - 0x1_0000
  }

  /**
   * Receiver::lookup: -1 without a keymap; otherwise the key of the first
   * entry with the code, as a signed int, or -1 when no entry has it. A
   * key word of 0xFFFF also reads as -1, so -1 alone does not tell a
   * missing code from that key.
   */
  method Lookup(keymap: Option<seq<Key>>, code: u16) returns (key: int)
    requires keymap.Some? ==> |keymap.value| < 256
    ensures -0x8000 <= key < 0x8000
    ensures keymap.None? ==> key == -1
    ensures keymap.Some? && (forall i :: 0 <= i < |keymap.value| ==> keymap.value[i].code != code) ==> key == -1
    ensures keymap.Some? ==>
              forall i :: 0 <= i < |keymap.value| && keymap.value[i].code == code
                          && (forall j :: 0 <= j < i ==> keymap.value[j].code != code)
                          ==> key == AsInt16(keymap.value[i].key)
    ensures key != -1 ==>
              keymap.Some? && exists i :: 0 <= i < |keymap.value| && keymap.value[i].code == code && AsInt16(keymap.value[i].key) == key
  {
    if keymap.None? {
      return -1;
    }
    var keys := keymap.value;
    var i := 0;
    while i < |keys|
      invariant 0 <= i <= |keys|
      invariant forall j :: 0 <= j < i ==> keys[j].code != code
    {
      if keys[i].code == code {
        return AsInt16(keys[i].key);
      }
      i := i + 1;
    }
    return -1;
  }
}
