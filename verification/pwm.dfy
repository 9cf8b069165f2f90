/**
 * The Raspberry Pi software PWM: a thread calls process repeatedly. Each
 * call is at a phase between 0 and 254. At phase 0 every pin under PWM
 * is driven HIGH (LOW for duty 0). At a later phase the pins whose duty
 * has been reached are driven LOW. The call then sleeps until the next
 * phase at which some duty is reached, or until phase 255, where the
 * cycle starts over. A pin with duty v is thus HIGH for v of the 255
 * ticks of 10 microseconds in each cycle. The GPIO calls are returned as
 * a trace, and the sleep as its length in microseconds.
 */
module PiPwm {
  import opened Common
  import opened PiGpio

  /** The duty of a pin that is not under PWM. */
  const OFF: int := -1

  /** The phases of one cycle. */
  const PERIOD: nat := 255

  /** Microseconds per phase tick. */
  const TICK_US: nat := 10

  /** The PWM state: a duty per digital pin, and the phase. */
  datatype Pwm = Pwm(duty: seq<int>, phase: int)

  /** A GPIO call PWM makes: pinMode or digitalWrite. */
  datatype Action = Mode(pin: nat, mode: byte) | Drive(pin: nat, level: byte)

  /** A duty a pin can hold: OFF or an analogWrite value. */
  predicate DutyValue(v: int)
  {
    v == OFF || 0 <= v <= 255
  }

  /** A state process can be called in: one duty per pin, phase inside the cycle. */
  predicate Valid(b: Board, p: Pwm)
  {
    |p.duty| == |b.table| && 0 <= p.phase < PERIOD
    && forall i :: 0 <= i < |p.duty| ==> DutyValue(p.duty[i])
  }

  /** The constructor: no pin under PWM, phase 0. */
  function Create(b: Board): (p: Pwm)
    ensures Valid(b, p) && p.phase == 0
    ensures forall i :: 0 <= i < |p.duty| ==> p.duty[i] == OFF
  {
    Pwm(seq(|b.table|, i => OFF), 0)
  }

  /**
   * analogWrite: an unmapped pin is ignored; otherwise the pin is made an
   * output and takes the duty val.
   */
  function AnalogWrite(b: Board, p: Pwm, pin: nat, val: byte): (r: (Pwm, seq<Action>))
    requires ValidBoard(b) && Valid(b, p)
    ensures Valid(b, r.0) && r.0.phase == p.phase
    ensures PinNumber(b, pin) == NOT_A_PIN ==> r == (p, [])
    ensures PinNumber(b, pin) != NOT_A_PIN ==>
              pin < |p.duty| && r.0.duty == p.duty[pin := val as int] && r.1 == [Mode(pin, OUTPUT)]
  {
    if PinNumber(b, pin) == NOT_A_PIN then (p, [])
    else (p.(duty := p.duty[pin := val as int]), [Mode(pin, OUTPUT)])
  }

  /**
   * release: an unmapped pin, or one not under PWM, is ignored; otherwise
   * the pin leaves PWM and is driven LOW.
   */
  function Release(b: Board, p: Pwm, pin: nat): (r: (Pwm, seq<Action>))
    requires ValidBoard(b) && Valid(b, p)
    ensures Valid(b, r.0) && r.0.phase == p.phase
    ensures PinNumber(b, pin) == NOT_A_PIN || p.duty[pin] == OFF ==> r == (p, [])
    ensures PinNumber(b, pin) != NOT_A_PIN && p.duty[pin] != OFF ==>
              r.0.duty == p.duty[pin := OFF] && r.1 == [Drive(pin, LOW)]
  {
    if PinNumber(b, pin) == NOT_A_PIN then (p, [])
    else if p.duty[pin] == OFF then (p, [])
    else (p.(duty := p.duty[pin := OFF]), [Drive(pin, LOW)])
  }

  /** Release after analogWrite takes the pin out of PWM again; a second release does nothing. */
  lemma ReleaseUndoesWrite(b: Board, p: Pwm, pin: nat, val: byte)
    requires ValidBoard(b) && Valid(b, p) && PinNumber(b, pin) != NOT_A_PIN
    ensures var w := AnalogWrite(b, p, pin, val);
            var r := Release(b, w.0, pin);
            r.0.duty == p.duty[pin := OFF] && r.1 == [Drive(pin, LOW)]
            && Release(b, r.0, pin) == (r.0, [])
  {
  }

  /**
   * The level the sweep of process drives a pin with duty v to at phase,
   * if any. At phase 0 pins under PWM go HIGH, or LOW for duty 0; later,
   * pins under PWM whose duty is reached go LOW.
   */
  function PinLevel(v: int, phase: int): (l: Option<byte>)
    ensures l.Some? ==> v != OFF
    ensures 0 < phase && 0 < v && phase < v ==> l == None
    ensures 0 < v <= phase ==> l == Some(LOW)
  {
    if phase == 0 then (if v != OFF then Some(if v == 0 then LOW else HIGH) else None)
    else if v != OFF && v <= phase then Some(LOW)
    else None
  }

  /**
   * The level the sweep of process as written drives a pin to: the test
   * at a later phase is duty <= phase alone, which OFF (-1) passes.
   */
  function PinLevelAsWritten(v: int, phase: int): (l: Option<byte>)
    ensures v != OFF ==> l == PinLevel(v, phase)
    ensures v == OFF && 0 < phase ==> l == Some(LOW)
  {
    if phase == 0 then (if v != OFF then Some(if v == 0 then LOW else HIGH) else None)
    else if v <= phase then Some(LOW)
    else None
  }

  /** The sweep of process from pin i on: one digitalWrite per pin that gets a level, in pin order. */
  function Sweep(duty: seq<int>, phase: int, i: nat, asWritten: bool): (w: seq<Action>)
    requires i <= |duty|
    ensures |w| <= |duty| - i
    decreases |duty| - i
  {
    if i == |duty| then []
    else
      var l := if asWritten then PinLevelAsWritten(duty[i], phase) else PinLevel(duty[i], phase);
      (if l.Some? then [Drive(i, l.value)] else []) + Sweep(duty, phase, i + 1, asWritten)
  }

  /** The level a sweep gives a pin. */
  function LevelOf(v: int, phase: int, asWritten: bool): Option<byte>
  {
    if asWritten then PinLevelAsWritten(v, phase) else PinLevel(v, phase)
  }

  /**
   * A sweep from pin i: only digitalWrites, in strictly increasing pin
   * order, and pin k is written with level l exactly when k >= i and the
   * sweep gives k the level l.
   */
  ghost predicate Swept(w: seq<Action>, duty: seq<int>, phase: int, i: nat, asWritten: bool)
  {
    InOrder(w, i, |duty|) && Members(w, duty, phase, i, asWritten)
  }

  /** Pin k is written with level l exactly when k is from i on and gets the level l. */
  ghost predicate Members(w: seq<Action>, duty: seq<int>, phase: int, i: nat, asWritten: bool)
  {
    forall k: nat, l: byte :: Drive(k, l) in w <==> i <= k < |duty| && LevelOf(duty[k], phase, asWritten) == Some(l)
  }

  /** Only digitalWrites, to pins in [lo, hi), in strictly increasing pin order. */
  predicate InOrder(w: seq<Action>, lo: nat, hi: nat)
  {
    (forall a :: 0 <= a < |w| ==> w[a].Drive? && lo <= w[a].pin < hi)
    && (forall a, c :: 0 <= a < c < |w| ==> w[a].pin < w[c].pin)
  }

  /** The sweep writes what Swept says. */
  lemma SweepSpec(duty: seq<int>, phase: int, i: nat, asWritten: bool)
    requires i <= |duty|
    ensures Swept(Sweep(duty, phase, i, asWritten), duty, phase, i, asWritten)
  {
    SweepShape(duty, phase, i, asWritten);
    SweepMembers(duty, phase, i, asWritten);
  }

  /** A sweep writes pins from i on, in strictly increasing order. */
  lemma {:induction false} SweepShape(duty: seq<int>, phase: int, i: nat, asWritten: bool)
    requires i <= |duty|
    ensures InOrder(Sweep(duty, phase, i, asWritten), i, |duty|)
    decreases |duty| - i
  {
    if i < |duty| {
      SweepShape(duty, phase, i + 1, asWritten);
      var rest := Sweep(duty, phase, i + 1, asWritten);
      assert InOrder(rest, i + 1, |duty|);
      var l := LevelOf(duty[i], phase, asWritten);
      var head: seq<Action> := if l.Some? then [Drive(i, l.value)] else [];
      var w := head + rest;
      assert w == Sweep(duty, phase, i, asWritten);
      forall a | 0 <= a < |w|
        ensures w[a].Drive? && i <= w[a].pin < |duty|
      {
        if a >= |head| {
          assert w[a] == rest[a - |head|];
        }
      }
      forall a, c | 0 <= a < c < |w|
        ensures w[a].pin < w[c].pin
      {
        if a >= |head| {
          assert w[a] == rest[a - |head|];
        }
        assert w[c] == rest[c - |head|];
      }
    }
  }

  /** A sweep writes pin k with level l exactly when k is from i on and gets the level l. */
  lemma {:induction false} SweepMembers(duty: seq<int>, phase: int, i: nat, asWritten: bool)
    requires i <= |duty|
    ensures Members(Sweep(duty, phase, i, asWritten), duty, phase, i, asWritten)
    decreases |duty| - i
  {
    if i < |duty| {
      SweepMembers(duty, phase, i + 1, asWritten);
      var rest := Sweep(duty, phase, i + 1, asWritten);
      assert Members(rest, duty, phase, i + 1, asWritten);
      var l := LevelOf(duty[i], phase, asWritten);
      var head: seq<Action> := if l.Some? then [Drive(i, l.value)] else [];
      var w := head + rest;
      assert w == Sweep(duty, phase, i, asWritten);
      forall k: nat, lv: byte
        ensures Drive(k, lv) in w <==> i <= k < |duty| && LevelOf(duty[k], phase, asWritten) == Some(lv)
      {
        assert Drive(k, lv) in w <==> Drive(k, lv) in head || Drive(k, lv) in rest;
      }
    }
  }

  /**
   * The step to the next phase: 255 - phase, lowered to duty - phase for
   * every duty above the phase that is closer, scanning pins from i on.
   */
  function MinGap(duty: seq<int>, phase: int, i: nat, d: int): (r: int)
    requires i <= |duty|
    ensures r <= d
    ensures forall k :: i <= k < |duty| && duty[k] > phase ==> r <= duty[k] - phase
    ensures r == d || exists k :: i <= k < |duty| && duty[k] > phase && duty[k] - phase == r
    decreases |duty| - i
  {
    if i == |duty| then d
    else
      var d' := if duty[i] > phase && duty[i] - phase < d then duty[i] - phase else d;
      MinGap(duty, phase, i + 1, d')
  }

  /**
   * The step process sleeps for, in ticks: the distance to the nearest
   * duty above the phase, or to the end of the cycle.
   */
  function Gap(duty: seq<int>, phase: int): (d: int)
    requires 0 <= phase < PERIOD
    ensures 1 <= d <= PERIOD - phase
    ensures forall k :: 0 <= k < |duty| && duty[k] > phase ==> d <= duty[k] - phase
    ensures d == PERIOD - phase || exists k :: 0 <= k < |duty| && phase < duty[k] && duty[k] - phase == d
  {
    MinGap(duty, phase, 0, PERIOD - phase)
  }

  /** The phase after a step: phase + gap, back to 0 at the end of the cycle. */
  function NextPhase(duty: seq<int>, phase: int): (n: int)
    requires 0 <= phase < PERIOD
    ensures 0 <= n < PERIOD
    ensures n == 0 || phase < n
  {
    var n := phase + Gap(duty, phase);
    if n >= PERIOD then 0 else n
  }

  /**
   * process: the sweep's digitalWrites, the new state and the sleep
   * (delayMicroseconds(d * 10)).
   */
  function Process(b: Board, p: Pwm): (r: (Pwm, seq<Action>, nat))
    requires Valid(b, p)
    ensures Valid(b, r.0) && r.0.duty == p.duty
    ensures r.0.phase == NextPhase(p.duty, p.phase)
    ensures r.2 == TICK_US * Gap(p.duty, p.phase)
    ensures Swept(r.1, p.duty, p.phase, 0, false)
  {
    SweepSpec(p.duty, p.phase, 0, false);
    (p.(phase := NextPhase(p.duty, p.phase)), Sweep(p.duty, p.phase, 0, false), TICK_US * Gap(p.duty, p.phase))
  }

  /** process as written: the same step, with the as-written sweep. */
  function ProcessAsWritten(b: Board, p: Pwm): (r: (Pwm, seq<Action>, nat))
    requires Valid(b, p)
    ensures Valid(b, r.0) && r.0 == Process(b, p).0 && r.2 == Process(b, p).2
    ensures Swept(r.1, p.duty, p.phase, 0, true)
  {
    SweepSpec(p.duty, p.phase, 0, true);
    (p.(phase := NextPhase(p.duty, p.phase)), Sweep(p.duty, p.phase, 0, true), TICK_US * Gap(p.duty, p.phase))
  }

  /**
   * As written, a pin not under PWM is driven LOW at every later phase:
   * with the first pin out of PWM and the second at duty 128, process at
   * phase 5 writes LOW to pin 0, undoing whatever level the program gave it.
   */
  lemma AsWrittenDrivesOffPins()
    ensures var b := Board([18, 23]);
            var p := Pwm([OFF, 128], 5);
            Valid(b, p) && Drive(0, LOW) in ProcessAsWritten(b, p).1
  {
    var p := Pwm([OFF, 128], 5);
    SweepSpec(p.duty, p.phase, 0, true);
  }

  /** The corrected process never writes to a pin not under PWM. */
  lemma OffPinsUntouched(b: Board, p: Pwm, pin: nat, level: byte)
    requires Valid(b, p) && pin < |p.duty| && p.duty[pin] == OFF
    ensures Drive(pin, level) !in Process(b, p).1
  {
  }

  /** The phases process runs at from phase on, to the end of the cycle. */
  function Visits(duty: seq<int>, phase: int): (vs: seq<int>)
    requires 0 <= phase < PERIOD
    ensures |vs| >= 1 && vs[0] == phase
    decreases PERIOD - phase
  {
    var n := NextPhase(duty, phase);
    [phase] + (if n == 0 then [] else Visits(duty, n))
  }

  /**
   * No duty is skipped: every duty between the phase and the end of the
   * cycle is a phase process runs at, so the pin is driven LOW on time.
   */
  lemma {:induction false} NoDutySkipped(duty: seq<int>, phase: int, k: nat)
    requires 0 <= phase < PERIOD && k < |duty| && phase <= duty[k] < PERIOD
    ensures duty[k] in Visits(duty, phase)
    decreases PERIOD - phase
  {
    if duty[k] != phase {
      var n := NextPhase(duty, phase);
      assert n == phase + Gap(duty, phase);
      NoDutySkipped(duty, n, k);
    }
  }

  /** Phases from lo on, inside the cycle, strictly increasing. */
  predicate Increasing(vs: seq<int>, lo: int)
  {
    (forall a :: 0 <= a < |vs| ==> lo <= vs[a] < PERIOD)
    && (forall a, c :: 0 <= a < c < |vs| ==> vs[a] < vs[c])
  }

  /** The phases a cycle runs at increase strictly from phase and stay inside the cycle. */
  lemma {:induction false} VisitsIncrease(duty: seq<int>, phase: int)
    requires 0 <= phase < PERIOD
    ensures Increasing(Visits(duty, phase), phase)
    decreases PERIOD - phase
  {
    var n := NextPhase(duty, phase);
    var vs := Visits(duty, phase);
    if n != 0 {
      VisitsIncrease(duty, n);
      var rest := Visits(duty, n);
      assert Increasing(rest, n);
      assert vs == [phase] + rest;
      forall a | 0 <= a < |vs|
        ensures phase <= vs[a] < PERIOD
      {
        if a > 0 {
          assert vs[a] == rest[a - 1];
        }
      }
      forall a, c | 0 <= a < c < |vs|
        ensures vs[a] < vs[c]
      {
        assert vs[c] == rest[c - 1];
        if a > 0 {
          assert vs[a] == rest[a - 1];
        }
      }
    } else {
      assert vs == [phase];
    }
  }

  /** The ticks slept from phase to the end of the cycle. */
  function CycleTicks(duty: seq<int>, phase: int): (t: nat)
    requires 0 <= phase < PERIOD
    decreases PERIOD - phase
  {
    var n := NextPhase(duty, phase);
    Gap(duty, phase) + (if n == 0 then 0 else CycleTicks(duty, n))
  }

  /** Whatever the duties, a cycle lasts 255 ticks: the last step lands on 255 exactly. */
  lemma {:induction false} CycleLength(duty: seq<int>, phase: int)
    requires 0 <= phase < PERIOD
    ensures CycleTicks(duty, phase) == PERIOD - phase
    decreases PERIOD - phase
  {
    var n := NextPhase(duty, phase);
    if n != 0 {
      CycleLength(duty, n);
    }
  }

  /** The ticks slept from phase until the phase reaches v. */
  function TicksTo(duty: seq<int>, phase: int, v: int): (t: nat)
    requires 0 <= phase < PERIOD
    decreases PERIOD - phase
  {
    if phase >= v then 0
    else
      var n := NextPhase(duty, phase);
      Gap(duty, phase) + (if n == 0 then 0 else TicksTo(duty, n, v))
  }

  /** From phase, the phase reaches a duty v after exactly v - phase ticks. */
  lemma {:induction false} TicksToDuty(duty: seq<int>, phase: int, k: nat)
    requires 0 <= phase < PERIOD && k < |duty| && phase <= duty[k] < PERIOD
    ensures TicksTo(duty, phase, duty[k]) == duty[k] - phase
    decreases PERIOD - phase
  {
    if phase < duty[k] {
      var n := NextPhase(duty, phase);
      assert n == phase + Gap(duty, phase);
      TicksToDuty(duty, n, k);
    }
  }

  /**
   * The duty cycle of a pin under PWM with duty v: driven HIGH at phase 0
   * (LOW when v is 0); not written at the phases of the cycle before v;
   * driven LOW at v and at every later phase; v is reached after v ticks
   * of the 255 in a cycle. Duty 255 is never driven LOW.
   */
  lemma DutyCycle(b: Board, p: Pwm, pin: nat)
    requires Valid(b, p) && p.phase == 0 && pin < |p.duty| && p.duty[pin] != OFF
    ensures var v := p.duty[pin];
            var vs := Visits(p.duty, 0);
            PinLevel(v, 0) == Some(if v == 0 then LOW else HIGH)
            && (forall a :: 0 < a < |vs| ==> PinLevel(v, vs[a]) == (if vs[a] < v then None else Some(LOW)))
            && (v < PERIOD ==> v in vs && TicksTo(p.duty, 0, v) == v)
            && CycleTicks(p.duty, 0) == PERIOD
  {
    var v := p.duty[pin];
    var vs := Visits(p.duty, 0);
    VisitsIncrease(p.duty, 0);
    assert Increasing(vs, 0);
    forall a | 0 < a < |vs|
      ensures vs[a] > 0
    {
      assert vs[0] < vs[a];
    }
    if v < PERIOD {
      NoDutySkipped(p.duty, 0, pin);
      TicksToDuty(p.duty, 0, pin);
    }
    CycleLength(p.duty, 0);
  }
}
