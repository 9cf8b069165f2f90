/**
 * Rotary::Dial and Rotary::AcceleratedDial: a value moved by encoder
 * turn events. The value type T is modelled as an unbounded integer.
 * An event value equal to CW turns clockwise; every other value turns
 * counter-clockwise. The result of an event carries the on_change
 * notification, if one is made.
 */
module Rotary {
  import opened Common

  /** Encoder::CW, the event value of a clockwise turn. */
  const CW: nat := 0x10

  /** A dial: value, bounds and step. */
  datatype Dial = Dial(value: int, min: int, max: int, step: int)

  /** Dial::on_event: the new dial and the value passed to on_change, if called. */
  function DialEvent(d: Dial, direction: nat): (r: (Dial, Option<int>))
    ensures r.0.min == d.min && r.0.max == d.max && r.0.step == d.step
    ensures direction == CW && d.value == d.max ==> r == (d, None)
    ensures direction != CW && d.value == d.min ==> r == (d, None)
    ensures direction == CW && d.value != d.max ==>
              r.0.value - d.value == d.step && r.1 == Some(r.0.value)
    ensures direction != CW && d.value != d.min ==>
              d.value - r.0.value == d.step && r.1 == Some(r.0.value)
  {
    if direction == CW then
      if d.value == d.max then (d, None)
      else var v := d.value + d.step; (d.(value := v), Some(v))
    else
      if d.value == d.min then (d, None)
      else var v := d.value - d.step; (d.(value := v), Some(v))
  }

  /**
   * A dial whose value lies on the step grid between min and max: both
   * bounds are reachable from the value in whole steps.
   */
  predicate OnGrid(d: Dial)
  {
    0 < d.step && d.min <= d.value <= d.max
    && (d.value - d.min) % d.step == 0 && (d.max - d.value) % d.step == 0
  }

  /** On the grid, every event keeps the value on the grid, so within [min, max]. */
  lemma DialStaysOnGrid(d: Dial, direction: nat)
    requires OnGrid(d)
    ensures OnGrid(DialEvent(d, direction).0)
  {
    var r := DialEvent(d, direction).0;
    if direction == CW && d.value != d.max {
      assert d.max - d.value >= d.step by {
        StepMultiple(d.max - d.value, d.step);
      }
      assert r.value - d.min == (d.value - d.min) + d.step;
      assert d.max - r.value == (d.max - d.value) - d.step;
      ShiftMod(d.value - d.min, d.step);
      UnshiftMod(d.max - d.value, d.step);
    } else if direction != CW && d.value != d.min {
      assert d.value - d.min >= d.step by {
        StepMultiple(d.value - d.min, d.step);
      }
      UnshiftMod(d.value - d.min, d.step);
      ShiftMod(d.max - d.value, d.step);
    }
  }

  /** A positive multiple of a positive step is at least the step. */
  lemma StepMultiple(x: int, m: int)
    requires 0 < m && 0 < x && x % m == 0
    ensures x >= m
  {
    if x < m {
      ModUnique(x, m, 0, x);
    }
  }

  /** Adding a step keeps a multiple of the step a multiple. */
  lemma ShiftMod(x: int, m: int)
    requires 0 < m && 0 <= x && x % m == 0
    ensures (x + m) % m == 0
  {
    ModUnique(x + m, m, x / m + 1, 0);
  }

  /** Taking a step away from a multiple of at least the step keeps it a multiple. */
  lemma UnshiftMod(x: int, m: int)
    requires 0 < m && m <= x && x % m == 0
    ensures (x - m) % m == 0
  {
    ModUnique(x - m, m, x / m - 1, 0);
  }

  /** The bound test is equality only: off the grid a clockwise turn can pass max. */
  lemma DialOvershoots()
    ensures var d := Dial(4, 0, 5, 2);
            DialEvent(d, CW).0.value == 6 && DialEvent(DialEvent(d, CW).0, CW).0.value == 8
  {
  }

  /** get_step after set_step returns the step set, and nothing else changes. */
  function SetStep(d: Dial, step: int): (r: Dial)
    ensures GetStep(r) == step
    ensures r.value == d.value && r.min == d.min && r.max == d.max
  {
    d.(step := step)
  }

  /** Dial::get_step. */
  function GetStep(d: Dial): int
  {
    d.step
  }

  /** Setting the step read from the dial leaves it unchanged. */
  lemma SetGetStep(d: Dial)
    ensures SetStep(d, GetStep(d)) == d
  {
  }

  /** An accelerated dial: the time of the latest event, value, bounds, slow step and fast steps. */
  datatype Accel = Accel(latest: nat, value: int, min: int, max: int, step: int, steps: int)

  /** The constructor: latest is 0. */
  function CreateAccel(initial: int, min: int, max: int, step: int, steps: int): (r: Accel)
    ensures r.latest == 0 && r.value == initial && r.min == min && r.max == max
    ensures r.step == step && r.steps == steps
  {
    Accel(0, initial, min, max, step, steps)
  }

  /** The increment of an event that comes diff microseconds after the latest: slow when diff > THRESHOLD. */
  function Increment(a: Accel, diff: nat, threshold: nat): (r: int)
    ensures r == if diff > threshold then a.step else a.steps
  {
    if diff > threshold then a.step else a.steps
  }

  /**
   * AcceleratedDial::on_event at time now (a 32-bit microsecond count):
   * latest becomes now on every event; at the bound nothing else
   * happens; otherwise the value moves by the slow or fast increment and
   * is clamped back to the bound it passed.
   */
  function AccelEvent(a: Accel, direction: nat, now: nat, threshold: nat): (r: (Accel, Option<int>))
    requires now < 0x1_0000_0000 && a.latest < 0x1_0000_0000
    ensures r.0.latest == now
    ensures r.0.min == a.min && r.0.max == a.max && r.0.step == a.step && r.0.steps == a.steps
    ensures direction == CW && a.value == a.max ==> r == (a.(latest := now), None)
    ensures direction != CW && a.value == a.min ==> r == (a.(latest := now), None)
    ensures direction == CW && a.value != a.max ==>
              var v := a.value + Increment(a, Elapsed32(now, a.latest), threshold);
              r.0.value <= a.max && (v <= a.max ==> r.0.value == v) && r.1 == Some(r.0.value)
    ensures direction != CW && a.value != a.min ==>
              var v := a.value - Increment(a, Elapsed32(now, a.latest), threshold);
              r.0.value >= a.min && (v >= a.min ==> r.0.value == v) && r.1 == Some(r.0.value)
  {
    var inc := Increment(a, Elapsed32(now, a.latest), threshold);
    var b := a.(latest := now);
    if direction == CW then
      if a.value == a.max then (b, None)
      else
        var v := a.value + inc;
        var v' := if v > a.max then a.max else v;
        (b.(value := v'), Some(v'))
    else
      if a.value == a.min then (b, None)
      else
        var v := a.value - inc;
        var v' := if v < a.min then a.min else v;
        (b.(value := v'), Some(v'))
  }

  /** The value of an accelerated dial lies between its bounds. */
  predicate InRange(a: Accel)
  {
    a.min <= a.value <= a.max && a.latest < 0x1_0000_0000
  }

  /**
   * With non-negative steps, an accelerated dial in range stays in range
   * and a turn never moves the value against its direction.
   */
  lemma AccelStaysInRange(a: Accel, direction: nat, now: nat, threshold: nat)
    requires InRange(a) && 0 <= a.step && 0 <= a.steps && now < 0x1_0000_0000
    ensures var r := AccelEvent(a, direction, now, threshold).0;
            InRange(r) && (direction == CW ==> r.value >= a.value) && (direction != CW ==> r.value <= a.value)
  {
  }

  /** A run of accelerated turns in one direction, one event per time; latest stays a 32-bit time. */
  function AccelRun(a: Accel, direction: nat, times: seq<nat>, threshold: nat): (r: Accel)
    requires a.latest < 0x1_0000_0000
    requires forall i :: 0 <= i < |times| ==> times[i] < 0x1_0000_0000
    ensures r.latest < 0x1_0000_0000
    decreases |times|
  {
    if times == [] then a
    else AccelRun(AccelEvent(a, direction, times[0], threshold).0, direction, times[1..], threshold)
  }

  /**
   * With positive steps, a dial in range turned clockwise often enough
   * (max - value events) ends at max.
   */
  lemma {:induction false} AccelReachesMax(a: Accel, times: seq<nat>, threshold: nat)
    requires InRange(a) && 0 < a.step && 0 < a.steps
    requires forall i :: 0 <= i < |times| ==> times[i] < 0x1_0000_0000
    requires |times| >= a.max - a.value
    ensures AccelRun(a, CW, times, threshold).value == a.max
    decreases |times|
  {
    if times != [] {
      var b := AccelEvent(a, CW, times[0], threshold).0;
      AccelStaysInRange(a, CW, times[0], threshold);
      assert a.value != a.max ==> b.value >= a.value + 1;
      AccelReachesMax(b, times[1..], threshold);
    }
  }

  /** AcceleratedDial::set_step: get_step returns it; nothing else changes. */
  function AccelSetStep(a: Accel, step: int): (r: Accel)
    ensures AccelGetStep(r) == step && r.(step := a.step) == a
  {
    a.(step := step)
  }

  /** AcceleratedDial::get_step. */
  function AccelGetStep(a: Accel): int
  {
    a.step
  }

  /** AcceleratedDial::set_steps: get_steps returns it; nothing else changes. */
  function AccelSetSteps(a: Accel, steps: int): (r: Accel)
    ensures AccelGetSteps(r) == steps && r.(steps := a.steps) == a
  {
    a.(steps := steps)
  }

  /** AcceleratedDial::get_steps. */
  function AccelGetSteps(a: Accel): int
  {
    a.steps
  }

  /** Setting the step or steps read from the dial leaves it unchanged. */
  lemma AccelSetGet(a: Accel)
    ensures AccelSetStep(a, AccelGetStep(a)) == a && AccelSetSteps(a, AccelGetSteps(a)) == a
  {
  }
}
