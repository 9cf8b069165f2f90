/**
 * Touch: a capacitive touch sensor on one pin, sampled from a periodic
 * event. Events alternate between charging (pin switched to input) and
 * sampling (pin read, then switched back to output and discharged). A
 * clear reading means the pin was touched: it restarts the release
 * timer and, on the first touch, calls on_touch. The touch is released
 * only by a reading that is not clear more than THRESHOLD milliseconds
 * after the latest clear one. The pin reading and the time (RTC::millis)
 * are parameters of an event.
 */
module Touch {
  import opened Common

  /** The direction of the pin. */
  datatype Mode = Output | Input

  /** The sensor: phase, touch state, time of the latest clear reading, release threshold (uint16_t), pin mode. */
  datatype Sensor = Sensor(sampling: bool, touched: bool, start: nat, threshold: u16, mode: Mode)

  /** The constructor: not sampling, not touched, pin an output (and cleared); start is whatever it held. */
  function Create(threshold: u16, start: nat): (s: Sensor)
    requires start < 0x1_0000_0000
    ensures !s.sampling && !s.touched && s.mode == Output && s.threshold == threshold
  {
    Sensor(false, false, start, threshold, Output)
  }

  /** A sensor whose timer holds a 32-bit time. */
  predicate Valid(s: Sensor)
  {
    s.start < 0x1_0000_0000
  }

  /**
   * Touch::on_event with the pin reading clear (is_clear) and the time
   * now: the new sensor and whether on_touch was called.
   */
  function OnEvent(s: Sensor, clear: bool, now: nat): (r: (Sensor, bool))
    requires Valid(s) && now < 0x1_0000_0000
    ensures Valid(r.0) && r.0.threshold == s.threshold
    ensures r.0.sampling == !s.sampling
    ensures r.0.mode == if s.sampling then Output else Input
    ensures !s.sampling ==> r.0.touched == s.touched && r.0.start == s.start && !r.1
    ensures s.sampling && clear ==> r.0.touched && r.0.start == now && r.1 == !s.touched
    ensures s.sampling && !clear ==>
              !r.1 && r.0.start == s.start
              && r.0.touched == (s.touched && Elapsed32(now, s.start) <= s.threshold)
  {
    if !s.sampling then (s.(mode := Input, sampling := true), false)
    else
      var s1 := s.(mode := Output, sampling := false);
      if clear then (s1.(start := now, touched := true), !s.touched)
      else if s.touched && Elapsed32(now, s.start) > s.threshold then (s1.(touched := false), false)
      else (s1, false)
  }

  /** One event: the pin reading and the time. */
  datatype Reading = Reading(clear: bool, now: nat)

  predicate Timed(rs: seq<Reading>)
  {
    forall i :: 0 <= i < |rs| ==> rs[i].now < 0x1_0000_0000
  }

  /** A run of events: the sensor after them, the on_touch calls and the releases. */
  function Run(s: Sensor, rs: seq<Reading>): (r: (Sensor, nat, nat))
    requires Valid(s) && Timed(rs)
    ensures Valid(r.0) && r.0.threshold == s.threshold
    decreases |rs|
  {
    if rs == [] then (s, 0, 0)
    else
      var step := OnEvent(s, rs[0].clear, rs[0].now);
      var rest := Run(step.0, rs[1..]);
      (rest.0, rest.1 + (if step.1 then 1 else 0),
       rest.2 + (if s.touched && !step.0.touched then 1 else 0))
  }

  /** Events alternate between charging and sampling: n events flip the phase n times. */
  lemma {:induction false} PhasesAlternate(s: Sensor, rs: seq<Reading>)
    requires Valid(s) && Timed(rs)
    ensures Run(s, rs).0.sampling == (s.sampling != (|rs| % 2 == 1))
    decreases |rs|
  {
    if rs != [] {
      PhasesAlternate(OnEvent(s, rs[0].clear, rs[0].now).0, rs[1..]);
    }
  }

  /**
   * Debounce: on_touch calls and releases alternate. Over any run the
   * calls plus the touch state before equal the releases plus the touch
   * state after, so a second on_touch needs a release in between.
   */
  lemma {:induction false} TouchesAlternate(s: Sensor, rs: seq<Reading>)
    requires Valid(s) && Timed(rs)
    ensures var r := Run(s, rs);
            r.1 + (if s.touched then 1 else 0) == r.2 + (if r.0.touched then 1 else 0)
    decreases |rs|
  {
    if rs != [] {
      TouchesAlternate(OnEvent(s, rs[0].clear, rs[0].now).0, rs[1..]);
    }
  }

  /**
   * While touched, a run whose readings that are not clear all come
   * within THRESHOLD of the latest clear one calls on_touch no more and
   * keeps the touch.
   */
  lemma {:induction false} HeldTouch(s: Sensor, rs: seq<Reading>)
    requires Valid(s) && Timed(rs) && s.touched
    requires Held(s.sampling, s.start, s.threshold, rs)
    ensures Run(s, rs).0.touched && Run(s, rs).1 == 0 && Run(s, rs).2 == 0
    decreases |rs|
  {
    if rs != [] {
      var step := OnEvent(s, rs[0].clear, rs[0].now);
      HeldTouch(step.0, rs[1..]);
    }
  }

  /**
   * Every sampled reading is clear or comes within threshold of the
   * latest clear sampled reading before it (or of start); readings of the
   * charging phase are not looked at.
   */
  predicate Held(sampling: bool, start: nat, threshold: nat, rs: seq<Reading>)
    requires start < 0x1_0000_0000 && Timed(rs)
    decreases |rs|
  {
    if rs == [] then true
    else if !sampling then Held(true, start, threshold, rs[1..])
    else
      (rs[0].clear || Elapsed32(rs[0].now, start) <= threshold)
      && Held(false, if rs[0].clear then rs[0].now else start, threshold, rs[1..])
  }
}
