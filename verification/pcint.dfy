/**
 * PinChangeInterrupt: the instance table and the port dispatch. A pin
 * change interrupt of port group pcint compares the pins read from the
 * port with the state saved at the previous interrupt; each changed,
 * enabled pin whose slot pcint * 8 + i holds an instance has its handler
 * called, lowest bit first. The instance table records only whether a
 * slot is taken; the handlers called are reported as slot numbers.
 */
module PinChange {
  import opened Common

  /** The shared tables: instance slots taken and the saved port state per group. */
  datatype Pcint = Pcint(instance: seq<bool>, state: seq<byte>)

  /**
   * The handlers called for the changed bits below n, in order of the bit:
   * at most one per bit.
   */
  function Fired(changed: byte, base: nat, instance: seq<bool>, n: nat): (f: seq<nat>)
    requires n <= 8 && base + 8 <= |instance|
    ensures |f| <= n
  {
    if n == 0 then []
    else Fired(changed, base, instance, n - 1)
         + (if HasBit(changed, n - 1) && instance[base + n - 1] then [base + n - 1] else [])
  }

  /**
   * The handlers called for the changed bits: they lie in slots base ..
   * base + 7, in increasing order, and slot s is among them exactly when
   * bit s - base changed and the slot is taken.
   */
  predicate Dispatched(f: seq<nat>, changed: byte, base: nat, instance: seq<bool>)
    requires base + 8 <= |instance|
  {
    (forall k :: 0 <= k < |f| ==> base <= f[k] < base + 8)
    && (forall a, b :: 0 <= a < b < |f| ==> f[a] < f[b])
    && (forall s :: base <= s < base + 8 ==> (s in f <==> HasBit(changed, s - base) && instance[s]))
  }

  /** The slots called for bits below n lie below base + n. */
  lemma {:induction false} FiredBelow(changed: byte, base: nat, instance: seq<bool>, n: nat)
    requires n <= 8 && base + 8 <= |instance|
    ensures forall k :: 0 <= k < |Fired(changed, base, instance, n)| ==>
              base <= Fired(changed, base, instance, n)[k] < base + n
  {
    if n > 0 {
      FiredBelow(changed, base, instance, n - 1);
    }
  }

  /** The slots called for bits below n are in increasing order. */
  lemma {:induction false} FiredSorted(changed: byte, base: nat, instance: seq<bool>, n: nat)
    requires n <= 8 && base + 8 <= |instance|
    ensures forall a, b :: 0 <= a < b < |Fired(changed, base, instance, n)| ==>
              Fired(changed, base, instance, n)[a] < Fired(changed, base, instance, n)[b]
  {
    if n > 0 {
      FiredSorted(changed, base, instance, n - 1);
      FiredBelow(changed, base, instance, n - 1);
    }
  }

  /** Slot s below base + n is called exactly when its bit changed and it is taken. */
  lemma {:induction false} FiredMembers(changed: byte, base: nat, instance: seq<bool>, n: nat)
    requires n <= 8 && base + 8 <= |instance|
    ensures forall s :: base <= s < base + n ==>
              (s in Fired(changed, base, instance, n) <==> HasBit(changed, s - base) && instance[s])
  {
    if n > 0 {
      FiredMembers(changed, base, instance, n - 1);
      FiredBelow(changed, base, instance, n - 1);
      var f0 := Fired(changed, base, instance, n - 1);
      var f := Fired(changed, base, instance, n);
      var last := base + n - 1;
      assert f == f0 + (if HasBit(changed, n - 1) && instance[last] then [last] else []);
      assert last !in f0;
      forall s | base <= s < base + n
        ensures s in f <==> HasBit(changed, s - base) && instance[s]
      {
        if s < last {
          assert s in f <==> s in f0;
        }
      }
    }
  }

  /** The handlers called for all eight bits are the dispatched ones. */
  lemma FiredSpec(changed: byte, base: nat, instance: seq<bool>)
    requires base + 8 <= |instance|
    ensures Dispatched(Fired(changed, base, instance, 8), changed, base, instance)
  {
    FiredBelow(changed, base, instance, 8);
    FiredSorted(changed, base, instance, 8);
    FiredMembers(changed, base, instance, 8);
  }

  /** Bits above the ones seen add no handler. */
  lemma {:induction false} FiredStable(changed: byte, base: nat, instance: seq<bool>, i: nat, n: nat)
    requires i <= n <= 8 && base + 8 <= |instance|
    requires forall j :: i <= j < 8 ==> !HasBit(changed, j)
    ensures Fired(changed, base, instance, n) == Fired(changed, base, instance, i)
    decreases n
  {
    if n > i {
      FiredStable(changed, base, instance, i, n - 1);
    }
  }

  /** Shifting right by one moves every bit down one place and clears the top bit. */
  lemma ShiftRight(x: byte, y: byte)
    requires y == x >> 1
    ensures forall j :: 0 <= j < 7 ==> HasBit(y, j) == HasBit(x, j + 1)
    ensures !HasBit(y, 7)
  {
    assert HasBit(x >> 1, 0) == HasBit(x, 1);
    assert HasBit(x >> 1, 1) == HasBit(x, 2);
    assert HasBit(x >> 1, 2) == HasBit(x, 3);
    assert HasBit(x >> 1, 3) == HasBit(x, 4);
    assert HasBit(x >> 1, 4) == HasBit(x, 5);
    assert HasBit(x >> 1, 5) == HasBit(x, 6);
    assert HasBit(x >> 1, 6) == HasBit(x, 7);
  }

  /** The byte 0 has no bit set. */
  lemma ZeroBits()
    ensures forall j :: 0 <= j < 8 ==> !HasBit(0, j)
  {
    forall j | 0 <= j < 8
      ensures !HasBit(0, j)
    {
    }
  }

  /** changed holds the bits of c0 from bit i up, moved down to bit 0. */
  predicate ShiftedFrom(changed: byte, c0: byte, i: nat)
  {
    i <= 8 && forall j :: 0 <= j < 8 ==> HasBit(changed, j) == (i + j < 8 && HasBit(c0, i + j))
  }

  /** One step of the dispatch loop: the low bit is bit i, and the shift moves on to bit i + 1. */
  lemma ShiftStep(changed: byte, c0: byte, i: nat)
    requires ShiftedFrom(changed, c0, i) && i < 8
    ensures (changed & 1 != 0) == HasBit(c0, i)
    ensures ShiftedFrom(changed >> 1, c0, i + 1)
  {
    assert HasBit(changed, 0) == HasBit(c0, i);
    assert (changed & 1 != 0) == HasBit(changed, 0);
    ShiftRight(changed, changed >> 1);
  }

  /** Once nothing is left to shift, c0 has no bit from i up. */
  lemma ShiftedOut(changed: byte, c0: byte, i: nat)
    requires ShiftedFrom(changed, c0, i) && changed == 0
    ensures forall j :: i <= j < 8 ==> !HasBit(c0, j)
  {
    ZeroBits();
    forall j | i <= j < 8
      ensures !HasBit(c0, j)
    {
      assert !HasBit(changed, j - i);
    }
  }

  /** The bits of the group that changed since the saved state and are enabled. */
  function Changed(p: Pcint, pcint: nat, mask: byte, newState: byte): (c: byte)
    requires pcint < |p.state|
    ensures forall k :: 0 <= k < 8 ==>
              HasBit(c, k) == (HasBit(newState, k) != HasBit(p.state[pcint], k) && HasBit(mask, k))
  {
    var c := (newState ^ p.state[pcint]) & mask;
    assert forall k :: 0 <= k < 8 ==>
             HasBit(c, k) == (HasBit(newState, k) != HasBit(p.state[pcint], k) && HasBit(mask, k)) by {
      forall k | 0 <= k < 8
        ensures HasBit(c, k) == (HasBit(newState, k) != HasBit(p.state[pcint], k) && HasBit(mask, k))
      {
        XorAndBits(newState, p.state[pcint], mask, k);
      }
    }
    c
  }

  /** A bit of (a ^ b) & m is set exactly when a and b differ there and m has it. */
  lemma XorAndBits(a: byte, b: byte, m: byte, k: nat)
    requires k < 8
    ensures HasBit((a ^ b) & m, k) == (HasBit(a, k) != HasBit(b, k) && HasBit(m, k))
  {
    var x := Bit(k);
    assert x == 1 || x == 2 || x == 4 || x == 8 || x == 16 || x == 32 || x == 64 || x == 128;
  }

  /** In a dispatch, slot base + j is called exactly when bit j changed and the slot is taken. */
  lemma DispatchedBit(f: seq<nat>, changed: byte, base: nat, instance: seq<bool>, j: nat)
    requires base + 8 <= |instance| && j < 8
    requires Dispatched(f, changed, base, instance)
    ensures base + j in f <==> HasBit(changed, j) && instance[base + j]
  {
    assert (base + j) - base == j;
  }

  /**
   * The dispatch loop over the changed bits, with the slots of the port
   * starting at base: the handlers called are the dispatched ones.
   */
  method Dispatch(c0: byte, base: nat, instance: seq<bool>) returns (fired: seq<nat>)
    requires base + 8 <= |instance|
    ensures fired == Fired(c0, base, instance, 8)
    ensures Dispatched(fired, c0, base, instance)
  {
    var changed := c0;
    var i := 0;
    fired := [];
    while changed != 0 && i < 8
      invariant 0 <= i <= 8
      invariant ShiftedFrom(changed, c0, i)
      invariant fired == Fired(c0, base, instance, i)
    {
      ShiftStep(changed, c0, i);
      if changed & 1 != 0 && instance[base + i] {
        fired := fired + [base + i];
      }
      changed := changed >> 1;
      i := i + 1;
    }
    if i < 8 {
      ShiftedOut(changed, c0, i);
      FiredStable(c0, base, instance, i, 8);
    }
    FiredSpec(c0, base, instance);
  }

  /**
   * on_interrupt(pcint, mask, base) with newState read from the port at
   * base: the handlers called are those of the slots pcint * 8 + i whose
   * bit i differs from the saved state and is enabled in mask, in
   * increasing order; afterwards the saved state of the group is the
   * whole new port value, masked bits or not.
   */
  method OnInterrupt(p: Pcint, pcint: nat, mask: byte, newState: byte) returns (fired: seq<nat>, q: Pcint)
    requires pcint < |p.state| && pcint * 8 + 8 <= |p.instance|
    ensures q.instance == p.instance && q.state == p.state[pcint := newState]
    ensures fired == Fired(Changed(p, pcint, mask, newState), pcint * 8, p.instance, 8)
    ensures Dispatched(fired, Changed(p, pcint, mask, newState), pcint * 8, p.instance)
  {
    fired := Dispatch(Changed(p, pcint, mask, newState), pcint * 8, p.instance);
    q := p.(state := p.state[pcint := newState]);
  }

  /** An interrupt source: its board pin and its bit in the port's mask register. */
  datatype Handler = Handler(pin: nat, mask: byte)

  /**
   * The instance slot of a pin: the pin itself, or on the Mega pin - 16
   * below 24 and pin - 48 otherwise, as a uint8_t.
   */
  function Slot(pin: nat, mega: bool): (ix: nat)
    requires pin < 256
    ensures ix < 256
    ensures mega && 16 <= pin < 24 ==> ix == pin - 16
    ensures mega && 48 <= pin ==> ix == pin - 48
    ensures !mega ==> ix == pin
  {
    if !mega then pin
    else if pin < 24 then (pin - 16) % 256
    else (pin - 48) % 256
  }

  /**
   * On the Mega, the slot a pin of port group 0 (pins 16..23, read at
   * base 16) or of group 2 (pins 64..71, read at base 64) registers in is
   * the slot the dispatch of its group calls for its bit.
   */
  lemma MegaSlots(j: nat)
    requires j < 8
    ensures Slot(16 + j, true) == 0 * 8 + j
    ensures Slot(64 + j, true) == 2 * 8 + j
  {
  }

  /** enable: OR the pin's bit into the mask register and take the pin's slot. */
  function Enable(p: Pcint, reg: byte, h: Handler, mega: bool): (r: (Pcint, byte))
    requires h.pin < 256 && Slot(h.pin, mega) < |p.instance|
    ensures r.0.state == p.state && |r.0.instance| == |p.instance|
    ensures r.0.instance[Slot(h.pin, mega)]
    ensures forall s :: 0 <= s < |p.instance| && s != Slot(h.pin, mega) ==> r.0.instance[s] == p.instance[s]
    ensures forall k :: 0 <= k < 8 ==> HasBit(r.1, k) == (HasBit(reg, k) || HasBit(h.mask, k))
  {
    forall k | 0 <= k < 8
      ensures HasBit(reg | h.mask, k) == (HasBit(reg, k) || HasBit(h.mask, k))
    {
      OrBits(reg, h.mask, k);
    }
    (p.(instance := p.instance[Slot(h.pin, mega) := true]), reg | h.mask)
  }

  /** disable: clear the pin's bit in the mask register and free the pin's slot. */
  function Disable(p: Pcint, reg: byte, h: Handler, mega: bool): (r: (Pcint, byte))
    requires h.pin < 256 && Slot(h.pin, mega) < |p.instance|
    ensures r.0.state == p.state && |r.0.instance| == |p.instance|
    ensures !r.0.instance[Slot(h.pin, mega)]
    ensures forall s :: 0 <= s < |p.instance| && s != Slot(h.pin, mega) ==> r.0.instance[s] == p.instance[s]
    ensures forall k :: 0 <= k < 8 ==> HasBit(r.1, k) == (HasBit(reg, k) && !HasBit(h.mask, k))
  {
    forall k | 0 <= k < 8
      ensures HasBit(reg & !h.mask, k) == (HasBit(reg, k) && !HasBit(h.mask, k))
    {
      AndNotBits(reg, h.mask, k);
    }
    (p.(instance := p.instance[Slot(h.pin, mega) := false]), reg & !h.mask)
  }

  /**
   * disable undoes enable: a handler enabled on a free slot with its bits
   * clear in the mask register and then disabled leaves the tables and
   * the register as they were.
   */
  lemma DisableUndoesEnable(p: Pcint, reg: byte, h: Handler, mega: bool)
    requires h.pin < 256 && Slot(h.pin, mega) < |p.instance|
    requires !p.instance[Slot(h.pin, mega)] && reg & h.mask == 0
    ensures var e := Enable(p, reg, h, mega);
            Disable(e.0, e.1, h, mega) == (p, reg)
  {
    var e := Enable(p, reg, h, mega);
    var d := Disable(e.0, e.1, h, mega);
    assert d.0.instance == p.instance;
    forall k | 0 <= k < 8
      ensures HasBit(d.1, k) == HasBit(reg, k)
    {
      AndBitsClear(reg, h.mask, k);
    }
    ByteExt(d.1, reg);
  }

  /** Two bytes with no common bit: a bit of the first is not in the second. */
  lemma AndBitsClear(a: byte, b: byte, k: nat)
    requires k < 8 && a & b == 0
    ensures HasBit(a, k) ==> !HasBit(b, k)
  {
    AndBits(a, b, k);
  }

  /**
   * After enable, a change of the pin's bit j of port group pcint calls
   * its handler, provided the pin's slot is pcint * 8 + j (the slot the
   * dispatch uses for bit j) and its mask bit is j.
   */
  lemma EnabledFires(p: Pcint, reg: byte, h: Handler, mega: bool, pcint: nat, j: nat, newState: byte)
    requires h.pin < 256 && pcint < |p.state| && pcint * 8 + 8 <= |p.instance| && j < 8
    requires Slot(h.pin, mega) == pcint * 8 + j && HasBit(h.mask, j)
    ensures var e := Enable(p, reg, h, mega);
            var hit := pcint * 8 + j in Fired(Changed(p, pcint, e.1, newState), pcint * 8, e.0.instance, 8);
            hit == HasBit(newState ^ p.state[pcint], j)
  {
    var e := Enable(p, reg, h, mega);
    var x := newState ^ p.state[pcint];
    var c := Changed(p, pcint, e.1, newState);
    FiredSpec(c, pcint * 8, e.0.instance);
    assert e.0.instance[pcint * 8 + j];
    assert HasBit(e.1, j);
    AndBits(x, e.1, j);
  }

  /** After disable, the pin's handler is not called, whatever changed. */
  lemma DisabledSilent(p: Pcint, reg: byte, h: Handler, mega: bool, pcint: nat, newState: byte, mask: byte)
    requires h.pin < 256 && pcint < |p.state| && pcint * 8 + 8 <= |p.instance|
    requires pcint * 8 <= Slot(h.pin, mega) < pcint * 8 + 8
    ensures var d := Disable(p, reg, h, mega);
            Slot(h.pin, mega) !in Fired(Changed(p, pcint, mask, newState), pcint * 8, d.0.instance, 8)
  {
    var d := Disable(p, reg, h, mega);
    var c := Changed(p, pcint, mask, newState);
    FiredSpec(c, pcint * 8, d.0.instance);
  }

  /** A bit of a conjunction is set exactly when it is set in both. */
  lemma AndBits(a: byte, b: byte, k: nat)
    requires k < 8
    ensures HasBit(a & b, k) == (HasBit(a, k) && HasBit(b, k))
  {
  }

  /**
   * A pin change vector of a board: the port group it dispatches (the
   * saved state it compares with) and the first board pin of its port,
   * whose bit i is pin base + i.
   */
  datatype Vector = Vector(pcint: nat, base: nat)

  /** The Standard board's vectors: port B (pins 8..13), port C (pins 14..19), port D (pins 0..7). */
  const STANDARD: seq<Vector> := [Vector(1, 8), Vector(2, 14), Vector(0, 0)]

  /** The Mega's vectors: pins 16..23 and pins 64..71. */
  const MEGA: seq<Vector> := [Vector(0, 16), Vector(2, 64)]

  /** The eight pins of the vector's port have slots of the same rule, so they are consecutive. */
  predicate PortPins(v: Vector, mega: bool)
  {
    v.base + 8 <= 256 && (mega ==> (16 <= v.base && v.base + 8 <= 24) || 48 <= v.base)
  }

  /**
   * The as-written dispatch base agrees with the slots enable uses on the
   * Mega and on ports B and D of the Standard board, and not on port C:
   * its pins register in slots 14..19 while the dispatch reads slots 16..23.
   */
  lemma BoardBases()
    ensures forall i :: 0 <= i < |MEGA| ==> PortPins(MEGA[i], true) && Slot(MEGA[i].base, true) == MEGA[i].pcint * 8
    ensures forall i :: 0 <= i < |STANDARD| ==> PortPins(STANDARD[i], false)
    ensures Slot(STANDARD[0].base, false) == STANDARD[0].pcint * 8
    ensures Slot(STANDARD[2].base, false) == STANDARD[2].pcint * 8
    ensures Slot(STANDARD[1].base, false) == 14 && STANDARD[1].pcint * 8 == 16
  {
  }

  /**
   * As written on the Standard board: with A0 (pin 14, bit 0 of port C)
   * and A2 (pin 16, bit 2) enabled, a change of A0 alone calls the
   * handler in slot 16, which is A2's, and not A0's in slot 14.
   */
  lemma StandardA0CallsA2()
    ensures var p := Pcint(seq(24, _ => false), [0, 0, 0]);
            var a0 := Enable(p, 0, Handler(14, 0x01), false);
            var a2 := Enable(a0.0, a0.1, Handler(16, 0x04), false);
            var v := STANDARD[1];
            Fired(Changed(a2.0, v.pcint, a2.1, 0x01), v.pcint * 8, a2.0.instance, 8) == [16]
  {
    var p := Pcint(seq(24, _ => false), [0, 0, 0]);
    var a0 := Enable(p, 0, Handler(14, 0x01), false);
    var a2 := Enable(a0.0, a0.1, Handler(16, 0x04), false);
    var inst := a2.0.instance;
    assert a2.1 == 0x05 && a2.0.state == [0, 0, 0];
    var c := Changed(a2.0, 2, a2.1, 0x01);
    assert c == 0x01;
    assert inst[16];
    assert Fired(c, 16, inst, 1) == [16] by {
      assert Fired(c, 16, inst, 0) == [];
    }
    assert forall j :: 1 <= j < 8 ==> !HasBit(c, j) by {
      ZeroBits();
      ShiftRight(c, 0);
    }
    FiredStable(c, 16, inst, 1, 8);
  }


  /**
   * on_interrupt with the dispatch based at the slot of the port's first
   * pin, the slot enable gives it, rather than at pcint * 8: the handlers
   * called are the taken slots of the changed, enabled bits of the port.
   */
  method OnVector(p: Pcint, v: Vector, mega: bool, mask: byte, newState: byte) returns (fired: seq<nat>, q: Pcint)
    requires v.pcint < |p.state| && PortPins(v, mega) && Slot(v.base, mega) + 8 <= |p.instance|
    ensures q.instance == p.instance && q.state == p.state[v.pcint := newState]
    ensures fired == Fired(Changed(p, v.pcint, mask, newState), Slot(v.base, mega), p.instance, 8)
    ensures Dispatched(fired, Changed(p, v.pcint, mask, newState), Slot(v.base, mega), p.instance)
  {
    fired := Dispatch(Changed(p, v.pcint, mask, newState), Slot(v.base, mega), p.instance);
    q := p.(state := p.state[v.pcint := newState]);
  }

  /** Pin base + j of a port has the slot j places after the port's first pin. */
  lemma PortSlot(v: Vector, mega: bool, j: nat)
    requires PortPins(v, mega) && j < 8
    ensures Slot(v.base + j, mega) == Slot(v.base, mega) + j
  {
  }

  /**
   * With the corrected dispatch, on every board: after enable, pin
   * base + j of the vector's port has its handler called exactly when its
   * bit changed since the saved state.
   */
  lemma VectorFires(p: Pcint, reg: byte, h: Handler, mega: bool, v: Vector, j: nat, newState: byte)
    requires v.pcint < |p.state| && PortPins(v, mega) && Slot(v.base, mega) + 8 <= |p.instance|
    requires j < 8 && h.pin == v.base + j && HasBit(h.mask, j)
    ensures var e := Enable(p, reg, h, mega);
            var hit := Slot(h.pin, mega) in Fired(Changed(p, v.pcint, e.1, newState), Slot(v.base, mega), e.0.instance, 8);
            hit == (HasBit(newState, j) != HasBit(p.state[v.pcint], j))
  {
    var s0 := Slot(v.base, mega);
    PortSlot(v, mega, j);
    var e := Enable(p, reg, h, mega);
    var c := Changed(p, v.pcint, e.1, newState);
    var f := Fired(c, s0, e.0.instance, 8);
    FiredSpec(c, s0, e.0.instance);
    DispatchedBit(f, c, s0, e.0.instance, j);
    assert e.0.instance[s0 + j];
    assert HasBit(e.1, j);
  }
}
