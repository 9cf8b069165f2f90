/**
 * The VirtualWire 4-to-6 bit codec: a 4-bit nibble travels as one of 16
 * six-bit symbols, and decode4 maps a received symbol back to its index
 * by a linear search of the table.
 */
module VirtualWireCodec {
  import opened Common

  /** SYMBOL_MASK: the six bits of a symbol. */
  const SYMBOL_MASK: byte := 0x3f

  /** The symbol table: Symbol(n) carries nibble n (symbols[n]). */
  function Symbol(n: nat): nat
    requires n < 16
  {
    match n
    case 0 => 0x0d
    case 1 => 0x0e
    case 2 => 0x13
    case 3 => 0x15
    case 4 => 0x16
    case 5 => 0x19
    case 6 => 0x1a
    case 7 => 0x1c
    case 8 => 0x23
    case 9 => 0x25
    case 10 => 0x26
    case 11 => 0x29
    case 12 => 0x2a
    case 13 => 0x2c
    case 14 => 0x32
    case _ => 0x34
  }

  /** The frame preamble: six 0x2a training symbols and the start symbol pair 0x38, 0x2c. */
  function Preamble(i: nat): nat
    requires i < 8
  {
    if i < 6 then 0x2a else if i == 6 then 0x38 else 0x2c
  }

  /** The number of 1-bits among the six low bits of x. */
  function Ones6(x: nat): nat
  {
    x % 2 + (x / 2) % 2 + (x / 4) % 2 + (x / 8) % 2 + (x / 16) % 2 + (x / 32) % 2
  }

  /** A six-bit symbol with as many 1-bits as 0-bits (DC balanced). */
  predicate Balanced(x: nat)
  {
    x < 64 && Ones6(x) == 3
  }

  /** Every symbol is a balanced six-bit value. */
  lemma SymbolsBalanced()
    ensures forall n :: 0 <= n < 16 ==> Balanced(Symbol(n))
  {
  }

  /** The symbols are pairwise distinct, so the table is invertible. */
  lemma SymbolsDistinct()
    ensures forall m, n :: 0 <= m < n < 16 ==> Symbol(m) != Symbol(n)
  {
  }

  /** The preamble is eight balanced symbols, and its start symbol 0x38 is not a data symbol. */
  lemma PreambleBalanced()
    ensures forall i :: 0 <= i < 8 ==> Balanced(Preamble(i))
    ensures forall n :: 0 <= n < 16 ==> Symbol(n) != Preamble(6)
  {
  }

  /** The search loop of decode4 from index i: the first matching index, or 0. */
  function Search(sym: nat, i: nat): (r: nat)
    requires i <= 16
    ensures r < 16
    ensures r != 0 ==> i <= r && Symbol(r) == sym
    decreases 16 - i
  {
    if i == 16 then 0
    else if Symbol(i) == sym then i
    else Search(sym, i + 1)
  }

  /** decode4: mask the symbol to six bits and look it up; a symbol not in the table gives 0. */
  function Decode4(symbol: byte): (r: nat)
    ensures r < 16
  {
    Search((symbol & SYMBOL_MASK) as nat, 0)
  }

  /** The search finds the index of a symbol it passes, and 0 when nothing matches. */
  lemma {:induction false} SearchFinds(sym: nat, i: nat)
    requires i <= 16
    ensures (exists k :: i <= k < 16 && Symbol(k) == sym) ==> Symbol(Search(sym, i)) == sym
    ensures (forall k :: i <= k < 16 ==> Symbol(k) != sym) ==> Search(sym, i) == 0
    decreases 16 - i
  {
    if i < 16 && Symbol(i) != sym {
      SearchFinds(sym, i + 1);
    }
  }

  /** Round trip: decoding the symbol of nibble n gives n. */
  lemma DecodeSymbol(n: nat)
    requires n < 16
    ensures Decode4(Symbol(n) as byte) == n
  {
    var b := Symbol(n) as byte;
    assert b < 64 && b as nat == Symbol(n);
    MaskKeepsSix(b);
    SearchFinds(Symbol(n), 0);
    SymbolsDistinct();
  }

  /** A six-bit value passes SYMBOL_MASK unchanged. */
  lemma MaskKeepsSix(b: byte)
    requires b < 64
    ensures b & SYMBOL_MASK == b
  {
  }

  /** Bits above SYMBOL_MASK never affect the result. */
  lemma DecodeIgnoresHighBits(s: byte, t: byte)
    requires s & SYMBOL_MASK == t & SYMBOL_MASK
    ensures Decode4(s) == Decode4(t)
  {
  }

  /** A symbol outside the table decodes to 0, the same as the symbol 0x0d of nibble 0. */
  lemma DecodeUnknown(s: byte)
    requires forall k :: 0 <= k < 16 ==> Symbol(k) != (s & SYMBOL_MASK) as nat
    ensures Decode4(s) == 0 && Decode4(0x0d) == 0
  {
    SearchFinds((s & SYMBOL_MASK) as nat, 0);
    DecodeSymbol(0);
  }
}
