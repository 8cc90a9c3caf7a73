/** Single bits of 64-bit words. */
module Bits {
  predicate Bit(x: bv64, b: bv64)
    requires b < 64
  {
    x & ((1 as bv64) << b) != 0
  }

  lemma AndHas(x: bv64, y: bv64, b: bv64)
    requires b < 64 && Bit(x & y, b)
    ensures Bit(x, b) && Bit(y, b)
  {
  }

  lemma BothHave(x: bv64, y: bv64, b: bv64)
    requires b < 64 && Bit(x, b) && Bit(y, b)
    ensures Bit(x & y, b)
  {
  }

  lemma OrHas(x: bv64, y: bv64, b: bv64)
    requires b < 64 && Bit(x | y, b)
    ensures Bit(x, b) || Bit(y, b)
  {
  }

  lemma OneHas(x: bv64, y: bv64, b: bv64)
    requires b < 64 && (Bit(x, b) || Bit(y, b))
    ensures Bit(x | y, b)
  {
  }

  lemma BitXor(x: bv64, y: bv64, b: bv64)
    requires b < 64
    ensures Bit(x ^ y, b) == (Bit(x, b) != Bit(y, b))
  {
  }

  lemma BitNot(x: bv64, b: bv64)
    requires b < 64
    ensures Bit(!x, b) == !Bit(x, b)
  {
  }
}

/** The operators on words, each with its effect on a single bit. */
module Words {
  import opened Bits

  function And(x: bv64, y: bv64): bv64 { x & y }
  function Or(x: bv64, y: bv64): bv64 { x | y }
  function Xor(x: bv64, y: bv64): bv64 { x ^ y }
  function Not(x: bv64): bv64 { !x }
  function Minus(x: bv64): bv64 { 0 - x }

  function Shl(x: bv64, b: bv64): bv64
    requires b < 64
  {
    x << b
  }

  /** The bit as a shift brings it to the low end. */
  predicate ShiftedBit(x: bv64, b: bv64)
    requires b < 64
  {
    (x >> b) & 1 == 1
  }

  lemma BitShifted(x: bv64, b: bv64)
    requires b < 64
    ensures ShiftedBit(x, b) == Bit(x, b)
  {
  }

  lemma BitOfAnd(x: bv64, y: bv64, b: bv64)
    requires b < 64
    ensures Bit(And(x, y), b) == (Bit(x, b) && Bit(y, b))
  {
    hide Bit;
    if Bit(x & y, b) { AndHas(x, y, b); }
    if Bit(x, b) && Bit(y, b) { BothHave(x, y, b); }
  }

  lemma BitOfOr(x: bv64, y: bv64, b: bv64)
    requires b < 64
    ensures Bit(Or(x, y), b) == (Bit(x, b) || Bit(y, b))
  {
    hide Bit;
    if Bit(x | y, b) { OrHas(x, y, b); }
    if Bit(x, b) || Bit(y, b) { OneHas(x, y, b); }
  }

  lemma BitOfXor(x: bv64, y: bv64, b: bv64)
    requires b < 64
    ensures Bit(Xor(x, y), b) == (Bit(x, b) != Bit(y, b))
  {
    hide Bit;
    BitXor(x, y, b);
  }

  lemma BitOfNot(x: bv64, b: bv64)
    requires b < 64
    ensures Bit(Not(x), b) == !Bit(x, b)
  {
    hide Bit;
    BitNot(x, b);
  }

  lemma BitOfShl(v: bv64, k: bv64, b: bv64)
    requires b < 64 && k < 64 && v <= 1
    ensures Bit(Shl(v, k), b) == (b == k && v == 1)
  {
  }

  lemma BitOfMinus(v: bv64, b: bv64)
    requires b < 64 && v <= 1
    ensures Bit(Minus(v), b) == (v == 1)
  {
  }
}
