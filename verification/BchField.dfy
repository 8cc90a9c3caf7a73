/** The field of 1024 elements in which the generator of the checksum has its roots: polynomials over two elements modulo
    t^10 + t^8 + t^5 + t + 1, packed in ten bits. */
module BchField {
  import opened Xor32
  import opened Bech32Code

  function High(z: bv32): bv32 { (z >> 9) & 1 }

  /** Multiplication by t. */
  function ByT(z: bv32): bv32 {
    ((z & 0x1ff) << 1) ^ High(z) ^ (High(z) << 1) ^ (High(z) << 5) ^ (High(z) << 8)
  }

  /** Multiplication by t^n. */
  function Turn(z: bv32, n: nat): bv32 {
    if n == 0 then z else ByT(Turn(z, n - 1))
  }

  // ---------------------------------------------------------------- multiplication by powers of t

  lemma ByTAdditive(y: bv32, z: bv32)
    ensures ByT(Xor(y, z)) == Xor(ByT(y), ByT(z))
  {
  }

  lemma ByTInjective(z: bv32)
    requires z < 0x400 && ByT(z) == 0
    ensures z == 0
  {
  }

  lemma ByTBound(z: bv32)
    ensures ByT(z) < 0x400 && ByT(0) == 0
  {
  }

  lemma {:induction false} TurnAdditive(y: bv32, z: bv32, n: nat)
    ensures Turn(Xor(y, z), n) == Xor(Turn(y, n), Turn(z, n))
  {
    hide ByT, Xor;
    if n > 0 {
      TurnAdditive(y, z, n - 1);
      ByTAdditive(Turn(y, n - 1), Turn(z, n - 1));
    }
  }

  lemma {:induction false} TurnTwice(z: bv32, m: nat, n: nat)
    ensures Turn(Turn(z, m), n) == Turn(z, m + n)
  {
    hide ByT;
    if n > 0 { TurnTwice(z, m, n - 1); }
  }

  lemma {:induction false} TurnBound(z: bv32, n: nat)
    requires z < 0x400
    ensures Turn(z, n) < 0x400
  {
    hide ByT;
    if n > 0 { ByTBound(Turn(z, n - 1)); }
  }

  lemma {:induction false} TurnInjective(z: bv32, n: nat)
    requires z < 0x400
    ensures Turn(z, n) == 0 <==> z == 0
  {
    hide ByT;
    if n > 0 {
      TurnInjective(z, n - 1);
      TurnBound(z, n - 1);
      ByTBound(0);
      if Turn(z, n) == 0 { ByTInjective(Turn(z, n - 1)); }
    }
  }

  lemma XorLess(y: bv32, z: bv32)
    requires y < 0x400 && z < 0x400
    ensures Xor(y, z) < 0x400
  {
  }

  lemma TurnSame(y: bv32, z: bv32, n: nat)
    requires y < 0x400 && z < 0x400 && Turn(y, n) == Turn(z, n)
    ensures y == z
  {
    hide Turn, Xor;
    TurnAdditive(y, z, n);
    Zero(Turn(y, n));
    XorLess(y, z);
    TurnInjective(Xor(y, z), n);
    Cancel(y, z);
  }

  // ---------------------------------------------------------------- products

  /** A polynomial of degree at most four times k. */
  function Half(z: bv32, k: bv32): bv32 {
    var k1 := ByT(k);
    var k2 := ByT(k1);
    var k3 := ByT(k2);
    var k4 := ByT(k3);
    Xor(Xor(Xor(Xor(Select(Has(z, 1), k), Select(Has(z, 2), k1)), Select(Has(z, 4), k2)), Select(Has(z, 8), k3)),
        Select(Has(z, 16), k4))
  }

  function ByT5(z: bv32): bv32 { ByT(ByT(ByT(ByT(ByT(z))))) }

  function Times(z: bv32, k: bv32): bv32 { Xor(Half(z, k), Half(z >> 5, ByT5(k))) }

  lemma SelectNext(p: bool, k: bv32)
    ensures Select(p, ByT(k)) == ByT(Select(p, k))
  {
  }

  lemma HalfNext(z: bv32, k: bv32)
    ensures Half(z, ByT(k)) == ByT(Half(z, k))
  {
    hide Xor, ByT, Select, Has;
    var k1 := ByT(k);
    var k2 := ByT(k1);
    var k3 := ByT(k2);
    var k4 := ByT(k3);
    SelectNext(Has(z, 1), k);
    SelectNext(Has(z, 2), k1);
    SelectNext(Has(z, 4), k2);
    SelectNext(Has(z, 8), k3);
    SelectNext(Has(z, 16), k4);
    var x1 := Xor(Select(Has(z, 1), k), Select(Has(z, 2), k1));
    var x2 := Xor(x1, Select(Has(z, 4), k2));
    var x3 := Xor(x2, Select(Has(z, 8), k3));
    ByTAdditive(Select(Has(z, 1), k), Select(Has(z, 2), k1));
    ByTAdditive(x1, Select(Has(z, 4), k2));
    ByTAdditive(x2, Select(Has(z, 8), k3));
    ByTAdditive(x3, Select(Has(z, 16), k4));
  }

  lemma TimesNext(z: bv32, k: bv32)
    ensures Times(z, ByT(k)) == ByT(Times(z, k))
  {
    hide Xor, ByT, Half;
    HalfNext(z, k);
    HalfNext(z >> 5, ByT5(k));
    ByTAdditive(Half(z, k), Half(z >> 5, ByT5(k)));
  }

  lemma HalfOne(z: bv32)
    ensures Half(z, 1) == z & 31 && ByT5(1) == 32 && Half(z, 32) == (z & 31) << 5
  {
  }

  lemma TimesOne(z: bv32)
    requires z < 0x400
    ensures Times(z, 1) == z
  {
    hide Half, ByT5;
    HalfOne(z);
    HalfOne(z >> 5);
  }

  /** Multiplying by t^n is multiplying by the word for t^n. */
  lemma {:induction false} TurnTimes(z: bv32, n: nat)
    requires z < 0x400
    ensures Turn(z, n) == Times(z, Turn(1, n))
  {
    hide ByT, Times;
    if n == 0 {
      TimesOne(z);
    } else {
      TurnTimes(z, n - 1);
      TimesNext(z, Turn(1, n - 1));
    }
  }

  lemma PowerSum(m: nat, n: nat)
    ensures Turn(1, m + n) == Times(Turn(1, m), Turn(1, n))
  {
    hide Turn, Times;
    TurnBound(1, m);
    TurnTwice(1, m, n);
    TurnTimes(Turn(1, m), n);
  }

  // ---------------------------------------------------------------- orbits

  lemma PowersTo31()
    ensures Turn(1, 11) == 0x246 && Turn(1, 22) == Times(0x246, 0x246) && Turn(1, 31) == 0x02c
  {
    hide Turn;
    assert Turn(1, 1) == 2 && Turn(1, 2) == 4 by { Turns(); }
    PowerSum(2, 1);
    PowerSum(2, 2);
    PowerSum(4, 4);
    PowerSum(8, 3);
    PowerSum(11, 11);
    PowerSum(22, 8);
    PowerSum(30, 1);
  }

  lemma Turns()
    ensures Turn(1, 1) == 2 && Turn(1, 2) == 4
  {
  }

  lemma Powers()
    ensures Turn(1, 33) == 0x0b0 && Turn(1, 93) == 0x36a && Turn(1, 341) == 0x036 && Turn(1, 1023) == 1
  {
    hide Turn;
    PowersTo31();
    PowerSum(22, 11);
    PowerSum(31, 31);
    PowerSum(62, 31);
    PowerSum(62, 62);
    PowerSum(124, 124);
    PowerSum(248, 93);
    PowerSum(341, 341);
    PowerSum(682, 341);
  }

  lemma Free33(z: bv32)
    requires z < 0x400 && Times(z, 0x0b0) == z
    ensures z == 0
  {
  }

  lemma Free93(z: bv32)
    requires z < 0x400 && Times(z, 0x36a) == z
    ensures z == 0
  {
  }

  lemma Free341(z: bv32)
    requires z < 0x400 && Times(z, 0x036) == z
    ensures z == 0
  {
  }

  /** After 1023 steps every orbit is back. */
  lemma Period(z: bv32)
    requires z < 0x400
    ensures Turn(z, 1023) == z
  {
    hide Turn, Times;
    Powers();
    TurnTimes(z, 1023);
    TimesOne(z);
  }

  lemma {:induction false} TurnMultiple(z: bv32, d: nat, q: nat)
    requires Turn(z, d) == z
    ensures d * q >= 0 && Turn(z, d * q) == z
  {
    hide Turn;
    if q == 0 {
      assert d * q == 0;
      TurnNone(z);
    } else {
      TurnMultiple(z, d, q - 1);
      assert d * q == d * (q - 1) + d;
      TurnTwice(z, d * (q - 1), d);
    }
  }

  lemma TurnNone(z: bv32)
    ensures Turn(z, 0) == z
  {
  }

  /** Two periods have one that divides both. */
  lemma {:induction false} CommonPeriod(z: bv32, m: nat, n: nat) returns (d: nat, a: nat, b: nat)
    requires z < 0x400 && m > 0 && n > 0 && Turn(z, m) == z && Turn(z, n) == z
    ensures d > 0 && m == d * a && n == d * b && Turn(z, d) == z
    decreases m + n
  {
    hide Turn;
    if m == n {
      d, a, b := m, 1, 1;
    } else if m < n {
      Shorter(z, m, n);
      d, a, b := CommonPeriod(z, m, n - m);
      assert d * (a + b) == d * a + d * b;
      b := a + b;
    } else {
      Shorter(z, n, m);
      d, a, b := CommonPeriod(z, m - n, n);
      assert d * (a + b) == d * a + d * b;
      a := a + b;
    }
  }

  lemma Shorter(z: bv32, m: nat, n: nat)
    requires z < 0x400 && m < n && Turn(z, m) == z && Turn(z, n) == z
    ensures Turn(z, n - m) == z
  {
    hide Turn;
    TurnBound(z, n - m);
    TurnTwice(z, n - m, m);
    TurnSame(Turn(z, n - m), z, m);
  }

  /** A proper divisor of 3 * 11 * 31 divides one of 341, 93 and 33. */
  lemma ProperDivisor(d: nat, q: nat) returns (k: nat)
    requires d * q == 1023 && q > 1
    ensures d * k == 341 || d * k == 93 || d * k == 33
  {
    if d <= 31 {
      SmallDivisor(d, q);
      k := if d == 1 then 33 else if d == 3 then 11 else if d == 11 then 3 else 3;
    } else {
      CoFactor(d, q);
      SmallDivisor(q, d);
      k := 1;
    }
  }

  lemma CoFactor(d: nat, q: nat)
    requires d * q == 1023 && d >= 32
    ensures q < 32 && q * d == 1023
  {
  }

  lemma SmallDivisor(d: nat, q: nat)
    requires d * q == 1023 && d <= 31
    ensures d == 1 || d == 3 || d == 11 || d == 31
  {
    assert d == 0 || d == 1 || d == 2 || d == 3 || d == 4 || d == 5 || d == 6 || d == 7 || d == 8 || d == 9 || d == 10
        || d == 11 || d == 12 || d == 13 || d == 14 || d == 15 || d == 16 || d == 17 || d == 18 || d == 19 || d == 20
        || d == 21 || d == 22 || d == 23 || d == 24 || d == 25 || d == 26 || d == 27 || d == 28 || d == 29 || d == 30
        || d == 31;
  }

  lemma MoreThanOnce(d: nat, a: nat, b: nat)
    requires d > 0 && 0 < d * b < d * a
    ensures a > 1
  {
    assert b > 0;
    assert d * b >= d;
  }

  /** Short of 1023 steps nothing but zero comes back. */
  lemma Free(z: bv32, n: nat)
    requires z < 0x400 && 0 < n < 1023 && Turn(z, n) == z
    ensures z == 0
  {
    hide Turn, Times;
    Period(z);
    var d, a, b := CommonPeriod(z, 1023, n);
    MoreThanOnce(d, a, b);
    var k := ProperDivisor(d, a);
    TurnMultiple(z, d, k);
    Powers();
    TurnTimes(z, d * k);
    if d * k == 341 { Free341(z); } else if d * k == 93 { Free93(z); } else { Free33(z); }
  }

  // ---------------------------------------------------------------- three equations in three unknowns

  /** Multiplication by t^n + 1. */
  function Gap(z: bv32, n: nat): bv32 { Xor(z, Turn(z, n)) }

  lemma Cross(a: bv32, b: bv32, c: bv32, x: bv32, y: bv32)
    requires Xor(Xor(a, b), c) == 0 && Xor(Xor(x, y), c) == 0
    ensures Xor(a, x) == Xor(b, y)
  {
    hide Xor;
    Cancel(Xor(a, b), c);
    Cancel(Xor(x, y), c);
    Zero(Xor(a, b));
    Swap(a, b, x, y);
    Cancel(Xor(a, x), Xor(b, y));
  }

  lemma GapTwice(z: bv32, n: nat)
    ensures Gap(Gap(z, n), n) == Gap(z, 2 * n)
  {
    hide Xor, Turn;
    var y := Turn(z, n);
    TurnAdditive(z, y, n);
    TurnTwice(z, n, n);
    var x := Turn(z, 2 * n);
    Assoc(z, y, Xor(y, x));
    Cancel(y, x);
  }

  lemma GapZero(z: bv32, n: nat)
    requires z < 0x400 && 0 < n < 1023 && Gap(z, n) == 0
    ensures z == 0
  {
    hide Xor, Turn;
    Cancel(z, Turn(z, n));
    Free(z, n);
  }

  lemma GapsEqual(z: bv32, m: nat, n: nat)
    requires z < 0x400 && n < m < n + 1023 && Gap(z, m) == Gap(z, n)
    ensures z == 0
  {
    hide Xor, Turn;
    Cancel(z, Turn(z, m));
    Cancel(z, Turn(z, n));
    TurnTwice(z, m - n, n);
    TurnBound(z, m - n);
    TurnSame(Turn(z, m - n), z, n);
    Free(z, m - n);
  }

  /** Only zeros satisfy the three equations that three errors at different places would have to satisfy. */
  lemma OnlyZeros(x: bv32, y: bv32, z: bv32, m: nat, n: nat)
    requires x < 0x400 && y < 0x400 && 0 < n < m < 1023
    requires Xor(Xor(x, y), z) == 0
    requires Xor(Xor(Turn(x, m), Turn(y, n)), z) == 0
    requires Xor(Xor(Turn(x, 2 * m), Turn(y, 2 * n)), z) == 0
    ensures x == 0 && y == 0 && z == 0
  {
    hide Xor, Turn, Gap;
    assert Gap(x, m) == Gap(y, n) && Gap(x, 2 * m) == Gap(y, 2 * n) by {
      hide *;
      GapIs(x, m); GapIs(y, n); GapIs(x, 2 * m); GapIs(y, 2 * n);
      Cross(x, y, z, Turn(x, m), Turn(y, n));
      Cross(x, y, z, Turn(x, 2 * m), Turn(y, 2 * n));
    }
    GapTwice(x, m);
    GapTwice(y, n);
    var w := Gap(y, n);
    GapIs(y, n);
    TurnBound(y, n);
    XorLess(y, Turn(y, n));
    GapsEqual(w, m, n);
    GapZero(y, n);
    GapZero(x, m);
    Zero(0);
    Zero(z);
  }

  lemma GapIs(z: bv32, n: nat)
    ensures Gap(z, n) == Xor(z, Turn(z, n))
  {
  }
}
