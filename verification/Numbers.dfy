/** Facts about natural numbers that the solver needs spelled out: products, quotients, powers, and the
    bitwise operators on natural numbers. */
module Numbers {
  lemma MulNonneg(x: int, y: int)
    requires x >= 0 && y >= 0
    ensures x * y >= 0
  {
  }

  lemma MulMono(x: int, y: int, z: int)
    requires x <= y && z >= 0
    ensures x * z <= y * z
  {
    MulNonneg(y - x, z);
    assert (y - x) * z == y * z - x * z;
  }

  /** The quotient and remainder are determined by their defining equation. */
  lemma DivModUnique(a: int, b: int, q: int, r: int)
    requires b > 0 && 0 <= r < b && a == q * b + r
    ensures a / b == q && a % b == r
  {
    var q', r' := a / b, a % b;
    assert a == b * q' + r';
    assert (q - q') * b == r' - r && (q' - q) * b == r - r';
    if q > q' {
      MulMono(1, q - q', b);
    } else if q < q' {
      MulMono(1, q' - q, b);
    }
  }

  lemma DivLe(a: nat, b: nat)
    requires b > 0
    ensures a / b <= a
  {
    var q := a / b;
    assert a == b * q + a % b;
    MulMono(1, b, q);
  }

  lemma MulAssoc(x: int, y: int, z: int)
    ensures x * (y * z) == x * y * z
  {
  }

  lemma MulLess(x: int, y: int, z: int)
    requires x < y && z > 0
    ensures x * z < y * z
  {
    MulMono(x + 1, y, z);
    assert (x + 1) * z == x * z + z;
  }

  /** A product determines which factor is larger. */
  lemma MulCancel(x: int, y: int, z: int)
    requires z > 0
    ensures x * z < y * z <==> x < y
    ensures x * z == y * z <==> x == y
  {
    if x < y { MulLess(x, y, z); }
    if y < x { MulLess(y, x, z); }
  }

  lemma DivMono(x: nat, y: nat, d: nat)
    requires x <= y && d > 0
    ensures x / d <= y / d
  {
    assert x == d * (x / d) + x % d && y == d * (y / d) + y % d;
    assert (y / d + 1) * d == y / d * d + d;
    MulCancel(x / d, y / d + 1, d);
  }

  lemma DivDiv(x: nat, a: nat, b: nat)
    requires a > 0 && b > 0
    ensures a * b > 0 && x / a / b == x / (a * b)
  {
    MulMono(1, a, b);
    var q, r := x / a, x % a;
    var p, t := q / b, q % b;
    MulMono(t, b - 1, a);
    assert (b - 1) * a == a * b - a;
    assert x == p * (a * b) + (t * a + r) by {
      assert x == a * q + r && q == b * p + t;
      assert a * (b * p + t) == a * (b * p) + a * t;
      assert a * (b * p) == p * (a * b);
    }
    DivModUnique(x, a * b, p, t * a + r);
  }

  // ---------------------------------------------------------------- powers

  function Pow(b: nat, n: nat): nat {
    if n == 0 then 1 else b * Pow(b, n - 1)
  }

  lemma {:induction false} PowPos(b: nat, n: nat)
    requires b > 0
    ensures Pow(b, n) > 0
  {
    if n > 0 {
      PowPos(b, n - 1);
      MulMono(1, b, Pow(b, n - 1));
    }
  }

  lemma {:induction false} PowAdd(b: nat, m: nat, n: nat)
    ensures Pow(b, m + n) == Pow(b, m) * Pow(b, n)
  {
    if m > 0 {
      PowAdd(b, m - 1, n);
      MulAssoc(b, Pow(b, m - 1), Pow(b, n));
    }
  }

  lemma PowStart(b: nat)
    ensures Pow(b, 0) == 1
  {
  }

  lemma PowNext(b: nat, n: nat)
    ensures Pow(b, n + 1) == b * Pow(b, n)
  {
  }

  lemma Pow8()
    ensures Pow(2, 8) == 256
  {
    assert Pow(2, 4) == 16;
    PowAdd(2, 4, 4);
  }

  lemma PowMono(b: nat, m: nat, n: nat)
    requires b > 0 && m <= n
    ensures Pow(b, m) <= Pow(b, n)
  {
    hide Pow;
    PowAdd(b, m, n - m);
    PowPos(b, n - m);
    var x, y := Pow(b, m), Pow(b, n - m);
    MulMono(1, y, x);
    assert y * x == x * y;
  }

  lemma {:induction false} PowPow(b: nat, m: nat, n: nat)
    ensures m * n >= 0 && Pow(Pow(b, m), n) == Pow(b, m * n)
  {
    MulNonneg(m, n);
    if n > 0 {
      PowPow(b, m, n - 1);
      assert m * n == m + m * (n - 1);
      PowAdd(b, m, m * (n - 1));
    }
  }

  // ---------------------------------------------------------------- bitwise operators

  function BitOr(x: nat, y: nat): nat
    decreases x + y
  {
    if x == 0 && y == 0 then 0
    else 2 * BitOr(x / 2, y / 2) + if x % 2 == 1 || y % 2 == 1 then 1 else 0
  }

  function BitAnd(x: nat, y: nat): nat
    decreases x + y
  {
    if x == 0 && y == 0 then 0
    else 2 * BitAnd(x / 2, y / 2) + if x % 2 == 1 && y % 2 == 1 then 1 else 0
  }

  lemma {:induction false} OrZero(x: nat)
    ensures BitOr(x, 0) == x && BitOr(0, x) == x
  {
    if x > 0 {
      OrZero(x / 2);
    }
  }

  /** Or-ing bits into a place where there are none adds them. */
  lemma {:induction false} OrDisjoint(c: nat, s: nat, y: nat)
    requires y < Pow(2, s)
    ensures c * Pow(2, s) >= 0
    ensures BitOr(c * Pow(2, s), y) == c * Pow(2, s) + y && BitOr(y, c * Pow(2, s)) == c * Pow(2, s) + y
  {
    MulNonneg(c, Pow(2, s));
    if s == 0 {
      OrZero(c * Pow(2, s));
    } else {
      var x, x' := c * Pow(2, s), c * Pow(2, s - 1);
      assert x == 2 * x' by { assert c * (2 * Pow(2, s - 1)) == 2 * (c * Pow(2, s - 1)); }
      OrDisjoint(c, s - 1, y / 2);
      assert x / 2 == x' && x % 2 == 0;
    }
  }

  lemma Doubled(c: nat, s: nat)
    requires s > 0
    ensures Pow(2, s) == 2 * Pow(2, s - 1) && c * Pow(2, s) == 2 * (c * Pow(2, s - 1)) && c * Pow(2, s - 1) >= 0
  {
    MulNonneg(c, Pow(2, s - 1));
    MulAssoc(c, 2, Pow(2, s - 1));
  }

  lemma OrStep(x: nat, x': nat, y: nat, z: nat)
    requires x == 2 * x' && BitOr(x' + y / 2, z / 2) == x' + BitOr(y / 2, z / 2)
    ensures BitOr(x + y, z) == x + BitOr(y, z)
  {
    assert (x + y) / 2 == x' + y / 2 && (x + y) % 2 == y % 2;
    if x + y == 0 && z == 0 {
      assert x == 0;
    }
  }

  /** The bits above position s take no part. */
  lemma {:induction false} OrLow(c: nat, s: nat, y: nat, z: nat)
    requires y < Pow(2, s) && z < Pow(2, s)
    ensures c * Pow(2, s) >= 0 && BitOr(c * Pow(2, s) + y, z) == c * Pow(2, s) + BitOr(y, z)
  {
    MulNonneg(c, Pow(2, s));
    if s == 0 {
      OrZero(c * Pow(2, s));
      OrZero(0);
    } else {
      Doubled(c, s);
      OrLow(c, s - 1, y / 2, z / 2);
      OrStep(c * Pow(2, s), c * Pow(2, s - 1), y, z);
    }
  }
}
