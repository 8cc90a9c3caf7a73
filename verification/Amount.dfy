/** The compression of amounts in 64-bit arithmetic. */
module Amount {
  import opened Numbers

  const M: nat := 0x1_0000_0000_0000_0000

  type Uint64 = x: nat | x < 0x1_0000_0000_0000_0000

  // ---------------------------------------------------------------- without bounds

  /** n without its trailing zeros, of which at most 9 - e are taken off, and how many were, counted from e. */
  function Strip(n: nat, e: nat): (nat, nat) {
    if n > 0 && n % 10 == 0 && e < 9 then Strip(n / 10, e + 1) else (n, e)
  }

  /** The compressed form of an amount, as a number of any size. */
  function Compressed(n: nat): nat {
    if n == 0 then 0
    else
      var (m, e) := Strip(n, 0);
      StripIs(n, 0);
      if e < 9 then 1 + (m / 10 * 9 + m % 10 - 1) * 10 + e else 1 + (m - 1) * 10 + 9
  }

  function Expanded(x: nat): nat {
    if x == 0 then 0 else
      var e, y := (x - 1) % 10, (x - 1) / 10;
      Times(if e < 9 then y / 9 * 10 + y % 9 + 1 else y + 1, Pow(10, e))
  }

  function Times(a: nat, b: nat): nat {
    MulNonneg(a, b);
    a * b
  }

  lemma {:induction false} StripIs(n: nat, e: nat)
    requires n > 0 && e <= 9
    ensures var (m, e') := Strip(n, e);
      m > 0 && e <= e' <= 9 && (e' < 9 ==> m % 10 != 0) && n == m * Pow(10, e' - e)
    decreases 9 - e
  {
    if n % 10 == 0 && e < 9 {
      StripIs(n / 10, e + 1);
      var (m, e') := Strip(n, e);
      assert m * (10 * Pow(10, e' - e - 1)) == 10 * (m * Pow(10, e' - e - 1));
    }
  }

  lemma {:induction false} StripUnique(m: nat, k: nat, e: nat)
    requires m > 0 && e + k <= 9 && (e + k < 9 ==> m % 10 != 0)
    ensures m * Pow(10, k) >= 0 && Strip(m * Pow(10, k), e) == (m, e + k)
    decreases k
  {
    hide Pow, Strip;
    MulNonneg(m, Pow(10, k));
    StripStep(m * Pow(10, k), e);
    if k > 0 {
      StripUnique(m, k - 1, e + 1);
      TenTimes(m, k);
    } else {
      PowStart(10);
    }
  }

  lemma TenTimes(m: nat, k: nat)
    requires m > 0 && k > 0
    ensures m * Pow(10, k) == 10 * (m * Pow(10, k - 1)) && m * Pow(10, k - 1) > 0
  {
    hide Pow;
    PowNext(10, k - 1);
    PowPos(10, k - 1);
    MulMono(1, m, Pow(10, k - 1));
    MulAssoc(m, 10, Pow(10, k - 1));
    MulAssoc(10, m, Pow(10, k - 1));
  }

  /** On natural numbers of any size, compression and its inverse are exact. */
  lemma ExpandedCompressed(n: nat)
    ensures Expanded(Compressed(n)) == n
  {
    hide Pow, Strip;
    if n > 0 {
      var (m, e) := Strip(n, 0);
      StripIs(n, 0);
      var x := Compressed(n);
      if e < 9 {
        var y := m / 10 * 9 + m % 10 - 1;
        DivModUnique(x - 1, 10, y, e);
        DivModUnique(y, 9, m / 10, m % 10 - 1);
      } else {
        DivModUnique(x - 1, 10, m - 1, 9);
      }
    }
  }

  lemma CompressedExpanded(x: nat)
    ensures Compressed(Expanded(x)) == x
  {
    hide Pow, Strip;
    if x > 0 {
      var e, y := (x - 1) % 10, (x - 1) / 10;
      var m := if e < 9 then y / 9 * 10 + y % 9 + 1 else y + 1;
      if e < 9 { DivModUnique(m, 10, y / 9, y % 9 + 1); }
      StripUnique(m, e, 0);
      PowPos(10, e);
      MulMono(1, m, Pow(10, e));
    }
  }

  // ---------------------------------------------------------------- in 64 bits

  function Wrap(v: int): Uint64 { v % M }

  lemma WrapInner(a: int, b: int, c: int)
    ensures Wrap(Wrap(a) * b + c) == Wrap(a * b + c)
  {
    var q, r := a / M, a % M;
    assert a == q * M + r;
    assert (q * M + r) * b == q * b * M + r * b;
    var t := r * b + c;
    assert (q * b + t / M) * M == q * b * M + t / M * M;
    DivModUnique(a * b + c, M, q * b + t / M, t % M);
  }

  lemma WrapSame(v: int)
    requires 0 <= v < M
    ensures Wrap(v) == v
  {
  }

  lemma StripStep(n: nat, e: nat)
    ensures Strip(n, e) == if n > 0 && n % 10 == 0 && e < 9 then Strip(n / 10, e + 1) else (n, e)
  {
  }

  method CompressAmount(amount: Uint64) returns (x: Uint64)
    ensures x == Wrap(Compressed(amount))
  {
    hide Strip, Wrap;
    if amount == 0 {
      WrapSame(0);
      return 0;
    }
    var n, e := amount, 0;
    StripIs(amount, 0);
    while n % 10 == 0 && e < 9
      invariant n > 0 && e <= 9 && Strip(amount, 0) == Strip(n, e)
      decreases 9 - e
    {
      StripStep(n, e);
      n := n / 10;
      e := e + 1;
    }
    StripStep(n, e);
    if e < 9 {
      var d := n % 10;
      assert 1 <= d <= 9;
      n := n / 10;
      WrapInner((n as int) * 9 + d - 1, 10, 1 + e);
      x := Wrap((Wrap((n as int) * 9 + d - 1) as int) * 10 + (1 + e));
    } else {
      x := Wrap(1 + (n as int - 1) * 10 + 9);
    }
  }

  method DecompressAmount(compressed: Uint64) returns (amount: Uint64)
    ensures amount == Wrap(Expanded(compressed))
  {
    hide Wrap, Pow;
    if compressed == 0 {
      WrapSame(0);
      return 0;
    }
    var x := compressed - 1;
    var e := x % 10;
    x := x / 10;
    var n: Uint64 := 0;
    if e < 9 {
      var d := x % 9 + 1;
      x := x / 9;
      n := x * 10 + d;
    } else {
      n := x + 1;
    }
    amount := ScaleUp(n, e);
  }

  /** Multiplies by ten e times. */
  method ScaleUp(m: Uint64, k: nat) returns (n: Uint64)
    ensures n == Wrap((m as int) * Pow(10, k))
  {
    hide Wrap, Pow;
    var e := k;
    n := m;
    WrapSame(m);
    PowStart(10);
    while e > 0
      invariant 0 <= e <= k && n == Wrap((m as int) * Pow(10, k - e))
    {
      WrapInner((m as int) * Pow(10, k - e), 10, 0);
      PowNext(10, k - e);
      assert (m as int) * Pow(10, k - e) * 10 == (m as int) * (10 * Pow(10, k - e));
      n := Wrap((n as int) * 10 + 0);
      e := e - 1;
    }
  }

  // ---------------------------------------------------------------- when amounts survive

  /** The largest amount that is not a multiple of ten and still fits when compressed. */
  const LIMIT: nat := 2049638230412172402

  /** No amount larger than this is valid. */
  const MAX_MONEY: nat := 92233720368 * 100000000

  ghost predicate Survives(n: Uint64) {
    Wrap(Expanded(Wrap(Compressed(n)))) == n
  }

  lemma CompressedPlain(n: nat)
    requires n % 10 != 0
    ensures Compressed(n) == 90 * (n / 10) + 10 * (n % 10) - 9
  {
  }

  /** A multiple of ten compresses to less than itself and one more. */
  lemma CompressedTens(n: nat)
    requires n > 0 && n % 10 == 0
    ensures Compressed(n) <= n + 1
  {
    hide Pow, Strip;
    var (m, e) := Strip(n, 0);
    StripIs(n, 0);
    StripStep(n, 0);
    StripIs(n / 10, 1);
    PowNext(10, e - 1);
    PowPos(10, e - 1);
    MulMono(1, Pow(10, e - 1), m);
    assert m * (10 * Pow(10, e - 1)) == 10 * (m * Pow(10, e - 1));
  }

  lemma FitsSurvives(n: Uint64)
    requires n % 10 == 0 || n <= LIMIT
    ensures Compressed(n) < M && Survives(n)
  {
    hide Compressed, Expanded, Wrap;
    ExpandedCompressed(n);
    if n % 10 != 0 {
      CompressedPlain(n);
    } else if n > 0 {
      CompressedTens(n);
    } else {
      assert Compressed(0) == 0 by { CompressedZero(); }
    }
    WrapSame(Compressed(n));
    WrapSame(n);
  }

  lemma CompressedZero()
    ensures Compressed(0) == 0
  {
  }

  /** A number times an invertible one determines the number, modulo M. */
  lemma Solved(n: nat, a: nat, inv: nat, b: int)
    requires n < M && a * inv % M == 1 && (n * a - b) % M == 0
    ensures n == b * inv % M
  {
    var t, u := (n * a - b) / M, a * inv / M;
    assert n * a == b + t * M && a * inv == u * M + 1;
    assert n * a * inv == n * (a * inv) == n * u * M + n by { assert n * (u * M + 1) == n * u * M + n; }
    assert (b + t * M) * inv == b * inv + t * inv * M;
    assert b * inv == (n * u - t * inv) * M + n by { assert (n * u - t * inv) * M == n * u * M - t * inv * M; }
    DivModUnique(b * inv, M, n * u - t * inv, n);
  }

  /** What a form that wrapped k times expands to: less than the amount by one of two gaps, shifted by e digits. */
  lemma WrappedExpands(n: Uint64, k: nat, e: nat, c: nat) returns (m: nat)
    requires n % 10 != 0 && k * M < Compressed(n) < (k + 1) * M && 0 <= e < 9 && c * 10 == k * M + e
    ensures Expanded(Wrap(Compressed(n))) == Times(m, Pow(10, e))
    ensures n - m == c + c / 9 || n - m == c + c / 9 + 1
  {
    hide Wrap, Pow, Compressed, Times;
    CompressedPlain(n);
    var v := Compressed(n);
    WrapIs(v, k);
    var x := v - k * M;
    var w: nat := n / 10 * 9 + n % 10 - 1;
    assert x - 1 == 10 * (w - c) + e;
    DivModUnique(x - 1, 10, w - c, e);
    var y: nat := w - c;
    m := y / 9 * 10 + y % 9 + 1;
    Gap(w, c, n, m);
  }

  lemma FixedPoint(n: nat, m: nat, p: nat, inv: nat)
    requires n < M && p > 0 && (p - 1) * inv % M == 1 && Wrap(m * p) == n
    ensures n == (n - m) * p * inv % M
  {
    hide Wrap;
    WrapMeans(m * p, n);
    assert n * (p - 1) - (n - m) * p == m * p - n by {
      assert (n - m) * p == n * p - m * p;
      assert n * (p - 1) == n * p - n;
    }
    Solved(n, p - 1, inv, (n - m) * p);
  }

  /** No amount whose compressed form wraps k times comes back, given the literals that go with k. */
  lemma WrappedLost(n: Uint64, k: nat, e: nat, p: nat, c: nat, inv: nat)
    requires n % 10 != 0 && k * M <= Compressed(n) < (k + 1) * M
    requires 0 <= e < 9 && c * 10 == k * M + e && p == Pow(10, e) && (p - 1) * inv % M == 1
    requires NotThere(k, (c + c / 9) * p * inv % M) && NotThere(k, (c + c / 9 + 1) * p * inv % M)
    ensures !Survives(n)
  {
    hide Wrap, Pow, Compressed, Expanded;
    PowPos(10, e);
    if k * M == Compressed(n) {
      WrapIs(Compressed(n), k);
      ExpandedZero();
      WrapSame(0);
    } else {
      var m := WrappedExpands(n, k, e, c);
      if Survives(n) {
        FixedPoint(n, m, p, inv);
        CompressedPlain(n);
      }
    }
  }

  lemma ExpandedZero()
    ensures Expanded(0) == 0
  {
  }

  ghost predicate NotThere(k: nat, n: nat) {
    n % 10 == 0 || !(k * M <= 90 * (n / 10) + 10 * (n % 10) - 9 < (k + 1) * M)
  }

  lemma WrapIs(v: nat, k: nat)
    requires k * M <= v < (k + 1) * M
    ensures Wrap(v) == v - k * M
  {
    DivModUnique(v, M, k, v - k * M);
  }

  lemma WrapMeans(v: int, n: nat)
    requires Wrap(v) == n
    ensures (v - n) % M == 0
  {
    DivModUnique(v - n, M, v / M, 0);
  }

  lemma Gap(w: nat, c: nat, n: nat, m: nat)
    requires c <= w && n == w + w / 9 + 1 && m == (w - c) + (w - c) / 9 + 1
    ensures n - m == c + c / 9 || n - m == c + c / 9 + 1
  {
  }

  /** Five wraps leave no digits to shift by, and a smaller amount. */
  lemma Lost5(n: Uint64)
    requires n % 10 != 0 && 5 * M <= Compressed(n) < 6 * M
    ensures !Survives(n)
  {
    hide Wrap, Compressed, Expanded;
    if 5 * M == Compressed(n) {
      WrapIs(Compressed(n), 5);
      ExpandedZero();
      WrapSame(0);
    } else {
      var m := WrappedExpands(n, 5, 0, 5 * M / 10);
      PowStart(10);
      assert Times(m, 1) == m;
      WrapSame(m);
    }
  }

  lemma Powers10()
    ensures Pow(10, 2) == 100 && Pow(10, 4) == 10000 && Pow(10, 6) == 1000000 && Pow(10, 8) == 100000000
  {
    PowAdd(10, 2, 2);
    PowAdd(10, 4, 2);
    PowAdd(10, 4, 4);
  }

  lemma Lost1(n: Uint64)
    requires n % 10 != 0 && 1 * M <= Compressed(n) < 2 * M
    ensures !Survives(n)
  {
    hide Pow, Wrap, Compressed, Expanded, Survives;
    Powers10();
    assert 1 * M == 18446744073709551616;
    assert 9999 * 13458245626333751279 % M == 1;
    assert 2049638230412172402 * 10000 * 13458245626333751279 % M == 15288550632769423584 && 2049638230412172403 * 10000 * 13458245626333751279 % M == 10300052185393623248;
    WrappedLost(n, 1, 4, 10000, 1844674407370955162, 13458245626333751279);
  }

  lemma Lost2(n: Uint64)
    requires n % 10 != 0 && 2 * M <= Compressed(n) < 3 * M
    ensures !Survives(n)
  {
    hide Pow, Wrap, Compressed, Expanded, Survives;
    Powers10();
    assert 2 * M == 36893488147419103232;
    assert 99999999 * 300153063250403071 % M == 1;
    assert 4099276460824344804 * 100000000 * 300153063250403071 % M == 14480868974329830400 && 4099276460824344805 * 100000000 * 300153063250403071 % M == 14781022037580233472;
    WrappedLost(n, 2, 8, 100000000, 3689348814741910324, 300153063250403071);
  }

  lemma Lost3(n: Uint64)
    requires n % 10 != 0 && 3 * M <= Compressed(n) < 4 * M
    ensures !Survives(n)
  {
    hide Pow, Wrap, Compressed, Expanded, Survives;
    Powers10();
    assert 3 * M == 55340232221128654848;
    assert 99 * 12670490878911611211 % M == 1;
    assert 6148914691236517205 * 100 * 12670490878911611211 % M == 1925417731599313468 && 6148914691236517206 * 100 * 12670490878911611211 % M == 14595908610510924680;
    WrappedLost(n, 3, 2, 100, 5534023222112865485, 12670490878911611211);
  }

  lemma Lost4(n: Uint64)
    requires n % 10 != 0 && 4 * M <= Compressed(n) < 5 * M
    ensures !Survives(n)
  {
    hide Pow, Wrap, Compressed, Expanded, Survives;
    Powers10();
    assert 4 * M == 73786976294838206464;
    assert 999999 * 1672254362768354751 % M == 1;
    assert 8198552921648689607 * 1000000 * 1672254362768354751 % M == 14161661572577611840 && 8198552921648689608 * 1000000 * 1672254362768354751 % M == 15833915935345966592;
    WrappedLost(n, 4, 6, 1000000, 7378697629483820647, 1672254362768354751);
  }

  lemma Lost6(n: Uint64)
    requires n % 10 != 0 && 6 * M <= Compressed(n) < 7 * M
    ensures !Survives(n)
  {
    hide Pow, Wrap, Compressed, Expanded, Survives;
    Powers10();
    assert 6 * M == 110680464442257309696;
    assert 9999 * 13458245626333751279 % M == 1;
    assert 12297829382473034411 * 10000 * 13458245626333751279 % M == 4486081875444583760 && 12297829382473034412 * 10000 * 13458245626333751279 % M == 17944327501778335040;
    WrappedLost(n, 6, 4, 10000, 11068046444225730970, 13458245626333751279);
  }

  lemma Lost7(n: Uint64)
    requires n % 10 != 0 && 7 * M <= Compressed(n) < 8 * M
    ensures !Survives(n)
  {
    hide Pow, Wrap, Compressed, Expanded, Survives;
    Powers10();
    assert 7 * M == 129127208515966861312;
    assert 99999999 * 300153063250403071 % M == 1;
    assert 14347467612885206813 * 100000000 * 300153063250403071 % M == 4266028162630124288 && 14347467612885206814 * 100000000 * 300153063250403071 % M == 4566181225880527360;
    WrappedLost(n, 7, 8, 100000000, 12912720851596686132, 300153063250403071);
  }

  lemma Lost8(n: Uint64)
    requires n % 10 != 0 && 8 * M <= Compressed(n) < 9 * M
    ensures !Survives(n)
  {
    hide Pow, Wrap, Compressed, Expanded, Survives;
    Powers10();
    assert 8 * M == 147573952589676412928;
    assert 99 * 12670490878911611211 % M == 1;
    assert 16397105843297379214 * 100 * 12670490878911611211 % M == 7432526512302726184 && 16397105843297379215 * 100 * 12670490878911611211 % M == 1656273317504785780;
    WrappedLost(n, 8, 2, 100, 14757395258967641293, 12670490878911611211);
  }

  lemma PlainLost(n: Uint64)
    requires n % 10 != 0 && n > LIMIT
    ensures !Survives(n)
  {
    hide Compressed, Survives;
    CompressedPlain(n);
    var v := Compressed(n);
    if v < 2 * M { Lost1(n); }
    else if v < 3 * M { Lost2(n); }
    else if v < 4 * M { Lost3(n); }
    else if v < 5 * M { Lost4(n); }
    else if v < 6 * M { Lost5(n); }
    else if v < 7 * M { Lost6(n); }
    else if v < 8 * M { Lost7(n); }
    else { Lost8(n); }
  }

  /** An amount comes back from its compressed form exactly if it is a multiple of ten or at most the limit. */
  lemma RoundTrip(n: Uint64)
    ensures Survives(n) <==> n % 10 == 0 || n <= LIMIT
  {
    hide Survives;
    if n % 10 == 0 || n <= LIMIT { FitsSurvives(n); } else { PlainLost(n); }
  }

  /** The documented range of amounts is larger than that. */
  lemma MoneyLost()
    ensures LIMIT + 1 <= MAX_MONEY && !Survives(LIMIT + 1)
  {
    hide Survives;
    RoundTrip(LIMIT + 1);
  }

  /** A compressed form comes back exactly if what it expands to fits. */
  lemma RoundTripBack(x: Uint64)
    ensures Wrap(Compressed(Wrap(Expanded(x)))) == x <==> Expanded(x) < M
  {
    hide Wrap, Compressed, Expanded;
    CompressedExpanded(x);
    WrapSame(x);
    var v := Wrap(Expanded(x));
    if Expanded(x) < M {
      WrapSame(Expanded(x));
    } else if Wrap(Compressed(v)) == x {
      assert Survives(v);
      RoundTrip(v);
      FitsSurvives(v);
      WrapSame(Compressed(v));
      ExpandedCompressed(v);
    }
  }
}
