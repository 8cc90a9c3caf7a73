/** Natural numbers as little-endian sequences of 32-bit limbs. */
module Limbs {
  import opened Numbers

  const BASE: nat := 0x1_0000_0000

  type Limb = x: nat | x < BASE
  type Uint64 = x: nat | x < 0x1_0000_0000_0000_0000

  function Val(s: seq<Limb>): nat {
    if s == [] then 0 else Val(s[..|s| - 1]) + s[|s| - 1] * Pow(BASE, |s| - 1)
  }

  /** The number of values of n limbs. */
  function Size(n: nat): (r: nat)
    ensures r > 0
  {
    PowPos(BASE, n);
    Pow(BASE, n)
  }

  lemma ValSnoc(s: seq<Limb>, i: nat)
    requires i < |s|
    ensures Val(s[..i + 1]) == Val(s[..i]) + s[i] * Size(i)
  {
    assert s[..i + 1][..i] == s[..i];
  }

  lemma {:induction false} ValBound(s: seq<Limb>)
    ensures Val(s) < Size(|s|)
  {
    if s != [] {
      var n := |s| - 1;
      ValBound(s[..n]);
      MulMono(s[n], BASE - 1, Size(n));
      assert (BASE - 1) * Size(n) == Size(n + 1) - Size(n);
    }
  }

  lemma {:induction false} ValSet(s: seq<Limb>, i: nat, x: Limb)
    requires i < |s|
    ensures Val(s[i := x]) == Val(s) + (x - s[i]) * Size(i)
  {
    var n := |s| - 1;
    if i < n {
      assert s[i := x][..n] == s[..n][i := x];
      ValSet(s[..n], i, x);
    } else {
      assert s[i := x][..n] == s[..n];
      assert (x - s[i]) * Size(i) == x * Size(i) - s[i] * Size(i);
    }
  }

  lemma {:induction false} ValZeros(s: seq<Limb>)
    requires forall i | 0 <= i < |s| :: s[i] == 0
    ensures Val(s) == 0
  {
    if s != [] { ValZeros(s[..|s| - 1]); }
  }

  lemma Distribute(a: int, t: int, p: int, q: int)
    ensures (a + t * p) * q == a * q + t * (p * q)
  {
    assert t * p * q == t * (p * q);
  }

  lemma SizeAdd(m: nat, n: nat)
    ensures Size(m + n) == Size(m) * Size(n)
  {
    PowAdd(BASE, m, n);
  }

  lemma SizeNext(n: nat)
    ensures Size(n + 1) == BASE * Size(n) && Size(0) == 1
  {
  }

  /** A number is its low limbs and its high limbs shifted up. */
  lemma {:induction false} ValSplit(s: seq<Limb>, i: nat)
    requires i <= |s|
    ensures Val(s) == Val(s[..i]) + Val(s[i..]) * Size(i)
  {
    hide Size;
    var n := |s| - 1;
    if i == |s| {
      assert s[..i] == s;
    } else {
      ValSplit(s[..n], i);
      assert s[..n][..i] == s[..i] && s[..n][i..] == s[i..][..n - i];
      ValSnoc(s, n);
      ValSnoc(s[i..], n - i);
      assert s[..n + 1] == s && s[i..][..n - i + 1] == s[i..];
      SizeAdd(n - i, i);
      Distribute(Val(s[..n][i..]), s[n], Size(n - i), Size(i));
    }
  }

  // ---------------------------------------------------------------- one step of a carry loop

  /** One limb of a sum or product: low part stored, high part carried. */
  lemma CarryStep(v: nat, carry: nat, total: nat, n: nat, i: nat, carried: nat)
    requires v + carry * Size(i) == total && n == carry + carried
    ensures v + n % BASE * Size(i) + n / BASE * Size(i + 1) == total + carried * Size(i)
  {
    hide Size;
    SizeNext(i);
    var p, lo, hi := Size(i), n % BASE, n / BASE;
    assert n == hi * BASE + lo;
    assert (hi * BASE + lo) * p == hi * (BASE * p) + lo * p by { Distribute(lo, hi, BASE, p); }
    assert (carry + carried) * p == carry * p + carried * p;
  }

  /** A number less than m, and equal to x but for a multiple of m, is x mod m. */
  lemma Wrapped(v: nat, q: int, m: nat, x: int)
    requires v < m && v + q * m == x
    ensures v == x % m
  {
    DivModUnique(x, m, q, v);
  }
}
