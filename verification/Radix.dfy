/** Big-endian digits in any base, and the in-place step that multiplies a digit buffer and adds to it. */
module Radix {
  import opened Numbers

  ghost predicate AreDigits(d: seq<nat>, base: nat) {
    forall i | 0 <= i < |d| :: d[i] < base
  }

  ghost function Num(d: seq<nat>, base: nat): (n: nat) {
    if d == [] then 0 else
      MulNonneg(Num(d[..|d| - 1], base), base);
      Num(d[..|d| - 1], base) * base + d[|d| - 1]
  }

  /** The digits of n, without leading zeros. */
  ghost function Digits(n: nat, base: nat): (d: seq<nat>)
    requires base >= 2
    ensures AreDigits(d, base) && (d != [] ==> d[0] != 0)
    decreases n
  {
    if n == 0 then [] else Digits(n / base, base) + [n % base]
  }

  lemma NumSnoc(h: seq<nat>, x: nat, base: nat)
    ensures Num(h + [x], base) == Num(h, base) * base + x
  {
    assert (h + [x])[..|h|] == h;
  }

  lemma Quotient(n: nat, base: nat)
    requires base >= 2 && n > 0
    ensures n / base < n && n / base * base + n % base == n
  {
    MulMono(2, base, n / base);
  }

  lemma {:induction false} NumDigits(n: nat, base: nat)
    requires base >= 2
    ensures Num(Digits(n, base), base) == n
    decreases n
  {
    if n == 0 {
    } else {
      hide Num;
      Quotient(n, base);
      NumDigits(n / base, base);
      NumSnoc(Digits(n / base, base), n % base, base);
    }
  }

  /** Digits without a leading zero are the digits of their number. */
  lemma {:induction false} DigitsNum(d: seq<nat>, base: nat)
    requires base >= 2 && AreDigits(d, base) && (d != [] ==> d[0] != 0)
    ensures Digits(Num(d, base), base) == d
  {
    if d != [] {
      var h := d[..|d| - 1];
      DigitsNum(h, base);
      DivModUnique(Num(d, base), base, Num(h, base), d[|d| - 1]);
      if h != [] { NumPos(h, base); MulMono(1, Num(h, base), base); }
    }
  }

  lemma {:induction false} NumPos(d: seq<nat>, base: nat)
    requires base >= 2 && d != [] && d[0] != 0
    ensures Num(d, base) > 0
  {
    var h := d[..|d| - 1];
    if h != [] { NumPos(h, base); MulMono(1, Num(h, base), base); }
  }

  /** Leading zeros count for nothing. */
  lemma {:induction false} NumZeros(z: nat, d: seq<nat>, base: nat)
    ensures Num(seq(z, _ => 0) + d, base) == Num(d, base)
    decreases z + |d|
  {
    var s := seq(z, _ => 0) + d;
    if d != [] {
      assert s[..|s| - 1] == seq(z, _ => 0) + d[..|d| - 1];
      NumZeros(z, d[..|d| - 1], base);
    } else if z > 0 {
      assert s[..|s| - 1] == seq(z - 1, _ => 0) + d;
      NumZeros(z - 1, d, base);
    }
  }

  lemma {:induction false} NumBound(d: seq<nat>, base: nat)
    requires base >= 1 && AreDigits(d, base)
    ensures Num(d, base) < Pow(base, |d|)
  {
    if d != [] {
      var h := d[..|d| - 1];
      NumBound(h, base);
      MulMono(Num(h, base) + 1, Pow(base, |h|), base);
      assert (Num(h, base) + 1) * base == Num(h, base) * base + base;
      assert Pow(base, |d|) == base * Pow(base, |h|);
    }
  }

  /** A digit in front. */
  lemma {:induction false} NumCons(x: nat, d: seq<nat>, base: nat)
    ensures Num([x] + d, base) == x * Pow(base, |d|) + Num(d, base)
  {
    if d == [] {
      assert ([x] + d)[..0] == [];
    } else {
      var h := d[..|d| - 1];
      assert ([x] + d)[..|d|] == [x] + h;
      NumCons(x, h, base);
      NumConsTerm(x, Pow(base, |h|), Num(h, base), base);
    }
  }

  lemma NumConsTerm(x: int, p: int, v: int, base: int)
    ensures (x * p + v) * base == x * (base * p) + v * base
  {
    assert x * p * base == x * (base * p);
  }

  /** A buffer that holds n in its last `length` digits. */
  ghost predicate Holds(d: seq<nat>, base: nat, n: nat, length: nat) {
    && base >= 2 && length <= |d| && AreDigits(d, base)
    && (forall i | 0 <= i < |d| - length :: d[i] == 0)
    && d[|d| - length..] == Digits(n, base)
  }

  lemma DigitsBound(n: nat, base: nat)
    requires base >= 2
    ensures n < Pow(base, |Digits(n, base)|) && (n > 0 ==> |Digits(n, base)| > 0 && Pow(base, |Digits(n, base)| - 1) <= n)
  {
    var d := Digits(n, base);
    NumDigits(n, base);
    NumBound(d, base);
    if n > 0 {
      assert d == [d[0]] + d[1..];
      NumCons(d[0], d[1..], base);
      MulMono(1, d[0], Pow(base, |d| - 1));
    }
  }

  /** A buffer whose last i digits come to n, with n too large for fewer. */
  lemma HoldsFrom(d: seq<nat>, base: nat, n: nat, i: nat)
    requires base >= 2 && i <= |d| && AreDigits(d, base) && (forall j | 0 <= j < |d| - i :: d[j] == 0)
    requires Num(d[|d| - i..], base) == n && (i > 0 ==> Pow(base, i - 1) <= n)
    ensures Holds(d, base, n, i)
  {
    var t := d[|d| - i..];
    if i > 0 {
      assert t == [t[0]] + t[1..];
      NumCons(t[0], t[1..], base);
      NumBound(t[1..], base);
      assert 0 * Pow(base, i - 1) == 0;
    }
    DigitsNum(t, base);
  }

  /** digits := digits * factor + carry.  The buffer suffices if the result fits. */
  method MulAdd(digits: array<nat>, base: nat, factor: nat, add: nat, length: nat, ghost n: nat) returns (length': nat)
    requires base >= 2 && factor >= 1 && Holds(digits[..], base, n, length)
    requires n * factor + add < Pow(base, digits.Length)
    modifies digits
    ensures n * factor + add >= 0 && Holds(digits[..], base, n * factor + add, length')
  {
    hide Num, Digits, Pow, AreDigits;
    ghost var d, size := digits[..], digits.Length;
    ghost var total := n * factor + add;
    MulNonneg(n, factor);
    StartFacts(d, base, n, length, factor, add);
    var carry: nat, i := add, 0;
    while (carry != 0 || i < length) && i < digits.Length
      invariant i <= size && AreDigits(digits[..], base)
      invariant forall j | 0 <= j < size - i :: digits[j] == d[j]
      invariant Num(digits[size - i..], base) + carry * Pow(base, i) == Num(d[size - i..], base) * factor + add
      invariant i > length ==> Pow(base, i - 1) <= total
    {
      var k := digits.Length - 1 - i;
      CarryLow(digits[..], d, base, factor, add, carry, i, n, length);
      var c: nat := carry + factor * digits[k];
      digits[k] := c % base;
      carry := c / base;
      i := i + 1;
    }
    EndFacts(digits[..], d, base, factor, add, carry, i, n, length);
    length' := i;
  }

  lemma StartFacts(d: seq<nat>, base: nat, n: nat, length: nat, factor: nat, add: nat)
    requires Holds(d, base, n, length)
    ensures Num(d[|d|..], base) == 0 && Pow(base, 0) == 1 && AreDigits(d, base)
  {
  }

  /** One digit of the step, and what it means once the old digits are used up. */
  lemma CarryLow(e: seq<nat>, d: seq<nat>, base: nat, factor: nat, add: nat, carry: nat, i: nat, n: nat, length: nat)
    requires factor >= 1 && Holds(d, base, n, length) && AreDigits(e, base) && i < |e| == |d| && (carry != 0 || i < length)
    requires forall j | 0 <= j < |d| - i :: e[j] == d[j]
    requires Num(e[|d| - i..], base) + carry * Pow(base, i) == Num(d[|d| - i..], base) * factor + add
    ensures var k, c := |d| - 1 - i, carry + factor * d[|d| - 1 - i];
      && c >= 0 && AreDigits(e[k := c % base], base)
      && Num(e[k := c % base][k..], base) + c / base * Pow(base, i + 1) == Num(d[k..], base) * factor + add
    ensures i + 1 > length ==> Pow(base, i) <= n * factor + add
  {
    hide Num, Pow, Digits;
    var k := |d| - 1 - i;
    MulNonneg(factor, d[k]);
    var c := carry + factor * d[k];
    var e' := e[k := c % base];
    assert e'[k..] == [c % base] + e[k + 1..] && d[k..] == [d[k]] + d[k + 1..];
    NumCons(c % base, e[k + 1..], base);
    NumCons(d[k], d[k + 1..], base);
    PowNext(base, i);
    CarryTerm(Num(e[k + 1..], base), carry, Num(d[k + 1..], base), factor, add, d[k], base, Pow(base, i));
    if i >= length {
      UsedUp(d, base, n, length, i);
      MulMono(1, carry, Pow(base, i));
    }
  }

  lemma CarryTerm(v: int, carry: int, w: int, factor: int, add: int, x: int, base: nat, p: int)
    requires base > 0 && v + carry * p == w * factor + add
    ensures var c := carry + factor * x;
      c % base * p + v + c / base * (base * p) == (x * p + w) * factor + add
  {
    var c := carry + factor * x;
    var q, r := c / base, c % base;
    assert c == q * base + r;
    assert q * (base * p) == q * base * p;
    assert (q * base + r) * p == q * base * p + r * p;
    assert (carry + factor * x) * p == carry * p + factor * x * p;
    assert (x * p + w) * factor == factor * x * p + w * factor;
  }

  /** Beyond its length, a buffer's number is all in the last digits. */
  lemma UsedUp(d: seq<nat>, base: nat, n: nat, length: nat, i: nat)
    requires Holds(d, base, n, length) && length <= i <= |d|
    ensures Num(d[|d| - i..], base) == n
  {
    hide Num, Digits;
    assert d[|d| - i..] == seq(i - length, _ => 0) + d[|d| - length..];
    NumZeros(i - length, d[|d| - length..], base);
    NumDigits(n, base);
  }

  lemma EndFacts(e: seq<nat>, d: seq<nat>, base: nat, factor: nat, add: nat, carry: nat, i: nat, n: nat, length: nat)
    requires factor >= 1 && Holds(d, base, n, length) && AreDigits(e, base) && i <= |e| == |d|
    requires n * factor + add < Pow(base, |d|)
    requires (carry == 0 && i >= length) || i == |d|
    requires forall j | 0 <= j < |d| - i :: e[j] == d[j]
    requires Num(e[|d| - i..], base) + carry * Pow(base, i) == Num(d[|d| - i..], base) * factor + add
    requires i > length ==> Pow(base, i - 1) <= n * factor + add
    ensures carry == 0 && Holds(e, base, n * factor + add, i)
  {
    hide Num, Pow, Digits;
    UsedUp(d, base, n, length, i);
    if carry != 0 { MulMono(1, carry, Pow(base, i)); }
    if 0 < i == length {
      DigitsBound(n, base);
      DigitsZero(n, base);
      MulMono(1, factor, n);
    }
    HoldsFrom(e, base, n * factor + add, i);
  }

  lemma DigitsZero(n: nat, base: nat)
    requires base >= 2
    ensures Digits(n, base) == [] <==> n == 0
  {
  }
}
