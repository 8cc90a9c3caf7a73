/** The compact form of targets, and the trust of a block. */
module Compact {
  import opened Numbers
  import opened Limbs
  import opened LimbShifts
  import opened WideInt
  import Radix

  type Uint32 = Limb

  /** 256 to the k. */
  function Bytes(k: nat): (p: nat)
    ensures p > 0
  {
    Two(8 * k)
  }

  lemma BytesAdd(j: nat, k: nat)
    ensures Bytes(j + k) == Bytes(j) * Bytes(k)
  {
    TwoAdd(8 * j, 8 * k);
  }

  lemma BytesMono(j: nat, k: nat)
    requires j <= k
    ensures Bytes(j) <= Bytes(k)
  {
    TwoMono(8 * j, 8 * k);
  }

  lemma FewBytes()
    ensures Bytes(0) == 1 && Bytes(1) == 256 && Bytes(2) == 0x1_0000 && Bytes(3) == 0x100_0000
    ensures Bytes(32) == Size(8)
  {
    Pow8();
    BytesAdd(1, 1);
    BytesAdd(2, 1);
    SizeIsPow(8);
  }

  function Times(x: nat, p: nat): nat {
    MulNonneg(x, p);
    x * p
  }

  function Quotient(x: nat, p: nat): nat
    requires p > 0
  {
    x / p
  }

  function Exponent(c: Uint32): nat { c / 0x100_0000 }
  function Mantissa(c: Uint32): nat { c % 0x80_0000 }
  predicate SignBit(c: Uint32) { c / 0x80_0000 % 2 == 1 }

  /** The number a compact form stands for, whether or not it fits in 256 bits. */
  function Decoded(c: Uint32): nat {
    if Exponent(c) <= 3 then Quotient(Mantissa(c), Bytes(3 - Exponent(c))) else Times(Mantissa(c), Bytes(Exponent(c) - 3))
  }

  /** The number of bytes of y, without leading zeros. */
  ghost function ByteCount(y: nat): nat {
    |Radix.Digits(y, 256)|
  }

  /** The compact form of x: as many bytes as leave the sign bit free, then the three highest of them. */
  ghost function Encoded(x: nat, negative: bool): (c: nat) {
    var n := ByteCount(2 * x);
    var m := Top(x, n);
    n * 0x100_0000 + m + if negative && m != 0 then 0x80_0000 else 0
  }

  function Top(x: nat, n: nat): (m: nat) {
    if n <= 3 then Times(x, Bytes(3 - n)) else Quotient(x, Bytes(n - 3))
  }

  // ---------------------------------------------------------------- lengths

  lemma DigitsAre(y: nat)
    ensures y < Bytes(ByteCount(y))
    ensures if y == 0 then ByteCount(y) == 0 else ByteCount(y) > 0 && Bytes(ByteCount(y) - 1) <= y
  {
    hide Bytes;
    Radix.DigitsBound(y, 256);
    Radix.DigitsZero(y, 256);
    BytesIsPow(ByteCount(y));
    if y > 0 { BytesIsPow(ByteCount(y) - 1); }
  }

  lemma BytesIsPow(k: nat)
    ensures Bytes(k) == Pow(256, k)
  {
    Pow8();
    PowPow(2, 8, k);
  }

  lemma DigitsUnique(y: nat, n: nat)
    requires y < Bytes(n) && (n > 0 ==> Bytes(n - 1) <= y)
    ensures ByteCount(y) == n
  {
    hide Bytes;
    FewBytes();
    DigitsAre(y);
    var d := ByteCount(y);
    if d < n { BytesMono(d, n - 1); }
    if n < d { BytesMono(n, d - 1); }
  }

  lemma TopBound(x: nat, n: nat)
    requires 2 * x < Bytes(n)
    ensures Top(x, n) < 0x80_0000
  {
    hide Bytes;
    FewBytes();
    if n <= 3 {
      BytesAdd(n, 3 - n);
      MulLess(2 * x, Bytes(n), Bytes(3 - n));
      assert 2 * x * Bytes(3 - n) == 2 * (x * Bytes(3 - n));
    } else {
      BytesAdd(3, n - 3);
      var q := x / Bytes(n - 3);
      assert x == Bytes(n - 3) * q + x % Bytes(n - 3);
      assert (2 * q) * Bytes(n - 3) == 2 * (Bytes(n - 3) * q);
      MulCancel(2 * q, Bytes(3), Bytes(n - 3));
    }
  }

  /** Taking a compact form apart. */
  lemma Parts(n: nat, m: nat, sign: bool)
    requires n < 256 && m < 0x80_0000
    ensures var c := n * 0x100_0000 + m + if sign then 0x80_0000 else 0;
      c < BASE && Exponent(c) == n && Mantissa(c) == m && SignBit(c) == sign
  {
  }

  // ---------------------------------------------------------------- the round trip

  /** x with all but its highest bytes cleared. */
  ghost function Rounded(x: nat): (r: nat)
    ensures r <= x
  {
    var n := ByteCount(2 * x);
    if n <= 3 then x else x - x % Bytes(n - 3)
  }

  lemma DigitsFit(x: nat)
    requires x < Size(8)
    ensures ByteCount(2 * x) <= 33
  {
    hide Bytes;
    FewBytes();
    DigitsAre(2 * x);
    var n := ByteCount(2 * x);
    if n > 33 {
      BytesMono(33, n - 1);
      BytesAdd(32, 1);
    }
  }

  /** Decoding what was encoded only clears low bytes, and never overflows. */
  lemma RoundTrip(x: nat, negative: bool)
    requires x < Size(8)
    ensures Encoded(x, negative) < BASE && Decoded(Encoded(x, negative)) == Rounded(x) < Size(8)
  {
    hide Bytes, ByteCount;
    var n := ByteCount(2 * x);
    var m := Top(x, n);
    DigitsAre(2 * x);
    DigitsFit(x);
    TopBound(x, n);
    Parts(n, m, negative && m != 0);
    if n <= 3 {
      DivModUnique(m, Bytes(3 - n), x, 0);
    } else {
      assert x == Bytes(n - 3) * m + x % Bytes(n - 3);
      assert m * Bytes(n - 3) == Bytes(n - 3) * m;
    }
  }

  lemma RoundedDigits(x: nat)
    ensures ByteCount(2 * Rounded(x)) == ByteCount(2 * x)
  {
    hide Bytes, ByteCount;
    var n := ByteCount(2 * x);
    DigitsAre(2 * x);
    if n > 3 {
      FewBytes();
      var p := Bytes(n - 3);
      BytesAdd(2, n - 3);
      var q := x / p;
      assert Rounded(x) == q * p by { assert x == p * q + x % p; }
      // 2 * x >= 0x1_0000 * p, so q >= 0x8000
      assert 0x8000 * p <= x;
      DivMono(0x8000 * p, x, p);
      DivModUnique(0x8000 * p, p, 0x8000, 0);
      MulMono(0x8000, q, p);
      DigitsUnique(2 * Rounded(x), n);
    }
  }

  /** Encoding again gives the same compact form. */
  lemma EncodedIdempotent(x: nat, negative: bool)
    ensures Encoded(Rounded(x), negative) == Encoded(x, negative)
    ensures Rounded(Rounded(x)) == Rounded(x)
  {
    hide Bytes, ByteCount;
    RoundedDigits(x);
    var n := ByteCount(2 * x);
    if n > 3 {
      var p, q := Bytes(n - 3), x / Bytes(n - 3);
      assert Rounded(x) == q * p by { assert x == p * q + x % p; }
      DivModUnique(Rounded(x), p, q, 0);
    }
  }

  lemma DigitsMono(x: nat, y: nat)
    requires x <= y
    ensures ByteCount(x) <= ByteCount(y)
  {
    hide Bytes, ByteCount;
    DigitsAre(x);
    DigitsAre(y);
    if ByteCount(y) < ByteCount(x) { BytesMono(ByteCount(y), ByteCount(x) - 1); }
  }

  /** Passing through the compact form preserves the order of targets. */
  lemma RoundedMonotone(x: nat, y: nat)
    requires x <= y
    ensures Rounded(x) <= Rounded(y)
  {
    hide Bytes, ByteCount;
    var n, n' := ByteCount(2 * x), ByteCount(2 * y);
    DigitsMono(2 * x, 2 * y);
    if n == n' && n > 3 {
      var p := Bytes(n - 3);
      DivMono(x, y, p);
      MulMono(x / p, y / p, p);
      assert x == p * (x / p) + x % p && y == p * (y / p) + y % p;
    } else if n < n' && Rounded(y) < Rounded(x) {
      RoundedDigits(y);
      DigitsMono(2 * Rounded(y), 2 * x);
    }
  }

  // ---------------------------------------------------------------- overflow

  /** The overflow test is exact. */
  lemma OverflowExactly(c: Uint32)
    ensures var e, w := Exponent(c), Mantissa(c);
      (if e <= 3 then false else w != 0 && (e > 34 || (w > 0xFF && e > 33) || (w > 0xFFFF && e > 32)))
      <==> Decoded(c) >= Size(8)
  {
    hide Bytes, Size;
    FewBytes();
    var e, w := Exponent(c), Mantissa(c);
    if e <= 3 {
      DivLe(w, Bytes(3 - e));
      BytesMono(3, 32);
    } else if e >= 35 {
      BytesMono(32, e - 3);
      if w > 0 { MulMono(1, w, Bytes(e - 3)); }
    } else {
      BytesAdd(35 - e, e - 3);
      MulCancel(w, Bytes(35 - e), Bytes(e - 3));
      if e <= 32 { BytesMono(3, 35 - e); }
    }
  }

  // ---------------------------------------------------------------- the operations on wide integers

  /** The flags say exactly what the number and its wrapped value do not. */
  method SetCompact(bn: BaseUint, c: Uint32) returns (negative: bool, overflow: bool)
    requires bn.pn.Length == 8
    modifies bn.pn
    ensures bn.Value() == Decoded(c) % Size(8)
    ensures negative == (SignBit(c) && Decoded(c) != 0)
    ensures overflow == (Decoded(c) >= Size(8))
  {
    hide Val, Size, Bytes, Two;
    var nSize := Exponent(c);
    var nWord := Mantissa(c);
    OverflowExactly(c);
    if nSize <= 3 {
      DivLe(nWord, Bytes(3 - nSize));
      nWord := nWord / Bytes(3 - nSize);
      bn.AssignWord(nWord);
      ValBound(bn.pn[..]);
      DivModUnique(nWord, Size(8), 0, nWord);
    } else {
      bn.AssignWord(nWord);
      bn.ShiftLeft(8 * (nSize - 3));
      assert Bytes(nSize - 3) == Two(8 * (nSize - 3)) by { BytesIs(nSize - 3); }
      MulCancel(0, nWord, Bytes(nSize - 3));
    }
    negative := nWord != 0 && SignBit(c);
    overflow := nWord != 0 && (nSize > 34 || (nWord > 0xFF && nSize > 33) || (nWord > 0xFFFF && nSize > 32));
  }

  lemma BytesIs(k: nat)
    ensures Bytes(k) == Two(8 * k)
  {
  }

  lemma BitsToBytes(x: nat, bits: nat)
    requires if x == 0 then bits == 0 else bits > 0 && Two(bits - 1) <= x < Two(bits)
    ensures var n := (bits + 7) / 8; x < Bytes(n) && (if x == 0 then n == 0 else n > 0 && Bytes(n - 1) <= x)
  {
    hide Two;
    var n := (bits + 7) / 8;
    if x > 0 {
      TwoMono(bits, 8 * n);
      TwoMono(8 * (n - 1), bits - 1);
    } else {
      TwoNext(0);
    }
  }

  /** The highest bit of the mantissa is set exactly if another byte is needed. */
  lemma TopBitSet(x: nat, n: nat)
    requires x < Bytes(n)
    ensures Top(x, n) < 0x100_0000 && (Top(x, n) >= 0x80_0000 <==> 2 * x >= Bytes(n))
  {
    hide Bytes;
    FewBytes();
    if n <= 3 {
      BytesAdd(n, 3 - n);
      ScaledTop(x, Bytes(n), Bytes(3 - n), 0x80_0000);
    } else {
      BytesAdd(3, n - 3);
      QuotientTop(x, Bytes(n), Bytes(n - 3), 0x80_0000);
    }
  }

  lemma ScaledTop(x: nat, b: nat, p: nat, half: nat)
    requires p > 0 && b * p == 2 * half && x < b
    ensures x * p < 2 * half && (x * p >= half <==> 2 * x >= b)
  {
    MulCancel(x, b, p);
    MulCancel(2 * x, b, p);
    assert 2 * x * p == 2 * (x * p);
  }

  lemma QuotientTop(x: nat, b: nat, p: nat, half: nat)
    requires p > 0 && b == 2 * half * p && x < b
    ensures x / p < 2 * half && (x / p >= half <==> 2 * x >= b)
  {
    var m := x / p;
    assert x == m * p + x % p && (m + 1) * p == m * p + p;
    assert 2 * half * p == 2 * (half * p);
    MulCancel(m, 2 * half, p);
    MulCancel(m + 1, half, p);
    MulCancel(m + 1, half + 1, p);
    if m < half { MulMono(m + 1, half, p); } else { MulMono(half, m, p); }
  }

  lemma TopNext(x: nat, n: nat)
    ensures Top(x, n + 1) == Top(x, n) / 256
  {
    hide Bytes;
    FewBytes();
    if n < 3 {
      BytesAdd(2 - n, 1);
      var y := x * Bytes(2 - n);
      assert x * (Bytes(2 - n) * 256) == y * 256;
      DivModUnique(y * 256, 256, y, 0);
    } else if n > 3 {
      BytesAdd(n - 3, 1);
      DivDiv(x, Bytes(n - 3), 256);
    }
  }

  lemma EncodedSize(x: nat, n: nat)
    requires x < Bytes(n) && (if x == 0 then n == 0 else n > 0 && Bytes(n - 1) <= x)
    ensures Top(x, n) < 0x100_0000
    ensures if Top(x, n) >= 0x80_0000 then ByteCount(2 * x) == n + 1 && Top(x, n + 1) == Top(x, n) / 256
            else ByteCount(2 * x) == n
  {
    hide Bytes, ByteCount, Top;
    TopBitSet(x, n);
    TopNext(x, n);
    if 2 * x >= Bytes(n) {
      FewBytes();
      BytesAdd(n, 1);
      DigitsUnique(2 * x, n + 1);
    } else {
      DigitsUnique(2 * x, n);
    }
  }

  method GetCompact(bn: BaseUint, negative: bool) returns (c: Uint32)
    requires bn.pn.Length == 8
    ensures c == Encoded(bn.Value(), negative)
  {
    hide Val, Size, Bytes, Two, ByteCount, Top, BitOr;
    ghost var x := bn.Value();
    ValBound(bn.pn[..]);
    DigitsFit(x);
    var bits := bn.Bits();
    BitsToBytes(x, bits);
    var nSize := (bits + 7) / 8;
    EncodedSize(x, nSize);
    DigitsAre(2 * x);
    TopBound(x, ByteCount(2 * x));
    var nCompact := HighBytes(bn, nSize);
    if nCompact / 0x80_0000 % 2 == 1 {
      nCompact := nCompact / 256;
      nSize := nSize + 1;
    }
    assert nCompact < 0x80_0000 && nSize < 256;
    Packed(nSize, nCompact);
    nCompact := BitOr(nCompact, nSize * 0x100_0000);
    nCompact := BitOr(nCompact, if negative && nCompact % 0x80_0000 != 0 then 0x80_0000 else 0);
    c := nCompact;
  }

  /** The three highest bytes of a number of nSize bytes. */
  method HighBytes(bn: BaseUint, nSize: nat) returns (m: Uint32)
    requires bn.pn.Length == 8 && Top(bn.Value(), nSize) < 0x100_0000 && bn.Value() < Bytes(nSize)
    ensures m == Top(bn.Value(), nSize)
  {
    hide Val, Size, Bytes, Two, Times, Quotient;
    if nSize <= 3 {
      SmallBytes(nSize);
      var low := bn.GetLow64();
      m := Times(low, Bytes(3 - nSize));
    } else {
      var t := new BaseUint.Copy(bn);
      t.ShiftRight(8 * (nSize - 3));
      BytesIs(nSize - 3);
      QuotientIs(bn.Value(), Bytes(nSize - 3));
      m := t.GetLow64();
    }
  }

  lemma SmallBytes(n: nat)
    requires n <= 3
    ensures Bytes(n) <= 0x100_0000
  {
    hide Bytes;
    FewBytes();
    BytesMono(n, 3);
  }

  lemma QuotientIs(x: nat, p: nat)
    requires p > 0
    ensures Quotient(x, p) == x / p
  {
  }

  lemma Packed(n: nat, m: nat)
    requires n < 256 && m < 0x80_0000
    ensures BitOr(m, n * 0x100_0000) == n * 0x100_0000 + m
    ensures BitOr(n * 0x100_0000 + m, 0x80_0000) == n * 0x100_0000 + m + 0x80_0000
    ensures BitOr(n * 0x100_0000 + m, 0) == n * 0x100_0000 + m
    ensures (n * 0x100_0000 + m) % 0x80_0000 == m
  {
    hide BitOr;
    Pow24();
    OrDisjoint(n, 24, m);
    OrLow(n, 24, m, 0x80_0000);
    OrDisjoint(1, 23, m);
    OrZero(n * 0x100_0000 + m);
  }

  lemma Pow24()
    ensures Pow(2, 24) == 0x100_0000 && Pow(2, 23) == 0x80_0000
  {
    Pow8();
    PowAdd(2, 8, 8);
    PowAdd(2, 16, 8);
    PowAdd(2, 1, 23);
  }

  // ---------------------------------------------------------------- block trust

  /** The work a stake target stands for is computed without ever forming 2^256. */
  method GetBlockTrust(nBits: Uint32, proofOfStake: bool) returns (trust: BaseUint)
    ensures fresh(trust) && fresh(trust.pn) && trust.pn.Length == 8
    ensures var t := Decoded(nBits);
      if SignBit(nBits) || t == 0 || t >= Size(8) then trust.Value() == 0
      else if proofOfStake then trust.Value() == Size(8) / (t + 1) >= 1
      else trust.Value() == 1
  {
    hide Val, Size, Decoded, SignBit;
    var bnTarget := new BaseUint(8);
    var negative, overflow := SetCompact(bnTarget, nBits);
    ghost var t := Decoded(nBits);
    var zero := bnTarget.EqualTo(0);
    trust := new BaseUint(8);
    ValBound(bnTarget.pn[..]);
    if t < Size(8) { DivModUnique(t, Size(8), 0, t); }
    if negative || overflow || zero {
      return;
    }
    if proofOfStake {
      TargetBound(nBits);
      trust := StakeTrust(bnTarget);
    } else {
      trust.AssignWord(1);
    }
  }

  /** The quotient, from the complement of the target. */
  method StakeTrust(bnTarget: BaseUint) returns (trust: BaseUint)
    requires bnTarget.pn.Length == 8 && 0 < bnTarget.Value() && bnTarget.Value() + 1 < Size(8)
    ensures fresh(trust) && fresh(trust.pn) && trust.pn.Length == 8
    ensures trust.Value() == Size(8) / (bnTarget.Value() + 1) >= 1
  {
    hide Val, Size;
    ghost var t := bnTarget.Value();
    TrustIs(t, Size(8));
    var one := new BaseUint(8);
    one.AssignWord(1);
    var next := new BaseUint.Copy(bnTarget);
    next.Add(one);
    DivModUnique(t + 1, Size(8), 0, t + 1);
    trust := bnTarget.Complement();
    var _ := trust.Div(next);
    ghost var q := trust.Value();
    trust.Add(one);
    DivModUnique(q + 1, Size(8), 0, q + 1);
  }

  /** A target that fits leaves room for one more. */
  lemma TargetBound(c: Uint32)
    requires Decoded(c) < Size(8)
    ensures Decoded(c) + 1 < Size(8)
  {
    hide Bytes, Size;
    FewBytes();
    var e, w := Exponent(c), Mantissa(c);
    if e <= 3 {
      DivLe(w, Bytes(3 - e));
      BytesMono(4, 32);
      BytesAdd(3, 1);
    } else if w > 0 && e >= 35 {
      BytesMono(32, e - 3);
      MulMono(1, w, Bytes(e - 3));
    } else {
      // a multiple of an even number, below an even number
      EvenBytes(e - 3);
      EvenBytes(32);
      EvenProduct(w, Bytes(e - 3));
    }
  }

  lemma EvenBytes(k: nat)
    requires k > 0
    ensures Bytes(k) % 2 == 0
  {
    TwoNext(8 * k - 1);
  }

  lemma EvenProduct(a: nat, b: nat)
    requires b % 2 == 0
    ensures a * b % 2 == 0
  {
    assert a * b == 2 * (a * (b / 2));
  }

  lemma TrustIs(t: nat, m: nat)
    requires 0 < t && t + 1 < m
    ensures (m - 1 - t) / (t + 1) + 1 == m / (t + 1) && 1 <= m / (t + 1) < m
  {
    var d := t + 1;
    var q, r := (m - d) / d, (m - d) % d;
    assert m - d == q * d + r;
    assert (q + 1) * d == q * d + d;
    DivModUnique(m, d, q + 1, r);
    MulMono(2, d, q + 1);
  }
}
