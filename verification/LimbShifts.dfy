/** Shifting a number by whole limbs and by bits within limbs. */
module LimbShifts {
  import opened Numbers
  import opened Limbs

  lemma Pow32()
    ensures Pow(2, 32) == BASE
  {
    Pow8();
    PowAdd(2, 8, 8);
    PowAdd(2, 16, 16);
  }

  lemma SizeIsPow(k: nat)
    ensures Size(k) == Two(32 * k)
  {
    Pow32();
    PowPow(2, 32, k);
  }

  /** 2 to the n. */
  function Two(n: nat): (p: nat)
    ensures p > 0
  {
    PowPos(2, n);
    Pow(2, n)
  }

  lemma TwoAdd(m: nat, n: nat)
    ensures Two(m + n) == Two(m) * Two(n)
  {
    PowAdd(2, m, n);
  }

  lemma TwoNext(n: nat)
    ensures Two(n + 1) == 2 * Two(n) && Two(0) == 1
  {
  }

  lemma BitSplit(r: nat)
    requires r <= 32
    ensures Two(r) * Two(32 - r) == BASE
    ensures r < 32 ==> Two(r) < BASE
  {
    Pow32();
    TwoAdd(r, 32 - r);
    if r < 32 {
      TwoNext(31 - r);
      MulMono(2, Two(32 - r), Two(r));
    }
  }

  /** x times d, where d * e is the base: the low part is a multiple of d, the high part less than d. */
  lemma ShlLimb(x: nat, d: nat, e: nat)
    requires d > 0 && e > 0 && d * e == BASE && x < BASE
    ensures x * d >= 0 && x * d == x / e * BASE + x % e * d
    ensures x * d % BASE == x % e * d && x / e < d && x % e * d + d <= BASE
  {
    var hi, t := x / e, x % e;
    assert x == hi * e + t;
    Distribute(t, hi, e, d);
    assert e * d == BASE;
    assert (t + hi * e) * d == x * d;
    MulMono(t + 1, e, d);
    assert (t + 1) * d == t * d + d;
    MulNonneg(t, d);
    DivModUnique(x * d, BASE, hi, t * d);
    if hi >= d { MulMono(d, hi, e); }
  }

  ghost function Factor(k: nat, r: nat): nat {
    MulNonneg(Two(r), Size(k));
    Two(r) * Size(k)
  }

  lemma FactorIsPow(shift: nat)
    ensures Factor(shift / 32, shift % 32) == Two(shift)
  {
    SizeIsPow(shift / 32);
    TwoAdd(shift % 32, 32 * (shift / 32));
  }

  // ---------------------------------------------------------------- left

  /** After i limbs of x have been shifted left into s: what s holds, q counting what fell off the top. */
  ghost predicate ShlInv(s: seq<Limb>, x: seq<Limb>, i: nat, k: nat, r: nat, q: nat) {
    && i <= |x| == |s| && r < 32
    && (i + k < |s| ==> s[i + k] < Two(r))
    && (forall t | i + k < t < |s| :: s[t] == 0)
    && Val(s) + q * Size(|s|) == Val(x[..i]) * Factor(k, r)
  }

  /** The two writes of one round. */
  ghost function ShlRound(s: seq<Limb>, m: nat, hi: Limb, lo: Limb): seq<Limb>
    requires m < |s| ==> (s[m] as int) + lo < BASE
  {
    var s1 := if m + 1 < |s| then s[m + 1 := hi] else s;
    if m < |s| then s1[m := (s[m] as int) + lo] else s1
  }

  lemma ShlRoundVal(s: seq<Limb>, m: nat, hi: Limb, lo: Limb)
    requires m < |s| ==> (s[m] as int) + lo < BASE
    requires m + 1 < |s| ==> s[m + 1] == 0
    ensures Val(ShlRound(s, m, hi, lo)) == Val(s) + (if m + 1 < |s| then hi * Size(m + 1) else 0) + (if m < |s| then lo * Size(m) else 0)
  {
    hide Val, Size;
    if m + 1 < |s| { ValSet(s, m + 1, hi); }
    if m < |s| { ValSet(if m + 1 < |s| then s[m + 1 := hi] else s, m, (s[m] as int) + lo); }
  }

  /** What a limb at m is worth beyond what is written is a multiple of the modulus. */
  lemma Fallen(w: nat, m: nat, hi: nat, lo: nat) returns (q: nat)
    ensures hi * Size(m + 1) + lo * Size(m)
         == (if m + 1 < w then hi * Size(m + 1) else 0) + (if m < w then lo * Size(m) else 0) + q * Size(w)
  {
    hide Size;
    q := 0;
    SizeNext(m);
    if m + 1 == w {
      q := hi;
    } else if w <= m {
      SizeAdd(m - w, w);
      var v := hi * BASE + lo;
      MulNonneg(v, Size(m - w));
      q := v * Size(m - w);
      assert v * Size(m) == v * (Size(m - w) * Size(w)) == q * Size(w);
      Distribute(lo, hi, BASE, Size(m));
    }
  }

  lemma ShlStep(s: seq<Limb>, x: seq<Limb>, i: nat, k: nat, r: nat, q: nat) returns (q': nat)
    requires ShlInv(s, x, i, k, r, q) && i < |x|
    ensures var lo, hi := (x[i] as int) * Two(r) % BASE, (x[i] as int) / Two(32 - r);
      && |s| == |x| && hi < BASE && (i + k < |s| ==> (s[i + k] as int) + lo < BASE)
      && ShlInv(ShlRound(s, i + k, hi, lo), x, i + 1, k, r, q')
  {
    hide Val, Size, Two;
    BitSplit(r);
    ShlLimb(x[i], Two(r), Two(32 - r));
    var lo, hi := (x[i] as int) * Two(r) % BASE, (x[i] as int) / Two(32 - r);
    var m := i + k;
    ShlRoundVal(s, m, hi, lo);
    var more := Fallen(|s|, m, hi, lo);
    q' := q + more;
    ValSnoc(x, i);
    SizeAdd(i, k);
    SizeNext(m);
    assert (q + more) * Size(|s|) == q * Size(|s|) + more * Size(|s|);
    ShlTerm(Val(x[..i]), x[i], Size(i), Two(r), Size(k), hi, lo, Size(m));
  }

  lemma ShlTerm(v: int, t: int, si: int, d: int, sk: int, hi: int, lo: int, sm: int)
    requires sm == si * sk && t * d == hi * BASE + lo
    ensures (v + t * si) * (d * sk) == v * (d * sk) + hi * (BASE * sm) + lo * sm
  {
    assert t * si * (d * sk) == t * d * (si * sk);
    assert (hi * BASE + lo) * sm == hi * (BASE * sm) + lo * sm;
  }

  // ---------------------------------------------------------------- right

  /** After i limbs of x have been shifted right into s: s is the quotient so far, rem the remainder. */
  ghost predicate ShrInv(s: seq<Limb>, x: seq<Limb>, i: nat, k: nat, r: nat, rem: nat) {
    && i <= |x| == |s| && r < 32
    && (forall t | 0 <= t < |s| && t + k >= i :: s[t] == 0)
    && (i > k ==> s[i - k - 1] < Two(32 - r))
    && Val(s) * Factor(k, r) + rem == Val(x[..i])
    && rem < if i <= k then Size(i) else Factor(k, r)
  }

  ghost function ShrRound(s: seq<Limb>, i: nat, k: nat, hi: Limb, lo: Limb): seq<Limb>
    requires i < |s| && (i > k ==> (s[i - k - 1] as int) + lo < BASE)
  {
    var s1 := if i > k then s[i - k - 1 := (s[i - k - 1] as int) + lo] else s;
    if i >= k then s1[i - k := hi] else s1
  }

  lemma ShrRoundVal(s: seq<Limb>, i: nat, k: nat, hi: Limb, lo: Limb)
    requires i < |s| && (i > k ==> (s[i - k - 1] as int) + lo < BASE) && (i >= k ==> s[i - k] == 0)
    ensures Val(ShrRound(s, i, k, hi, lo))
         == Val(s) + (if i > k then lo * Size(i - k - 1) else 0) + (if i >= k then hi * Size(i - k) else 0)
  {
    hide Val, Size;
    if i > k { ValSet(s, i - k - 1, (s[i - k - 1] as int) + lo); }
    if i >= k { ValSet(if i > k then s[i - k - 1 := (s[i - k - 1] as int) + lo] else s, i - k, hi); }
  }

  /** The parts of one limb: hi goes to its own place, lo = t * 2^(32-r) to the one below. */
  ghost predicate ShrParts(x: nat, r: nat, hi: nat, lo: nat, t: nat) {
    r < 32 && x == Two(r) * hi + t && t < Two(r) && lo == t * Two(32 - r) && lo + Two(32 - r) <= BASE && hi < Two(32 - r)
  }

  lemma ShrLimb(x: Limb, r: nat)
    requires r < 32
    ensures ShrParts(x, r, (x as int) / Two(r), (x as int) * Two(32 - r) % BASE, (x as int) % Two(r))
  {
    hide Two;
    BitSplit(r);
    ShlLimb(x, Two(32 - r), Two(r));
  }

  lemma ShrShape(s: seq<Limb>, x: seq<Limb>, i: nat, k: nat, r: nat, rem: nat, hi: Limb, lo: Limb, t: nat)
    requires ShrInv(s, x, i, k, r, rem) && i < |x| && ShrParts(x[i], r, hi, lo, t)
    ensures i > k ==> (s[i - k - 1] as int) + lo < BASE
    ensures var s' := ShrRound(s, i, k, hi, lo);
      && |s'| == |s| && (forall t | 0 <= t < |s| && t + k >= i + 1 :: s'[t] == 0)
      && (i + 1 > k ==> s'[i - k] < Two(32 - r))
  {
    hide Val, Size, Two, Factor;
  }

  lemma ShrValue(s: seq<Limb>, x: seq<Limb>, i: nat, k: nat, r: nat, rem: nat, hi: Limb, lo: Limb, t: nat) returns (rem': nat)
    requires ShrInv(s, x, i, k, r, rem) && i < |x| && ShrParts(x[i], r, hi, lo, t)
    requires i > k ==> (s[i - k - 1] as int) + lo < BASE
    ensures Val(ShrRound(s, i, k, hi, lo)) * Factor(k, r) + rem' == Val(x[..i + 1])
    ensures rem' < if i + 1 <= k then Size(i + 1) else Factor(k, r)
  {
    hide Val, Size, Two, ShrRound;
    var d, e := Two(r), Two(32 - r);
    ShrRoundVal(s, i, k, hi, lo);
    ValSnoc(x, i);
    if i < k {
      ShrZero(s);
      rem' := rem + x[i] * Size(i);
      ValBound(x[..i + 1]);
    } else if i == k {
      rem' := rem + t * Size(k);
      SizeNext(0);
      MulMono(t + 1, d, Size(k));
      assert (t + 1) * Size(k) == t * Size(k) + Size(k);
      ShrTermFirst(Val(s), hi, t, d, Size(k), x[i]);
    } else {
      rem' := rem;
      BitSplit(r);
      SizeAdd(i - k, k);
      SizeNext(i - k - 1);
      ShrTerm(Val(s), hi, t, e, Size(i - k - 1), d, Size(k), Size(i), x[i]);
    }
  }

  lemma ShrStep(s: seq<Limb>, x: seq<Limb>, i: nat, k: nat, r: nat, rem: nat, hi: Limb, lo: Limb, t: nat) returns (rem': nat)
    requires ShrInv(s, x, i, k, r, rem) && i < |x| && ShrParts(x[i], r, hi, lo, t)
    ensures |s| == |x| && hi < BASE && (i > k ==> (s[i - k - 1] as int) + lo < BASE)
    ensures ShrInv(ShrRound(s, i, k, hi, lo), x, i + 1, k, r, rem')
  {
    hide Val, Size, Two, ShrRound, Factor, ShrParts;
    ShrShape(s, x, i, k, r, rem, hi, lo, t);
    rem' := ShrValue(s, x, i, k, r, rem, hi, lo, t);
  }

  lemma ShrZero(s: seq<Limb>)
    ensures (forall t | 0 <= t < |s| :: s[t] == 0) ==> Val(s) == 0
  {
    if forall t | 0 <= t < |s| :: s[t] == 0 { ValZeros(s); }
  }

  lemma ShrTermFirst(v: int, hi: int, t: int, d: int, sk: int, x: int)
    requires x == d * hi + t
    ensures (v + hi) * (d * sk) + t * sk == v * (d * sk) + x * sk
  {
    assert hi * (d * sk) == d * hi * sk;
    assert (d * hi + t) * sk == d * hi * sk + t * sk;
  }

  lemma ShrTerm(v: int, hi: int, t: int, e: int, p: int, d: int, sk: int, si: int, x: int)
    requires x == d * hi + t && d * e == BASE && si == BASE * p * sk
    ensures (v + t * e * p + hi * (BASE * p)) * (d * sk) == v * (d * sk) + x * si
  {
    assert t * e * p * (d * sk) == t * (d * e * p * sk);
    assert d * e * p * sk == si;
    assert hi * (BASE * p) * (d * sk) == d * hi * (BASE * p * sk);
    assert (d * hi + t) * si == d * hi * si + t * si;
    assert (v + t * e * p + hi * (BASE * p)) * (d * sk) == v * (d * sk) + t * e * p * (d * sk) + hi * (BASE * p) * (d * sk);
  }
}
