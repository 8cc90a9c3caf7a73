/** Why the checksum detects up to three errors: the generator has three consecutive powers of t as roots, so the remainder
    of a list tells the value of its polynomial at each of them. */
module BchCode {
  import opened Xor32
  import opened Bech32Code
  import opened BchField

  // the powers of the symbol 2 in the field
  function Embed0(s: bv32): bv32 { Select(Has(s, 1), 0x001) }
  function Embed1(s: bv32): bv32 { Select(Has(s, 2), 0x00e) }
  function Embed2(s: bv32): bv32 { Select(Has(s, 4), 0x054) }
  function Embed3(s: bv32): bv32 { Select(Has(s, 8), 0x358) }
  function Embed4(s: bv32): bv32 { Select(Has(s, 16), 0x0bf) }

  /** The symbols as a subfield. */
  function Embed(s: bv32): bv32 { Xor(Xor(Xor(Xor(Embed0(s), Embed1(s)), Embed2(s)), Embed3(s)), Embed4(s)) }

  // the coefficients of a remainder
  function C0(c: bv32): bv32 { c & 31 }
  function C1(c: bv32): bv32 { (c >> 5) & 31 }
  function C2(c: bv32): bv32 { (c >> 10) & 31 }
  function C3(c: bv32): bv32 { (c >> 15) & 31 }
  function C4(c: bv32): bv32 { (c >> 20) & 31 }
  function C5(c: bv32): bv32 { (c >> 25) & 31 }

  /** A polynomial with one more coefficient, at t^r. */
  function Horner(z: bv32, s: bv32, r: nat): bv32 { Xor(Turn(z, r), Embed(s)) }

  function LowerFive(z: bv32, c: bv32, r: nat): bv32 {
    Horner(Horner(Horner(Horner(Horner(z, C4(c), r), C3(c), r), C2(c), r), C1(c), r), C0(c), r)
  }

  /** The value of a remainder at t^r. */
  function Value(c: bv32, r: nat): bv32 { LowerFive(Embed(C5(c)), c, r) }

  lemma EmbedsAdditive(a: bv32, b: bv32)
    ensures Embed0(Xor(a, b)) == Xor(Embed0(a), Embed0(b)) && Embed1(Xor(a, b)) == Xor(Embed1(a), Embed1(b))
    ensures Embed2(Xor(a, b)) == Xor(Embed2(a), Embed2(b)) && Embed3(Xor(a, b)) == Xor(Embed3(a), Embed3(b))
    ensures Embed4(Xor(a, b)) == Xor(Embed4(a), Embed4(b))
  {
    hide Has, Select;
    Has1(a, b);
    SelectLinear(Has(a, 1), Has(b, 1), 0x001);
    Has2(a, b);
    SelectLinear(Has(a, 2), Has(b, 2), 0x00e);
    Has4(a, b);
    SelectLinear(Has(a, 4), Has(b, 4), 0x054);
    Has8(a, b);
    SelectLinear(Has(a, 8), Has(b, 8), 0x358);
    Has16(a, b);
    SelectLinear(Has(a, 16), Has(b, 16), 0x0bf);
  }

  lemma EmbedAdditive(a: bv32, b: bv32)
    ensures Embed(Xor(a, b)) == Xor(Embed(a), Embed(b))
  {
    hide Xor, Embed0, Embed1, Embed2, Embed3, Embed4;
    EmbedsAdditive(a, b);
    var a1, b1 := Xor(Embed0(a), Embed1(a)), Xor(Embed0(b), Embed1(b));
    var a2, b2 := Xor(a1, Embed2(a)), Xor(b1, Embed2(b));
    var a3, b3 := Xor(a2, Embed3(a)), Xor(b2, Embed3(b));
    Swap(Embed0(a), Embed0(b), Embed1(a), Embed1(b));
    Swap(a1, b1, Embed2(a), Embed2(b));
    Swap(a2, b2, Embed3(a), Embed3(b));
    Swap(a3, b3, Embed4(a), Embed4(b));
  }

  lemma EmbedInjective(s: bv32)
    requires s < 32
    ensures Embed(s) < 0x400 && (Embed(s) == 0 <==> s == 0)
  {
  }

  lemma LowCoefs(c: bv32, d: bv32)
    ensures C0(Xor(c, d)) == Xor(C0(c), C0(d)) && C1(Xor(c, d)) == Xor(C1(c), C1(d))
  {
  }

  lemma MiddleCoefs(c: bv32, d: bv32)
    ensures C2(Xor(c, d)) == Xor(C2(c), C2(d)) && C3(Xor(c, d)) == Xor(C3(c), C3(d))
  {
  }

  lemma HighCoefs(c: bv32, d: bv32)
    ensures C4(Xor(c, d)) == Xor(C4(c), C4(d)) && C5(Xor(c, d)) == Xor(C5(c), C5(d))
  {
  }

  lemma CoefsAdditive(c: bv32, d: bv32)
    ensures C0(Xor(c, d)) == Xor(C0(c), C0(d)) && C1(Xor(c, d)) == Xor(C1(c), C1(d)) && C2(Xor(c, d)) == Xor(C2(c), C2(d))
    ensures C3(Xor(c, d)) == Xor(C3(c), C3(d)) && C4(Xor(c, d)) == Xor(C4(c), C4(d)) && C5(Xor(c, d)) == Xor(C5(c), C5(d))
  {
    hide Xor, C0, C1, C2, C3, C4, C5;
    LowCoefs(c, d);
    MiddleCoefs(c, d);
    HighCoefs(c, d);
  }

  lemma HornerAdditive(x: bv32, y: bv32, s: bv32, u: bv32, r: nat)
    ensures Horner(Xor(x, y), Xor(s, u), r) == Xor(Horner(x, s, r), Horner(y, u, r))
  {
    hide Xor, Turn, Embed;
    TurnAdditive(x, y, r);
    EmbedAdditive(s, u);
    Swap(Turn(x, r), Turn(y, r), Embed(s), Embed(u));
  }

  lemma LowerAdditive(x: bv32, y: bv32, c: bv32, d: bv32, r: nat)
    ensures LowerFive(Xor(x, y), Xor(c, d), r) == Xor(LowerFive(x, c, r), LowerFive(y, d, r))
  {
    hide Xor, Horner, C0, C1, C2, C3, C4, C5;
    CoefsAdditive(c, d);
    HornerAdditive(x, y, C4(c), C4(d), r);
    var x4, y4 := Horner(x, C4(c), r), Horner(y, C4(d), r);
    HornerAdditive(x4, y4, C3(c), C3(d), r);
    var x3, y3 := Horner(x4, C3(c), r), Horner(y4, C3(d), r);
    HornerAdditive(x3, y3, C2(c), C2(d), r);
    var x2, y2 := Horner(x3, C2(c), r), Horner(y3, C2(d), r);
    HornerAdditive(x2, y2, C1(c), C1(d), r);
    HornerAdditive(Horner(x2, C1(c), r), Horner(y2, C1(d), r), C0(c), C0(d), r);
  }

  lemma ValueAdditive(c: bv32, d: bv32, r: nat)
    ensures Value(Xor(c, d), r) == Xor(Value(c, r), Value(d, r))
  {
    hide Xor, LowerFive, Embed, C5;
    CoefsAdditive(c, d);
    EmbedAdditive(C5(c), C5(d));
    LowerAdditive(Embed(C5(c)), Embed(C5(d)), c, d, r);
  }

  // ---------------------------------------------------------------- the generator's roots

  /** Multiplication by t^24, t^25 and t^26. */
  function By(z: bv32, r: nat): bv32
    requires 24 <= r <= 26
  {
    var y := Times(z, 0x3f0);
    if r == 24 then y else if r == 25 then ByT(y) else ByT(ByT(y))
  }

  lemma ByTurns(z: bv32, r: nat)
    requires z < 0x400 && 24 <= r <= 26
    ensures By(z, r) == Turn(z, r)
  {
    hide ByT, Times;
    Power24();
    TurnTimes(z, 24);
    assert Turn(z, 25) == ByT(Turn(z, 24));
    assert Turn(z, 26) == ByT(Turn(z, 25));
  }

  lemma Power24()
    ensures Turn(1, 24) == 0x3f0
  {
    hide Turn;
    PowersTo31();
    Turns();
    PowerSum(22, 2);
  }

  lemma TurnOfZero(n: nat)
    ensures Turn(0, n) == 0
  {
    TurnInjective(0, n);
  }

  lemma EmbedZero()
    ensures Embed(0) == 0
  {
    hide Embed;
    EmbedInjective(0);
  }

  function HornerBy(z: bv32, s: bv32, r: nat): bv32
    requires 24 <= r <= 26
  {
    Xor(By(z, r), Embed(s))
  }

  lemma HornerIsBy(z: bv32, s: bv32, r: nat)
    requires z < 0x400 && s < 32 && 24 <= r <= 26
    ensures HornerBy(z, s, r) == Horner(z, s, r) < 0x400
  {
    hide By, Turn, Embed, Xor;
    ByTurns(z, r);
    TurnBound(z, r);
    EmbedInjective(s);
    XorLess(Turn(z, r), Embed(s));
  }

  lemma CoefsBound(c: bv32)
    ensures C0(c) < 32 && C1(c) < 32 && C2(c) < 32 && C3(c) < 32 && C4(c) < 32 && C5(c) < 32
  {
  }

  function BySix(z: bv32, r: nat): bv32
    requires 24 <= r <= 26
  {
    By(By(By(By(By(By(z, r), r), r), r), r), r)
  }

  lemma SixTurns(z: bv32, r: nat)
    requires z < 0x400 && 24 <= r <= 26
    ensures BySix(z, r) == Turn(z, 6 * r)
  {
    hide By, Turn;
    ByTurns(z, r);
    TurnBound(z, r);
    ByTurns(Turn(z, r), r);
    TurnTwice(z, r, r);
    TurnBound(z, 2 * r);
    ByTurns(Turn(z, 2 * r), r);
    TurnTwice(z, 2 * r, r);
    TurnBound(z, 3 * r);
    ByTurns(Turn(z, 3 * r), r);
    TurnTwice(z, 3 * r, r);
    TurnBound(z, 4 * r);
    ByTurns(Turn(z, 4 * r), r);
    TurnTwice(z, 4 * r, r);
    TurnBound(z, 5 * r);
    ByTurns(Turn(z, 5 * r), r);
    TurnTwice(z, 5 * r, r);
  }

  /** The value of the polynomial with the coefficients of the remainder of x^6, which is its sixth power: a root. */
  lemma IsRoot(r: nat)
    requires 24 <= r <= 26
    ensures Value(0x3b6a57b2, r) == Turn(1, 6 * r)
  {
    hide By, Turn, Embed, Horner, HornerBy;
    SixTurns(1, r);
    if r == 24 { Chain24(); } else if r == 25 { Chain25(); } else { Chain26(); }
    var z5, z4, z3, z2, z1 := Embed(29),
      if r == 24 then 0x07d else if r == 25 then 0x1d5 else 0x285,
      if r == 24 then 0x07d else if r == 25 then 0x3ad else 0x0aa,
      if r == 24 then 0x07c else if r == 25 then 0x069 else 0x137,
      if r == 24 then 0x0d4 else if r == 25 then 0x3df else 0x193;
    EmbedInjective(29);
    HornerIsBy(z5, 22, r);
    HornerIsBy(z4, 20, r);
    HornerIsBy(z3, 21, r);
    HornerIsBy(z2, 29, r);
    HornerIsBy(z1, 18, r);
  }

  lemma Chain24()
    ensures HornerBy(Embed(29), 22, 24) == 0x07d == HornerBy(0x07d, 20, 24) && HornerBy(0x07d, 21, 24) == 0x07c
    ensures HornerBy(0x07c, 29, 24) == 0x0d4 && HornerBy(0x0d4, 18, 24) == 0x2ba == BySix(1, 24)
  {
    assert Embed(29) == 0x3b2;
    assert By(1, 24) == 0x3f0 && By(0x3f0, 24) == 0x24d && By(0x24d, 24) == 0x2b9;
    assert By(0x2b9, 24) == 0x0b9 && By(0x0b9, 24) == 0x009;
  }

  lemma Chain25()
    ensures HornerBy(Embed(29), 22, 25) == 0x1d5 && HornerBy(0x1d5, 20, 25) == 0x3ad && HornerBy(0x3ad, 21, 25) == 0x069
    ensures HornerBy(0x069, 29, 25) == 0x3df && HornerBy(0x3df, 18, 25) == 0x0a6 == BySix(1, 25)
  {
    assert Embed(29) == 0x3b2;
    assert By(1, 25) == 0x2c3 && By(0x2c3, 25) == 0x372 && By(0x372, 25) == 0x144;
    assert By(0x144, 25) == 0x1d6 && By(0x1d6, 25) == 0x120;
  }

  lemma Chain26()
    ensures HornerBy(Embed(29), 22, 26) == 0x285 && HornerBy(0x285, 20, 26) == 0x0aa && HornerBy(0x0aa, 21, 26) == 0x137
    ensures HornerBy(0x137, 29, 26) == 0x193 && HornerBy(0x193, 18, 26) == 0x098 == BySix(1, 26)
  {
    assert Embed(29) == 0x3b2;
    assert By(1, 26) == 0x0a5 && By(0x0a5, 26) == 0x2ad && By(0x2ad, 26) == 0x066;
    assert By(0x066, 26) == 0x3aa && By(0x3aa, 26) == 0x27d;
  }

  lemma Power99()
    ensures Turn(1, 99) == Times(Times(0x0b0, 0x0b0), 0x0b0)
  {
    hide Turn;
    Powers();
    PowerSum(33, 33);
    PowerSum(66, 33);
  }

  /** A symbol times 2. */
  function Twice(s: bv32): bv32 { ((s & 15) << 1) ^ ((s >> 4) & 1) ^ (((s >> 4) & 1) << 3) }

  lemma EmbedTwice(s: bv32)
    requires s < 32
    ensures Times(Embed(Twice(s)), Times(Times(0x0b0, 0x0b0), 0x0b0)) == Embed(s)
  {
  }

  lemma EmbedTwiceTurns(s: bv32)
    requires s < 32
    ensures Turn(Embed(Twice(s)), 99) == Embed(s)
  {
    hide Turn, Times, Embed;
    TwiceBound(s);
    EmbedInjective(Twice(s));
    Power99();
    TurnTimes(Embed(Twice(s)), 99);
    EmbedTwice(s);
  }

  lemma TwiceBound(s: bv32)
    requires s < 32
    ensures Twice(s) < 32
  {
  }

  lemma HornerTwice(z: bv32, s: bv32, z': bv32, r: nat)
    requires s < 32 && Turn(z', 99) == z
    ensures Turn(Horner(z', Twice(s), r), 99) == Horner(z, s, r)
  {
    hide Turn, Embed, Xor, Twice;
    EmbedTwiceTurns(s);
    TurnAdditive(Turn(z', r), Embed(Twice(s)), 99);
    TurnTwice(z', r, 99);
    TurnTwice(z', 99, r);
  }

  /** Its coefficients are twice those of c. */
  ghost predicate IsTwice(d: bv32, c: bv32) {
    && C0(d) == Twice(C0(c)) && C1(d) == Twice(C1(c)) && C2(d) == Twice(C2(c))
    && C3(d) == Twice(C3(c)) && C4(d) == Twice(C4(c)) && C5(d) == Twice(C5(c))
  }

  lemma ValueTwice(d: bv32, c: bv32, r: nat)
    requires IsTwice(d, c)
    ensures Turn(Value(d, r), 99) == Value(c, r)
  {
    hide Horner, Embed, Twice, Turn, C0, C1, C2, C3, C4, C5;
    CoefsBound(c);
    var z5, y5 := Embed(C5(c)), Embed(C5(d));
    EmbedTwiceTurns(C5(c));
    HornerTwice(z5, C4(c), y5, r);
    var z4, y4 := Horner(z5, C4(c), r), Horner(y5, C4(d), r);
    HornerTwice(z4, C3(c), y4, r);
    var z3, y3 := Horner(z4, C3(c), r), Horner(y4, C3(d), r);
    HornerTwice(z3, C2(c), y3, r);
    var z2, y2 := Horner(z3, C2(c), r), Horner(y3, C2(d), r);
    HornerTwice(z2, C1(c), y2, r);
    HornerTwice(Horner(z2, C1(c), r), C0(c), Horner(y2, C1(d), r), r);
  }

  lemma HornerBound(z: bv32, s: bv32, r: nat)
    requires z < 0x400 && s < 32
    ensures Horner(z, s, r) < 0x400
  {
    hide Turn, Embed, Xor;
    TurnBound(z, r);
    EmbedInjective(s);
    XorLess(Turn(z, r), Embed(s));
  }

  lemma ValueBound(c: bv32, r: nat)
    ensures Value(c, r) < 0x400
  {
    hide Horner, Embed, C0, C1, C2, C3, C4, C5;
    CoefsBound(c);
    var z5 := Embed(C5(c));
    EmbedInjective(C5(c));
    HornerBound(z5, C4(c), r);
    var z4 := Horner(z5, C4(c), r);
    HornerBound(z4, C3(c), r);
    var z3 := Horner(z4, C3(c), r);
    HornerBound(z3, C2(c), r);
    var z2 := Horner(z3, C2(c), r);
    HornerBound(z2, C1(c), r);
    HornerBound(Horner(z2, C1(c), r), C0(c), r);
  }

  lemma NextTerm(d: bv32, c: bv32, s: bv32, r: nat)
    requires IsTwice(d, c) && s < 32 && Value(c, r) == Turn(Embed(s), 6 * r)
    ensures Value(d, r) == Turn(Embed(Twice(s)), 6 * r)
  {
    hide IsTwice, Turn, Embed, Twice, Value;
    ValueTwice(d, c, r);
    EmbedTwiceTurns(s);
    var e := Embed(Twice(s));
    TurnTwice(e, 99, 6 * r);
    TurnTwice(e, 6 * r, 99);
    TwiceBound(s);
    EmbedInjective(Twice(s));
    TurnBound(e, 6 * r);
    ValueBound(d, r);
    TurnSame(Value(d, r), Turn(e, 6 * r), 99);
  }

  lemma TermsTwice()
    ensures IsTwice(0x26508e6d, 0x3b6a57b2) && IsTwice(0x1ea119fa, 0x26508e6d)
    ensures IsTwice(0x3d4233dd, 0x1ea119fa) && IsTwice(0x2a1462b3, 0x3d4233dd)
  {
  }

  lemma EmbedPowers()
    ensures Embed(1) == 0x001 && Twice(1) == 2 && Embed(2) == 0x00e && Twice(2) == 4 && Embed(4) == 0x054
    ensures Twice(4) == 8 && Embed(8) == 0x358 && Twice(8) == 16 && Embed(16) == 0x0bf
  {
  }

  lemma TermRoots(r: nat)
    requires 24 <= r <= 26
    ensures Value(0x3b6a57b2, r) == Turn(0x001, 6 * r) && Value(0x26508e6d, r) == Turn(0x00e, 6 * r)
    ensures Value(0x1ea119fa, r) == Turn(0x054, 6 * r) && Value(0x3d4233dd, r) == Turn(0x358, 6 * r)
    ensures Value(0x2a1462b3, r) == Turn(0x0bf, 6 * r)
  {
    hide IsTwice, Turn, Embed, Twice, Value;
    IsRoot(r);
    TermsTwice();
    EmbedPowers();
    NextTerm(0x26508e6d, 0x3b6a57b2, 1, r);
    NextTerm(0x1ea119fa, 0x26508e6d, 2, r);
    NextTerm(0x3d4233dd, 0x1ea119fa, 4, r);
    NextTerm(0x2a1462b3, 0x3d4233dd, 8, r);
  }

  lemma ValueZero(r: nat)
    ensures Value(0, r) == 0
  {
    hide Value, Xor;
    ValueAdditive(0, 0, r);
    Zero(0);
    Zero(Value(0, r));
  }

  lemma SelectRoot(p: bool, k: bv32, e: bv32, r: nat)
    requires Value(k, r) == Turn(e, 6 * r)
    ensures Value(Select(p, k), r) == Turn(Select(p, e), 6 * r)
  {
    hide Value, Turn;
    ValueZero(r);
    TurnOfZero(6 * r);
  }

  /** What is fed back has the value of its coefficient times x^6. */
  lemma FeedbackRoot(t: bv32, r: nat)
    requires 24 <= r <= 26
    ensures Value(Feedback(t), r) == Turn(Embed(t), 6 * r)
  {
    hide Xor, Value, Turn, Select, Has;
    TermRoots(r);
    SelectRoot(Has(t, 1), 0x3b6a57b2, 0x001, r);
    SelectRoot(Has(t, 2), 0x26508e6d, 0x00e, r);
    SelectRoot(Has(t, 4), 0x1ea119fa, 0x054, r);
    SelectRoot(Has(t, 8), 0x3d4233dd, 0x358, r);
    SelectRoot(Has(t, 16), 0x2a1462b3, 0x0bf, r);
    var f1, e1 := Xor(Term0(t), Term1(t)), Xor(Embed0(t), Embed1(t));
    var f2, e2 := Xor(f1, Term2(t)), Xor(e1, Embed2(t));
    var f3, e3 := Xor(f2, Term3(t)), Xor(e2, Embed3(t));
    ValueAdditive(Term0(t), Term1(t), r);
    TurnAdditive(Embed0(t), Embed1(t), 6 * r);
    ValueAdditive(f1, Term2(t), r);
    TurnAdditive(e1, Embed2(t), 6 * r);
    ValueAdditive(f2, Term3(t), r);
    TurnAdditive(e2, Embed3(t), 6 * r);
    ValueAdditive(f3, Term4(t), r);
    TurnAdditive(e3, Embed4(t), 6 * r);
  }

  // ---------------------------------------------------------------- steps and lists

  lemma ShiftedCoefs(c: bv32)
    requires c < 0x4000_0000
    ensures C0(Shifted(c)) == 0 && C1(Shifted(c)) == C0(c) && C2(Shifted(c)) == C1(c) && C3(Shifted(c)) == C2(c)
    ensures C4(Shifted(c)) == C3(c) && C5(Shifted(c)) == C4(c) && Top(c) == C5(c)
  {
  }

  lemma HornerZero(z: bv32, s: bv32, r: nat)
    ensures Horner(z, 0, r) == Turn(z, r) && Horner(0, s, r) == Embed(s)
  {
    hide Turn, Embed, Xor;
    EmbedZero();
    TurnOfZero(r);
    Zero(Turn(z, r));
    Zero(Embed(s));
  }

  lemma ValueShifted(c: bv32, r: nat)
    requires c < 0x4000_0000
    ensures Value(Shifted(c), r) == Turn(LowerFive(0, c, r), r)
  {
    hide Turn, Embed, Horner, C0, C1, C2, C3, C4, C5, Shifted;
    ShiftedCoefs(c);
    HornerZero(0, C4(c), r);
    HornerZero(LowerFive(0, c, r), 0, r);
  }

  lemma CoefsOfZero()
    ensures C0(0) == 0 && C1(0) == 0 && C2(0) == 0 && C3(0) == 0 && C4(0) == 0 && C5(0) == 0
  {
  }

  lemma OnlyTop(z: bv32, r: nat)
    ensures LowerFive(z, 0, r) == Turn(z, 5 * r)
  {
    hide Turn, Horner, C0, C1, C2, C3, C4;
    CoefsOfZero();
    HornerZero(z, 0, r);
    HornerZero(Turn(z, r), 0, r);
    TurnTwice(z, r, r);
    HornerZero(Turn(z, 2 * r), 0, r);
    TurnTwice(z, 2 * r, r);
    HornerZero(Turn(z, 3 * r), 0, r);
    TurnTwice(z, 3 * r, r);
    HornerZero(Turn(z, 4 * r), 0, r);
    TurnTwice(z, 4 * r, r);
  }

  /** A zero coefficient multiplies the value by the root. */
  lemma StepRoot(c: bv32, r: nat)
    requires c < 0x4000_0000 && 24 <= r <= 26
    ensures Value(Step(c, 0), r) == Turn(Value(c, r), r)
  {
    hide Turn, Embed, LowerFive, Feedback, Xor, Shifted, Top, C5, Wide;
    var low, top := LowerFive(0, c, r), Embed(C5(c));
    ShiftedCoefs(c);
    LowBound(c);
    Zero(Shifted(c));
    ValueAdditive(Shifted(c), Feedback(Top(c)), r);
    ValueShifted(c, r);
    FeedbackRoot(Top(c), r);
    assert Value(Step(c, 0), r) == Xor(Turn(low, r), Turn(top, 6 * r));
    LowerAdditive(0, top, c, 0, r);
    Zero(top);
    Zero(c);
    OnlyTop(top, r);
    TurnAdditive(low, Turn(top, 5 * r), r);
    TurnTwice(top, 5 * r, r);
  }

  lemma {:induction false} ZerosRoot(c: bv32, n: nat, r: nat)
    requires c < 0x4000_0000 && 24 <= r <= 26
    ensures r * n >= 0 && Value(Fold(c, Zeros(n)), r) == Turn(Value(c, r), r * n)
  {
    hide Turn, Value, Step;
    if n == 0 {
      TurnNone(Value(c, r));
      assert r * n == 0;
    } else {
      assert Zeros(n)[..n - 1] == Zeros(n - 1);
      ZerosRoot(c, n - 1, r);
      FoldBound(c, Zeros(n - 1));
      StepRoot(Fold(c, Zeros(n - 1)), r);
      assert r * n == r * (n - 1) + r;
      TurnTwice(Value(c, r), r * (n - 1), r);
    }
  }

  /** A list of n symbols with v at place p and zeros elsewhere. */
  function Single(n: nat, p: nat, v: bv8): Symbols
    requires p < n
  {
    Zeros(p) + [v] + Zeros(n - 1 - p)
  }

  lemma WideIs(v: bv8)
    requires v < 32
    ensures Step(0, v) == Wide(v) < 32 && (Wide(v) == 0 <==> v == 0)
  {
    hide Step;
    StepShifts(0, v);
  }

  lemma SingleFold(n: nat, p: nat, v: bv8)
    requires p < n && v < 32
    ensures Fold(0, Single(n, p, v)) == Fold(Wide(v), Zeros(n - 1 - p))
  {
    hide Fold, Step, Wide;
    FoldCat(0, Zeros(p) + [v], Zeros(n - 1 - p));
    FoldSnoc(0, Zeros(p), v);
    FoldZeros(p);
    WideIs(v);
  }

  lemma SymbolValue(s: bv32, r: nat)
    requires s < 32
    ensures Value(s, r) == Embed(s)
  {
    hide Turn, Embed, Horner;
    assert C0(s) == s && C1(s) == 0 && C2(s) == 0 && C3(s) == 0 && C4(s) == 0 && C5(s) == 0;
    EmbedZero();
    HornerZero(0, 0, r);
    TurnOfZero(r);
    HornerZero(0, s, r);
  }

  lemma SingleValue(n: nat, p: nat, v: bv8, r: nat)
    requires p < n && v < 32 && 24 <= r <= 26
    ensures r * (n - 1 - p) >= 0 && Value(Fold(0, Single(n, p, v)), r) == Turn(Embed(Wide(v)), r * (n - 1 - p))
  {
    hide Fold, Value, Turn, Embed, Single, Wide;
    WideIs(v);
    SingleFold(n, p, v);
    ZerosRoot(Wide(v), n - 1 - p, r);
    SymbolValue(Wide(v), r);
  }

  lemma SinglesMake(e: Symbols, i: nat, j: nat, k: nat)
    requires i < j < k < |e| && forall p | 0 <= p < |e| && p != i && p != j && p != k :: e[p] == 0
    ensures e == XorAll(XorAll(Single(|e|, i, e[i]), Single(|e|, j, e[j])), Single(|e|, k, e[k]))
  {
    var x, y, z := Single(|e|, i, e[i]), Single(|e|, j, e[j]), Single(|e|, k, e[k]);
    var f := XorAll(XorAll(x, y), z);
    forall p | 0 <= p < |e| ensures e[p] == f[p] {
      assert x[p] == (if p == i then e[p] else 0) && y[p] == (if p == j then e[p] else 0) && z[p] == (if p == k then e[p] else 0);
      XorSymbol(e[p], e[p]);
    }
  }

  /** The value of a list with three symbols that are not zero. */
  lemma ThreeValue(e: Symbols, i: nat, j: nat, k: nat, r: nat)
    requires AreSymbols(e) && i < j < k < |e| && forall p | 0 <= p < |e| && p != i && p != j && p != k :: e[p] == 0
    requires Fold(0, e) == 0 && 24 <= r <= 26
    ensures var n := |e| - 1;
      && r * (n - i) >= 0 && r * (n - j) >= 0 && r * (n - k) >= 0
      && Xor(Xor(Turn(Embed(Wide(e[i])), r * (n - i)), Turn(Embed(Wide(e[j])), r * (n - j))),
             Turn(Embed(Wide(e[k])), r * (n - k))) == 0
  {
    hide Fold, Value, Turn, Embed, Single, XorAll, Xor, Wide;
    SinglesMake(e, i, j, k);
    SingleLength(|e|, i, e[i]);
    SingleLength(|e|, j, e[j]);
    SingleLength(|e|, k, e[k]);
    var x, y, z := Single(|e|, i, e[i]), Single(|e|, j, e[j]), Single(|e|, k, e[k]);
    XorLength(x, y);
    Zero(0);
    FoldLinear(0, 0, x, y);
    FoldLinear(0, 0, XorAll(x, y), z);
    ValueAdditive(Fold(0, x), Fold(0, y), r);
    ValueAdditive(Xor(Fold(0, x), Fold(0, y)), Fold(0, z), r);
    ValueZero(r);
    SingleValue(|e|, i, e[i], r);
    SingleValue(|e|, j, e[j], r);
    SingleValue(|e|, k, e[k], r);
  }

  lemma SingleLength(n: nat, p: nat, v: bv8)
    requires p < n
    ensures |Single(n, p, v)| == n
  {
  }

  lemma XorLength(a: Symbols, b: Symbols)
    requires |a| == |b|
    ensures |XorAll(a, b)| == |a|
  {
  }

  lemma Unturned(x: bv32, y: bv32, z: bv32, m: nat, n: nat, k: nat)
    requires x < 0x400 && y < 0x400 && z < 0x400 && Xor(Xor(Turn(x, m + k), Turn(y, n + k)), Turn(z, k)) == 0
    ensures Xor(Xor(Turn(x, m), Turn(y, n)), z) == 0
  {
    hide Turn, Xor;
    TurnTwice(x, m, k);
    TurnTwice(y, n, k);
    TurnAdditive(Turn(x, m), Turn(y, n), k);
    var w := Xor(Turn(x, m), Turn(y, n));
    TurnAdditive(w, z, k);
    TurnBound(x, m);
    TurnBound(y, n);
    XorLess(Turn(x, m), Turn(y, n));
    XorLess(w, z);
    TurnInjective(Xor(w, z), k);
  }

  /** No list with one to three symbols other than zero, within 1023 in a row, leaves the remainder zero. */
  lemma ThreeNonzero(e: Symbols, i: nat, j: nat, k: nat)
    requires AreSymbols(e) && i < j < k < |e| && k - i < 1023
    requires forall p | 0 <= p < |e| && p != i && p != j && p != k :: e[p] == 0
    requires Fold(0, e) == 0
    ensures e == Zeros(|e|)
  {
    hide Fold, Turn, Embed, Xor, Wide, AreSymbols;
    var n := |e| - 1;
    var u, v, w := Embed(Wide(e[i])), Embed(Wide(e[j])), Embed(Wide(e[k]));
    SymbolsAt(e, i);
    SymbolsAt(e, j);
    SymbolsAt(e, k);
    ThreeValue(e, i, j, k, 24);
    ThreeValue(e, i, j, k, 25);
    ThreeValue(e, i, j, k, 26);
    Solve(u, v, w, n - i, n - j, n - k);
  }

  lemma SymbolsAt(e: Symbols, i: nat)
    requires AreSymbols(e) && i < |e|
    ensures e[i] < 32 && Embed(Wide(e[i])) < 0x400 && (Embed(Wide(e[i])) == 0 <==> e[i] == 0)
  {
    hide Embed;
    WideIs(e[i]);
    EmbedInjective(Wide(e[i]));
  }

  lemma Solve(u: bv32, v: bv32, w: bv32, a: nat, b: nat, c: nat)
    requires u < 0x400 && v < 0x400 && w < 0x400 && c < b < a < c + 1023
    requires Xor(Xor(Turn(u, 24 * a), Turn(v, 24 * b)), Turn(w, 24 * c)) == 0
    requires Xor(Xor(Turn(u, 25 * a), Turn(v, 25 * b)), Turn(w, 25 * c)) == 0
    requires Xor(Xor(Turn(u, 26 * a), Turn(v, 26 * b)), Turn(w, 26 * c)) == 0
    ensures u == 0 && v == 0 && w == 0
  {
    hide Turn, Xor;
    var x, y, z := Turn(u, 24 * a), Turn(v, 24 * b), Turn(w, 24 * c);
    TurnBound(u, 24 * a);
    TurnBound(v, 24 * b);
    TurnBound(w, 24 * c);
    TurnTwice(u, 24 * a, a);
    TurnTwice(v, 24 * b, b);
    TurnTwice(w, 24 * c, c);
    Unturned(x, y, z, a - c, b - c, c);
    TurnTwice(u, 24 * a, 2 * a);
    TurnTwice(v, 24 * b, 2 * b);
    TurnTwice(w, 24 * c, 2 * c);
    Unturned(x, y, z, 2 * (a - c), 2 * (b - c), 2 * c);
    OnlyZeros(x, y, z, a - c, b - c);
    TurnInjective(u, 24 * a);
    TurnInjective(v, 24 * b);
    TurnInjective(w, 24 * c);
  }

  // ---------------------------------------------------------------- up to three errors

  /** The places where two lists differ. */
  function Errors(a: Symbols, b: Symbols): set<nat>
    requires |a| == |b|
  {
    set p: nat | p < |a| && a[p] != b[p]
  }

  lemma ThreeDetected(c: bv32, a: Symbols, b: Symbols, i: nat, j: nat, k: nat)
    requires |a| == |b| && AreSymbols(a) && AreSymbols(b) && a != b
    requires i < j < k < |a| && k - i < 1023 && Errors(a, b) <= {i, j, k}
    ensures Fold(c, a) != Fold(c, b)
  {
    hide Fold;
    var e := XorAll(a, b);
    XorSymbols(a, b);
    forall p | 0 <= p < |e| && p != i && p != j && p != k ensures e[p] == 0 {
      assert p !in Errors(a, b);
      XorSymbol(a[p], b[p]);
    }
    FoldDifference(c, a, b);
    if Fold(0, e) == 0 { ThreeNonzero(e, i, j, k); }
  }

  /** Up to three errors within 1023 symbols in a row change the remainder. */
  lemma UpToThreeDetected(c: bv32, a: Symbols, b: Symbols)
    requires |a| == |b| && AreSymbols(a) && AreSymbols(b) && a != b
    requires |Errors(a, b)| <= 3 && forall p, q | p in Errors(a, b) && q in Errors(a, b) :: p - q < 1023
    ensures Fold(c, a) != Fold(c, b)
  {
    hide Fold, Errors;
    if |a| <= 6 {
      assert a[..0] == b[..0] && a[|a|..] == b[|a|..];
      BurstDetected(c, a, b, 0, |a|);
    } else {
      assert Errors(a, b) != {} by { SomeError(a, b); }
      assert forall p | p in Errors(a, b) :: p < |a| by { ErrorsBelow(a, b); }
      var i, j, k := Cover(Errors(a, b), |a|);
      ThreeDetected(c, a, b, i, j, k);
    }
  }

  lemma SomeError(a: Symbols, b: Symbols)
    requires |a| == |b| && a != b
    ensures Errors(a, b) != {}
  {
    if Errors(a, b) == {} {
      forall p | 0 <= p < |a| ensures a[p] == b[p] {
        assert p !in Errors(a, b);
      }
    }
  }

  lemma ErrorsBelow(a: Symbols, b: Symbols)
    requires |a| == |b|
    ensures forall p | p in Errors(a, b) :: p < |a|
  {
  }

  /** Up to three places, with more if need be. */
  lemma Cover(d: set<nat>, n: nat) returns (i: nat, j: nat, k: nat)
    requires 0 < |d| <= 3 && n > 6 && (forall p | p in d :: p < n) && forall p, q | p in d && q in d :: p - q < 1023
    ensures i < j < k < n && k - i < 1023 && d <= {i, j, k}
  {
    var x, d1 := Take(d);
    var y, d2 := x, d1;
    if d1 != {} { y, d2 := Take(d1); }
    var z, d3 := x, d2;
    if d2 != {} { z, d3 := Take(d2); }
    assert d3 == {};
    i, j, k := Spread(x, y, z, n);
  }

  lemma Take(d: set<nat>) returns (x: nat, rest: set<nat>)
    requires d != {}
    ensures x in d && rest == d - {x} && |rest| == |d| - 1 && d == rest + {x}
  {
    x :| x in d;
    rest := d - {x};
  }

  lemma Spread(x: nat, y: nat, z: nat, n: nat) returns (i: nat, j: nat, k: nat)
    requires x < n && y < n && z < n && n > 6
    requires x - y < 1023 && y - x < 1023 && x - z < 1023 && z - x < 1023 && y - z < 1023 && z - y < 1023
    ensures i < j < k < n && k - i < 1023 && {x, y, z} <= {i, j, k}
  {
    var lo := if x <= y && x <= z then x else if y <= z then y else z;
    var hi := if x >= y && x >= z then x else if y >= z then y else z;
    var mid := x + y + z - lo - hi;
    assert {x, y, z} == {lo, mid, hi};
    if lo < mid < hi {
      i, j, k := lo, mid, hi;
    } else if lo + 1 < hi {
      i, j, k := lo, lo + 1, hi;
    } else {
      i := if lo + 2 < n then lo else n - 3;
      j, k := i + 1, i + 2;
    }
  }
}
