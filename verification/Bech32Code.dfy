/** Exclusive or on 32-bit words, with its laws. */
module Xor32 {
  function Xor(a: bv32, b: bv32): bv32 { a ^ b }

  lemma Comm(a: bv32, b: bv32)
    ensures Xor(a, b) == Xor(b, a)
  {
  }

  lemma RawAssoc(a: bv32, b: bv32, c: bv32)
    ensures (a ^ b) ^ c == a ^ (b ^ c)
  {
  }

  lemma Assoc(a: bv32, b: bv32, c: bv32)
    ensures Xor(Xor(a, b), c) == Xor(a, Xor(b, c))
  {
    RawAssoc(a, b, c);
  }

  lemma Zero(a: bv32)
    ensures Xor(a, 0) == a && Xor(0, a) == a && Xor(a, a) == 0
  {
  }

  lemma Swap(a: bv32, b: bv32, c: bv32, d: bv32)
    ensures Xor(Xor(a, b), Xor(c, d)) == Xor(Xor(a, c), Xor(b, d))
  {
    hide Xor;
    Assoc(a, b, Xor(c, d));
    Assoc(b, c, d);
    Comm(b, c);
    Assoc(c, b, d);
    Assoc(a, c, Xor(b, d));
  }

  /** Adding the same word twice takes it away again. */
  lemma Cancel(a: bv32, b: bv32)
    ensures Xor(a, Xor(a, b)) == b && Xor(Xor(a, b), b) == a
    ensures Xor(a, b) == 0 ==> a == b
  {
    hide Xor;
    Assoc(a, a, b);
    Assoc(a, b, b);
    Zero(a);
    Zero(b);
  }
}

/** The checksum of Bech32 and Bech32m: remainders of polynomials over GF(32), packed in 30 bits. */
module Bech32Code {
  import opened Xor32

  type Symbols = seq<bv8>

  predicate Has(c0: bv32, mask: bv32) { c0 & mask != 0 }

  function Select(p: bool, k: bv32): bv32 { if p then k else 0 }

  function Shifted(c: bv32): bv32 { (c & 0x1ff_ffff) << 5 }

  function Wide(v: bv8): bv32 { v as bv32 }

  function Top(c: bv32): bv32 { c >> 25 }

  // multiples of the remainder of x^6
  function Term0(c0: bv32): bv32 { Select(Has(c0, 1), 0x3b6a57b2) }
  function Term1(c0: bv32): bv32 { Select(Has(c0, 2), 0x26508e6d) }
  function Term2(c0: bv32): bv32 { Select(Has(c0, 4), 0x1ea119fa) }
  function Term3(c0: bv32): bv32 { Select(Has(c0, 8), 0x3d4233dd) }
  function Term4(c0: bv32): bv32 { Select(Has(c0, 16), 0x2a1462b3) }

  /** The top coefficient c0 times the remainder of x^6. */
  function Feedback(c0: bv32): bv32 {
    Xor(Xor(Xor(Xor(Term0(c0), Term1(c0)), Term2(c0)), Term3(c0)), Term4(c0))
  }

  /** One more coefficient. */
  function Step(c: bv32, v: bv8): bv32 {
    Xor(Xor(Shifted(c), Wide(v)), Feedback(Top(c)))
  }

  // ---------------------------------------------------------------- one step

  lemma PartsLinear(c: bv32, d: bv32)
    ensures Shifted(Xor(c, d)) == Xor(Shifted(c), Shifted(d)) && Top(Xor(c, d)) == Xor(Top(c), Top(d))
  {
  }

  lemma WideLinear(v: bv8, w: bv8)
    ensures Wide(v ^ w) == Xor(Wide(v), Wide(w))
  {
  }

  lemma Has1(a: bv32, b: bv32)
    ensures Has(a ^ b, 1) == (Has(a, 1) != Has(b, 1))
  {
  }

  lemma Has2(a: bv32, b: bv32)
    ensures Has(a ^ b, 2) == (Has(a, 2) != Has(b, 2))
  {
  }

  lemma Has4(a: bv32, b: bv32)
    ensures Has(a ^ b, 4) == (Has(a, 4) != Has(b, 4))
  {
  }

  lemma Has8(a: bv32, b: bv32)
    ensures Has(a ^ b, 8) == (Has(a, 8) != Has(b, 8))
  {
  }

  lemma Has16(a: bv32, b: bv32)
    ensures Has(a ^ b, 16) == (Has(a, 16) != Has(b, 16))
  {
  }

  lemma SelectLinear(p: bool, q: bool, k: bv32)
    ensures Select(p != q, k) == Xor(Select(p, k), Select(q, k))
  {
    hide Xor;
    Zero(k);
    Zero(0);
  }

  lemma Term0Linear(a: bv32, b: bv32)
    ensures Term0(Xor(a, b)) == Xor(Term0(a), Term0(b))
  {
    hide Has, Select;
    Has1(a, b);
    SelectLinear(Has(a, 1), Has(b, 1), 0x3b6a57b2);
  }

  lemma Term1Linear(a: bv32, b: bv32)
    ensures Term1(Xor(a, b)) == Xor(Term1(a), Term1(b))
  {
    hide Has, Select;
    Has2(a, b);
    SelectLinear(Has(a, 2), Has(b, 2), 0x26508e6d);
  }

  lemma Term2Linear(a: bv32, b: bv32)
    ensures Term2(Xor(a, b)) == Xor(Term2(a), Term2(b))
  {
    hide Has, Select;
    Has4(a, b);
    SelectLinear(Has(a, 4), Has(b, 4), 0x1ea119fa);
  }

  lemma Term3Linear(a: bv32, b: bv32)
    ensures Term3(Xor(a, b)) == Xor(Term3(a), Term3(b))
  {
    hide Has, Select;
    Has8(a, b);
    SelectLinear(Has(a, 8), Has(b, 8), 0x3d4233dd);
  }

  lemma Term4Linear(a: bv32, b: bv32)
    ensures Term4(Xor(a, b)) == Xor(Term4(a), Term4(b))
  {
    hide Has, Select;
    Has16(a, b);
    SelectLinear(Has(a, 16), Has(b, 16), 0x2a1462b3);
  }

  lemma FeedbackLinear(a: bv32, b: bv32)
    ensures Feedback(Xor(a, b)) == Xor(Feedback(a), Feedback(b))
  {
    hide Xor, Term0, Term1, Term2, Term3, Term4;
    Term0Linear(a, b);
    Term1Linear(a, b);
    Term2Linear(a, b);
    Term3Linear(a, b);
    Term4Linear(a, b);
    var a1, b1 := Xor(Term0(a), Term1(a)), Xor(Term0(b), Term1(b));
    var a2, b2 := Xor(a1, Term2(a)), Xor(b1, Term2(b));
    var a3, b3 := Xor(a2, Term3(a)), Xor(b2, Term3(b));
    Swap(Term0(a), Term0(b), Term1(a), Term1(b));
    Swap(a1, b1, Term2(a), Term2(b));
    Swap(a2, b2, Term3(a), Term3(b));
    Swap(a3, b3, Term4(a), Term4(b));
  }

  /** Each step is linear. */
  lemma StepLinear(c: bv32, d: bv32, v: bv8, w: bv8)
    ensures Step(Xor(c, d), v ^ w) == Xor(Step(c, v), Step(d, w))
  {
    hide Xor, Shifted, Wide, Feedback, Top;
    PartsLinear(c, d);
    WideLinear(v, w);
    FeedbackLinear(Top(c), Top(d));
    Swap(Shifted(c), Shifted(d), Wide(v), Wide(w));
    Swap(Xor(Shifted(c), Wide(v)), Xor(Shifted(d), Wide(w)), Feedback(Top(c)), Feedback(Top(d)));
  }

  lemma StepBound(c: bv32, v: bv8)
    requires v < 32
    ensures Step(c, v) < 0x4000_0000
  {
  }

  /** No nonzero remainder is ever lost. */
  lemma StepInjective(d: bv32)
    requires d < 0x4000_0000 && Step(d, 0) == 0
    ensures d == 0
  {
  }

  /** While there is room, a step only shifts. */
  lemma StepShifts(c: bv32, v: bv8)
    requires c < 0x200_0000
    ensures Step(c, v) == (c << 5) ^ (v as bv32)
  {
  }

  /** While there is room, nothing but zeros leaves zero. */
  lemma StepZero(c: bv32, v: bv8)
    requires c < 0x200_0000 && v < 32 && Step(c, v) == 0
    ensures c == 0 && v == 0
  {
    hide Step;
    StepShifts(c, v);
  }

  // ---------------------------------------------------------------- lists of symbols

  ghost predicate AreSymbols(v: Symbols) {
    forall i | 0 <= i < |v| :: v[i] < 32
  }

  /** The remainder after more coefficients. */
  function Fold(c: bv32, v: Symbols): bv32 {
    if v == [] then c else Step(Fold(c, v[..|v| - 1]), v[|v| - 1])
  }

  function PolyModOf(v: Symbols): bv32 { Fold(1, v) }

  function Zeros(n: nat): Symbols { seq(n, _ => 0) }

  function XorAll(a: Symbols, b: Symbols): Symbols
    requires |a| == |b|
  {
    seq(|a|, i requires 0 <= i < |a| => a[i] ^ b[i])
  }

  lemma {:induction false} FoldCat(c: bv32, a: Symbols, b: Symbols)
    ensures Fold(c, a + b) == Fold(Fold(c, a), b)
  {
    hide Step;
    if b == [] {
      assert a + b == a;
    } else {
      assert (a + b)[..|a + b| - 1] == a + b[..|b| - 1];
      FoldCat(c, a, b[..|b| - 1]);
    }
  }

  lemma {:induction false} FoldLinear(c: bv32, d: bv32, a: Symbols, b: Symbols)
    requires |a| == |b|
    ensures Fold(Xor(c, d), XorAll(a, b)) == Xor(Fold(c, a), Fold(d, b))
  {
    hide Step, Xor;
    if a != [] {
      var n := |a| - 1;
      assert XorAll(a, b)[..n] == XorAll(a[..n], b[..n]);
      FoldLinear(c, d, a[..n], b[..n]);
      StepLinear(Fold(c, a[..n]), Fold(d, b[..n]), a[n], b[n]);
    }
  }

  lemma FoldBound(c: bv32, v: Symbols)
    requires AreSymbols(v) && c < 0x4000_0000
    ensures Fold(c, v) < 0x4000_0000
  {
    hide Step;
    if v != [] { StepBound(Fold(c, v[..|v| - 1]), v[|v| - 1]); }
  }

  lemma {:induction false} FoldInjective(d: bv32, n: nat)
    requires d < 0x4000_0000 && Fold(d, Zeros(n)) == 0
    ensures d == 0
  {
    hide Step;
    if n > 0 {
      assert Zeros(n)[..n - 1] == Zeros(n - 1);
      FoldBound(d, Zeros(n - 1));
      StepInjective(Fold(d, Zeros(n - 1)));
      FoldInjective(d, n - 1);
    }
  }

  lemma {:induction false} FoldZeros(n: nat)
    ensures Fold(0, Zeros(n)) == 0
  {
    if n > 0 {
      assert Zeros(n)[..n - 1] == Zeros(n - 1);
      FoldZeros(n - 1);
    }
  }

  // ---------------------------------------------------------------- six symbols fill a remainder

  function Limit(n: nat): bv32
    requires n <= 6
  {
    if n == 0 then 1 else if n == 1 then 0x20 else if n == 2 then 0x400 else if n == 3 then 0x8000
    else if n == 4 then 0x10_0000 else if n == 5 then 0x200_0000 else 0x4000_0000
  }

  lemma ShiftBound(c: bv32, v: bv8, n: nat)
    requires n < 6 && c < Limit(n) && v < 32
    ensures c < 0x200_0000 && (c << 5) ^ (v as bv32) < Limit(n + 1)
  {
  }

  lemma {:induction false} FoldRoom(v: Symbols)
    requires |v| <= 6 && AreSymbols(v)
    ensures Fold(0, v) < Limit(|v|)
  {
    hide Step;
    if v != [] {
      var n := |v| - 1;
      FoldRoom(v[..n]);
      ShiftBound(Fold(0, v[..n]), v[n], n);
      StepShifts(Fold(0, v[..n]), v[n]);
    }
  }

  lemma RoomLeft(v: Symbols)
    requires |v| < 6 && AreSymbols(v)
    ensures Fold(0, v) < 0x200_0000
  {
    hide Fold;
    FoldRoom(v);
    ShiftBound(Fold(0, v), 0, |v|);
  }

  /** Up to six symbols leave zero only if they are all zero. */
  lemma {:induction false} FoldNonzero(v: Symbols)
    requires |v| <= 6 && AreSymbols(v) && Fold(0, v) == 0
    ensures v == Zeros(|v|)
  {
    hide Step;
    if v != [] {
      var n := |v| - 1;
      RoomLeft(v[..n]);
      StepZero(Fold(0, v[..n]), v[n]);
      FoldNonzero(v[..n]);
      assert v == v[..n] + [v[n]];
    }
  }

  lemma XorSymbols(a: Symbols, b: Symbols)
    requires |a| == |b| && AreSymbols(a) && AreSymbols(b)
    ensures AreSymbols(XorAll(a, b)) && (XorAll(a, b) == Zeros(|a|) ==> a == b)
  {
    forall i | 0 <= i < |a| ensures XorAll(a, b)[i] < 32 && (XorAll(a, b)[i] == 0 ==> a[i] == b[i]) {
      XorSymbol(a[i], b[i]);
    }
    if XorAll(a, b) == Zeros(|a|) {
      forall i | 0 <= i < |a| ensures a[i] == b[i] {
        assert XorAll(a, b)[i] == Zeros(|a|)[i];
      }
    }
  }

  lemma XorSymbol(x: bv8, y: bv8)
    ensures (x < 32 && y < 32 ==> x ^ y < 32) && (x ^ y == 0 ==> x == y) && x ^ x == 0 && 0 ^ x == x
  {
  }

  /** Two lists leave the same remainder exactly if their difference leaves none. */
  lemma FoldDifference(c: bv32, a: Symbols, b: Symbols)
    requires |a| == |b|
    ensures Fold(c, a) == Fold(c, b) <==> Fold(0, XorAll(a, b)) == 0
  {
    hide Xor, Fold;
    FoldLinear(c, c, a, b);
    Zero(c);
    Zero(Fold(c, a));
    Cancel(Fold(c, a), Fold(c, b));
  }

  /** Only one list of six symbols completes a remainder to a given one. */
  lemma SixUnique(c: bv32, a: Symbols, b: Symbols)
    requires |a| == |b| == 6 && AreSymbols(a) && AreSymbols(b) && Fold(c, a) == Fold(c, b)
    ensures a == b
  {
    hide Fold;
    FoldDifference(c, a, b);
    XorSymbols(a, b);
    FoldNonzero(XorAll(a, b));
  }

  /** Any change within six symbols in a row, wherever they are, changes the remainder. */
  lemma BurstDetected(c: bv32, a: Symbols, b: Symbols, i: nat, n: nat)
    requires |a| == |b| && AreSymbols(a) && AreSymbols(b) && i + n <= |a| && n <= 6
    requires a[..i] == b[..i] && a[i + n..] == b[i + n..] && a != b
    ensures Fold(c, a) != Fold(c, b)
  {
    hide Fold;
    var e := XorAll(a, b);
    var w := e[i..i + n];
    XorSymbols(a, b);
    Framed(a, b, i, n);
    FoldCat(0, Zeros(i) + w, Zeros(|a| - i - n));
    FoldCat(0, Zeros(i), w);
    FoldZeros(i);
    FoldDifference(c, a, b);
    if Fold(c, a) == Fold(c, b) {
      FoldBound(0, w);
      FoldInjective(Fold(0, w), |a| - i - n);
      FoldNonzero(w);
    }
  }

  /** The difference is zero outside the window, and not all zero inside. */
  lemma Framed(a: Symbols, b: Symbols, i: nat, n: nat)
    requires |a| == |b| && AreSymbols(a) && AreSymbols(b) && i + n <= |a|
    requires a[..i] == b[..i] && a[i + n..] == b[i + n..] && a != b
    ensures var e := XorAll(a, b); var w := e[i..i + n];
      e == Zeros(i) + w + Zeros(|a| - i - n) && AreSymbols(w) && w != Zeros(n)
  {
    var e := XorAll(a, b);
    var w := e[i..i + n];
    var f := Zeros(i) + w + Zeros(|a| - i - n);
    XorSymbols(a, b);
    forall j | 0 <= j < |a| ensures e[j] == f[j] {
      XorSymbol(a[j], b[j]);
      if j < i { assert a[..i][j] == b[..i][j]; }
      if j >= i + n { assert a[i + n..][j - i - n] == b[i + n..][j - i - n]; }
    }
    assert Zeros(i) + Zeros(n) + Zeros(|a| - i - n) == Zeros(|a|);
  }

  // ---------------------------------------------------------------- checksums

  /** Symbol i of the six packed in a word. */
  function SymbolAt(m: bv32, i: nat): bv8
    requires i < 6
  {
    ((if i == 0 then m >> 25 else if i == 1 then m >> 20 else if i == 2 then m >> 15
      else if i == 3 then m >> 10 else if i == 4 then m >> 5 else m) & 31) as bv8
  }

  function Unpacked(m: bv32): Symbols {
    seq(6, i requires 0 <= i < 6 => SymbolAt(m, i))
  }

  lemma SymbolBound(m: bv32, i: nat)
    requires i < 6
    ensures SymbolAt(m, i) < 32
  {
  }

  /** Unpacking and then reading in the symbols gives back the word. */
  lemma FoldUnpacked(m: bv32)
    requires m < 0x4000_0000
    ensures AreSymbols(Unpacked(m)) && Fold(0, Unpacked(m)) == m
  {
    hide Step, SymbolAt, Fold;
    var u := Unpacked(m);
    forall i | 0 <= i < 6 ensures u[i] < 32 { SymbolBound(m, i); }
    assert u[..1] == [u[0]] && u[..2] == u[..1] + [u[1]] && u[..3] == u[..2] + [u[2]];
    assert u[..4] == u[..3] + [u[3]] && u[..5] == u[..4] + [u[4]] && u == u[..5] + [u[5]];
    FoldSnoc(0, [], u[0]);
    Unpack0(m);
    FoldSnoc(0, u[..1], u[1]);
    Unpack1(m);
    FoldSnoc(0, u[..2], u[2]);
    Unpack2(m);
    FoldSnoc(0, u[..3], u[3]);
    Unpack3(m);
    FoldSnoc(0, u[..4], u[4]);
    Unpack4(m);
    FoldSnoc(0, u[..5], u[5]);
    Unpack5(m);
    assert [] + [u[0]] == [u[0]];
  }

  lemma FoldSnoc(c: bv32, v: Symbols, x: bv8)
    ensures Fold(c, v + [x]) == Step(Fold(c, v), x) && Fold(c, []) == c
  {
    hide Step;
    assert (v + [x])[..|v|] == v;
  }

  lemma Unpack0(m: bv32)
    requires m < 0x4000_0000
    ensures Step(0, SymbolAt(m, 0)) == m >> 25
  {
    hide Step;
    StepShifts(0, SymbolAt(m, 0));
  }

  lemma Unpack1(m: bv32)
    requires m < 0x4000_0000
    ensures Step(m >> 25, SymbolAt(m, 1)) == m >> 20
  {
    hide Step;
    StepShifts(m >> 25, SymbolAt(m, 1));
  }

  lemma Unpack2(m: bv32)
    requires m < 0x4000_0000
    ensures Step(m >> 20, SymbolAt(m, 2)) == m >> 15
  {
    hide Step;
    StepShifts(m >> 20, SymbolAt(m, 2));
  }

  lemma Unpack3(m: bv32)
    requires m < 0x4000_0000
    ensures Step(m >> 15, SymbolAt(m, 3)) == m >> 10
  {
    hide Step;
    StepShifts(m >> 15, SymbolAt(m, 3));
  }

  lemma Unpack4(m: bv32)
    requires m < 0x4000_0000
    ensures Step(m >> 10, SymbolAt(m, 4)) == m >> 5
  {
    hide Step;
    StepShifts(m >> 10, SymbolAt(m, 4));
  }

  lemma Unpack5(m: bv32)
    requires m < 0x4000_0000
    ensures Step(m >> 5, SymbolAt(m, 5)) == m
  {
    hide Step;
    StepShifts(m >> 5, SymbolAt(m, 5));
  }

  /** The six symbols that make the remainder come to k. */
  function Completed(c: bv32, k: bv32): Symbols {
    Unpacked(Xor(Fold(c, Zeros(6)), k))
  }

  lemma CompletedRight(c: bv32, k: bv32)
    requires c < 0x4000_0000 && k < 0x4000_0000
    ensures AreSymbols(Completed(c, k)) && |Completed(c, k)| == 6 && Fold(c, Completed(c, k)) == k
  {
    hide Xor, Fold, Unpacked;
    var f := Fold(c, Zeros(6));
    var m := Xor(f, k);
    FoldBound(c, Zeros(6));
    XorBound(f, k);
    FoldUnpacked(m);
    var u := Unpacked(m);
    UnpackedSix(m);
    FoldLinear(c, 0, Zeros(6), u);
    XorZeros(u);
    Zero(c);
    Cancel(f, k);
  }

  lemma UnpackedSix(m: bv32)
    ensures |Unpacked(m)| == 6
  {
  }

  lemma XorZeros(v: Symbols)
    ensures XorAll(Zeros(|v|), v) == v
  {
    forall i | 0 <= i < |v| ensures XorAll(Zeros(|v|), v)[i] == v[i] { XorSymbol(v[i], v[i]); }
  }

  lemma XorBound(a: bv32, b: bv32)
    requires a < 0x4000_0000 && b < 0x4000_0000
    ensures Xor(a, b) < 0x4000_0000
  {
  }

  // ---------------------------------------------------------------- steps backwards

  /** The top coefficient whose feedback ends in the five bits given. */
  function TopFor(low: bv32): bv32 {
    Xor(Xor(Xor(Xor(Select(Has(low, 1), 17), Select(Has(low, 2), 11)), Select(Has(low, 4), 22)), Select(Has(low, 8), 5)),
        Select(Has(low, 16), 10))
  }

  function Low(c: bv32): bv32 { c & 31 }

  /** Five coefficients and the top one. */
  function Joined(x: bv32, t: bv32): bv32 { (x >> 5) | (t << 25) }

  /** The remainder from which a zero coefficient leads to c. */
  function Unstep(c: bv32): bv32 {
    var t := TopFor(Low(c));
    Joined(Xor(c, Feedback(t)), t)
  }

  lemma TopForRight(low: bv32)
    requires low < 32
    ensures TopFor(low) < 32 && Low(Feedback(TopFor(low))) == low
  {
  }

  lemma FeedbackBound(t: bv32)
    ensures Feedback(t) < 0x4000_0000
  {
  }

  lemma JoinedTop(x: bv32, t: bv32)
    requires x < 0x4000_0000 && t < 32
    ensures Joined(x, t) < 0x4000_0000 && Top(Joined(x, t)) == t
  {
  }

  lemma JoinedRest(x: bv32, t: bv32)
    requires x < 0x4000_0000 && t < 32 && Low(x) == 0
    ensures Shifted(Joined(x, t)) == x
  {
  }

  lemma SameLow(c: bv32, f: bv32)
    requires Low(c) == Low(f)
    ensures Low(Xor(c, f)) == 0
  {
  }

  lemma LowBound(c: bv32)
    ensures Low(c) < 32 && Wide(0) == 0
  {
  }

  lemma StepUnstep(c: bv32)
    requires c < 0x4000_0000
    ensures Unstep(c) < 0x4000_0000 && Step(Unstep(c), 0) == c
  {
    hide Xor, TopFor, Feedback, Shifted, Top, Wide, Low, Joined;
    LowBound(c);
    var t := TopFor(Low(c));
    var f := Feedback(t);
    TopForRight(Low(c));
    FeedbackBound(t);
    SameLow(c, f);
    XorBound(c, f);
    JoinedTop(Xor(c, f), t);
    JoinedRest(Xor(c, f), t);
    Zero(Xor(c, f));
    Cancel(c, f);
  }

  /** The remainder from which n zeros lead to c. */
  function Unfold(c: bv32, n: nat): bv32
    decreases n
  {
    if n == 0 then c else Unfold(Unstep(c), n - 1)
  }

  lemma {:induction false} FoldUnfold(c: bv32, n: nat)
    requires c < 0x4000_0000
    ensures Unfold(c, n) < 0x4000_0000 && Fold(Unfold(c, n), Zeros(n)) == c
    decreases n
  {
    hide Step, Unstep;
    if n > 0 {
      StepUnstep(c);
      FoldUnfold(Unstep(c), n - 1);
      assert Zeros(n)[..n - 1] == Zeros(n - 1);
    }
  }

  /** Zeros lead different remainders to different ones. */
  lemma ZerosInjective(c: bv32, d: bv32, n: nat)
    requires c < 0x4000_0000 && d < 0x4000_0000 && Fold(c, Zeros(n)) == Fold(d, Zeros(n))
    ensures c == d
  {
    hide Xor, Fold;
    FoldLinear(c, d, Zeros(n), Zeros(n));
    XorZeros(Zeros(n));
    Zero(Fold(c, Zeros(n)));
    XorBound(c, d);
    FoldInjective(Xor(c, d), n);
    Cancel(c, d);
  }

  /** The one change of six symbols, n symbols before the end, that changes the remainder by c. */
  function Shift(c: bv32, n: nat): Symbols { Unpacked(Unfold(c, n)) }

  lemma ShiftExactly(c: bv32, w: Symbols, n: nat)
    requires c < 0x4000_0000 && |w| == 6 && AreSymbols(w)
    ensures AreSymbols(Shift(c, n)) && |Shift(c, n)| == 6
    ensures Fold(0, w + Zeros(n)) == c <==> w == Shift(c, n)
  {
    hide Fold, Unfold, Unpacked;
    FoldUnfold(c, n);
    var m := Unfold(c, n);
    FoldUnpacked(m);
    UnpackedSix(m);
    FoldCat(0, w, Zeros(n));
    FoldBound(0, w);
    if Fold(0, w + Zeros(n)) == c {
      ZerosInjective(Fold(0, w), m, n);
      SixUnique(0, w, Unpacked(m));
    }
  }

  /** The change that a burst makes to the remainder. */
  lemma BurstChanges(c: bv32, a: Symbols, b: Symbols, i: nat)
    requires |a| == |b| && AreSymbols(a) && AreSymbols(b) && i + 6 <= |a|
    requires a[..i] == b[..i] && a[i + 6..] == b[i + 6..] && a != b
    ensures var w := XorAll(a, b)[i..i + 6];
      AreSymbols(w) && Xor(Fold(c, a), Fold(c, b)) == Fold(0, w + Zeros(|a| - i - 6))
  {
    hide Fold, Xor;
    var e := XorAll(a, b);
    var w := e[i..i + 6];
    Framed(a, b, i, 6);
    FoldLinear(c, c, a, b);
    Zero(c);
    assert e == Zeros(i) + (w + Zeros(|a| - i - 6));
    FoldCat(0, Zeros(i), w + Zeros(|a| - i - 6));
    FoldZeros(i);
  }
}
