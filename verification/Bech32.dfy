/** Bech32 and Bech32m text: a readable part, a separator, symbols and their checksum. */
module Bech32 {
  import opened Bech32Code
  import opened Xor32
  import opened BchCode

  /** Bytes of text. */
  type Text = seq<bv8>

  datatype Encoding = BECH32 | BECH32M

  datatype Result = Invalid | Valid(encoding: Encoding, hrp: Text, data: Symbols)

  // ---------------------------------------------------------------- characters

  predicate IsLower(c: bv8) { 97 <= c <= 122 }
  predicate IsUpper(c: bv8) { 65 <= c <= 90 }
  predicate IsPrintable(c: bv8) { 33 <= c <= 126 }

  function LowerCase(c: bv8): bv8 { if IsUpper(c) then c + 32 else c }

  const SEPARATOR: bv8 := 49

  const NONE: bv8 := 255

  // the character set, in two halves
  function LowChar(v: bv8): bv8 {
    if v == 0 then 113 else if v == 1 then 112 else if v == 2 then 122 else if v == 3 then 114 else
    if v == 4 then 121 else if v == 5 then 57 else if v == 6 then 120 else if v == 7 then 56 else
    if v == 8 then 103 else if v == 9 then 102 else if v == 10 then 50 else if v == 11 then 116 else
    if v == 12 then 118 else if v == 13 then 100 else if v == 14 then 119 else
    48
  }

  function HighChar(v: bv8): bv8 {
    if v == 16 then 115 else if v == 17 then 51 else if v == 18 then 106 else if v == 19 then 110 else
    if v == 20 then 53 else if v == 21 then 52 else if v == 22 then 107 else if v == 23 then 104 else
    if v == 24 then 99 else if v == 25 then 101 else if v == 26 then 54 else if v == 27 then 109 else
    if v == 28 then 117 else if v == 29 then 97 else if v == 30 then 55 else
    108
  }

  function LowSymbol(c: bv8): bv8 {
    if c == 113 then 0 else if c == 112 then 1 else if c == 122 then 2 else if c == 114 then 3 else
    if c == 121 then 4 else if c == 57 then 5 else if c == 120 then 6 else if c == 56 then 7 else
    if c == 103 then 8 else if c == 102 then 9 else if c == 50 then 10 else if c == 116 then 11 else
    if c == 118 then 12 else if c == 100 then 13 else if c == 119 then 14 else if c == 48 then 15 else
    NONE
  }

  function HighSymbol(c: bv8): bv8 {
    if c == 115 then 16 else if c == 51 then 17 else if c == 106 then 18 else if c == 110 then 19 else
    if c == 53 then 20 else if c == 52 then 21 else if c == 107 then 22 else if c == 104 then 23 else
    if c == 99 then 24 else if c == 101 then 25 else if c == 54 then 26 else if c == 109 then 27 else
    if c == 117 then 28 else if c == 97 then 29 else if c == 55 then 30 else if c == 108 then 31 else
    NONE
  }

  /** The character of a symbol. */
  function CharOf(v: bv8): bv8 { if v < 16 then LowChar(v) else HighChar(v) }

  /** The symbol of a lower-case character, or NONE. */
  function Reversed(c: bv8): bv8 { if LowSymbol(c) != NONE then LowSymbol(c) else HighSymbol(c) }

  /** The symbol of a character in either case, or NONE. */
  function SymbolOf(c: bv8): bv8 { Reversed(LowerCase(c)) }

  lemma LowHalf(v: bv8)
    requires v < 16
    ensures LowSymbol(LowChar(v)) == v
  {
  }

  lemma HighHalf(v: bv8)
    requires 16 <= v < 32
    ensures HighSymbol(HighChar(v)) == v && LowSymbol(HighChar(v)) == NONE
  {
  }

  lemma LowBack(c: bv8)
    requires LowSymbol(c) != NONE
    ensures LowSymbol(c) < 16 && LowChar(LowSymbol(c)) == c
  {
  }

  lemma HighBack(c: bv8)
    requires HighSymbol(c) != NONE
    ensures 16 <= HighSymbol(c) < 32 && HighChar(HighSymbol(c)) == c
  {
  }

  lemma LowCharsAre(v: bv8)
    requires v < 16
    ensures IsPrintable(LowChar(v)) && !IsUpper(LowChar(v)) && LowChar(v) != SEPARATOR
  {
  }

  lemma HighCharsAre(v: bv8)
    requires 16 <= v < 32
    ensures IsPrintable(HighChar(v)) && !IsUpper(HighChar(v)) && HighChar(v) != SEPARATOR
  {
  }

  lemma CharsAre(v: bv8)
    requires v < 32
    ensures IsPrintable(CharOf(v)) && !IsUpper(CharOf(v)) && CharOf(v) != SEPARATOR
  {
    hide LowChar, HighChar;
    if v < 16 { LowCharsAre(v); } else { HighCharsAre(v); }
  }

  /** The two tables are inverse to each other, but for case. */
  lemma SymbolOfChar(v: bv8)
    requires v < 32
    ensures SymbolOf(CharOf(v)) == v
  {
    hide LowChar, HighChar, LowSymbol, HighSymbol;
    CharsAre(v);
    if v < 16 { LowHalf(v); } else { HighHalf(v); }
  }

  lemma CharOfSymbol(c: bv8)
    requires SymbolOf(c) != NONE
    ensures SymbolOf(c) < 32 && CharOf(SymbolOf(c)) == LowerCase(c)
  {
    hide LowChar, HighChar, LowSymbol, HighSymbol, LowerCase;
    var l := LowerCase(c);
    if LowSymbol(l) != NONE { LowBack(l); } else { HighBack(l); }
  }

  // ---------------------------------------------------------------- checksums

  function EncodingConstant(encoding: Encoding): bv32 {
    if encoding == BECH32 then 1 else 0x2bc830a3
  }

  function High(c: bv8): bv8 { c >> 5 }
  function Low(c: bv8): bv8 { c & 0x1f }

  lemma HighLow(c: bv8)
    ensures High(c) < 32 && Low(c) < 32
  {
  }

  /** The readable part as symbols: the high bits of each character, zero, the low bits. */
  function Expanded(hrp: Text): (v: Symbols)
    ensures |v| == 2 * |hrp| + 1
  {
    seq(|hrp|, i requires 0 <= i < |hrp| => High(hrp[i])) + [0] + seq(|hrp|, i requires 0 <= i < |hrp| => Low(hrp[i]))
  }

  lemma ExpandedSymbols(hrp: Text)
    ensures AreSymbols(Expanded(hrp))
  {
    hide High, Low;
    forall i | 0 <= i < |Expanded(hrp)| ensures Expanded(hrp)[i] < 32 {
      if i < |hrp| { HighLow(hrp[i]); }
      if i > |hrp| { HighLow(hrp[i - |hrp| - 1]); }
    }
  }

  function Remainder(hrp: Text, values: Symbols): bv32 {
    PolyModOf(Expanded(hrp) + values)
  }

  /** Which encoding, if any, a list of symbols with its checksum belongs to. */
  predicate Verifies(encoding: Encoding, hrp: Text, values: Symbols) {
    Remainder(hrp, values) == EncodingConstant(encoding)
  }

  function Checksum(encoding: Encoding, hrp: Text, values: Symbols): Symbols {
    Completed(Remainder(hrp, values), EncodingConstant(encoding))
  }

  lemma RemainderCat(hrp: Text, a: Symbols, b: Symbols)
    ensures Remainder(hrp, a + b) == Fold(Remainder(hrp, a), b)
  {
    hide Fold, Expanded;
    assert Expanded(hrp) + (a + b) == Expanded(hrp) + a + b;
    FoldCat(1, Expanded(hrp) + a, b);
  }

  lemma RemainderBound(hrp: Text, values: Symbols)
    requires AreSymbols(values)
    ensures Remainder(hrp, values) < 0x4000_0000
  {
    hide Fold;
    ExpandedSymbols(hrp);
    FoldBound(1, Expanded(hrp) + values);
  }

  /** The checksum makes any list verify as its own encoding and no other, and is the only one to do so. */
  lemma ChecksumVerifies(encoding: Encoding, hrp: Text, values: Symbols)
    requires AreSymbols(values)
    ensures var cs := Checksum(encoding, hrp, values);
      && |cs| == 6 && AreSymbols(cs)
      && (forall e :: Verifies(e, hrp, values + cs) <==> e == encoding)
      && forall d: Symbols | |d| == 6 && AreSymbols(d) && Verifies(encoding, hrp, values + d) :: d == cs
  {
    hide Remainder, Fold, Completed;
    var cs := Checksum(encoding, hrp, values);
    var r := Remainder(hrp, values);
    RemainderBound(hrp, values);
    CompletedRight(r, EncodingConstant(encoding));
    RemainderCat(hrp, values, cs);
    forall d: Symbols | |d| == 6 && AreSymbols(d) && Verifies(encoding, hrp, values + d) ensures d == cs {
      RemainderCat(hrp, values, d);
      SixUnique(r, d, cs);
    }
  }

  /** Errors within six symbols in a row are never taken for the same encoding. */
  lemma ErrorDetected(encoding: Encoding, hrp: Text, a: Symbols, b: Symbols, i: nat, n: nat)
    requires AreSymbols(a) && AreSymbols(b) && |a| == |b| && i + n <= |a| && n <= 6
    requires a[..i] == b[..i] && a[i + n..] == b[i + n..] && a != b
    requires Verifies(encoding, hrp, a)
    ensures !Verifies(encoding, hrp, b)
  {
    hide Remainder, Fold, Expanded;
    RemainderCat(hrp, [], a);
    RemainderCat(hrp, [], b);
    assert [] + a == a && [] + b == b;
    BurstDetected(Remainder(hrp, []), a, b, i, n);
  }

  /** Up to three errors, anywhere within 1023 symbols in a row, are never taken for the same encoding. */
  lemma ThreeErrorsDetected(encoding: Encoding, hrp: Text, a: Symbols, b: Symbols)
    requires AreSymbols(a) && AreSymbols(b) && |a| == |b| && a != b
    requires |Errors(a, b)| <= 3 && forall p, q | p in Errors(a, b) && q in Errors(a, b) :: p - q < 1023
    requires Verifies(encoding, hrp, a)
    ensures !Verifies(encoding, hrp, b)
  {
    hide Remainder, Fold, Expanded, Errors;
    RemainderCat(hrp, [], a);
    RemainderCat(hrp, [], b);
    assert [] + a == a && [] + b == b;
    UpToThreeDetected(Remainder(hrp, []), a, b);
  }

  function Other(encoding: Encoding): Encoding {
    if encoding == BECH32 then BECH32M else BECH32
  }

  const CONSTANTS_DIFFER: bv32 := 0x2bc8_30a2

  lemma ConstantsDiffer(encoding: Encoding, c: bv32)
    ensures c == EncodingConstant(Other(encoding)) <==> Xor(EncodingConstant(encoding), c) == CONSTANTS_DIFFER
  {
  }

  /** Changes within six symbols in a row turn a valid list into a valid one of the other encoding exactly if they
      are the one set of changes that does so at that place, whatever the list, its readable part and its encoding. */
  lemma EncodingFlips(encoding: Encoding, hrp: Text, a: Symbols, b: Symbols, i: nat)
    requires AreSymbols(a) && AreSymbols(b) && |a| == |b| && i + 6 <= |a|
    requires a[..i] == b[..i] && a[i + 6..] == b[i + 6..] && a != b
    requires Verifies(encoding, hrp, a)
    ensures Verifies(Other(encoding), hrp, b) <==> XorAll(a, b)[i..i + 6] == Shift(CONSTANTS_DIFFER, |a| - i - 6)
  {
    hide Remainder, Fold, Expanded, Shift, Xor;
    RemainderCat(hrp, [], a);
    RemainderCat(hrp, [], b);
    assert [] + a == a && [] + b == b;
    BurstChanges(Remainder(hrp, []), a, b, i);
    ShiftExactly(CONSTANTS_DIFFER, XorAll(a, b)[i..i + 6], |a| - i - 6);
    ConstantsDiffer(encoding, Remainder(hrp, b));
  }

  /** There is such a set of changes at every place. */
  lemma FlipExists(encoding: Encoding, hrp: Text, a: Symbols, i: nat) returns (b: Symbols)
    requires AreSymbols(a) && i + 6 <= |a| && Verifies(encoding, hrp, a)
    ensures AreSymbols(b) && |b| == |a| && a[..i] == b[..i] && a[i + 6..] == b[i + 6..]
    ensures Verifies(Other(encoding), hrp, b)
  {
    hide Remainder, Fold, Expanded, Shift, Xor, XorAll;
    var w := Shift(CONSTANTS_DIFFER, |a| - i - 6);
    ShiftExactly(CONSTANTS_DIFFER, Zeros(6), |a| - i - 6);
    b := a[..i] + XorAll(a[i..i + 6], w) + a[i + 6..];
    XorSymbols(a[i..i + 6], w);
    XorWindow(a, w, i);
    FoldZeros(|a| - i);
    assert Zeros(6) + Zeros(|a| - i - 6) == Zeros(|a| - i);
    EncodingFlips(encoding, hrp, a, b, i);
  }

  lemma XorWindow(a: Symbols, w: Symbols, i: nat)
    requires i + 6 <= |a| && |w| == 6
    ensures var b := a[..i] + XorAll(a[i..i + 6], w) + a[i + 6..];
      |b| == |a| && XorAll(a, b)[i..i + 6] == w && (a == b ==> w == Zeros(6))
  {
    var b := a[..i] + XorAll(a[i..i + 6], w) + a[i + 6..];
    forall k | 0 <= k < 6 ensures a[i + k] ^ b[i + k] == w[k] && (a[i + k] == b[i + k] ==> w[k] == 0) {
      XorTwice(a[i + k], w[k]);
    }
  }

  lemma XorTwice(x: bv8, y: bv8)
    ensures x ^ (x ^ y) == y && (x ^ y == x ==> y == 0)
  {
  }

  // ---------------------------------------------------------------- texts

  function Chars(values: Symbols): (t: Text)
    ensures |t| == |values|
  {
    seq(|values|, i requires 0 <= i < |values| => CharOf(values[i]))
  }

  function SymbolsOf(t: Text): (values: Symbols)
    ensures |values| == |t|
  {
    seq(|t|, i requires 0 <= i < |t| => SymbolOf(t[i]))
  }

  function Lowered(t: Text): (l: Text)
    ensures |l| == |t|
  {
    seq(|t|, i requires 0 <= i < |t| => LowerCase(t[i]))
  }

  predicate Any(t: Text, p: bv8 -> bool) {
    exists i :: 0 <= i < |t| && p(t[i])
  }

  predicate NotPrintable(c: bv8) { !IsPrintable(c) }
  predicate NoSymbol(c: bv8) { SymbolOf(c) == NONE }

  /** The position of the last separator, or -1. */
  function LastSeparator(t: Text): (pos: int)
    ensures -1 <= pos < |t| && (pos >= 0 ==> t[pos] == SEPARATOR)
    ensures forall i | pos < i < |t| :: t[i] != SEPARATOR
  {
    if t == [] then -1 else if t[|t| - 1] == SEPARATOR then |t| - 1 else LastSeparator(t[..|t| - 1])
  }

  lemma LastSeparatorIs(t: Text, pos: nat)
    requires pos < |t| && t[pos] == SEPARATOR && forall i | pos < i < |t| :: t[i] != SEPARATOR
    ensures LastSeparator(t) == pos
  {
  }

  function Encoded(encoding: Encoding, hrp: Text, values: Symbols): Text {
    hrp + [SEPARATOR] + Chars(values + Checksum(encoding, hrp, values))
  }

  function Decoded(t: Text): Result {
    var pos := LastSeparator(t);
    if Any(t, NotPrintable) || (Any(t, IsLower) && Any(t, IsUpper)) then Invalid
    else if |t| > 90 || pos < 1 || pos + 7 > |t| then Invalid
    else if Any(t[pos + 1..], NoSymbol) then Invalid
    else
      var hrp, values := Lowered(t[..pos]), SymbolsOf(t[pos + 1..]);
      if Verifies(BECH32, hrp, values) then Valid(BECH32, hrp, values[..|values| - 6])
      else if Verifies(BECH32M, hrp, values) then Valid(BECH32M, hrp, values[..|values| - 6])
      else Invalid
  }

  /** What an encoder accepts. */
  predicate Encodable(hrp: Text, values: Symbols) {
    && hrp != [] && !Any(hrp, NotPrintable) && !Any(hrp, IsUpper)
    && forall i | 0 <= i < |values| :: values[i] < 32
  }

  lemma SymbolsOfChars(values: Symbols)
    requires AreSymbols(values)
    ensures SymbolsOf(Chars(values)) == values && !Any(Chars(values), NoSymbol)
  {
    hide SymbolOf, CharOf;
    forall i | 0 <= i < |values| ensures SymbolOf(Chars(values)[i]) == values[i] { SymbolOfChar(values[i]); }
  }

  lemma CharsOfSymbols(t: Text)
    requires !Any(t, NoSymbol)
    ensures AreSymbols(SymbolsOf(t)) && Chars(SymbolsOf(t)) == Lowered(t)
  {
    hide SymbolOf, CharOf, LowerCase;
    forall i | 0 <= i < |t| ensures SymbolOf(t[i]) < 32 && CharOf(SymbolOf(t[i])) == LowerCase(t[i]) {
      assert !NoSymbol(t[i]);
      CharOfSymbol(t[i]);
    }
  }

  /** The shape of an encoded text. */
  lemma EncodedShape(hrp: Text, values: Symbols)
    requires Encodable(hrp, []) && AreSymbols(values)
    ensures var t := hrp + [SEPARATOR] + Chars(values);
      && !Any(t, NotPrintable) && !Any(t, IsUpper) && LastSeparator(t) == |hrp|
      && Lowered(t[..|hrp|]) == hrp && t[|hrp| + 1..] == Chars(values)
  {
    hide CharOf, LastSeparator;
    var t := hrp + [SEPARATOR] + Chars(values);
    forall i | 0 <= i < |t| ensures !NotPrintable(t[i]) && !IsUpper(t[i]) && (i > |hrp| ==> t[i] != SEPARATOR) {
      if i > |hrp| { CharsAre(values[i - |hrp| - 1]); }
      if i < |hrp| { assert !NotPrintable(hrp[i]) && !IsUpper(hrp[i]); }
    }
    LastSeparatorIs(t, |hrp|);
    forall i | 0 <= i < |hrp| ensures LowerCase(t[i]) == hrp[i] { assert !IsUpper(t[i]); }
  }

  /** Decoding an encoding gives back its parts, as long as the text is at most 90 characters. */
  lemma DecodedEncoded(encoding: Encoding, hrp: Text, values: Symbols)
    requires Encodable(hrp, values)
    ensures Decoded(Encoded(encoding, hrp, values))
         == if |hrp| + |values| + 7 <= 90 then Valid(encoding, hrp, values) else Invalid
  {
    hide Checksum, LastSeparator, Verifies, Any, Chars, SymbolsOf, Lowered;
    var cs := Checksum(encoding, hrp, values);
    ChecksumVerifies(encoding, hrp, values);
    NoneThere();
    EncodedShape(hrp, values + cs);
    SymbolsOfChars(values + cs);
    assert (values + cs)[..|values|] == values;
  }

  lemma NoneThere()
    ensures forall p :: !Any([], p)
  {
  }

  /** Encoding what was decoded gives back the text, in lower case. */
  lemma EncodedDecoded(t: Text)
    requires Decoded(t).Valid?
    ensures var r := Decoded(t);
      Encoded(r.encoding, r.hrp, r.data) == Lowered(t) && AreSymbols(r.data)
  {
    hide Checksum, LastSeparator, Verifies, Any, Chars, SymbolsOf, Lowered;
    var r, pos := Decoded(t), LastSeparator(t);
    var values := SymbolsOf(t[pos + 1..]);
    CharsOfSymbols(t[pos + 1..]);
    var cs := values[|values| - 6..];
    assert values == r.data + cs;
    ChecksumVerifies(r.encoding, r.hrp, r.data);
    LoweredParts(t, pos);
  }

  /** The places where two texts differ, but for case. */
  function Misread(t: Text, u: Text): set<nat>
    requires |t| == |u|
  {
    set p: nat | p < |t| && LowerCase(t[p]) != LowerCase(u[p])
  }

  /** Two different texts that are both valid, of the same encoding and readable part, differ in four places at least:
      with up to three wrong characters a text is not taken for another one. */
  lemma ValidTextsApart(t: Text, u: Text)
    requires Decoded(t).Valid? && Decoded(u).Valid? && |t| == |u| && Lowered(t) != Lowered(u)
    requires Decoded(t).encoding == Decoded(u).encoding && Decoded(t).hrp == Decoded(u).hrp
    ensures |Misread(t, u)| >= 4
  {
    hide Any, Verifies, LowerCase, SymbolOf, Errors, Misread;
    var n := |Decoded(t).hrp| + 1;
    assert LastSeparator(t) == n - 1 == LastSeparator(u);
    var a, b := SymbolsOf(t[n..]), SymbolsOf(u[n..]);
    assert Verifies(Decoded(t).encoding, Decoded(t).hrp, a) && Verifies(Decoded(t).encoding, Decoded(t).hrp, b);
    CharsOfSymbols(t[n..]);
    CharsOfSymbols(u[n..]);
    LoweredParts(t, n - 1);
    LoweredParts(u, n - 1);
    assert a != b;
    MisreadSymbols(t, u, n);
    ErrorsBelow(a, b);
    if |Errors(a, b)| <= 3 { ThreeErrorsDetected(Decoded(t).encoding, Decoded(t).hrp, a, b); }
  }

  lemma MisreadSymbols(t: Text, u: Text, n: nat)
    requires n <= |t| == |u|
    ensures |Errors(SymbolsOf(t[n..]), SymbolsOf(u[n..]))| <= |Misread(t, u)|
  {
    hide LowerCase, Reversed;
    var a, b := SymbolsOf(t[n..]), SymbolsOf(u[n..]);
    forall p | p in Errors(a, b) ensures p + n in Misread(t, u) {
      assert t[n..][p] == t[p + n] && u[n..][p] == u[p + n];
    }
    ShiftedSize(Errors(a, b), Misread(t, u), n);
  }

  lemma {:induction false} ShiftedSize(d: set<nat>, e: set<nat>, n: nat)
    requires forall p | p in d :: p + n in e
    ensures |d| <= |e|
  {
    if d != {} {
      var p :| p in d;
      ShiftedSize(d - {p}, e - {p + n}, n);
    }
  }

  lemma LoweredParts(t: Text, pos: nat)
    requires pos < |t| && t[pos] == SEPARATOR
    ensures Lowered(t) == Lowered(t[..pos]) + [SEPARATOR] + Lowered(t[pos + 1..])
  {
  }

  // ---------------------------------------------------------------- the loops

  method PolyMod(v: Symbols) returns (c: bv32)
    ensures c == PolyModOf(v)
  {
    hide Step;
    c := 1;
    var i := 0;
    while i < |v|
      invariant i <= |v| && c == Fold(1, v[..i])
    {
      assert v[..i + 1][..i] == v[..i];
      c := Step(c, v[i]);
      i := i + 1;
    }
    assert v[..i] == v;
  }

  method ExpandHRP(hrp: Text) returns (ret: Symbols)
    ensures ret == Expanded(hrp)
  {
    hide High, Low;
    var n := |hrp|;
    var a := new bv8[2 * n + 1](_ => 0);
    var i := 0;
    while i < n
      invariant i <= n && a[n] == 0
      invariant forall j | 0 <= j < i :: a[j] == High(hrp[j]) && a[n + 1 + j] == Low(hrp[j])
    {
      a[i] := High(hrp[i]);
      a[i + n + 1] := Low(hrp[i]);
      i := i + 1;
    }
    a[n] := 0;
    ret := a[..];
  }

  method VerifyChecksum(hrp: Text, values: Symbols) returns (ok: bool, encoding: Encoding)
    ensures ok == (Verifies(BECH32, hrp, values) || Verifies(BECH32M, hrp, values))
    ensures ok ==> Verifies(encoding, hrp, values)
  {
    var expanded := ExpandHRP(hrp);
    var check := PolyMod(expanded + values);
    encoding := if check == EncodingConstant(BECH32) then BECH32 else BECH32M;
    ok := check == EncodingConstant(encoding);
  }

  method CreateChecksum(encoding: Encoding, hrp: Text, values: Symbols) returns (ret: Symbols)
    ensures ret == Checksum(encoding, hrp, values)
  {
    hide Fold, SymbolAt, Xor, Expanded;
    var enc := ExpandHRP(hrp);
    enc := enc + values;
    var check := PolyMod(enc + Zeros(6));
    FoldCat(1, Expanded(hrp) + values, Zeros(6));
    var mod := Xor(check, EncodingConstant(encoding));
    ret := [];
    var i := 0;
    while i < 6
      invariant i <= 6 && ret == Unpacked(mod)[..i]
    {
      ret := ret + [SymbolAt(mod, i)];
      i := i + 1;
    }
  }

  method Encode(encoding: Encoding, hrp: Text, values: Symbols) returns (ret: Text)
    requires !Any(hrp, IsUpper) && forall i | 0 <= i < |values| :: values[i] < 32
    ensures ret == Encoded(encoding, hrp, values)
  {
    hide Checksum, CharOf;
    var checksum := CreateChecksum(encoding, hrp, values);
    var combined := values + checksum;
    ret := hrp + [SEPARATOR];
    var i := 0;
    while i < |combined|
      invariant i <= |combined| && ret == hrp + [SEPARATOR] + Chars(combined)[..i]
    {
      ret := ret + [CharOf(combined[i])];
      i := i + 1;
    }
    assert Chars(combined)[..i] == Chars(combined);
  }

  /** Whether the text is printable and of one case. */
  method CheckCharacters(t: Text) returns (ok: bool)
    ensures ok == !(Any(t, NotPrintable) || (Any(t, IsLower) && Any(t, IsUpper)))
  {
    var lower, upper := false, false;
    var i := 0;
    while i < |t|
      invariant i <= |t| && forall j | 0 <= j < i :: !NotPrintable(t[j])
      invariant lower == (exists j :: 0 <= j < i && IsLower(t[j])) && upper == (exists j :: 0 <= j < i && IsUpper(t[j]))
    {
      var c := t[i];
      if IsLower(c) {
        lower := true;
      } else if IsUpper(c) {
        upper := true;
      } else if c < 33 || c > 126 {
        assert NotPrintable(t[i]);
        return false;
      }
      i := i + 1;
    }
    ok := !(lower && upper);
  }

  method FindLast(t: Text) returns (pos: int)
    ensures pos == LastSeparator(t)
  {
    pos := |t| - 1;
    while pos >= 0 && t[pos] != SEPARATOR
      invariant -1 <= pos < |t| && forall i | pos < i < |t| :: t[i] != SEPARATOR
    {
      pos := pos - 1;
    }
    if pos >= 0 { LastSeparatorIs(t, pos); }
  }

  method ReadSymbols(t: Text) returns (ok: bool, values: Symbols)
    ensures ok == !Any(t, NoSymbol) && (ok ==> values == SymbolsOf(t))
  {
    hide SymbolOf;
    values := [];
    var i := 0;
    while i < |t|
      invariant i <= |t| && values == SymbolsOf(t)[..i] && forall j | 0 <= j < i :: !NoSymbol(t[j])
    {
      var rev := SymbolOf(t[i]);
      if rev == NONE {
        assert NoSymbol(t[i]);
        return false, [];
      }
      values := values + [rev];
      i := i + 1;
    }
    ok := true;
  }

  method Decode(t: Text) returns (r: Result)
    ensures r == Decoded(t)
  {
    hide Any, SymbolsOf, LastSeparator, Verifies, LowerCase;
    var ok := CheckCharacters(t);
    if !ok {
      return Invalid;
    }
    var pos := FindLast(t);
    if |t| > 90 || pos == -1 || pos == 0 || pos + 7 > |t| {
      return Invalid;
    }
    var found, values := ReadSymbols(t[pos + 1..]);
    if !found {
      return Invalid;
    }
    var hrp: Text := [];
    var i := 0;
    while i < pos
      invariant i <= pos && hrp == Lowered(t[..pos])[..i]
    {
      hrp := hrp + [LowerCase(t[i])];
      i := i + 1;
    }
    assert hrp == Lowered(t[..pos]);
    var valid, encoding := VerifyChecksum(hrp, values);
    if !valid {
      return Invalid;
    }
    OneEncoding(hrp, values);
    assert encoding == BECH32 || encoding == BECH32M;
    r := Valid(encoding, hrp, values[..|values| - 6]);
  }

  lemma OneEncoding(hrp: Text, values: Symbols)
    ensures !(Verifies(BECH32, hrp, values) && Verifies(BECH32M, hrp, values))
  {
    hide Remainder;
  }
}
