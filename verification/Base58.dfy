/** Base 58: byte strings as text without look-alike characters. */
module Base58 {
  import opened Basics
  import opened Numbers
  import opened Radix
  import opened Base58Sizes

  type Byte = x: nat | x < 256

  /** The value of a character, or -1. */
  function DigitOf(c: char): (d: int)
    ensures -1 <= d < 58
  {
    var n := c as int;
    if 49 <= n <= 57 then n - 49          // 1-9
    else if 65 <= n <= 72 then n - 56     // A-H
    else if 74 <= n <= 78 then n - 57     // J-N
    else if 80 <= n <= 90 then n - 58     // P-Z
    else if 97 <= n <= 107 then n - 64    // a-k
    else if 109 <= n <= 122 then n - 65   // m-z
    else -1
  }

  /** The character of a value: digits and letters in order, but for 0, I, O and l. */
  function CharOf(d: nat): char
    requires d < 58
  {
    (if d < 9 then d + 49
     else if d < 17 then d + 56
     else if d < 22 then d + 57
     else if d < 33 then d + 58
     else if d < 44 then d + 64
     else d + 65) as char
  }

  /** The alphabet and the table of values are inverse to each other. */
  lemma DigitOfChar(d: nat)
    requires d < 58
    ensures DigitOf(CharOf(d)) == d
  {
  }

  lemma CharOfDigit(c: char)
    requires DigitOf(c) >= 0
    ensures CharOf(DigitOf(c)) == c
  {
  }

  predicate IsSpace(c: char) {
    c == ' ' || c == '\n' || c == '\r' || c == '\t' || c as int == 11 || c as int == 12
  }

  // ---------------------------------------------------------------- the shape of a text

  /** The length of the longest prefix all of whose elements satisfy p. */
  function Run<T>(s: seq<T>, p: T -> bool): (k: nat)
    ensures k <= |s| && (forall i | 0 <= i < k :: p(s[i])) && (k < |s| ==> !p(s[k]))
  {
    if s == [] || !p(s[0]) then 0 else 1 + Run(s[1..], p)
  }

  lemma RunIs<T>(s: seq<T>, p: T -> bool, k: nat)
    requires k <= |s| && (forall i | 0 <= i < k :: p(s[i])) && (k < |s| ==> !p(s[k]))
    ensures Run(s, p) == k
  {
  }

  predicate IsZero(b: Byte) { b == 0 }
  predicate IsOne(c: char) { c == '1' }
  predicate IsDigit(c: char) { DigitOf(c) >= 0 }
  predicate NotSpace(c: char) { !IsSpace(c) }

  ghost function Chars(d: seq<nat>): (s: string)
    requires AreDigits(d, 58)
    ensures |s| == |d|
  {
    seq(|d|, i requires 0 <= i < |d| => CharOf(d[i]))
  }

  ghost function Values(s: string): (d: seq<nat>)
    requires Run(s, IsDigit) == |s|
    ensures |d| == |s| && AreDigits(d, 58)
  {
    seq<nat>(|s|, i requires 0 <= i < |s| => DigitOf(s[i]))
  }

  ghost function Encoded(x: seq<Byte>): string {
    seq(Run(x, IsZero), _ => '1') + Chars(Digits(Num(x, 256), 58))
  }

  /** A text between spaces. */
  ghost function Trimmed(s: string): string {
    var t := s[Run(s, IsSpace)..];
    t[..Run(t, NotSpace)]
  }

  ghost predicate WellSpaced(s: string) {
    var t := s[Run(s, IsSpace)..];
    var u := t[Run(t, NotSpace)..];
    Run(u, IsSpace) == |u|
  }

  /** What a text without spaces stands for, if it is at most maxLen bytes; an empty text meets any limit. */
  ghost function Bytes(t: string, maxLen: int): Option<seq<nat>> {
    var z := Run(t, IsOne);
    var body := t[z..];
    if Run(body, IsDigit) < |body| then None
    else
      var d := Digits(Num(Values(body), 58), 256);
      if t != [] && z + |d| > maxLen then None else Some(seq(z, _ => 0) + d)
  }

  ghost function Decoded(s: string, maxLen: int): Option<seq<nat>> {
    if '\0' in s || !WellSpaced(s) then None else Bytes(Trimmed(s), maxLen)
  }

  // ---------------------------------------------------------------- round trips

  lemma DigitsNotSpace(c: char)
    ensures IsDigit(c) ==> !IsSpace(c) && c != '\0'
  {
  }

  lemma AllRun<T>(s: seq<T>, p: T -> bool)
    requires forall i | 0 <= i < |s| :: p(s[i])
    ensures Run(s, p) == |s|
  {
  }

  /** A text without spaces is its own trimmed form. */
  lemma Unspaced(s: string)
    requires Run(s, NotSpace) == |s|
    ensures WellSpaced(s) && Trimmed(s) == s
  {
    RunIs(s, IsSpace, 0) by { if s != [] { assert NotSpace(s[0]); } }
    assert s[0..] == s;
  }

  lemma CharsValues(d: seq<nat>)
    requires AreDigits(d, 58)
    ensures Run(Chars(d), IsDigit) == |d| && Values(Chars(d)) == d
  {
    hide CharOf, DigitOf;
    forall i | 0 <= i < |d| ensures DigitOf(Chars(d)[i]) == d[i] {
      DigitOfChar(d[i]);
    }
    AllRun(Chars(d), IsDigit);
  }

  lemma ValuesChars(s: string)
    requires Run(s, IsDigit) == |s|
    ensures Chars(Values(s)) == s
  {
    hide CharOf, DigitOf;
    forall i | 0 <= i < |s| ensures Chars(Values(s))[i] == s[i] {
      assert IsDigit(s[i]);
      CharOfDigit(s[i]);
    }
  }

  /** Zeros in front, then bytes that do not begin with one. */
  lemma SplitZeros(x: seq<Byte>)
    ensures var z := Run(x, IsZero);
      x == seq(z, _ => 0) + x[z..] && Num(x, 256) == Num(x[z..], 256) && Digits(Num(x, 256), 256) == x[z..]
  {
    hide Num, Digits;
    var z := Run(x, IsZero);
    assert forall i | 0 <= i < z :: IsZero(x[i]);
    assert x == seq(z, _ => 0) + x[z..];
    NumZeros(z, x[z..], 256);
    DigitsNum(x[z..], 256);
  }

  /** Decoding an encoding gives back the bytes, exactly if the limit admits them. */
  lemma DecodedEncoded(x: seq<Byte>, maxLen: int)
    ensures Decoded(Encoded(x), maxLen) == if x == [] || |x| <= maxLen then Some(x) else None
  {
    hide Num, Digits, CharOf, DigitOf, IsSpace, Run;
    var z, d := Run(x, IsZero), Digits(Num(x, 256), 58);
    var s := Encoded(x);
    assert s == seq(z, _ => '1') + Chars(d);
    AllDigitsText(z, d);
    Unspaced(s);
    assert s[z..] == Chars(d);
    CharsValues(d);
    NumDigits(Num(x, 256), 58);
    SplitZeros(x);
    DigitsZero(Num(x, 256), 58);
    DigitsZero(Num(x, 256), 256);
  }

  /** Ones and then digits that do not begin with one. */
  lemma AllDigitsText(z: nat, d: seq<nat>)
    requires AreDigits(d, 58) && (d != [] ==> d[0] != 0)
    ensures var s := seq(z, _ => '1') + Chars(d);
      '\0' !in s && Run(s, NotSpace) == |s| && Run(s, IsOne) == z
  {
    hide CharOf, DigitOf, IsSpace, Run;
    var s := seq(z, _ => '1') + Chars(d);
    DigitOfOne();
    forall i | 0 <= i < |s| ensures NotSpace(s[i]) && s[i] != '\0' {
      if i >= z { DigitOfChar(d[i - z]); }
      DigitsNotSpace(s[i]);
    }
    AllRun(s, NotSpace);
    if d != [] { DigitOfChar(d[0]); }
    RunIs(s, IsOne, z);
  }

  lemma DigitOfOne()
    ensures DigitOf('1') == 0 && CharOf(0) == '1'
  {
  }

  lemma NoDigits(body: string)
    requires body == []
    ensures Run(body, IsDigit) == 0 && Digits(Num(Values(body), 58), 256) == []
  {
    NumEmpty(58);
    DigitsZero(0, 256);
  }

  /** Encoding a decoded text gives back the text between the spaces. */
  lemma EncodedDecoded(s: string, maxLen: int, x: seq<Byte>)
    requires Decoded(s, maxLen) == Some(x)
    ensures Encoded(x) == Trimmed(s) && (x != [] ==> |x| <= maxLen)
  {
    hide Num, Digits, CharOf, DigitOf, IsSpace, Run;
    var t := Trimmed(s);
    var z := Run(t, IsOne);
    var body := t[z..];
    var n := Num(Values(body), 58);
    var d := Digits(n, 256);
    if body == [] { NoDigits(body); }
    assert x == seq(z, _ => 0) + d;
    RunIs(x, IsZero, z);
    NumZeros(z, d, 256);
    NumDigits(n, 256);
    if body != [] {
      assert !IsOne(body[0]) && IsDigit(body[0]);
      CharOfDigit(body[0]);
      DigitOfOne();
    }
    DigitsNum(Values(body), 58);
    ValuesChars(body);
    assert t == seq(z, _ => '1') + body by {
      assert forall i | 0 <= i < z :: IsOne(t[i]);
    }
  }

  /** A limit below zero admits blank texts only. */
  lemma NegativeLimit(s: string, maxLen: int)
    requires maxLen < 0
    ensures Decoded(s, maxLen) != None <==> '\0' !in s && Run(s, IsSpace) == |s|
    ensures Decoded(s, maxLen) != None ==> Decoded(s, maxLen) == Some([])
  {
    hide Bytes, IsSpace, Run;
    BytesNegative(Trimmed(s), maxLen);
    var p := Run(s, IsSpace);
    if p < |s| {
      assert s[p..][0] == s[p] && NotSpace(s[p]);
      RunPositive(s[p..], NotSpace);
    }
  }

  lemma BytesNegative(t: string, maxLen: int)
    requires maxLen < 0
    ensures Bytes(t, maxLen) == if t == [] then Some([]) else None
  {
    hide Num, Digits, DigitOf, Run;
    if t == [] {
      var z := Run(t, IsOne);
      NoDigits(t[z..]);
      assert seq<nat>(z, _ => 0) + [] == [];
    }
  }

  lemma RunPositive<T>(s: seq<T>, p: T -> bool)
    requires s != [] && p(s[0])
    ensures Run(s, p) > 0
  {
  }

  // ---------------------------------------------------------------- the conversions

  method EncodeBase58(input: seq<Byte>) returns (str: string)
    ensures str == Encoded(input)
  {
    hide Num, Digits, Run, Holds;
    var zeroes := 0;
    while zeroes < |input| && input[zeroes] == 0
      invariant zeroes <= |input| && forall i | 0 <= i < zeroes :: IsZero(input[i])
    {
      zeroes := zeroes + 1;
    }
    RunIs(input, IsZero, zeroes);
    SplitZeros(input);
    var b58, length := ToBase58(input[zeroes..]);
    str := Translate(b58, length, zeroes, Num(input, 256));
  }

  method ToBase58(input: seq<Byte>) returns (b58: array<nat>, length: nat)
    ensures Holds(b58[..], 58, Num(input, 256), length)
  {
    hide Num, Digits, Pow, Holds;
    b58 := new nat[|input| * 138 / 100 + 1](_ => 0);
    HoldsNothing(b58[..], 58);
    length := 0;
    var k := 0;
    NumEmpty(256);
    while k < |input|
      invariant k <= |input| && fresh(b58) && b58.Length == |input| * 138 / 100 + 1
      invariant Holds(b58[..], 58, Num(input[..k], 256), length)
    {
      EncodeRoom(input, k, b58.Length);
      length := MulAdd(b58, 58, 256, input[k], length, Num(input[..k], 256));
      k := k + 1;
    }
    assert input[..k] == input;
  }

  method SkipZeros(b58: array<nat>, from: nat) returns (it: nat)
    requires from <= b58.Length
    ensures from <= it <= b58.Length && (it < b58.Length ==> b58[it] != 0)
    ensures forall j | from <= j < it :: b58[j] == 0
  {
    it := from;
    while it < b58.Length && b58[it] == 0
      invariant from <= it <= b58.Length && forall j | from <= j < it :: b58[j] == 0
    {
      it := it + 1;
    }
  }

  /** Ones for the leading zero bytes, then the digits past any leading zeros. */
  method Translate(b58: array<nat>, length: nat, zeroes: nat, ghost n: nat) returns (str: string)
    requires Holds(b58[..], 58, n, length)
    ensures str == seq(zeroes, _ => '1') + Chars(Digits(n, 58))
  {
    hide Digits, CharOf;
    ghost var d := Digits(n, 58);
    var it := SkipZeros(b58, b58.Length - length);
    assert length > 0 ==> b58[b58.Length - length] == b58[b58.Length - length..][0] == d[0];
    str := seq(zeroes, _ => '1');
    var k := 0;
    while k < length
      invariant k <= length && str == seq(zeroes, _ => '1') + Chars(d)[..k]
    {
      assert b58[it..][k] == b58[it + k] == d[k];
      str := str + [CharOf(b58[it + k])];
      k := k + 1;
    }
    assert Chars(d)[..|d|] == Chars(d);
  }

  lemma HoldsNothing(d: seq<nat>, base: nat)
    requires base >= 2 && forall i | 0 <= i < |d| :: d[i] == 0
    ensures Holds(d, base, 0, 0)
  {
    assert d[|d|..] == [];
  }

  lemma NumEmpty(base: nat)
    ensures Num([], base) == 0
  {
  }

  /** The buffer has room for the bytes up to the k-th. */
  lemma EncodeRoom(x: seq<Byte>, k: nat, size: nat)
    requires k < |x| && size == |x| * 138 / 100 + 1
    ensures Num(x[..k + 1], 256) == Num(x[..k], 256) * 256 + x[k] < Pow(58, size)
  {
    hide Pow;
    assert x[..k + 1][..k] == x[..k];
    NumBound(x[..k + 1], 256);
    PowMono(256, k + 1, |x|);
    EncodeSize(|x|);
  }

  method DecodeBase58(s: string, maxLen: int) returns (r: Option<seq<nat>>)
    ensures r == Decoded(s, maxLen)
  {
    if '\0' in s {
      return None;
    }
    r := DecodeCString(s, maxLen);
  }

  /** Past the characters from `from` on that satisfy p. */
  method Skip(s: string, p: char -> bool, from: nat) returns (e: nat)
    requires from <= |s|
    ensures e == from + Run(s[from..], p) <= |s|
  {
    hide Run;
    e := from;
    while e < |s| && p(s[e])
      invariant from <= e <= |s| && forall i | from <= i < e :: p(s[i])
    {
      e := e + 1;
    }
    RunIs(s[from..], p, e - from);
  }

  method DecodeCString(s: string, maxLen: int) returns (r: Option<seq<nat>>)
    requires '\0' !in s
    ensures r == Decoded(s, maxLen)
  {
    hide Num, Digits, Run, IsSpace, DigitOf, Decoded, Values;
    var p := Skip(s, IsSpace, 0);
    assert s[0..] == s;
    var ones := Skip(s, IsOne, p);
    var zeroes := ones - p;
    ghost var u := s[ones..];
    ghost var m := Run(u, NotSpace);
    DecodedParts(s, p, zeroes, maxLen);
    if zeroes > 0 && zeroes > maxLen {
      return None;
    }
    var ok, bytes := DecodeBody(s, ones, zeroes, maxLen);
    if !ok {
      return None;
    }
    var q := Skip(s, NotSpace, ones);
    var e := Skip(s, IsSpace, q);
    assert s[q..] == u[m..];
    if e < |s| {
      return None;
    }
    r := Some(seq(zeroes, _ => 0) + bytes);
  }

  /** The characters up to a space, as a number, as long as it is not too long. */
  method DecodeBody(s: string, from: nat, zeroes: nat, maxLen: int) returns (ok: bool, bytes: seq<nat>)
    requires from <= |s| && (zeroes > 0 ==> zeroes <= maxLen)
    ensures var body := s[from..][..Run(s[from..], NotSpace)];
      && ok == (Run(body, IsDigit) == |body| && (body != [] ==> zeroes + |Digits(Num(Values(body), 58), 256)| <= maxLen))
      && (ok ==> bytes == Digits(Num(Values(body), 58), 256))
  {
    hide Num, Digits, Pow, Run, IsSpace, DigitOf, Values, Holds;
    ghost var u := s[from..];
    ghost var m := Run(u, NotSpace);
    ghost var body := u[..m];
    var b256 := new nat[(|s| - from) * 733 / 1000 + 1](_ => 0);
    HoldsNothing(b256[..], 256);
    var length: nat := 0;
    bytes := [];
    var k := 0;
    ValuesNone(body);
    while from + k < |s| && !IsSpace(s[from + k])
      invariant 0 <= k <= m && Run(body[..k], IsDigit) == k && fresh(b256) && b256.Length == (|s| - from) * 733 / 1000 + 1
      invariant Holds(b256[..], 256, Num(Values(body[..k]), 58), length) && (k > 0 ==> zeroes + length <= maxLen)
    {
      assert u[k] == s[from + k] && NotSpace(u[k]) && k < m && body[k] == u[k];
      var carry := DigitOf(s[from + k]);
      if carry == -1 {
        assert !IsDigit(body[k]);
        return false, [];
      }
      DecodeRoom(body, k, |s| - from);
      length := MulAdd(b256, 256, 58, carry, length, Num(Values(body[..k]), 58));
      k := k + 1;
      if length + zeroes > maxLen {
        TooLong(b256[..], body, k, length);
        return false, [];
      }
    }
    assert k < |u| ==> !NotSpace(u[k]);
    assert k == m && body[..m] == body;
    HeldBytes(b256[..], Num(Values(body), 58), length);
    return true, b256[b256.Length - length..];
  }

  lemma HeldBytes(d: seq<nat>, n: nat, length: nat)
    requires Holds(d, 256, n, length)
    ensures length <= |d| && d[|d| - length..] == Digits(n, 256) && |Digits(n, 256)| == length
  {
  }

  /** Dropping a prefix that satisfies p. */
  lemma RunSkip<T>(s: seq<T>, p: T -> bool, z: nat)
    requires z <= |s| && forall i | 0 <= i < z :: p(s[i])
    ensures Run(s, p) == z + Run(s[z..], p)
  {
    hide Run;
    var k := Run(s[z..], p);
    assert forall i | 0 <= i < k :: p(s[z..][i]);
    forall i | 0 <= i < z + k ensures p(s[i]) {
      if i >= z { assert p(s[z..][i - z]); }
    }
    RunIs(s, p, z + k);
  }

  /** The text between the spaces: some ones and the rest. */
  lemma TrimmedParts(s: string, p: nat, z: nat)
    requires p == Run(s, IsSpace) && z == Run(s[p..], IsOne)
    ensures var u := s[p + z..];
      var m := Run(u, NotSpace);
      && Run(Trimmed(s), IsOne) == z && z <= |Trimmed(s)| && Trimmed(s)[z..] == u[..m]
      && (WellSpaced(s) <==> Run(u[m..], IsSpace) == |u[m..]|)
  {
    hide Run, IsSpace, IsOne;
    var t := s[p..];
    assert t[z..] == s[p + z..];
    OnesFirst(t, z);
  }

  /** Decoding, by parts. */
  lemma DecodedParts(s: string, p: nat, z: nat, maxLen: int)
    requires '\0' !in s && p == Run(s, IsSpace) && z == Run(s[p..], IsOne)
    ensures var u := s[p + z..]; var m := Run(u, NotSpace); var body := u[..m];
      && (body == [] ==> Run(body, IsDigit) == 0 && Digits(Num(Values(body), 58), 256) == [])
      && Decoded(s, maxLen) ==
           if Run(u[m..], IsSpace) != |u[m..]| || Run(body, IsDigit) != |body| then None
           else
             var d := Digits(Num(Values(body), 58), 256);
             if (z > 0 || body != []) && z + |d| > maxLen then None else Some(seq(z, _ => 0) + d)
  {
    hide Num, Digits, Run, IsSpace, DigitOf, Values, Trimmed, WellSpaced;
    TrimmedParts(s, p, z);
    var u := s[p + z..];
    var body := u[..Run(u, NotSpace)];
    if body == [] { NoDigits(body); }
  }

  lemma OnesFirst(t: string, z: nat)
    requires z == Run(t, IsOne)
    ensures var n, m := Run(t, NotSpace), Run(t[z..], NotSpace);
      && n == z + m && Run(t[..n], IsOne) == z && t[..n][z..] == t[z..][..m] && t[n..] == t[z..][m..]
  {
    hide Run;
    forall i | 0 <= i < z ensures NotSpace(t[i]) { assert IsOne(t[i]); }
    RunSkip(t, NotSpace, z);
    var n := Run(t, NotSpace);
    var w := t[..n];
    forall i | 0 <= i < z ensures IsOne(w[i]) { assert IsOne(t[i]); }
    RunIs(w, IsOne, z);
  }

  lemma ValuesNone(body: string)
    ensures Run(body[..0], IsDigit) == 0 && Num(Values(body[..0]), 58) == 0
  {
  }

  /** One more character, and room for it. */
  lemma DecodeRoom(body: string, k: nat, n: nat)
    requires k < |body| <= n && Run(body[..k], IsDigit) == k && IsDigit(body[k])
    ensures Run(body[..k + 1], IsDigit) == k + 1
    ensures Num(Values(body[..k + 1]), 58) == Num(Values(body[..k]), 58) * 58 + DigitOf(body[k]) < Pow(256, n * 733 / 1000 + 1)
  {
    hide Pow, Run, DigitOf, Num;
    var next := body[..k + 1];
    forall i | 0 <= i < |next| ensures IsDigit(next[i]) {
      assert i < k ==> next[i] == body[..k][i];
    }
    AllRun(next, IsDigit);
    assert Values(body[..k + 1]) == Values(body[..k]) + [DigitOf(body[k])];
    NumSnoc(Values(body[..k]), DigitOf(body[k]), 58);
    NumBound(Values(body[..k + 1]), 58);
    PowMono(58, k + 1, n);
    DecodeSize(n);
  }

  lemma {:induction false} NumPrefix(d: seq<nat>, k: nat, base: nat)
    requires k <= |d| && base >= 1
    ensures Num(d[..k], base) <= Num(d, base)
  {
    if k == |d| {
      assert d[..k] == d;
    } else {
      var h := d[..|d| - 1];
      NumPrefix(h, k, base);
      assert h[..k] == d[..k];
      MulMono(1, base, Num(h, base));
    }
  }

  /** A prefix that is too long already makes the whole too long. */
  lemma TooLong(b: seq<nat>, body: string, k: nat, length: nat)
    requires k <= |body| && Run(body[..k], IsDigit) == k && Holds(b, 256, Num(Values(body[..k]), 58), length)
    ensures Run(body, IsDigit) == |body| ==> |Digits(Num(Values(body), 58), 256)| >= length
  {
    hide Run, DigitOf, Num, Digits, Pow;
    if Run(body, IsDigit) == |body| {
      var d := Values(body);
      assert Values(body[..k]) == d[..k];
      NumPrefix(d, k, 58);
      DigitsLonger(Num(d[..k], 58), Num(d, 58), 256);
    }
  }

  lemma DigitsLonger(m: nat, n: nat, base: nat)
    requires base >= 2 && m <= n
    ensures |Digits(m, base)| <= |Digits(n, base)|
  {
    hide Digits, Pow;
    DigitsBound(m, base);
    DigitsBound(n, base);
    DigitsZero(m, base);
    if |Digits(n, base)| < |Digits(m, base)| {
      PowMono(base, |Digits(n, base)|, |Digits(m, base)| - 1);
    }
  }
}
