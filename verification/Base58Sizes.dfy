/** The digit buffers of base 58 are large enough: powers of 58 against powers of 256. */
module Base58Sizes {
  import opened Numbers

  lemma {:induction false} Chunks(a: nat, b: nat, m: nat, n: nat, q: nat)
    requires a > 0 && b > 0 && Pow(a, m) <= Pow(b, n)
    ensures m * q >= 0 && n * q >= 0 && Pow(a, m * q) <= Pow(b, n * q)
    decreases q
  {
    MulNonneg(m, q);
    MulNonneg(n, q);
    if q > 0 {
      Chunks(a, b, m, n, q - 1);
      assert m * q == m + m * (q - 1) && n * q == n + n * (q - 1);
      PowAdd(a, m, m * (q - 1));
      PowAdd(b, n, n * (q - 1));
      ProductLe(Pow(a, m), Pow(b, n), Pow(a, m * (q - 1)), Pow(b, n * (q - 1)));
    }
  }

  lemma ProductLe(a: nat, b: nat, c: nat, d: nat)
    requires a <= b && c <= d
    ensures a * c <= b * d
  {
    MulMono(a, b, c);
    MulMono(c, d, b);
  }

  lemma Joined(a: nat, b: nat, m: nat, n: nat, m': nat, n': nat)
    requires Pow(a, m) <= Pow(b, n) && Pow(a, m') <= Pow(b, n')
    ensures Pow(a, m + m') <= Pow(b, n + n')
  {
    PowAdd(a, m, m');
    PowAdd(b, n, n');
    ProductLe(Pow(a, m), Pow(b, n), Pow(a, m'), Pow(b, n'));
  }

  lemma Powers58()
    ensures Pow(58, 0) == 1
    ensures Pow(58, 1) == 58
    ensures Pow(58, 2) == 3364
    ensures Pow(58, 3) == 195112
    ensures Pow(58, 4) == 11316496
    ensures Pow(58, 5) == 656356768
    ensures Pow(58, 6) == 38068692544
    ensures Pow(58, 7) == 2207984167552
    ensures Pow(58, 8) == 128063081718016
    ensures Pow(58, 9) == 7427658739644928
    ensures Pow(58, 10) == 430804206899405824
    ensures Pow(58, 11) == 24986644000165537792
    ensures Pow(58, 12) == 1449225352009601191936
    ensures Pow(58, 13) == 84055070416556869132288
    ensures Pow(58, 14) == 4875194084160298409672704
    ensures Pow(58, 15) == 282761256881297307761016832
  {
    PowAdd(58, 0, 2);
    PowAdd(58, 0, 3);
    PowAdd(58, 0, 4);
    PowAdd(58, 0, 5);
    PowAdd(58, 0, 6);
    PowAdd(58, 0, 7);
    PowAdd(58, 0, 8);
    PowAdd(58, 0, 9);
    PowAdd(58, 0, 10);
    PowAdd(58, 0, 11);
    PowAdd(58, 0, 12);
    PowAdd(58, 0, 13);
    PowAdd(58, 0, 14);
    PowAdd(58, 0, 15);
  }

  lemma Powers256()
    ensures Pow(256, 0) == 1
    ensures Pow(256, 1) == 256
    ensures Pow(256, 2) == 65536
    ensures Pow(256, 3) == 16777216
    ensures Pow(256, 4) == 4294967296
    ensures Pow(256, 5) == 1099511627776
    ensures Pow(256, 6) == 281474976710656
    ensures Pow(256, 7) == 72057594037927936
    ensures Pow(256, 8) == 18446744073709551616
    ensures Pow(256, 9) == 4722366482869645213696
    ensures Pow(256, 10) == 1208925819614629174706176
    ensures Pow(256, 11) == 309485009821345068724781056
  {
    PowAdd(256, 0, 2);
    PowAdd(256, 0, 3);
    PowAdd(256, 0, 4);
    PowAdd(256, 0, 5);
    PowAdd(256, 0, 6);
    PowAdd(256, 0, 7);
    PowAdd(256, 0, 8);
    PowAdd(256, 0, 9);
    PowAdd(256, 0, 10);
    PowAdd(256, 0, 11);
  }

  /** 58^71 < 256^52: the ratio behind 733 / 1000. */
  lemma Ratio71()
    ensures Pow(58, 71) <= Pow(256, 52)
  {
    hide Pow;
    Powers58();
    Powers256();
    PowAdd(58, 14, 14);
    PowAdd(58, 28, 28);
    PowAdd(58, 56, 15);
    PowAdd(256, 10, 10);
    PowAdd(256, 20, 20);
    PowAdd(256, 40, 10);
    PowAdd(256, 50, 2);
  }

  function Rest256(r: nat): nat
    requires r < 8
  {
    [0, 2, 3, 5, 6, 7, 9, 10][r]
  }

  lemma Rest256Fits(r: nat)
    requires r < 8
    ensures Pow(256, r) <= Pow(58, Rest256(r)) && Rest256(r) <= r * 138 / 100 + 1
  {
    hide Pow;
    Powers58();
    Powers256();
    assert r == 0 || r == 1 || r == 2 || r == 3 || r == 4 || r == 5 || r == 6 || r == 7;
  }

  /** Any n bytes fit in n * 138 / 100 + 1 digits of base 58. */
  lemma EncodeSize(n: nat)
    ensures Pow(256, n) <= Pow(58, n * 138 / 100 + 1)
  {
    hide Pow, Rest256;
    var q, r := n / 8, n % 8;
    Powers58();
    Powers256();
    Chunks(256, 58, 8, 11, q);
    Rest256Fits(r);
    Joined(256, 58, 8 * q, 11 * q, r, Rest256(r));
    PowMono(58, 11 * q + Rest256(r), n * 138 / 100 + 1);
  }

  function Rest58(t: nat): nat
    requires t < 15
  {
    [0, 1, 2, 3, 3, 4, 5, 6, 6, 7, 8, 9, 9, 10, 11][t]
  }

  lemma Rest58Fits(t: nat)
    requires t < 15
    ensures Pow(58, t) <= Pow(256, Rest58(t)) && 1000 * Rest58(t) <= 733 * t - 25 + 1000
  {
    hide Pow;
    Powers58();
    Powers256();
    assert t == 0 || t == 1 || t == 2 || t == 3 || t == 4 || t == 5 || t == 6 || t == 7
        || t == 8 || t == 9 || t == 10 || t == 11 || t == 12 || t == 13 || t == 14;
  }

  lemma DecodeRatio(n: nat, q: nat, s: nat, t: nat, c: nat)
    requires n == 86 * q + 15 * s + t && s <= 5 && 1000 * c <= 733 * t - 25 + 1000
    ensures 63 * q + (11 * s + c) <= n * 733 / 1000 + 1
  {
  }

  /** Any n digits of base 58 fit in n * 733 / 1000 + 1 bytes. */
  lemma DecodeSize(n: nat)
    ensures Pow(58, n) <= Pow(256, n * 733 / 1000 + 1)
  {
    hide Pow, Rest58;
    var q, r := n / 86, n % 86;
    var s, t := r / 15, r % 15;
    Powers58();
    Powers256();
    Ratio71();
    Joined(58, 256, 71, 52, 15, 11);
    Chunks(58, 256, 86, 63, q);
    Chunks(58, 256, 15, 11, s);
    Rest58Fits(t);
    Joined(58, 256, 15 * s, 11 * s, t, Rest58(t));
    Joined(58, 256, 86 * q, 63 * q, r, 11 * s + Rest58(t));
    DecodeRatio(n, q, s, t, Rest58(t));
    PowMono(256, 63 * q + (11 * s + Rest58(t)), n * 733 / 1000 + 1);
  }
}
