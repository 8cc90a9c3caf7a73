/** Unsigned integers of any number of 32-bit limbs, updated in place limb by limb. */
module WideInt {
  import opened Numbers
  import opened Limbs
  import opened LimbShifts

  class BaseUint {
    const pn: array<Limb>

    ghost function Value(): nat
      reads pn
    {
      Val(pn[..])
    }

    ghost function Modulus(): nat {
      Size(pn.Length)
    }

    constructor (width: nat)
      requires width > 0
      ensures fresh(pn) && pn.Length == width && Value() == 0
    {
      pn := new Limb[width](_ => 0);
      new;
      ValZeros(pn[..]);
    }

    constructor Copy(b: BaseUint)
      ensures fresh(pn) && pn[..] == b.pn[..]
    {
      var limbs := new Limb[b.pn.Length];
      var i := 0;
      while i < limbs.Length
        invariant i <= limbs.Length && limbs[..i] == b.pn[..i]
      {
        limbs[i] := b.pn[i];
        i := i + 1;
      }
      pn := limbs;
    }

    method Assign(b: BaseUint)
      requires b.pn.Length == pn.Length
      modifies pn
      ensures pn[..] == old(b.pn[..])
    {
      var i := 0;
      while i < pn.Length
        invariant i <= pn.Length && pn[..i] == old(b.pn[..i])
        invariant b.pn[i..] == old(b.pn[i..])
      {
        pn[i] := b.pn[i];
        i := i + 1;
      }
    }

    method AssignWord(b: Uint64)
      requires pn.Length >= 2
      modifies pn
      ensures Value() == b
    {
      pn[0], pn[1] := b % BASE, b / BASE;
      var i := 2;
      while i < pn.Length
        invariant 2 <= i <= pn.Length && pn[0] == b % BASE && pn[1] == b / BASE
        invariant forall j | 2 <= j < i :: pn[j] == 0
      {
        pn[i] := 0;
        i := i + 1;
      }
      ValLow(pn[..]);
    }

    /** *this += b, also when b is this very number. */
    method Add(b: BaseUint)
      requires b.pn.Length == pn.Length
      modifies pn
      ensures Value() == (old(Value()) + old(b.Value())) % Modulus()
    {
      hide Val, Size;
      ghost var x, y := pn[..], b.pn[..];
      var carry: Uint64, i := 0, 0;
      ValZeros([]);
      while i < pn.Length
        invariant i <= pn.Length && carry <= 1 && pn[i..] == x[i..] && b.pn[i..] == y[i..]
        invariant Val(pn[..i]) + carry * Size(i) == Val(x[..i]) + Val(y[..i])
      {
        var n: Uint64 := carry + pn[i] + b.pn[i];
        assert b.pn[i] == b.pn[i..][0] && pn[i] == pn[i..][0];
        ghost var before := pn[..i];
        ghost var t: nat := (x[i] as int) + y[i];
        CarryStep(Val(pn[..i]), carry, Val(x[..i]) + Val(y[..i]), n, i, t);
        assert t * Size(i) == x[i] * Size(i) + y[i] * Size(i);
        ValSnoc(x, i);
        ValSnoc(y, i);
        pn[i] := n % BASE;
        carry := n / BASE;
        assert pn[..][..i] == before;
        ValSnoc(pn[..], i);
        i := i + 1;
      }
      assert pn[..i] == pn[..] && x[..i] == x && y[..i] == y;
      ValBound(pn[..]);
      Wrapped(Value(), carry, Modulus(), Val(x) + Val(y));
    }

    /** The bitwise complement. */
    method Complement() returns (ret: BaseUint)
      ensures fresh(ret) && fresh(ret.pn) && ret.pn.Length == pn.Length
      ensures ret.Value() == Modulus() - 1 - Value()
    {
      hide Val, Size;
      if pn.Length == 0 {
        ret := new BaseUint.Copy(this);
        ValZeros(ret.pn[..]);
        SizeNext(0);
        return;
      }
      ret := new BaseUint(pn.Length);
      var i := 0;
      ValZeros([]);
      SizeNext(0);
      while i < pn.Length
        invariant i <= pn.Length
        invariant Val(ret.pn[..i]) + Val(pn[..i]) == Size(i) - 1
      {
        ghost var before := ret.pn[..i];
        ret.pn[i] := BASE - 1 - pn[i];
        assert ret.pn[..][..i] == before && pn[..][..i] == pn[..i];
        ValSnoc(ret.pn[..], i);
        ValSnoc(pn[..], i);
        SizeNext(i);
        assert (BASE - 1 - pn[i]) * Size(i) + pn[i] * Size(i) == (BASE - 1) * Size(i);
        i := i + 1;
      }
      assert ret.pn[..i] == ret.pn[..] && pn[..i] == pn[..];
    }

    /** ++*this */
    method Increment()
      modifies pn
      ensures Value() == (old(Value()) + 1) % Modulus()
    {
      hide Val, Size;
      ghost var x := pn[..];
      var i := 0;
      ValZeros([]);
      SizeNext(0);
      ValBound(x);
      while i < pn.Length
        invariant i <= pn.Length && pn[i..] == x[i..]
        invariant Val(pn[..i]) + Size(i) == Val(x[..i]) + 1
      {
        ghost var before := pn[..i];
        assert x[i] == x[i..][0] == pn[i];
        pn[i] := if pn[i] == BASE - 1 then 0 else pn[i] + 1;
        assert pn[..][..i] == before;
        ValSnoc(pn[..], i);
        ValSnoc(x, i);
        SizeNext(i);
        if pn[i] != 0 {
          assert ((x[i] as int) + 1) * Size(i) == x[i] * Size(i) + Size(i);
          SameTail(pn[..], x, i + 1);
          ValBound(pn[..]);
          Wrapped(Value(), 0, Modulus(), Val(x) + 1);
          return;
        }
        assert (BASE - 1) * Size(i) == BASE * Size(i) - Size(i);
        i := i + 1;
      }
      assert pn[..i] == pn[..] && x[..i] == x;
      ValBound(pn[..]);
      Wrapped(Value(), 1, Modulus(), Val(x) + 1);
    }

    /** --*this */
    method Decrement()
      modifies pn
      ensures Value() == (old(Value()) - 1) % Modulus()
    {
      hide Val, Size;
      ghost var x := pn[..];
      var i := 0;
      ValZeros([]);
      SizeNext(0);
      while i < pn.Length
        invariant i <= pn.Length && pn[i..] == x[i..]
        invariant Val(pn[..i]) + 1 == Val(x[..i]) + Size(i)
      {
        ghost var before := pn[..i];
        assert x[i] == x[i..][0] == pn[i];
        pn[i] := if pn[i] == 0 then BASE - 1 else pn[i] - 1;
        assert pn[..][..i] == before;
        ValSnoc(pn[..], i);
        ValSnoc(x, i);
        SizeNext(i);
        if pn[i] != BASE - 1 {
          assert ((x[i] as int) - 1) * Size(i) == x[i] * Size(i) - Size(i);
          SameTail(pn[..], x, i + 1);
          ValBound(pn[..]);
          Wrapped(Value(), 0, Modulus(), Val(x) - 1);
          return;
        }
        assert (BASE - 1) * Size(i) == BASE * Size(i) - Size(i);
        i := i + 1;
      }
      assert pn[..i] == pn[..] && x[..i] == x;
      ValBound(pn[..]);
      Wrapped(Value(), -1, Modulus(), Val(x) - 1);
    }

    method Negate() returns (ret: BaseUint)
      ensures fresh(ret) && fresh(ret.pn) && ret.pn.Length == pn.Length
      ensures ret.Value() == (0 - (Value() as int)) % Modulus()
    {
      hide Val, Size;
      ret := Complement();
      ret.Increment();
      NegMod(Value(), Modulus());
    }

    method Sub(b: BaseUint)
      requires b.pn.Length == pn.Length
      modifies pn
      ensures Value() == (old(Value()) - old(b.Value())) % Modulus()
    {
      hide Val, Size;
      ghost var x, y, m := Value(), b.Value(), Modulus();
      var n := b.Negate();
      Add(n);
      SubMod(x, y, m);
    }

    method MulWord(b: Limb)
      modifies pn
      ensures Value() == old(Value()) * b % Modulus()
    {
      hide Val, Size;
      ghost var x := pn[..];
      var carry: Uint64, i := 0, 0;
      ValZeros([]);
      while i < pn.Length
        invariant i <= pn.Length && carry < BASE && pn[i..] == x[i..]
        invariant Val(pn[..i]) + carry * Size(i) == Val(x[..i]) * b
      {
        assert x[i] == x[i..][0] == pn[i];
        ProductFits(carry, 0, b, pn[i]);
        var n: Uint64 := carry + (b as int) * pn[i];
        ghost var before := pn[..i];
        CarryStep(Val(pn[..i]), carry, Val(x[..i]) * b, n, i, (b as int) * x[i]);
        pn[i] := n % BASE;
        carry := n / BASE;
        assert pn[..][..i] == before;
        ValSnoc(pn[..], i);
        ValSnoc(x, i);
        WordTerm(Val(x[..i]), x[i], Size(i), b);
        i := i + 1;
      }
      assert pn[..i] == pn[..] && x[..i] == x;
      ValBound(pn[..]);
      Wrapped(Value(), carry, Modulus(), Val(x) * b);
    }

    /** *this *= b, the low limbs of the schoolbook product. */
    method Mul(b: BaseUint)
      requires b.pn.Length == pn.Length > 0
      modifies pn
      ensures Value() == old(Value()) * old(b.Value()) % Modulus()
    {
      hide Val, Size;
      ghost var x, y := pn[..], b.pn[..];
      var a := new BaseUint(pn.Length);
      ghost var q := 0;
      var j := 0;
      ValZeros([]);
      while j < pn.Length
        invariant j <= pn.Length && fresh(a) && fresh(a.pn) && a.pn.Length == pn.Length && pn[..] == x && b.pn[..] == y
        invariant Val(a.pn[..]) + q * Size(|x|) == Val(x[..j]) * Val(y)
      {
        ghost var s := a.pn[..];
        var carry := a.AddRow(pn[j], b, j);
        MulRow(Val(s), q, Val(a.pn[..]), carry, x, y, j);
        q := carry + q + x[j] * Val(y[|y| - j..]);
        j := j + 1;
      }
      assert x[..j] == x;
      Assign(a);
      ValBound(pn[..]);
      Wrapped(Value(), q, Modulus(), Val(x) * Val(y));
    }

    /** Adds w times the low limbs of b at limb j: the inner loop of the product. */
    method AddRow(w: Limb, b: BaseUint, j: nat) returns (carry: Uint64)
      requires b.pn.Length == pn.Length && b.pn != pn && j < pn.Length
      modifies pn
      ensures Val(pn[..]) + carry * Size(pn.Length) == old(Val(pn[..])) + w * Size(j) * Val(b.pn[..pn.Length - j])
    {
      hide Val, Size;
      ghost var s, y := pn[..], b.pn[..];
      carry := 0;
      var i := 0;
      ValZeros([]);
      ghost var row := 0;
      while i + j < pn.Length
        invariant i + j <= pn.Length && carry < BASE && pn[i + j..] == s[i + j..] && b.pn[..] == y
        invariant row == w * Size(j) * Val(y[..i])
        invariant Val(pn[..i + j]) + carry * Size(i + j) == Val(s[..i + j]) + row
      {
        ghost var m := i + j;
        assert s[m] == s[m..][0] == pn[m];
        ProductFits(carry, pn[m], w, b.pn[i]);
        var n: Uint64 := carry + pn[i + j] + (w as int) * b.pn[i];
        ghost var before := pn[..m];
        CarryStep(Val(pn[..m]), carry, Val(s[..m]) + row, n, m, (s[m] as int) + (w as int) * y[i]);
        pn[i + j] := n % BASE;
        carry := n / BASE;
        assert pn[..][..m] == before;
        ValSnoc(pn[..], m);
        row := RowNext(w, s, y, i, j, row);
        i := i + 1;
      }
      assert pn[..i + j] == pn[..] && s[..i + j] == s;
    }

    method Clear()
      modifies pn
      ensures forall i | 0 <= i < pn.Length :: pn[i] == 0
      ensures Value() == 0
    {
      var i := 0;
      while i < pn.Length
        invariant i <= pn.Length && forall j | 0 <= j < i :: pn[j] == 0
      {
        pn[i] := 0;
        i := i + 1;
      }
      ValZeros(pn[..]);
    }

    /** One round of the left shift, for the limb w that starts at limb m. */
    method ShlWrite(w: Limb, m: nat, r: nat)
      requires r < 32
      requires var lo, hi := (w as int) * Two(r) % BASE, (w as int) / Two(32 - r);
        && hi < BASE && (m < pn.Length ==> (pn[m] as int) + lo < BASE && BitOr(pn[m], lo) == (pn[m] as int) + lo)
        && (m + 1 < pn.Length ==> BitOr(pn[m + 1], hi) == hi && (r == 0 ==> hi == 0 == pn[m + 1]))
      modifies pn
      ensures pn[..] == ShlRound(old(pn[..]), m, (w as int) / Two(32 - r), (w as int) * Two(r) % BASE)
    {
      hide Two, BitOr;
      var lo, hi := (w as int) * Two(r) % BASE, (w as int) / Two(32 - r);
      if m + 1 < pn.Length && r != 0 {
        pn[m + 1] := BitOr(pn[m + 1], hi);
      }
      if m < pn.Length {
        pn[m] := BitOr(pn[m], lo);
      }
    }

    /** One round of the right shift, for limb i. */
    method ShrWrite(w: Limb, i: nat, k: nat, r: nat)
      requires r < 32 && i < pn.Length
      requires var lo, hi := (w as int) * Two(32 - r) % BASE, (w as int) / Two(r);
        && hi < BASE && (i >= k ==> BitOr(pn[i - k], hi) == hi)
        && (i > k ==> (pn[i - k - 1] as int) + lo < BASE && BitOr(pn[i - k - 1], lo) == (pn[i - k - 1] as int) + lo
                      && (r == 0 ==> lo == 0))
      modifies pn
      ensures pn[..] == ShrRound(old(pn[..]), i, k, (w as int) / Two(r), (w as int) * Two(32 - r) % BASE)
    {
      hide Two, BitOr;
      var lo, hi := (w as int) * Two(32 - r) % BASE, (w as int) / Two(r);
      if i > k && r != 0 {
        pn[i - k - 1] := BitOr(pn[i - k - 1], lo);
      }
      if i >= k {
        pn[i - k] := BitOr(pn[i - k], hi);
      }
    }

    method ShlRoundIn(w: Limb, i: nat, k: nat, r: nat, ghost x: seq<Limb>, ghost q: nat) returns (ghost q': nat)
      requires i < |x| == pn.Length && x[i] == w && ShlInv(pn[..], x, i, k, r, q)
      modifies pn
      ensures ShlInv(pn[..], x, i + 1, k, r, q')
    {
      ghost var s := pn[..];
      q' := ShlStep(s, x, i, k, r, q);
      ShlOr(s, x, i, k, r);
      assert r < 32;
      hide Val, Size, Two, Factor, BitOr, ShlRound, ShlInv;
      ShlWrite(w, i + k, r);
    }

    method ShrRoundIn(w: Limb, i: nat, k: nat, r: nat, ghost x: seq<Limb>, ghost rem: nat) returns (ghost rem': nat)
      requires i < |x| == pn.Length && x[i] == w && ShrInv(pn[..], x, i, k, r, rem)
      modifies pn
      ensures ShrInv(pn[..], x, i + 1, k, r, rem')
    {
      ghost var s := pn[..];
      ShrOr(s, x, i, k, r, rem);
      assert r < 32;
      hide Val, Size, Two, Factor, BitOr, ShrRound, ShrInv;
      ShrLimb(w, r);
      ghost var hi, lo, t := (w as int) / Two(r), (w as int) * Two(32 - r) % BASE, (w as int) % Two(r);
      rem' := ShrStep(s, x, i, k, r, rem, hi, lo, t);
      hide ShrParts;
      ShrWrite(w, i, k, r);
    }

    /** *this <<= shift */
    method ShiftLeft(shift: nat)
      modifies pn
      ensures Value() == old(Value()) * Two(shift) % Modulus()
    {
      hide Val, Size, Two, Factor, BitOr, ShlRound;
      ghost var x := pn[..];
      var a := new BaseUint.Copy(this);
      Clear();
      var k, r := shift / 32, shift % 32;
      ghost var q := 0;
      var i := 0;
      ShlStart(pn[..], x, k, r);
      while i < pn.Length
        invariant i <= pn.Length && fresh(a.pn) && a.pn[..] == x
        invariant ShlInv(pn[..], x, i, k, r, q)
      {
        hide ShlInv;
        q := ShlRoundIn(a.pn[i], i, k, r, x, q);
        i := i + 1;
      }
      assert x[..i] == x;
      FactorIsPow(shift);
      ValBound(pn[..]);
      Wrapped(Value(), q, Modulus(), Val(x) * Two(shift));
    }

    /** *this >>= shift */
    method ShiftRight(shift: nat)
      modifies pn
      ensures Value() == old(Value()) / Two(shift)
    {
      hide Val, Size, Two, Factor, BitOr, ShrRound;
      ghost var x := pn[..];
      var a := new BaseUint.Copy(this);
      Clear();
      var k, r := shift / 32, shift % 32;
      ghost var rem := 0;
      var i := 0;
      ShrStart(pn[..], x, k, r);
      while i < pn.Length
        invariant i <= pn.Length && fresh(a.pn) && a.pn[..] == x
        invariant ShrInv(pn[..], x, i, k, r, rem)
      {
        hide ShrInv, ShrParts;
        rem := ShrRoundIn(a.pn[i], i, k, r, x, rem);
        i := i + 1;
      }
      ShrEnd(pn[..], x, k, r, rem);
      FactorIsPow(shift);
      DivModUnique(Val(x), Two(shift), Value(), rem);
    }

    /** -1, 0 or 1 as this is less than, equal to or greater than b. */
    method CompareTo(b: BaseUint) returns (c: int)
      requires b.pn.Length == pn.Length
      ensures c == if Value() < b.Value() then -1 else if Value() > b.Value() then 1 else 0
    {
      hide Val;
      var i := pn.Length;
      while i > 0
        invariant 0 <= i <= pn.Length && pn[i..] == b.pn[i..]
      {
        i := i - 1;
        if pn[i] < b.pn[i] {
          Larger(pn[..], b.pn[..], i);
          return -1;
        }
        if pn[i] > b.pn[i] {
          Larger(b.pn[..], pn[..], i);
          return 1;
        }
      }
      assert pn[..] == pn[0..] && b.pn[..] == b.pn[0..];
      return 0;
    }

    method EqualTo(b: Uint64) returns (eq: bool)
      requires pn.Length >= 2
      ensures eq == (Value() == b)
    {
      hide Val, Size;
      var i := pn.Length;
      while i > 2
        invariant 2 <= i <= pn.Length && forall j | i <= j < pn.Length :: pn[j] == 0
      {
        i := i - 1;
        if pn[i] != 0 {
          AtLeast(pn[..], i);
          SizeAdd(2, i - 2);
          SizeNext(0);
          SizeNext(1);
          MulMono(1, Size(i - 2), Size(2));
          MulMono(1, pn[i], Size(i));
          return false;
        }
      }
      ValLow(pn[..]);
      return pn[1] == b / BASE && pn[0] == b % BASE;
    }

    /** The position of the highest bit set plus one, or zero. */
    method Bits() returns (n: nat)
      ensures if Value() == 0 then n == 0 else 0 < n <= 32 * pn.Length && Two(n - 1) <= Value() < Two(n)
    {
      hide Val, Size, Two;
      var pos := pn.Length;
      while pos > 0
        invariant 0 <= pos <= pn.Length && forall j | pos <= j < pn.Length :: pn[j] == 0
      {
        pos := pos - 1;
        if pn[pos] != 0 {
          var nbits := HighBit(pn[pos]);
          TopBit(pn[..], pos, nbits);
          return 32 * pos + nbits + 1;
        }
      }
      ValZeros(pn[..]);
      return 0;
    }

    /** *this /= b; false stands for the exception on division by zero. */
    method Div(b: BaseUint) returns (ok: bool)
      requires b.pn.Length == pn.Length > 0
      modifies pn
      ensures ok == (old(b.Value()) != 0)
      ensures Value() == if ok then old(Value()) / old(b.Value()) else 0
    {
      hide Val, Size, Two, BitOr, LowClear;
      var div := new BaseUint.Copy(b);
      var num := new BaseUint.Copy(this);
      ghost var N, D, M := num.Value(), div.Value(), Modulus();
      ValBound(num.pn[..]);
      Clear();
      var numBits := num.Bits();
      var divBits := div.Bits();
      if divBits == 0 {
        return false;
      }
      if divBits > numBits {
        TwoMono(numBits, divBits - 1);
        TwoNext(0);
        DivModUnique(N, D, 0, N);
        return true;
      }
      var shift: int := numBits - divBits;
      Aligned(N, D, numBits, divBits, M, pn.Length);
      div.ShiftLeft(shift);
      LowClearZero(pn[..], shift + 1);
      while shift >= 0
        invariant -1 <= shift < 32 * pn.Length && fresh(div.pn) && fresh(num.pn)
        invariant div.pn.Length == num.pn.Length == pn.Length && div.pn != num.pn && Modulus() == M
        invariant N == Value() * D + num.Value() && num.Value() < D * Two(shift + 1)
        invariant shift >= 0 ==> div.Value() == D * Two(shift)
        invariant LowClear(pn[..], shift + 1)
      {
        DivRound(num, div, shift, D);
        shift := shift - 1;
      }
      TwoNext(0);
      DivModUnique(N, D, Value(), num.Value());
      return true;
    }

    /** One bit of the quotient. */
    method DivRound(num: BaseUint, div: BaseUint, shift: nat, ghost D: nat)
      requires num.pn.Length == div.pn.Length == pn.Length && num.pn != pn && div.pn != pn && num.pn != div.pn
      requires shift < 32 * pn.Length && LowClear(pn[..], shift + 1)
      requires div.Value() == D * Two(shift) && num.Value() < D * Two(shift + 1)
      modifies pn, num.pn, div.pn
      ensures Value() * D + num.Value() == old(Value() * D + num.Value())
      ensures LowClear(pn[..], shift) && num.Value() < D * Two(shift)
      ensures shift > 0 ==> div.Value() == D * Two(shift - 1)
    {
      DivBit(num, div, shift, D);
      hide Val, Size, Two;
      DivHalves(D, shift);
      div.ShiftRight(1);
    }

    /** Subtracts the shifted divisor if it fits, and sets the bit. */
    method DivBit(num: BaseUint, div: BaseUint, shift: nat, ghost D: nat)
      requires num.pn.Length == div.pn.Length == pn.Length && num.pn != pn && div.pn != pn && num.pn != div.pn
      requires shift < 32 * pn.Length && LowClear(pn[..], shift + 1)
      requires div.Value() == D * Two(shift) && num.Value() < D * Two(shift + 1)
      modifies pn, num.pn
      ensures Value() * D + num.Value() == old(Value() * D + num.Value())
      ensures LowClear(pn[..], shift) && num.Value() < D * Two(shift)
    {
      hide Val, Size, Two, BitOr, LowClear;
      ghost var s := pn[..];
      SetLow(s, shift);
      LowClearLess(s, shift);
      DivHalves(D, shift);
      ValBound(num.pn[..]);
      var c := num.CompareTo(div);
      if c >= 0 {
        ghost var r: nat := num.Value() - div.Value();
        num.Sub(div);
        DivModUnique(r, Modulus(), 0, r);
        pn[shift / 32] := BitOr(pn[shift / 32], Two(shift % 32));
        assert pn[..] == s[shift / 32 := (s[shift / 32] as int) + Two(shift % 32)];
        MulDist(Val(s), Two(shift), D);
      }
    }

    method GetLow64() returns (n: Uint64)
      requires pn.Length >= 2
      ensures n == Value() % 0x1_0000_0000_0000_0000
    {
      hide Val, Size, BitOr;
      var lo, hi := pn[0], pn[1];
      Pow32();
      OrDisjoint(hi, 32, lo);
      ValSplit(pn[..], 2);
      SizeNext(0);
      SizeNext(1);
      ValLow(pn[..2]);
      DivModUnique(Value(), Size(2), Val(pn[2..]), Val(pn[..2]));
      n := BitOr(lo, (hi as int) * BASE);
    }

    /** The low limbs of a wider number. */
    constructor Truncated(b: BaseUint, width: nat)
      requires width <= b.pn.Length
      ensures fresh(pn) && pn.Length == width && Value() == b.Value() % Size(width)
    {
      var limbs := new Limb[width];
      var i := 0;
      while i < width
        invariant i <= width && limbs[..i] == b.pn[..i]
      {
        limbs[i] := b.pn[i];
        i := i + 1;
      }
      pn := limbs;
      new;
      assert pn[..] == b.pn[..width];
      ValSplit(b.pn[..], width);
      ValBound(b.pn[..width]);
      DivModUnique(Val(b.pn[..]), Size(width), Val(b.pn[width..]), Val(b.pn[..width]));
    }
  }

  // ---------------------------------------------------------------- order and size

  lemma Larger(x: seq<Limb>, y: seq<Limb>, i: nat)
    requires i < |x| == |y| && x[i + 1..] == y[i + 1..] && x[i] < y[i]
    ensures Val(x) < Val(y)
  {
    hide Val, Size;
    SameTail(x, y, i + 1);
    ValSnoc(x, i);
    ValSnoc(y, i);
    ValBound(x[..i]);
    MulMono((x[i] as int) + 1, y[i], Size(i));
    assert ((x[i] as int) + 1) * Size(i) == x[i] * Size(i) + Size(i);
  }

  lemma AtLeast(s: seq<Limb>, i: nat)
    requires i < |s|
    ensures Val(s) >= s[i] * Size(i)
  {
    hide Val, Size;
    ValSplit(s, i + 1);
    ValSnoc(s, i);
    MulNonneg(Val(s[i + 1..]), Size(i + 1));
  }

  /** The highest bit of a nonzero limb. */
  method HighBit(w: Limb) returns (n: nat)
    requires w > 0
    ensures n < 32 && Two(n) <= w < Two(n + 1)
  {
    hide Two;
    n := 31;
    Pow32();
    assert Two(32) == BASE by { BitSplit(32); TwoNext(0); }
    while n > 0
      invariant n < 32 && w < Two(n + 1)
    {
      BitTest(w, Two(n), Two(n + 1)) by { TwoNext(n); }
      if w / Two(n) % 2 == 1 {
        return;
      }
      n := n - 1;
    }
    TwoNext(0);
  }

  lemma BitTest(w: nat, p: nat, p': nat)
    requires p > 0 && p' == 2 * p && w < p'
    ensures w / p % 2 == 1 <==> w >= p
  {
    if w >= p {
      DivModUnique(w, p, 1, w - p);
    } else {
      DivModUnique(w, p, 0, w);
    }
  }

  lemma TopBit(s: seq<Limb>, pos: nat, n: nat)
    requires pos < |s| && Two(n) <= s[pos] < Two(n + 1) && forall j | pos < j < |s| :: s[j] == 0
    ensures Two(32 * pos + n) <= Val(s) < Two(32 * pos + n + 1)
  {
    hide Val, Size, Two;
    ValSplit(s, pos + 1);
    ValZeros(s[pos + 1..]);
    ValSnoc(s, pos);
    ValBound(s[..pos]);
    SizeIsPow(pos);
    TwoAdd(n, 32 * pos);
    TwoAdd(n + 1, 32 * pos);
    MulMono(Two(n), s[pos], Size(pos));
    MulMono((s[pos] as int) + 1, Two(n + 1), Size(pos));
    assert ((s[pos] as int) + 1) * Size(pos) == s[pos] * Size(pos) + Size(pos);
  }

  lemma TwoMono(m: nat, n: nat)
    requires m <= n
    ensures Two(m) <= Two(n)
  {
    PowMono(2, m, n);
  }

  // ---------------------------------------------------------------- division

  /** Once the highest bits are aligned, the quotient fits below the shift. */
  lemma Aligned(N: nat, D: nat, numBits: nat, divBits: nat, M: nat, w: nat)
    requires 0 < divBits <= numBits <= 32 * w && M == Size(w)
    requires Two(divBits - 1) <= D < Two(divBits) && N < Two(numBits)
    ensures var shift := numBits - divBits;
      && N < D * Two(shift + 1) && D * Two(shift) % M == D * Two(shift) && D * Two(shift) >= 0
  {
    hide Two;
    var shift := numBits - divBits;
    TwoAdd(divBits - 1, shift + 1);
    MulMono(Two(divBits - 1), D, Two(shift + 1));
    TwoAdd(divBits, shift);
    MulLess(D, Two(divBits), Two(shift));
    TwoMono(numBits, 32 * w);
    SizeIsPow(w);
    MulNonneg(D, Two(shift));
    DivModUnique(D * Two(shift), M, 0, D * Two(shift));
  }

  lemma MulDist(q: int, p: int, D: int)
    ensures (q + p) * D == q * D + D * p
  {
  }

  lemma DivHalves(D: nat, shift: nat)
    ensures D * Two(shift + 1) == D * Two(shift) + D * Two(shift) && Two(1) == 2
    ensures shift > 0 ==> D * Two(shift) >= 0 && D * Two(shift) / 2 == D * Two(shift - 1)
  {
    hide Two;
    TwoNext(shift);
    TwoNext(0);
    assert D * (2 * Two(shift)) == D * Two(shift) + D * Two(shift);
    if shift > 0 {
      TwoNext(shift - 1);
      MulNonneg(D, Two(shift - 1));
      assert D * (2 * Two(shift - 1)) == 2 * (D * Two(shift - 1));
    }
  }

  /** The low n bits are clear. */
  ghost predicate LowClear(s: seq<Limb>, n: nat) {
    forall m | 0 <= m < |s| ::
      && (32 * (m + 1) <= n ==> s[m] == 0)
      && (32 * m <= n < 32 * (m + 1) ==> (s[m] as int) % Two(n - 32 * m) == 0)
  }

  lemma LowClearZero(s: seq<Limb>, n: nat)
    requires forall m | 0 <= m < |s| :: s[m] == 0
    ensures LowClear(s, n)
  {
  }

  lemma EvenMultiple(x: nat, p: nat, p': nat)
    requires p > 0 && p' == 2 * p && x % p' == 0
    ensures x % p == 0
  {
    var c := x / p';
    assert x == p' * c && (2 * p) * c == (2 * c) * p;
    DivModUnique(x, p, 2 * c, 0);
  }

  lemma LowClearLess(s: seq<Limb>, n: nat)
    requires LowClear(s, n + 1)
    ensures LowClear(s, n)
  {
    hide Two;
    forall m | 0 <= m < |s| && 32 * m <= n < 32 * (m + 1) ensures (s[m] as int) % Two(n - 32 * m) == 0 {
      if n + 1 < 32 * (m + 1) {
        TwoNext(n - 32 * m);
        assert n + 1 - 32 * m == n - 32 * m + 1;
        EvenMultiple(s[m], Two(n - 32 * m), Two(n - 32 * m + 1));
      }
    }
  }

  /** Setting bit n above which the quotient has been found. */
  lemma SetLow(s: seq<Limb>, n: nat)
    requires LowClear(s, n + 1) && n < 32 * |s|
    ensures var m, p := n / 32, Two(n % 32);
      && (s[m] as int) + p < BASE && BitOr(s[m], p) == (s[m] as int) + p
      && LowClear(s[m := (s[m] as int) + p], n) && Val(s[m := (s[m] as int) + p]) == Val(s) + Two(n)
  {
    hide Two, BitOr, Val, Size;
    var m, j := n / 32, n % 32;
    var p := Two(j);
    var c := SetLimb(s, n);
    TwoNext(j);
    LowClearLess(s, n);
    ValSet(s, m, (s[m] as int) + p);
    SizeIsPow(m);
    TwoAdd(j, 32 * m);
    var s' := s[m := (s[m] as int) + p];
    assert (s[m] as int) + p == (2 * c + 1) * p by { assert c * (2 * p) == (2 * c) * p; }
    DivModUnique((s[m] as int) + p, p, 2 * c + 1, 0);
    forall i | 0 <= i < |s'|
      ensures (32 * (i + 1) <= n ==> s'[i] == 0) && (32 * i <= n < 32 * (i + 1) ==> (s'[i] as int) % Two(n - 32 * i) == 0)
    {
      assert i != m ==> s'[i] == s[i];
    }
  }

  lemma SetLimb(s: seq<Limb>, n: nat) returns (c: nat)
    requires LowClear(s, n + 1) && n < 32 * |s|
    ensures var m, j := n / 32, n % 32;
      && s[m] == c * Two(j + 1) && (s[m] as int) + Two(j) < BASE && BitOr(s[m], Two(j)) == (s[m] as int) + Two(j)
  {
    hide Two, BitOr;
    var m, j := n / 32, n % 32;
    TwoNext(j);
    BitSplit(j + 1);
    c := if j == 31 then 0 else (s[m] as int) / Two(j + 1);
    assert s[m] == c * Two(j + 1) by {
      assert j == 31 ==> s[m] == 0;
      assert j < 31 ==> (s[m] as int) % Two(j + 1) == 0;
    }
    RoomBelow(c, Two(j + 1), Two(31 - j));
    TwoIs(j);
    TwoIs(j + 1);
    OrDisjoint(c, j + 1, Two(j));
  }

  lemma RoomBelow(c: nat, d: nat, e: nat)
    requires d > 0 && d * e == BASE && c * d < BASE
    ensures c * d + d <= BASE
  {
    MulCancel(c, e, d);
    MulMono(c + 1, e, d);
    assert (c + 1) * d == c * d + d;
  }

  lemma TwoIs(n: nat)
    ensures Two(n) == Pow(2, n)
  {
  }

  // ---------------------------------------------------------------- shifts

  lemma ShlStart(s: seq<Limb>, x: seq<Limb>, k: nat, r: nat)
    requires |s| == |x| && r < 32 && forall i | 0 <= i < |s| :: s[i] == 0
    ensures ShlInv(s, x, 0, k, r, 0)
  {
    hide Factor, Two;
    ValZeros(s);
  }


  /** The bits or-ed in by one round meet only zeros. */
  lemma ShlOr(s: seq<Limb>, x: seq<Limb>, i: nat, k: nat, r: nat)
    requires exists q :: ShlInv(s, x, i, k, r, q)
    requires i < |x|
    ensures var lo, hi := (x[i] as int) * Two(r) % BASE, (x[i] as int) / Two(32 - r);
      && (i + k + 1 < |s| ==> BitOr(s[i + k + 1], hi) == hi && (r == 0 ==> hi == 0 == s[i + k + 1]))
      && (i + k < |s| ==> BitOr(s[i + k], lo) == (s[i + k] as int) + lo)
  {
    hide BitOr, Factor, Val, Size;
    BitSplit(r);
    ShlLimb(x[i], Two(r), Two(32 - r));
    OrZero((x[i] as int) / Two(32 - r));
    TwoNext(0);
    if i + k < |s| {
      OrDisjoint((x[i] as int) % Two(32 - r), r, s[i + k]);
    }
  }

  lemma ShrStart(s: seq<Limb>, x: seq<Limb>, k: nat, r: nat)
    requires |s| == |x| && r < 32 && forall i | 0 <= i < |s| :: s[i] == 0
    ensures ShrInv(s, x, 0, k, r, 0)
  {
    hide Factor, Two;
    ValZeros(s);
  }


  lemma ShrOr(s: seq<Limb>, x: seq<Limb>, i: nat, k: nat, r: nat, rem: nat)
    requires ShrInv(s, x, i, k, r, rem) && i < |x|
    ensures var lo, hi := (x[i] as int) * Two(32 - r) % BASE, (x[i] as int) / Two(r);
      && (i > k ==> BitOr(s[i - k - 1], lo) == (s[i - k - 1] as int) + lo && (r == 0 ==> lo == 0))
      && (i >= k ==> BitOr(s[i - k], hi) == hi)
  {
    hide BitOr, Factor, Val, Size;
    ShrLimb(x[i], r);
    TwoNext(0);
    OrZero((x[i] as int) / Two(r));
    if i > k {
      OrDisjoint((x[i] as int) % Two(r), 32 - r, s[i - k - 1]);
    }
  }

  lemma ShrEnd(s: seq<Limb>, x: seq<Limb>, k: nat, r: nat, rem: nat)
    requires ShrInv(s, x, |x|, k, r, rem)
    ensures Val(s) * Factor(k, r) + rem == Val(x) && rem < Factor(k, r)
  {
    hide Val, Size, Two;
    assert x[..|x|] == x;
    if |x| <= k {
      SizeAdd(|x|, k - |x|);
      MulMono(1, Size(k - |x|), Size(|x|));
      MulMono(1, Two(r), Size(k));
    }
  }

  lemma NegMod(v: int, m: nat)
    requires m > 0
    ensures (m - 1 - v + 1) % m == (0 - v) % m
  {
    var c := m - v;
    assert c == c / m * m + c % m && (c / m - 1) * m == c / m * m - m;
    Wrapped(c % m, c / m - 1, m, 0 - v);
  }

  lemma SubMod(x: int, y: int, m: nat)
    requires m > 0
    ensures (x + (0 - y) % m) % m == (x - y) % m
  {
    var n := (0 - y) % m;
    var v := (x + n) % m;
    assert 0 - y == (0 - y) / m * m + n && x + n == (x + n) / m * m + v;
    assert ((0 - y) / m + (x + n) / m) * m == (0 - y) / m * m + (x + n) / m * m;
    Wrapped(v, (0 - y) / m + (x + n) / m, m, x - y);
  }

  /** A product of limbs with two more limbs added fits in 64 bits, and its high part in 32. */
  lemma ProductFits(a: nat, b: nat, x: Limb, y: Limb)
    requires a < BASE && b < BASE
    ensures a + b + (x as int) * y < 0x1_0000_0000_0000_0000
  {
    MulMono(x, BASE - 1, y);
    MulMono(y, BASE - 1, BASE - 1);
  }

  lemma WordTerm(v: int, t: int, p: int, b: int)
    ensures (v + t * p) * b == v * b + b * t * p
  {
    assert t * p * b == b * t * p;
  }

  lemma RowTerm(w: int, p: int, v: int, t: int, r: int, s: int, pr: int)
    requires pr == p * r
    ensures w * p * (v + t * r) == w * p * v + w * t * pr
    ensures (s + w * t) * pr == s * pr + w * t * pr
  {
    assert w * p * (t * r) == w * t * (p * r);
  }

  lemma RowNext(w: Limb, s: seq<Limb>, y: seq<Limb>, i: nat, j: nat, row: int) returns (row': int)
    requires i + j < |s| == |y| && row == w * Size(j) * Val(y[..i])
    ensures row' == w * Size(j) * Val(y[..i + 1])
    ensures Val(s[..i + j + 1]) + row' == Val(s[..i + j]) + row + ((s[i + j] as int) + (w as int) * y[i]) * Size(i + j)
  {
    hide Val, Size;
    row' := w * Size(j) * Val(y[..i + 1]);
    ValSnoc(s, i + j);
    ValSnoc(y, i);
    SizeAdd(j, i);
    RowTerm(w, Size(j), Val(y[..i]), y[i], Size(i), s[i + j], Size(i + j));
  }

  /** One more row of the product; what falls beyond the top limb is a multiple of the modulus. */
  lemma MulRow(v: nat, q: int, v': nat, carry: nat, x: seq<Limb>, y: seq<Limb>, j: nat)
    requires j < |x| == |y|
    requires v + q * Size(|x|) == Val(x[..j]) * Val(y)
    requires v' + carry * Size(|x|) == v + x[j] * Size(j) * Val(y[..|y| - j])
    ensures v' + (carry + q + x[j] * Val(y[|y| - j..])) * Size(|x|) == Val(x[..j + 1]) * Val(y)
  {
    hide Val, Size;
    ValSnoc(x, j);
    ValSplit(y, |y| - j);
    SizeAdd(j, |y| - j);
    var w, p, lo, hi, r, m := x[j], Size(j), Val(y[..|y| - j]), Val(y[|y| - j..]), Size(|y| - j), Size(|x|);
    RowTerm(w, p, lo, hi, r, 0, m);
    assert (Val(x[..j]) + w * p) * Val(y) == Val(x[..j]) * Val(y) + w * p * Val(y);
    assert (carry + q + w * hi) * m == carry * m + q * m + w * hi * m;
  }

  lemma SameTail(s: seq<Limb>, x: seq<Limb>, i: nat)
    requires i <= |s| == |x| && s[i..] == x[i..]
    ensures Val(s) - Val(s[..i]) == Val(x) - Val(x[..i])
  {
    ValSplit(s, i);
    ValSplit(x, i);
  }

  lemma ValLow(s: seq<Limb>)
    requires |s| >= 2 && forall i | 2 <= i < |s| :: s[i] == 0
    ensures Val(s) == s[0] + BASE * s[1]
  {
    hide Val, Size;
    ValZeros([]);
    ValZeros(s[2..]);
    ValSplit(s, 2);
    ValSnoc(s, 1);
    ValSnoc(s, 0);
    SizeNext(0);
    assert s[..0] == [];
  }
}
