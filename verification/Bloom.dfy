/** The rolling Bloom filter: two bits per position tell in which of three generations it was last set. */
module Bloom {
  import opened Numbers
  import opened Bits
  import opened Words

  type Key = seq<bv8>

  /** The hash functions, by number and tweak. */
  type Hashes = (nat, bv32, Key) -> bv32

  // ---------------------------------------------------------------- tags

  /** The generation held by bit b of a pair of words, or 0. */
  function Tag(p1: bv64, p2: bv64, b: bv64): nat
    requires b < 64
  {
    (if Bit(p1, b) then 1 else 0) + if Bit(p2, b) then 2 else 0
  }

  function LowBit(generation: nat): bv64 { if generation % 2 == 1 then 1 else 0 }
  function HighBit(generation: nat): bv64 { if generation / 2 == 1 then 1 else 0 }

  function WipeMask(p1: bv64, p2: bv64, generation: nat): bv64 {
    Or(Xor(p1, Minus(LowBit(generation))), Xor(p2, Minus(HighBit(generation))))
  }

  /** Bit b of x set to v. */
  function Put(x: bv64, b: bv64, v: bv64): bv64
    requires b < 64
  {
    Or(And(x, Not(Shl(1, b))), Shl(v, b))
  }

  /** The mask clears exactly the bits tagged with the generation, in all 64 positions at once. */
  lemma WipedTag(p1: bv64, p2: bv64, generation: nat, b: bv64)
    requires b < 64 && 1 <= generation <= 3
    ensures var mask := WipeMask(p1, p2, generation);
      Tag(And(p1, mask), And(p2, mask), b) == if Tag(p1, p2, b) == generation then 0 else Tag(p1, p2, b)
  {
    hide Bit, And, Or, Xor, Minus;
    var m1, m2, mask := Minus(LowBit(generation)), Minus(HighBit(generation)), WipeMask(p1, p2, generation);
    BitOfMinus(LowBit(generation), b);
    BitOfMinus(HighBit(generation), b);
    BitOfXor(p1, m1, b);
    BitOfXor(p2, m2, b);
    BitOfOr(Xor(p1, m1), Xor(p2, m2), b);
    BitOfAnd(p1, mask, b);
    BitOfAnd(p2, mask, b);
  }

  lemma BitOfPut(x: bv64, k: bv64, v: bv64, b: bv64)
    requires b < 64 && k < 64 && v <= 1
    ensures Bit(Put(x, k, v), b) == if b == k then v == 1 else Bit(x, b)
  {
    hide Bit, And, Or, Not, Shl;
    BitOfShl(1, k, b);
    BitOfShl(v, k, b);
    BitOfNot(Shl(1, k), b);
    BitOfAnd(x, Not(Shl(1, k)), b);
    BitOfOr(And(x, Not(Shl(1, k))), Shl(v, k), b);
  }

  lemma PutTag(p1: bv64, p2: bv64, generation: nat, k: bv64, b: bv64)
    requires b < 64 && k < 64 && 1 <= generation <= 3
    ensures Tag(Put(p1, k, LowBit(generation)), Put(p2, k, HighBit(generation)), b)
         == if b == k then generation else Tag(p1, p2, b)
  {
    hide Bit, Put;
    BitOfPut(p1, k, LowBit(generation), b);
    BitOfPut(p2, k, HighBit(generation), b);
  }

  // ---------------------------------------------------------------- positions

  /** x as a fraction of 2^32, scaled to n. */
  function FastMod(x: bv32, n: nat): (r: nat)
    requires n > 0
    ensures r < n
  {
    MulMono(x as nat, 0xFFFF_FFFF, n);
    (x as nat) * n / 0x1_0000_0000
  }

  function BitOf(h: bv32): (b: bv64)
    ensures b < 64
  {
    Below64(h);
    (h & 0x3F) as bv64
  }

  lemma Below64(h: bv32)
    ensures (h & 0x3F) as bv64 < 64
  {
  }

  /** The generation a key's n-th hash finds in the filter. */
  ghost function TagAt(data: seq<bv64>, w: nat, b: bv64): nat
    requires 2 * w + 1 < |data| && b < 64
  {
    Tag(data[2 * w], data[2 * w + 1], b)
  }

  ghost predicate Paired(data: seq<bv64>) {
    |data| > 0 && |data| % 2 == 0
  }

  ghost function TagOf(data: seq<bv64>, h: bv32): nat
    requires Paired(data)
  {
    TagAt(data, FastMod(h, |data|) / 2, BitOf(h))
  }

  // ---------------------------------------------------------------- retention

  /** What the filter has been through since it was reset. */
  datatype History = History(hash: Hashes, tweak: bv32, funcs: nat, keys: seq<Key>,
                             generation: nat, thisGeneration: nat, perGeneration: nat)
  {
    /** The key is one of those the current and the two previous generations hold. */
    ghost predicate Holds(i: int) {
      0 <= i < |keys| && i + 2 * perGeneration + thisGeneration >= |keys|
    }

    /** The age of a key, in generation changes. */
    ghost function Age(i: int): nat {
      if i + thisGeneration >= |keys| then 0 else if i + thisGeneration + perGeneration >= |keys| then 1 else 2
    }

    /** How many generation changes ago `tag` was current. */
    ghost function Back(tag: nat): nat {
      (generation + 6 - tag) % 3
    }

    /** One of the key's hashes selects bit b of pair w, in a filter of the given size. */
    ghost predicate Hits(key: Key, size: nat, w: nat, b: bv64)
      requires size > 0
    {
      exists n :: 0 <= n < funcs && Selects(hash(n, tweak, key), size, w, b)
    }

    /** The tag was last written by a key of that age. */
    ghost predicate Explained(tag: nat, size: nat, w: nat, b: bv64)
      requires size > 0
    {
      tag != 0 ==> exists i :: Holds(i) && Age(i) == Back(tag) && Hits(keys[i], size, w, b)
    }
  }

  ghost predicate Selects(h: bv32, size: nat, w: nat, b: bv64)
    requires size > 0
  {
    w == FastMod(h, size) / 2 && b == BitOf(h)
  }

  /** Every key held is marked at all its positions, by itself or by a younger one. */
  ghost predicate Retained(data: seq<bv64>, t: History)
    requires Paired(data)
  {
    forall i, n | t.Holds(i) && 0 <= n < t.funcs ::
      var tag := TagOf(data, t.hash(n, t.tweak, t.keys[i])); 1 <= tag <= 3 && t.Back(tag) <= t.Age(i)
  }

  /** Every position that is marked is one of a key held. */
  ghost predicate Accounted(data: seq<bv64>, t: History)
    requires Paired(data)
  {
    forall w: nat, b: bv64 | 2 * w + 1 < |data| && b < 64 :: t.Explained(TagAt(data, w, b), |data|, w, b)
  }

  ghost predicate WipedFrom(data: seq<bv64>, data': seq<bv64>, generation: nat) {
    && |data'| == |data|
    && forall w: nat, b: bv64 | 2 * w + 1 < |data| && b < 64 ::
         TagAt(data', w, b) == if TagAt(data, w, b) == generation then 0 else TagAt(data, w, b)
  }

  /** The positions of the key's hashes are marked, and no others. */
  ghost predicate MarkedFrom(data: seq<bv64>, data': seq<bv64>, t: History, key: Key)
    requires Paired(data)
  {
    && |data'| == |data|
    && forall w: nat, b: bv64 | 2 * w + 1 < |data| && b < 64 ::
         TagAt(data', w, b) == if t.Hits(key, |data|, w, b) then t.generation else TagAt(data, w, b)
  }

  function NextGeneration(generation: nat): nat {
    if generation + 1 == 4 then 1 else generation + 1
  }

  ghost function Rotated(t: History): History {
    t.(generation := NextGeneration(t.generation), thisGeneration := 0)
  }

  ghost function Inserted(t: History, key: Key): History {
    t.(keys := t.keys + [key], thisGeneration := t.thisGeneration + 1)
  }

  lemma TagBound(data: seq<bv64>, w: nat, b: bv64)
    requires 2 * w + 1 < |data| && b < 64
    ensures TagAt(data, w, b) <= 3
  {
    hide Bit;
  }

  /** A full generation is followed by the next: every age but the oldest grows by one. */
  lemma RotatedAges(t: History, i: int, tag: nat)
    requires 1 <= t.generation <= 3 && 1 <= tag <= 3 && t.thisGeneration == t.perGeneration
    ensures tag != NextGeneration(t.generation) ==> t.Back(tag) < 2 && Rotated(t).Back(tag) == t.Back(tag) + 1
    ensures tag == NextGeneration(t.generation) ==> t.Back(tag) == 2
    ensures Rotated(t).Holds(i) <==> t.Holds(i) && t.Age(i) < 2
    ensures Rotated(t).Holds(i) ==> Rotated(t).Age(i) == t.Age(i) + 1
  {
  }

  /** Starting a generation wipes only keys from three changes ago. */
  lemma RotatedRetains(data: seq<bv64>, data': seq<bv64>, t: History)
    requires Paired(data) && 1 <= t.generation <= 3 && t.thisGeneration == t.perGeneration
    requires Retained(data, t) && WipedFrom(data, data', NextGeneration(t.generation))
    ensures Retained(data', Rotated(t))
  {
    hide Tag, FastMod, BitOf, TagAt;
    var t' := Rotated(t);
    forall i, n | t'.Holds(i) && 0 <= n < t'.funcs
      ensures var tag := TagOf(data', t'.hash(n, t'.tweak, t'.keys[i])); 1 <= tag <= 3 && t'.Back(tag) <= t'.Age(i)
    {
      var tag := TagOf(data, t.hash(n, t.tweak, t.keys[i]));
      RotatedAges(t, i, t.generation);
      RotatedAges(t, i, tag);
    }
  }

  lemma RotatedAccounted(data: seq<bv64>, data': seq<bv64>, t: History)
    requires Paired(data) && 1 <= t.generation <= 3 && t.thisGeneration == t.perGeneration
    requires Accounted(data, t) && WipedFrom(data, data', NextGeneration(t.generation))
    ensures Accounted(data', Rotated(t))
  {
    hide Tag, FastMod, BitOf, TagAt;
    var t' := Rotated(t);
    forall w: nat, b: bv64 | 2 * w + 1 < |data'| && b < 64
      ensures t'.Explained(TagAt(data', w, b), |data'|, w, b)
    {
      var tag := TagAt(data', w, b);
      TagBound(data', w, b);
      if tag != 0 {
        assert TagAt(data, w, b) == tag;
        var i :| t.Holds(i) && t.Age(i) == t.Back(tag) && t.Hits(t.keys[i], |data|, w, b);
        RotatedAges(t, i, tag);
        assert t'.Hits(t'.keys[i], |data'|, w, b);
      }
    }
  }

  /** Another key leaves the ages of the others as they are. */
  lemma InsertedAges(t: History, key: Key, i: int)
    ensures i < |t.keys| ==> (Inserted(t, key).Holds(i) <==> t.Holds(i)) && Inserted(t, key).Age(i) == t.Age(i)
    ensures Inserted(t, key).Holds(|t.keys|) && Inserted(t, key).Age(|t.keys|) == 0
  {
  }

  /** Marking more positions takes no key away. */
  lemma MarkedRetains(data: seq<bv64>, data': seq<bv64>, t: History, key: Key)
    requires Paired(data) && 1 <= t.generation <= 3
    requires Retained(data, t) && MarkedFrom(data, data', t, key)
    ensures Retained(data', Inserted(t, key))
  {
    hide Tag, FastMod, BitOf, TagAt;
    var t' := Inserted(t, key);
    forall i, n | t'.Holds(i) && 0 <= n < t'.funcs
      ensures var tag := TagOf(data', t'.hash(n, t'.tweak, t'.keys[i])); 1 <= tag <= 3 && t'.Back(tag) <= t'.Age(i)
    {
      InsertedAges(t, key, i);
      var h := t.hash(n, t.tweak, t'.keys[i]);
      var w, b := FastMod(h, |data|) / 2, BitOf(h);
      if i == |t.keys| {
        assert Selects(t.hash(n, t.tweak, key), |data|, w, b);
      } else if !t.Hits(key, |data|, w, b) {
        assert TagOf(data', h) == TagOf(data, t.hash(n, t.tweak, t.keys[i]));
      }
    }
  }

  lemma MarkedAccounted(data: seq<bv64>, data': seq<bv64>, t: History, key: Key)
    requires Paired(data) && 1 <= t.generation <= 3
    requires Accounted(data, t) && MarkedFrom(data, data', t, key)
    ensures Accounted(data', Inserted(t, key))
  {
    hide Tag, FastMod, BitOf, TagAt;
    var t' := Inserted(t, key);
    forall w: nat, b: bv64 | 2 * w + 1 < |data'| && b < 64
      ensures t'.Explained(TagAt(data', w, b), |data'|, w, b)
    {
      var tag := TagAt(data', w, b);
      if t.Hits(key, |data|, w, b) {
        InsertedAges(t, key, |t.keys|);
        assert t'.Hits(t'.keys[|t.keys|], |data'|, w, b);
      } else if tag != 0 {
        assert t.Explained(TagAt(data, w, b), |data|, w, b);
        var i :| t.Holds(i) && t.Age(i) == t.Back(tag) && t.Hits(t.keys[i], |data|, w, b);
        InsertedAges(t, key, i);
        assert t'.Hits(t'.keys[i], |data'|, w, b);
      }
    }
  }

  /** The filter is the plain Bloom filter of the keys it holds: exactly their positions are marked. */
  lemma MarkedExactly(data: seq<bv64>, t: History, w: nat, b: bv64)
    requires Paired(data) && Retained(data, t) && Accounted(data, t) && 2 * w + 1 < |data| && b < 64
    ensures TagAt(data, w, b) != 0 <==> exists i :: t.Holds(i) && t.Hits(t.keys[i], |data|, w, b)
  {
    hide Tag, FastMod, BitOf, TagAt;
    if i :| t.Holds(i) && t.Hits(t.keys[i], |data|, w, b) {
      var n :| 0 <= n < t.funcs && Selects(t.hash(n, t.tweak, t.keys[i]), |data|, w, b);
      assert TagOf(data, t.hash(n, t.tweak, t.keys[i])) == TagAt(data, w, b);
    }
    assert t.Explained(TagAt(data, w, b), |data|, w, b);
  }

  /** Entries per generation: half the number of elements, rounded up, in 32 bits. */
  function PerGeneration(nElements: nat): nat { (nElements + 1) % 0x1_0000_0000 / 2 }

  /** Two generations hold as many keys as asked for, except for the one number that wraps. */
  lemma TwoGenerationsSuffice(nElements: nat)
    requires nElements < 0x1_0000_0000
    ensures 2 * PerGeneration(nElements) >= nElements <==> nElements != 0xFFFF_FFFF
  {
  }

  /** Words for the given number of bits, two for each 64, in 32 bits. */
  function DataWords(nFilterBits: nat): nat { (nFilterBits + 63) % 0x1_0000_0000 / 64 * 2 }

  /** There are words at all exactly if there are bits and rounding up does not wrap. */
  lemma SomeWords(nFilterBits: nat)
    requires nFilterBits < 0x1_0000_0000
    ensures DataWords(nFilterBits) > 0 <==> 1 <= nFilterBits < 0x1_0000_0000 - 63
  {
  }

  class RollingBloomFilter {
    const hash: Hashes
    const nHashFuncs: nat
    const nEntriesPerGeneration: nat
    var nEntriesThisGeneration: nat
    var nGeneration: nat
    const data: array<bv64>
    var nTweak: bv32
    ghost const nElements: nat  // as many as the filter was made for
    ghost var keys: seq<Key>  // inserted since the last reset, in order

    ghost function Past(): History
      reads this
    {
      History(hash, nTweak, nHashFuncs, keys, nGeneration, nEntriesThisGeneration, nEntriesPerGeneration)
    }

    ghost predicate Valid()
      reads this, data
    {
      && nEntriesPerGeneration >= 1 && nEntriesThisGeneration <= nEntriesPerGeneration && 1 <= nGeneration <= 3
      && nElements <= 2 * nEntriesPerGeneration
      && Paired(data[..]) && Retained(data[..], Past()) && Accounted(data[..], Past())
    }

    /** The number of hash functions and of bits come from the false-positive rate. */
    constructor (hash: Hashes, nElements: nat, nHashFuncs: nat, nFilterBits: nat, nTweak: bv32)
      requires nElements < 0x1_0000_0000 && nFilterBits < 0x1_0000_0000
      ensures fresh(data) && keys == [] && this.nElements == nElements && data.Length == DataWords(nFilterBits)
      ensures Valid() <==> 1 <= nElements < 0xFFFF_FFFF && 1 <= nFilterBits < 0x1_0000_0000 - 63
    {
      hide Tag;
      this.hash, this.nHashFuncs, this.nElements := hash, nHashFuncs, nElements;
      nEntriesPerGeneration := PerGeneration(nElements);
      data := new bv64[DataWords(nFilterBits)](_ => 0);
      nEntriesThisGeneration, nGeneration, this.nTweak, keys := 0, 1, nTweak, [];
      new;
      TwoGenerationsSuffice(nElements);
      SomeWords(nFilterBits);
      if data.Length > 0 {
        NothingMarked(data[..], Past());
      }
    }

    method Reset(nTweak: bv32)
      requires Valid()
      modifies this, data
      ensures Valid() && keys == [] && forall i | 0 <= i < data.Length :: data[i] == 0
    {
      hide Tag;
      var i := 0;
      while i < data.Length
        invariant i <= data.Length && forall j | 0 <= j < i :: data[j] == 0
        modifies data
      {
        data[i] := 0;
        i := i + 1;
      }
      this.nTweak, nEntriesThisGeneration, nGeneration, keys := nTweak, 0, 1, [];
      NothingMarked(data[..], Past());
    }

    /** Clears exactly the positions tagged with the current generation. */
    method Wipe()
      requires data.Length % 2 == 0 && 1 <= nGeneration <= 3
      modifies data
      ensures forall w: nat, b: bv64 | 2 * w + 1 < data.Length && b < 64 ::
        TagAt(data[..], w, b) == if old(TagAt(data[..], w, b)) == nGeneration then 0 else old(TagAt(data[..], w, b))
    {
      hide Tag, WipeMask, And;
      ghost var was := data[..];
      var p := 0;
      while p < data.Length
        invariant 0 <= p <= data.Length && p % 2 == 0
        invariant forall j | p <= j < data.Length :: data[j] == was[j]
        invariant forall w: nat, b: bv64 | 2 * w + 1 < p && b < 64 ::
          TagAt(data[..], w, b) == if TagAt(was, w, b) == nGeneration then 0 else TagAt(was, w, b)
      {
        var p1, p2 := data[p], data[p + 1];
        var mask := WipeMask(p1, p2, nGeneration);
        forall b: bv64 | b < 64
          ensures Tag(And(p1, mask), And(p2, mask), b) == if Tag(p1, p2, b) == nGeneration then 0 else Tag(p1, p2, b)
        {
          WipedTag(p1, p2, nGeneration, b);
        }
        data[p] := And(p1, mask);
        data[p + 1] := And(p2, mask);
        p := p + 2;
      }
    }

    /** Tags the position of hash value h, and no other, with the current generation. */
    method Mark(h: bv32)
      requires Paired(data[..]) && 1 <= nGeneration <= 3
      modifies data
      ensures TagOf(data[..], h) == nGeneration
      ensures forall w: nat, b: bv64 | 2 * w + 1 < data.Length && b < 64 ::
        TagAt(data[..], w, b) == if w == FastMod(h, data.Length) / 2 && b == BitOf(h) then nGeneration else old(TagAt(data[..], w, b))
    {
      hide Tag, Put, LowBit, HighBit, BitOf, FastMod;
      var bit := BitOf(h);
      var pos := FastMod(h, data.Length);
      var w0 := pos / 2;
      ghost var p1, p2 := data[2 * w0], data[2 * w0 + 1];
      forall b: bv64 | b < 64
        ensures Tag(Put(p1, bit, LowBit(nGeneration)), Put(p2, bit, HighBit(nGeneration)), b)
             == if b == bit then nGeneration else Tag(p1, p2, b)
      {
        PutTag(p1, p2, nGeneration, bit, b);
      }
      data[2 * w0] := Put(data[2 * w0], bit, LowBit(nGeneration));
      data[2 * w0 + 1] := Put(data[2 * w0 + 1], bit, HighBit(nGeneration));
    }

    /** Makes room by starting a generation if the current one is full, and marks the key. */
    method Insert(key: Key)
      requires Valid()
      modifies this, data
      ensures Valid() && keys == old(keys) + [key] && nTweak == old(nTweak)
      ensures Past() == Inserted(if old(nEntriesThisGeneration) == nEntriesPerGeneration then Rotated(old(Past())) else old(Past()), key)
    {
      hide TagAt, Retained, Accounted, MarkedFrom, WipedFrom;
      if nEntriesThisGeneration == nEntriesPerGeneration {
        Rotate();
      }
      ghost var was := data[..];
      MarkAll(key);
      MarkedRetains(was, data[..], Past(), key);
      MarkedAccounted(was, data[..], Past(), key);
      nEntriesThisGeneration := nEntriesThisGeneration + 1;
      keys := keys + [key];
    }

    method Rotate()
      requires Valid() && nEntriesThisGeneration == nEntriesPerGeneration
      modifies this, data
      ensures Valid() && Past() == Rotated(old(Past()))
    {
      hide TagAt, Retained, Accounted;
      ghost var was, past := data[..], Past();
      nEntriesThisGeneration := 0;
      nGeneration := nGeneration + 1;
      if nGeneration == 4 {
        nGeneration := 1;
      }
      Wipe();
      RotatedRetains(was, data[..], past);
      RotatedAccounted(was, data[..], past);
    }

    /** Tags all positions of the key, and no others. */
    method MarkAll(key: Key)
      requires Paired(data[..]) && 1 <= nGeneration <= 3
      modifies data
      ensures MarkedFrom(old(data[..]), data[..], Past(), key)
    {
      hide TagAt, FastMod, BitOf;
      ghost var was := data[..];
      var n := 0;
      while n < nHashFuncs
        invariant n <= nHashFuncs && MarkedFrom(was, data[..], Past().(funcs := n), key)
      {
        Mark(hash(n, nTweak, key));
        HitsMore(Past().(funcs := n), key, data.Length);
        n := n + 1;
      }
      assert Past().(funcs := n) == Past();
    }

    /** Whether a position carries any generation. */
    method IsSet(h: bv32) returns (isSet: bool)
      requires Paired(data[..])
      ensures isSet == (TagOf(data[..], h) != 0)
    {
      hide FastMod, BitOf, Bit, Or, ShiftedBit;
      var bit := BitOf(h);
      var w := FastMod(h, data.Length) / 2;
      BitShifted(Or(data[2 * w], data[2 * w + 1]), bit);
      BitOfOr(data[2 * w], data[2 * w + 1], bit);
      isSet := ShiftedBit(Or(data[2 * w], data[2 * w + 1]), bit);
    }

    /** A key is found exactly if each of its positions is also one of a key held.  So none of the last
        2 * nEntriesPerGeneration + nEntriesThisGeneration keys is ever missed, and those are nElements at least. */
    method Contains(key: Key) returns (found: bool)
      requires Valid()
      ensures found <==> forall n | 0 <= n < nHashFuncs :: Shared(Past(), hash(n, nTweak, key), data.Length)
      ensures (exists i :: Past().Holds(i) && keys[i] == key) ==> found
      ensures (exists i :: 0 <= i < |keys| && i + nElements >= |keys| && keys[i] == key) ==> found
    {
      hide TagAt, TagOf, Retained, Accounted, Shared;
      HeldShared(Past(), key, data.Length);
      assert forall i | 0 <= i < |keys| && i + nElements >= |keys| && keys[i] == key :: Past().Holds(i);
      var n := 0;
      while n < nHashFuncs
        invariant n <= nHashFuncs && forall m | 0 <= m < n :: Shared(Past(), hash(m, nTweak, key), data.Length)
      {
        var isSet := IsSet(hash(n, nTweak, key));
        SetShared(data[..], Past(), hash(n, nTweak, key));
        if !isSet {
          return false;
        }
        n := n + 1;
      }
      return true;
    }
  }

  /** The position selected by h is one of a key held. */
  ghost predicate Shared(t: History, h: bv32, size: nat)
    requires size > 0
  {
    exists i :: t.Holds(i) && t.Hits(t.keys[i], size, FastMod(h, size) / 2, BitOf(h))
  }

  lemma SetShared(data: seq<bv64>, t: History, h: bv32)
    requires Paired(data) && Retained(data, t) && Accounted(data, t)
    ensures TagOf(data, h) != 0 <==> Shared(t, h, |data|)
  {
    hide Retained, Accounted, TagAt, FastMod, BitOf;
    MarkedExactly(data, t, FastMod(h, |data|) / 2, BitOf(h));
  }

  lemma HeldShared(t: History, key: Key, size: nat)
    requires size > 0
    ensures (exists i :: t.Holds(i) && t.keys[i] == key) ==>
      forall n | 0 <= n < t.funcs :: Shared(t, t.hash(n, t.tweak, key), size)
  {
    hide FastMod, BitOf;
    if i :| t.Holds(i) && t.keys[i] == key {
      forall n | 0 <= n < t.funcs
        ensures Shared(t, t.hash(n, t.tweak, key), size)
      {
        var h := t.hash(n, t.tweak, key);
        assert Selects(h, size, FastMod(h, size) / 2, BitOf(h));
        assert t.Hits(t.keys[i], size, FastMod(h, size) / 2, BitOf(h));
      }
    }
  }

  lemma NothingMarked(data: seq<bv64>, t: History)
    requires Paired(data) && t.keys == [] && forall i | 0 <= i < |data| :: data[i] == 0
    ensures Retained(data, t) && Accounted(data, t)
  {
    hide FastMod, BitOf;
    forall b: bv64 | b < 64
      ensures Tag(0, 0, b) == 0
    {
      NoBits(b);
    }
  }

  lemma NoBits(b: bv64)
    requires b < 64
    ensures !Bit(0, b)
  {
  }

  lemma HitsMore(t: History, key: Key, size: nat)
    requires size > 0
    ensures forall w: nat, b: bv64 ::
      t.(funcs := t.funcs + 1).Hits(key, size, w, b)
      <==> t.Hits(key, size, w, b) || Selects(t.hash(t.funcs, t.tweak, key), size, w, b)
  {
    hide Selects;
    var t' := t.(funcs := t.funcs + 1);
    forall w: nat, b: bv64
      ensures t'.Hits(key, size, w, b) <==> t.Hits(key, size, w, b) || Selects(t.hash(t.funcs, t.tweak, key), size, w, b)
    {
      if t.Hits(key, size, w, b) {
        var n :| 0 <= n < t.funcs && Selects(t.hash(n, t.tweak, key), size, w, b);
        assert Selects(t'.hash(n, t'.tweak, key), size, w, b);
      }
      if Selects(t.hash(t.funcs, t.tweak, key), size, w, b) {
        assert Selects(t'.hash(t.funcs, t'.tweak, key), size, w, b);
      }
    }
  }
}
