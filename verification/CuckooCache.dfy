/** The cuckoo cache as it is stored: a table, bit-packed collection flags and epoch flags, updated in place. */
module CuckooCache {
  import opened Basics
  import opened CuckooModel

  // ---------------------------------------------------------------- bit-packed flags

  function Mask(k: nat): bv8
    requires k < 8
  {
    (1 as bv8) << k
  }

  predicate FlagIn(b: bv8, k: nat)
    requires k < 8
  {
    Mask(k) & b != 0
  }

  lemma MaskIs(k: nat)
    requires k < 8
    ensures Mask(k) == [1 as bv8, 2, 4, 8, 16, 32, 64, 128][k]
  {
    assert k == 0 || k == 1 || k == 2 || k == 3 || k == 4 || k == 5 || k == 6 || k == 7;
  }

  lemma BitAfterOr(b: bv8, k: nat, j: nat)
    requires k < 8 && j < 8
    ensures FlagIn(b | Mask(k), j) == (j == k || FlagIn(b, j))
  {
    MaskIs(k);
    MaskIs(j);
  }

  lemma BitAfterAnd(b: bv8, k: nat, j: nat)
    requires k < 8 && j < 8
    ensures FlagIn(b & !Mask(k), j) == (j != k && FlagIn(b, j))
  {
    MaskIs(k);
    MaskIs(j);
  }

  /** The bytes for a number of flags, in 32-bit arithmetic. */
  function Bytes(size: Uint32): nat {
    (size + 7) % 0x1_0000_0000 / 8
  }

  /** The bytes hold all the flags exactly if padding the size does not wrap. */
  lemma BytesSuffice(size: Uint32)
    ensures 8 * Bytes(size) >= size <==> size < 0xFFFF_FFF9
  {
  }

  ghost function Flags(mem: seq<bv8>, n: nat): seq<bool>
    requires n <= 8 * |mem|
  {
    seq(n, i requires 0 <= i < n => FlagIn(mem[i / 8], i % 8))
  }

  class BitPackedFlags {
    var mem: array<bv8>

    constructor (size: Uint32)
      ensures fresh(mem) && mem.Length == Bytes(size)
      ensures forall n: nat | n <= 8 * mem.Length :: Flags(mem[..], n) == seq(n, _ => true)
    {
      mem := new bv8[Bytes(size)](_ => 0xFF);
      new;
      forall n: nat | n <= 8 * mem.Length ensures Flags(mem[..], n) == seq(n, _ => true) {
        forall i | 0 <= i < n ensures Flags(mem[..], n)[i] { MaskIs(i % 8); }
      }
    }

    method Set(s: nat, ghost n: nat)
      requires s < n <= 8 * mem.Length
      modifies mem
      ensures Flags(mem[..], n) == old(Flags(mem[..], n))[s := true]
    {
      hide FlagIn, Mask;
      mem[s / 8] := mem[s / 8] | Mask(s % 8);
      forall i | 0 <= i < n ensures Flags(mem[..], n)[i] == old(Flags(mem[..], n))[s := true][i] {
        if i / 8 == s / 8 { BitAfterOr(old(mem[s / 8]), s % 8, i % 8); }
      }
    }

    method Unset(s: nat, ghost n: nat)
      requires s < n <= 8 * mem.Length
      modifies mem
      ensures Flags(mem[..], n) == old(Flags(mem[..], n))[s := false]
    {
      hide FlagIn, Mask;
      mem[s / 8] := mem[s / 8] & !Mask(s % 8);
      forall i | 0 <= i < n ensures Flags(mem[..], n)[i] == old(Flags(mem[..], n))[s := false][i] {
        if i / 8 == s / 8 { BitAfterAnd(old(mem[s / 8]), s % 8, i % 8); }
      }
    }

    method IsSet(s: nat, ghost n: nat) returns (b: bool)
      requires s < n <= 8 * mem.Length
      ensures b == Flags(mem[..], n)[s]
    {
      b := Mask(s % 8) & mem[s / 8] != 0;
    }
  }

  // ---------------------------------------------------------------- the cache

  lemma FirstIs(bits: seq<bool>, k: nat)
    requires k <= |bits| && (k < |bits| ==> bits[k]) && forall i | 0 <= i < k :: !bits[i]
    ensures First(bits) == k
  {
  }

  class Cache<E(==, !new)> {
    const hash: Hashes<E>
    var table: array<E>
    var size: nat
    var collectionFlags: BitPackedFlags
    var epochFlags: array<bool>
    var epochHeuristicCounter: nat
    var epochSize: nat
    var depthLimit: nat

    ghost predicate Separate()
      reads this, collectionFlags
    {
      var a: object, b: object, c: object := table, epochFlags, collectionFlags.mem;
      a != b && a != c && b != c
    }

    ghost predicate Valid()
      reads this, table, collectionFlags, collectionFlags.mem, epochFlags
    {
      && Separate() && table.Length == size && epochFlags.Length == size && size <= 8 * collectionFlags.mem.Length
      && Inv(hash, Model())
    }

    ghost function Model(): State<E>
      requires table.Length == size && epochFlags.Length == size && size <= 8 * collectionFlags.mem.Length
      reads this, table, collectionFlags, collectionFlags.mem, epochFlags
    {
      State(table[..], Flags(collectionFlags.mem[..], size), epochFlags[..], epochHeuristicCounter, epochSize, depthLimit)
    }

    /** A default cache followed by setup.  blank is the value table entries are made with.  From 2^32 - 7
        slots on there is not a single byte of flags. */
    constructor (hash: Hashes<E>, newSize: Uint32, depthLimit: nat, blank: E)
      requires depthLimit > 0
      ensures fresh(table) && fresh(collectionFlags) && fresh(collectionFlags.mem) && fresh(epochFlags)
      ensures Valid() <==> newSize < 0xFFFF_FFF9
      ensures Valid() ==> Model() == Fresh(Max(2, newSize), depthLimit, blank)
      ensures !Valid() ==> collectionFlags.mem.Length == 0
    {
      var size: Uint32 := Max(2, newSize);
      this.hash := hash;
      this.size := size;
      this.depthLimit := depthLimit;
      table := new E[size](_ => blank);
      collectionFlags := new BitPackedFlags(size);
      epochFlags := new bool[size](_ => false);
      epochSize := EpochSize(size);
      epochHeuristicCounter := EpochSize(size);
      new;
      hide Inv, Flags, EpochSize;
      FreshInv(hash, size, depthLimit, blank);
      BytesSuffice(size);
      assert table[..] == seq(size, _ => blank) && epochFlags[..] == seq(size, _ => false);
    }

    ghost predicate Shaped()
      reads this, table, collectionFlags, collectionFlags.mem, epochFlags
    {
      && Separate() && table.Length == size && epochFlags.Length == size && size <= 8 * collectionFlags.mem.Length
      && Sized(Model())
    }

    method ScanHolding(locs: seq<nat>, e: E) returns (k: nat)
      requires Shaped() && locs == Locs(hash, size, e)
      ensures k == FirstHolding(hash, Model(), e)
    {
      k := 0;
      while k < 8 && table[locs[k]] != e
        invariant k <= 8 && forall j | 0 <= j < k :: table[locs[j]] != e
      {
        k := k + 1;
      }
      ghost var s := Model();
      FirstIs(seq(8, i requires 0 <= i < 8 => s.table[locs[i]] == e), k);
    }

    method ScanDead(locs: seq<nat>, ghost e: E) returns (k: nat)
      requires Shaped() && locs == Locs(hash, size, e)
      ensures k == FirstDead(hash, Model(), e)
    {
      ghost var s := Model();
      k := 0;
      while k < 8
        invariant k <= 8 && (forall j | 0 <= j < k :: !s.dead[locs[j]])
      {
        var b := collectionFlags.IsSet(locs[k], size);
        if b { break; }
        k := k + 1;
      }
      FirstIs(seq(8, i requires 0 <= i < 8 => s.dead[locs[i]]), k);
    }

    method NextVictim(locs: seq<nat>, lastLoc: nat) returns (loc: nat)
      requires |locs| == 8
      ensures loc == Victim(locs, lastLoc)
    {
      var k := 0;
      while k < 8 && locs[k] != lastLoc
        invariant k <= 8 && forall j | 0 <= j < k :: locs[j] != lastLoc
      {
        k := k + 1;
      }
      FirstIs(seq(8, i requires 0 <= i < 8 => locs[i] == lastLoc), k);
      loc := locs[(1 + k) % 8];
    }

    method Keep(loc: nat, e: E, epoch: bool)
      requires Shaped() && loc < size
      modifies table, collectionFlags.mem, epochFlags
      ensures Shaped() && Model() == Kept(old(Model()), loc, e, epoch)
    {
      table[loc] := e;
      collectionFlags.Unset(loc, size);
      epochFlags[loc] := epoch;
    }

    method EpochCheck()
      requires Shaped()
      modifies this`epochHeuristicCounter, collectionFlags.mem, epochFlags
      ensures Shaped() && Model() == EpochChecked(old(Model()))
    {
      if epochHeuristicCounter != 0 {
        epochHeuristicCounter := epochHeuristicCounter - 1;
        return;
      }
      var used := CountRecent();
      if used >= epochSize {
        AgeAll();
        epochHeuristicCounter := epochSize;
      } else {
        epochHeuristicCounter := Max(1, Max(epochSize / 16, epochSize - used));
      }
    }

    method CountRecent() returns (used: nat)
      requires Shaped()
      ensures used == RecentLive(Model().dead, Model().recent)
    {
      hide Flags;
      used := 0;
      var i := 0;
      while i < size
        invariant i <= size && used == RecentLive(Model().dead[..i], Model().recent[..i])
      {
        var b := collectionFlags.IsSet(i, size);
        assert Model().dead[..i + 1][..i] == Model().dead[..i] && Model().recent[..i + 1][..i] == Model().recent[..i];
        used := used + if epochFlags[i] && !b then 1 else 0;
        i := i + 1;
      }
      assert Model().dead[..size] == Model().dead && Model().recent[..size] == Model().recent;
    }

    method AgeAll()
      requires Shaped()
      modifies collectionFlags.mem, epochFlags
      ensures Shaped()
      ensures Model() == var s := old(Model());
        s.(dead := seq(|s.dead|, i requires 0 <= i < |s.dead| => s.dead[i] || !s.recent[i]), recent := seq(|s.recent|, _ => false))
    {
      hide Flags;
      ghost var s := Model();
      var i := 0;
      while i < size
        invariant i <= size && Shaped() && Model() == s.(dead := Model().dead, recent := Model().recent)
        invariant forall j | 0 <= j < size ::
          Model().dead[j] == (if j < i then s.dead[j] || !s.recent[j] else s.dead[j])
          && Model().recent[j] == (if j < i then false else s.recent[j])
      {
        if epochFlags[i] {
          epochFlags[i] := false;
        } else {
          collectionFlags.Set(i, size);
        }
        i := i + 1;
      }
      assert Model().dead == seq(|s.dead|, i requires 0 <= i < |s.dead| => s.dead[i] || !s.recent[i]);
      assert Model().recent == seq(|s.recent|, _ => false);
    }

    method Insert(e: E)
      requires Valid()
      modifies this`epochHeuristicCounter, table, collectionFlags.mem, epochFlags
      ensures Valid() && Model() == Inserted(hash, old(Model()), e)
    {
      hide Inv, EpochChecked, Locs, FirstHolding, Displaced;
      InvSized(hash, Model());
      InsertedKeeps(hash, Model(), e);
      EpochCheck();
      var locs := Locs(hash, size, e);
      var k := ScanHolding(locs, e);
      if k < 8 {
        Keep(locs[k], e, true);
      } else {
        var _, _ := Displace(e);
      }
    }

    method Displace(e0: E) returns (e: E, dropped: bool)
      requires Shaped()
      modifies table, collectionFlags.mem, epochFlags
      ensures Shaped()
      ensures (Model(), if dropped then Some(e) else None) == Displaced(hash, old(Model()), e0, INVALID, true, depthLimit)
    {
      hide Locs, FirstDead, Victim;
      e, dropped := e0, true;
      var lastLoc, lastEpoch := INVALID, true;
      var locs := Locs(hash, size, e);
      var depth := 0;
      while depth < depthLimit
        invariant depth <= depthLimit && Shaped() && locs == Locs(hash, size, e)
        invariant Displaced(hash, old(Model()), e0, INVALID, true, depthLimit)
               == Displaced(hash, Model(), e, lastLoc, lastEpoch, depthLimit - depth)
      {
        var k := ScanDead(locs, e);
        if k < 8 {
          Keep(locs[k], e, lastEpoch);
          dropped := false;
          return;
        }
        lastLoc := NextVictim(locs, lastLoc);
        table[lastLoc], e := e, table[lastLoc];
        epochFlags[lastLoc], lastEpoch := lastEpoch, epochFlags[lastLoc];
        locs := Locs(hash, size, e);
        depth := depth + 1;
      }
    }

    method Contains(e: E, erase: bool) returns (found: bool)
      requires Valid()
      modifies collectionFlags.mem
      ensures Valid() && found == CuckooModel.Contains(hash, old(Model()), e)
      ensures Model() == if erase then Erased(hash, old(Model()), e) else old(Model())
    {
      hide Inv, Locs, FirstHolding;
      InvSized(hash, Model());
      ErasedKeeps(hash, Model(), e);
      var locs := Locs(hash, size, e);
      var k := ScanHolding(locs, e);
      found := k < 8;
      if found && erase {
        collectionFlags.Set(locs[k], size);
      }
    }
  }
}
