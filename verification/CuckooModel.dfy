/** The cuckoo cache as a value: what an insertion, a lookup and an epoch check do, and what they keep. */
module CuckooModel {
  import opened Basics
  import opened Numbers

  type Uint32 = x: nat | x < 0x1_0000_0000

  /** The eight hash functions, numbered from 0. */
  type Hashes<!E(!new)> = (nat, E) -> Uint32

  datatype State<E(!new)> = State(
    table: seq<E>, dead: seq<bool>, recent: seq<bool>,  // one entry per slot: collection and epoch flags
    counter: nat, epochSize: nat, depthLimit: nat)

  // ---------------------------------------------------------------- operations

  /** A 32-bit hash, as a fraction of 2^32, scaled to the table. */
  function Scaled(hash: Uint32, size: nat): (loc: nat)
    requires size > 0
    ensures loc < size
  {
    MulMono(hash, 0xFFFF_FFFF, size);
    hash * size / 0x1_0000_0000
  }

  function Locs<E(!new)>(h: Hashes<E>, size: nat, e: E): (locs: seq<nat>)
    requires size > 0
    ensures |locs| == 8 && forall i | 0 <= i < 8 :: locs[i] < size
  {
    var locs := seq<nat>(8, i requires 0 <= i < 8 => Scaled(h(i, e), size));
    assert forall i | 0 <= i < 8 :: locs[i] == Scaled(h(i, e), size);
    locs
  }

  /** The first true entry, or the length if there is none. */
  function First(bits: seq<bool>): (k: nat)
    ensures k <= |bits| && (k < |bits| ==> bits[k]) && forall i | 0 <= i < k :: !bits[i]
  {
    if bits == [] || bits[0] then 0 else 1 + First(bits[1..])
  }

  function FirstHolding<E(==, !new)>(h: Hashes<E>, s: State<E>, e: E): nat
    requires Sized(s)
  {
    var locs := Locs(h, |s.table|, e);
    First(seq(8, i requires 0 <= i < 8 => s.table[locs[i]] == e))
  }

  function FirstDead<E(!new)>(h: Hashes<E>, s: State<E>, e: E): nat
    requires Sized(s)
  {
    var locs := Locs(h, |s.table|, e);
    First(seq(8, i requires 0 <= i < 8 => s.dead[locs[i]]))
  }

  predicate Sized<E(!new)>(s: State<E>) {
    && 0 < |s.table| < 0x1_0000_0000 && |s.dead| == |s.table| && |s.recent| == |s.table|
  }

  /** The slots in use by the current epoch. */
  function RecentLive(dead: seq<bool>, recent: seq<bool>): nat
    requires |dead| == |recent|
  {
    if dead == [] then 0
    else RecentLive(dead[..|dead| - 1], recent[..|dead| - 1])
         + if recent[|dead| - 1] && !dead[|dead| - 1] then 1 else 0
  }

  function EpochChecked<E(!new)>(s: State<E>): State<E>
    requires Sized(s)
  {
    if s.counter != 0 then s.(counter := s.counter - 1)
    else
      var used := RecentLive(s.dead, s.recent);
      if used >= s.epochSize then
        s.(dead := seq(|s.dead|, i requires 0 <= i < |s.dead| => s.dead[i] || !s.recent[i]),
           recent := seq(|s.recent|, _ => false), counter := s.epochSize)
      else
        s.(counter := Max(1, Max(s.epochSize / 16, s.epochSize - used)))
  }

  /** e is put into slot loc, to be kept. */
  function Kept<E(!new)>(s: State<E>, loc: nat, e: E, epoch: bool): State<E>
    requires Sized(s) && loc < |s.table|
  {
    s.(table := s.table[loc := e], dead := s.dead[loc := false], recent := s.recent[loc := epoch])
  }

  const INVALID: nat := 0xFFFF_FFFF

  /** The slot after lastLoc among those of the element in hand. */
  function Victim(locs: seq<nat>, lastLoc: nat): (loc: nat)
    requires |locs| == 8
    ensures loc in locs
  {
    locs[(1 + First(seq(8, i requires 0 <= i < 8 => locs[i] == lastLoc))) % 8]
  }

  /** The displacement loop: the resulting state and what is left in hand when the depth runs out. */
  function Displaced<E(!new)>(h: Hashes<E>, s: State<E>, e: E, lastLoc: nat, lastEpoch: bool, depth: nat)
    : (State<E>, Option<E>)
    requires Sized(s)
    decreases depth
  {
    if depth == 0 then (s, Some(e))
    else
      var locs := Locs(h, |s.table|, e);
      var k := FirstDead(h, s, e);
      if k < 8 then (Kept(s, locs[k], e, lastEpoch), None)
      else
        var loc := Victim(locs, lastLoc);
        var s1 := s.(table := s.table[loc := e], recent := s.recent[loc := lastEpoch]);
        Displaced(h, s1, s.table[loc], loc, s.recent[loc], depth - 1)
  }

  function Inserted<E(==, !new)>(h: Hashes<E>, s: State<E>, e: E): State<E>
    requires Sized(s)
  {
    var s1 := EpochChecked(s);
    var k := FirstHolding(h, s1, e);
    if k < 8 then Kept(s1, Locs(h, |s1.table|, e)[k], e, true)
    else Displaced(h, s1, e, INVALID, true, s1.depthLimit).0
  }

  predicate Contains<E(==, !new)>(h: Hashes<E>, s: State<E>, e: E)
    requires Sized(s)
  {
    FirstHolding(h, s, e) < 8
  }

  /** contains with the request to erase. */
  function Erased<E(==, !new)>(h: Hashes<E>, s: State<E>, e: E): State<E>
    requires Sized(s)
  {
    var k := FirstHolding(h, s, e);
    if k < 8 then s.(dead := s.dead[Locs(h, |s.table|, e)[k] := true]) else s
  }

  // ---------------------------------------------------------------- what is in the cache

  /** The elements the cache has promised to try to keep. */
  ghost function Live<E(!new)>(s: State<E>): set<E>
    requires Sized(s)
  {
    set i | 0 <= i < |s.table| && !s.dead[i] :: s.table[i]
  }

  /** Every live element is in a slot where a lookup will look. */
  ghost predicate WellPlaced<E(!new)>(h: Hashes<E>, s: State<E>)
    requires Sized(s)
  {
    forall i | 0 <= i < |s.table| && !s.dead[i] :: i in Locs(h, |s.table|, s.table[i])
  }

  ghost function Bound(epochSize: nat): nat {
    epochSize + Max(1, epochSize / 16)
  }

  /** What every reachable state satisfies. */
  ghost predicate Inv<E(!new)>(h: Hashes<E>, s: State<E>) {
    && Sized(s) && WellPlaced(h, s) && s.epochSize > 0 && s.depthLimit > 0
    && RecentLive(s.dead, s.recent) + s.counter <= Bound(s.epochSize)
  }

  lemma {:induction false} RecentLiveSet(dead: seq<bool>, recent: seq<bool>, i: nat, d: bool, r: bool)
    requires i < |dead| == |recent|
    ensures RecentLive(dead[i := d], recent[i := r]) + (if recent[i] && !dead[i] then 1 else 0)
         == RecentLive(dead, recent) + (if r && !d then 1 else 0)
  {
    var n := |dead| - 1;
    if i < n {
      assert dead[i := d][..n] == dead[..n][i := d] && recent[i := r][..n] == recent[..n][i := r];
      RecentLiveSet(dead[..n], recent[..n], i, d, r);
    } else {
      assert dead[i := d][..n] == dead[..n] && recent[i := r][..n] == recent[..n];
    }
  }

  lemma {:induction false} RecentLiveNone(dead: seq<bool>, recent: seq<bool>)
    requires |dead| == |recent| && forall i | 0 <= i < |recent| :: !(recent[i] && !dead[i])
    ensures RecentLive(dead, recent) == 0
  {
    if dead != [] {
      RecentLiveNone(dead[..|dead| - 1], recent[..|dead| - 1]);
    }
  }

  // ---------------------------------------------------------------- lookups

  /** A lookup reports an element exactly if one of its eight slots holds it, erased or not. */
  lemma ContainsMeans<E(!new)>(h: Hashes<E>, s: State<E>, e: E)
    requires Sized(s)
    ensures Contains(h, s, e) <==> exists loc :: loc in Locs(h, |s.table|, e) && s.table[loc] == e
  {
    var locs := Locs(h, |s.table|, e);
    var bits := seq(8, i requires 0 <= i < 8 => s.table[locs[i]] == e);
    if loc :| loc in locs && s.table[loc] == e {
      var i :| 0 <= i < 8 && locs[i] == loc;
      assert bits[i];
    }
    if Contains(h, s, e) {
      assert bits[First(bits)];
    }
  }

  lemma ContainsLive<E(!new)>(h: Hashes<E>, s: State<E>, e: E)
    requires Sized(s) && WellPlaced(h, s) && e in Live(s)
    ensures Contains(h, s, e)
  {
    ContainsMeans(h, s, e);
  }

  /** Erasing never takes an element away before its slot is needed, and takes at most that element. */
  lemma ErasedKeeps<E(!new)>(h: Hashes<E>, s: State<E>, e: E)
    requires Inv(h, s)
    ensures var s' := Erased(h, s, e);
      && Inv(h, s') && s'.table == s.table
      && Live(s) - {e} <= Live(s') <= Live(s)
      && forall x :: Contains(h, s', x) == Contains(h, s, x)
  {
    var k := FirstHolding(h, s, e);
    if k < 8 {
      var loc := Locs(h, |s.table|, e)[k];
      var s' := Erased(h, s, e);
      RecentLiveSet(s.dead, s.recent, loc, true, s.recent[loc]);
      assert s.recent[loc := s.recent[loc]] == s.recent;
      forall x | x in Live(s) - {e} ensures x in Live(s') {
        var i :| 0 <= i < |s.table| && !s.dead[i] && s.table[i] == x;
        assert !s'.dead[i];
      }
    }
  }

  // ---------------------------------------------------------------- epochs

  /** An epoch check erases the old epoch, and only when the new one is full; it then starts another. */
  lemma EpochCheckedKeeps<E(!new)>(h: Hashes<E>, s: State<E>)
    requires Inv(h, s)
    ensures var s' := EpochChecked(s);
      && Sized(s') && WellPlaced(h, s') && s'.table == s.table
      && s'.epochSize == s.epochSize && s'.depthLimit == s.depthLimit
      && RecentLive(s'.dead, s'.recent) + 1 + s'.counter <= Bound(s.epochSize)
      && Live(s') == if s.counter == 0 && RecentLive(s.dead, s.recent) >= s.epochSize
                     then set i | 0 <= i < |s.table| && !s.dead[i] && s.recent[i] :: s.table[i]
                     else Live(s)
  {
    var s' := EpochChecked(s);
    if s.counter == 0 && RecentLive(s.dead, s.recent) >= s.epochSize {
      RecentLiveNone(s'.dead, s'.recent);
    }
  }

  // ---------------------------------------------------------------- insertion

  ghost function Held<E(!new)>(o: Option<E>): set<E> {
    if o.Some? then {o.value} else {}
  }

  lemma KeptLive<E(!new)>(h: Hashes<E>, s: State<E>, loc: nat, e: E, epoch: bool)
    requires Sized(s) && WellPlaced(h, s) && loc in Locs(h, |s.table|, e) && (s.dead[loc] || s.table[loc] == e)
    ensures var s' := Kept(s, loc, e, epoch);
      && Sized(s') && WellPlaced(h, s') && Live(s') == Live(s) + {e}
      && RecentLive(s'.dead, s'.recent) <= RecentLive(s.dead, s.recent) + if epoch then 1 else 0
  {
    hide Locs;
    var s' := Kept(s, loc, e, epoch);
    RecentLiveSet(s.dead, s.recent, loc, false, epoch);
    assert s'.table[loc] == e && !s'.dead[loc];
    forall x | x in Live(s) ensures x in Live(s') {
      var i :| 0 <= i < |s.table| && !s.dead[i] && s.table[i] == x;
      assert i == loc || (s'.table[i] == x && !s'.dead[i]);
    }
  }

  /** Swapping the element in hand with a live one. */
  lemma SwappedLive<E(!new)>(h: Hashes<E>, s: State<E>, loc: nat, e: E, epoch: bool)
    requires Sized(s) && WellPlaced(h, s) && loc in Locs(h, |s.table|, e) && !s.dead[loc]
    ensures var s' := s.(table := s.table[loc := e], recent := s.recent[loc := epoch]);
      && Sized(s') && WellPlaced(h, s') && Live(s') + {s.table[loc]} == Live(s) + {e}
      && RecentLive(s'.dead, s'.recent) + (if s.recent[loc] then 1 else 0)
         == RecentLive(s.dead, s.recent) + (if epoch then 1 else 0)
  {
    hide Locs;
    var s' := s.(table := s.table[loc := e], recent := s.recent[loc := epoch]);
    RecentLiveSet(s.dead, s.recent, loc, false, epoch);
    assert s.dead[loc := false] == s.dead;
    assert s'.table[loc] == e && !s'.dead[loc];
    assert s.table[loc] in Live(s);
    forall x | x in Live(s) ensures x in Live(s') + {s.table[loc]} {
      var i :| 0 <= i < |s.table| && !s.dead[i] && s.table[i] == x;
      assert i == loc || (s'.table[i] == x && !s'.dead[i]);
    }
  }

  /** However long the chain of displacements, nothing is lost but what is left in hand at the end. */
  lemma {:induction false} DisplacedConserves<E(!new)>(h: Hashes<E>, s: State<E>, e: E, lastLoc: nat, lastEpoch: bool, depth: nat)
    requires Sized(s) && WellPlaced(h, s)
    ensures var (s', o) := Displaced(h, s, e, lastLoc, lastEpoch, depth);
      && Sized(s') && WellPlaced(h, s') && |s'.table| == |s.table|
      && Live(s') + Held(o) == Live(s) + {e}
      && RecentLive(s'.dead, s'.recent) <= RecentLive(s.dead, s.recent) + (if lastEpoch then 1 else 0)
      && s'.counter == s.counter && s'.epochSize == s.epochSize && s'.depthLimit == s.depthLimit
    decreases depth
  {
    hide Locs, WellPlaced, Live, RecentLive, Victim;
    if depth > 0 {
      var locs := Locs(h, |s.table|, e);
      var k := FirstDead(h, s, e);
      if k < 8 {
        KeptLive(h, s, locs[k], e, lastEpoch);
      } else {
        var loc := Victim(locs, lastLoc);
        NoneDead(h, s, e, loc);
        SwappedLive(h, s, loc, e, lastEpoch);
        var s1 := s.(table := s.table[loc := e], recent := s.recent[loc := lastEpoch]);
        DisplacedConserves(h, s1, s.table[loc], loc, s.recent[loc], depth - 1);
      }
    }
  }

  lemma NoneDead<E(!new)>(h: Hashes<E>, s: State<E>, e: E, loc: nat)
    requires Sized(s) && FirstDead(h, s, e) == 8 && loc in Locs(h, |s.table|, e)
    ensures loc < |s.table| && !s.dead[loc]
  {
    var locs := Locs(h, |s.table|, e);
    var i :| 0 <= i < 8 && locs[i] == loc;
    var bits := seq(8, i requires 0 <= i < 8 => s.dead[locs[i]]);
    assert !bits[i];
  }

  lemma InsertedKeeps<E(!new)>(h: Hashes<E>, s: State<E>, e: E)
    requires Inv(h, s)
    ensures Inv(h, Inserted(h, s, e))
  {
    hide Locs, WellPlaced, Live, RecentLive, Displaced, EpochChecked, FirstHolding;
    EpochCheckedKeeps(h, s);
    var s1 := EpochChecked(s);
    var k := FirstHolding(h, s1, e);
    if k < 8 {
      HoldingAt(h, s1, e);
      KeptLive(h, s1, Locs(h, |s1.table|, e)[k], e, true);
    } else {
      DisplacedConserves(h, s1, e, INVALID, true, s1.depthLimit);
    }
  }

  lemma HoldingAt<E(!new)>(h: Hashes<E>, s: State<E>, e: E)
    requires Sized(s) && FirstHolding(h, s, e) < 8
    ensures s.table[Locs(h, |s.table|, e)[FirstHolding(h, s, e)]] == e
  {
  }

  /** Once the epochs are up to date, an insertion adds e and loses at most one element, which may be e. */
  lemma InsertedConserves<E(!new)>(h: Hashes<E>, s: State<E>, e: E)
    requires Inv(h, s)
    ensures Sized(EpochChecked(s)) && Sized(Inserted(h, s, e))
    ensures exists lost: Option<E> ::
      Live(Inserted(h, s, e)) + Held(lost) == Live(EpochChecked(s)) + {e}
    ensures Contains(h, EpochChecked(s), e) ==> Live(Inserted(h, s, e)) == Live(EpochChecked(s)) + {e}
  {
    hide Locs, WellPlaced, Live, RecentLive, Displaced, EpochChecked, FirstHolding;
    EpochCheckedKeeps(h, s);
    var s1 := EpochChecked(s);
    var k := FirstHolding(h, s1, e);
    if k < 8 {
      HoldingAt(h, s1, e);
      KeptLive(h, s1, Locs(h, |s1.table|, e)[k], e, true);
      assert Live(Inserted(h, s, e)) + Held(None) == Live(EpochChecked(s)) + {e};
    } else {
      DisplacedConserves(h, s1, e, INVALID, true, s1.depthLimit);
    }
  }

  /** With a free slot at hand nothing at all is lost. */
  lemma InsertedIntoFree<E(!new)>(h: Hashes<E>, s: State<E>, e: E)
    requires Inv(h, s) && Sized(EpochChecked(s)) && FirstDead(h, EpochChecked(s), e) < 8
    ensures Sized(Inserted(h, s, e)) && Live(Inserted(h, s, e)) == Live(EpochChecked(s)) + {e}
  {
    hide Locs, WellPlaced, Live, RecentLive, EpochChecked, FirstHolding, FirstDead, Victim;
    EpochCheckedKeeps(h, s);
    InsertedKeeps(h, s, e);
    InsertedConserves(h, s, e);
    var s1 := EpochChecked(s);
    if FirstHolding(h, s1, e) >= 8 {
      DisplacedConserves(h, s1, e, INVALID, true, s1.depthLimit);
    }
  }

  /** No slot has the number that stands for none, so the first element to be moved is the one in the
      second slot. */
  lemma FirstVictim<E(!new)>(h: Hashes<E>, s: State<E>, e: E)
    requires Sized(s)
    ensures Victim(Locs(h, |s.table|, e), INVALID) == Locs(h, |s.table|, e)[1]
  {
    var locs := Locs(h, |s.table|, e);
    var bits := seq(8, i requires 0 <= i < 8 => locs[i] == INVALID);
    assert First(bits) == 8;
  }

  // ---------------------------------------------------------------- whole runs

  /** 45% of the slots, in 32-bit arithmetic. */
  function EpochSize(size: nat): nat {
    Max(1, 45 * size % 0x1_0000_0000 / 100)
  }

  /** The epoch size is 45% of the slots exactly if the product does not wrap. */
  lemma EpochSizeExactly(size: nat)
    requires size < 0x1_0000_0000
    ensures EpochSize(size) == Max(1, 45 * size / 100) <==> 45 * size < 0x1_0000_0000
  {
    if 45 * size >= 0x1_0000_0000 {
      assert 45 * size % 0x1_0000_0000 <= 45 * size - 0x1_0000_0000;
    }
  }

  /** What wrapping does: 95,443,718 slots get epochs of a single element.  95,453,184 slots of 32 bytes, the
      2913 MiB that a limit of 5826 MiB gives each of two caches, get epochs of 4259 instead of 42,953,932. */
  lemma EpochSizeWraps()
    ensures EpochSize(95443718) == 1 && EpochSize(95453184) == 4259
    ensures 45 * 95453184 / 100 == 42953932 && 95453184 * 32 == 2913 * 1024 * 1024
  {
  }

  /** An empty cache: every slot free. */
  function Fresh<E(!new)>(size: nat, depthLimit: nat, blank: E): State<E> {
    State(seq(size, _ => blank), seq(size, _ => true), seq(size, _ => false), EpochSize(size), EpochSize(size), depthLimit)
  }

  datatype Op<E> = Insert(e: E) | Lookup(e: E, erase: bool)

  function Step<E(==, !new)>(h: Hashes<E>, s: State<E>, op: Op<E>): State<E>
    requires Sized(s)
  {
    match op
    case Insert(e) => Inserted(h, s, e)
    case Lookup(e, erase) => if erase then Erased(h, s, e) else s
  }

  ghost function Run<E(!new)>(h: Hashes<E>, s: State<E>, ops: seq<Op<E>>): (s': State<E>)
    requires Inv(h, s)
    ensures Inv(h, s')
    decreases |ops|
  {
    if ops == [] then s else
      StepKeeps(h, s, ops[0]);
      Run(h, Step(h, s, ops[0]), ops[1..])
  }

  lemma StepKeeps<E(!new)>(h: Hashes<E>, s: State<E>, op: Op<E>)
    requires Inv(h, s)
    ensures Inv(h, Step(h, s, op))
  {
    hide Inv, Inserted, Erased;
    match op
    case Insert(e) => InsertedKeeps(h, s, e);
    case Lookup(e, erase) =>
      if erase { ErasedKeeps(h, s, e); }
  }

  lemma FreshInv<E(!new)>(h: Hashes<E>, size: nat, depthLimit: nat, blank: E)
    requires 0 < size < 0x1_0000_0000 && depthLimit > 0
    ensures Inv(h, Fresh(size, depthLimit, blank)) && Live(Fresh(size, depthLimit, blank)) == {}
  {
    var s := Fresh(size, depthLimit, blank);
    RecentLiveNone(s.dead, s.recent);
  }

  ghost predicate HoldsOnly<E(!new)>(s: State<E>, from: set<E>) {
    forall i | 0 <= i < |s.table| :: s.table[i] in from
  }

  lemma {:induction false} DisplacedHolds<E(!new)>(h: Hashes<E>, s: State<E>, e: E, lastLoc: nat, lastEpoch: bool, depth: nat, from: set<E>)
    requires Sized(s) && HoldsOnly(s, from) && e in from
    ensures HoldsOnly(Displaced(h, s, e, lastLoc, lastEpoch, depth).0, from)
    decreases depth
  {
    hide Locs, Victim;
    if depth > 0 && FirstDead(h, s, e) == 8 {
      var loc := Victim(Locs(h, |s.table|, e), lastLoc);
      var s1 := s.(table := s.table[loc := e], recent := s.recent[loc := lastEpoch]);
      DisplacedHolds(h, s1, s.table[loc], loc, s.recent[loc], depth - 1, from);
    }
  }

  lemma StepHolds<E(!new)>(h: Hashes<E>, s: State<E>, op: Op<E>, from: set<E>)
    requires Sized(s) && HoldsOnly(s, from)
    ensures HoldsOnly(Step(h, s, op), if op.Insert? then from + {op.e} else from)
  {
    hide Displaced, Locs, FirstHolding;
    if op.Insert? {
      var s1, from' := EpochChecked(s), from + {op.e};
      assert s1.table == s.table && HoldsOnly(s1, from');
      DisplacedHolds(h, s1, op.e, INVALID, true, s1.depthLimit, from');
    }
  }

  ghost function Given<E>(ops: seq<Op<E>>): set<E> {
    set op | op in ops && op.Insert? :: op.e
  }

  lemma {:induction false} RunHolds<E(!new)>(h: Hashes<E>, s: State<E>, ops: seq<Op<E>>, from: set<E>)
    requires Inv(h, s) && HoldsOnly(s, from)
    ensures HoldsOnly(Run(h, s, ops), from + Given(ops))
    decreases |ops|
  {
    hide Inv, Step, HoldsOnly;
    if ops == [] {
      assert from + Given(ops) == from;
    } else {
      StepKeeps(h, s, ops[0]);
      assert Sized(s) by { InvSized(h, s); }
      StepHolds(h, s, ops[0], from);
      var from' := if ops[0].Insert? then from + {ops[0].e} else from;
      RunHolds(h, Step(h, s, ops[0]), ops[1..], from');
      assert ops == [ops[0]] + ops[1..];
      assert from' + Given(ops[1..]) == from + Given(ops);
    }
  }

  lemma InvSized<E(!new)>(h: Hashes<E>, s: State<E>)
    requires Inv(h, s)
    ensures Sized(s)
  {
  }

  lemma {:induction false} DisplacedFixed<E(!new)>(h: Hashes<E>, s: State<E>, e: E, lastLoc: nat, lastEpoch: bool, depth: nat)
    requires Sized(s)
    ensures var s' := Displaced(h, s, e, lastLoc, lastEpoch, depth).0; |s'.table| == |s.table| && s'.epochSize == s.epochSize
    decreases depth
  {
    hide Locs, Victim;
    if depth > 0 && FirstDead(h, s, e) == 8 {
      var loc := Victim(Locs(h, |s.table|, e), lastLoc);
      var s1 := s.(table := s.table[loc := e], recent := s.recent[loc := lastEpoch]);
      DisplacedFixed(h, s1, s.table[loc], loc, s.recent[loc], depth - 1);
    }
  }

  /** Neither the table nor the epochs are ever resized. */
  lemma {:induction false} RunFixed<E(!new)>(h: Hashes<E>, s: State<E>, ops: seq<Op<E>>)
    requires Inv(h, s)
    ensures var s' := Run(h, s, ops); |s'.table| == |s.table| && s'.epochSize == s.epochSize
    decreases |ops|
  {
    hide Inv, Displaced, Locs, FirstHolding;
    if ops != [] {
      InvSized(h, s);
      StepKeeps(h, s, ops[0]);
      if ops[0].Insert? {
        var s1 := EpochChecked(s);
        DisplacedFixed(h, s1, ops[0].e, INVALID, true, s1.depthLimit);
      }
      RunFixed(h, Step(h, s, ops[0]), ops[1..]);
    }
  }

  /** Where the epoch size does not wrap, the current epoch never has more than 17/16 of the 45% of the slots it is
      meant to have, rounded down, or one more element; for 36 slots and more that is at most 47.8125% of them. */
  lemma EveryRunShare<E(!new)>(h: Hashes<E>, size: nat, depthLimit: nat, blank: E, ops: seq<Op<E>>)
    requires 0 < size && 45 * size < 0x1_0000_0000 && depthLimit > 0
    ensures Inv(h, Fresh(size, depthLimit, blank))
    ensures var s := Run(h, Fresh(size, depthLimit, blank), ops);
      && |s.dead| == |s.recent|
      && RecentLive(s.dead, s.recent) + s.counter <= Bound(Max(1, 45 * size / 100))
      && (36 <= size ==> 1600 * (RecentLive(s.dead, s.recent) + s.counter) <= 765 * size)
  {
    hide RecentLive, Run, WellPlaced;
    FreshInv(h, size, depthLimit, blank);
    RunFixed(h, Fresh(size, depthLimit, blank), ops);
    EpochSizeExactly(size);
  }

  /** Where it does wrap, the current epoch is held to less than it is meant to have. */
  lemma EveryRunSmaller<E(!new)>(h: Hashes<E>, size: nat, depthLimit: nat, blank: E, ops: seq<Op<E>>)
    requires size < 0x1_0000_0000 <= 45 * size && depthLimit > 0
    ensures Inv(h, Fresh(size, depthLimit, blank))
    ensures var s := Run(h, Fresh(size, depthLimit, blank), ops);
      |s.dead| == |s.recent| && RecentLive(s.dead, s.recent) + s.counter <= Bound(45 * size / 100 - 0x1_0000_0000 / 100)
  {
    hide RecentLive, Run, WellPlaced;
    FreshInv(h, size, depthLimit, blank);
    RunFixed(h, Fresh(size, depthLimit, blank), ops);
    var k := EpochSize(size);
    assert 45 * size % 0x1_0000_0000 <= 45 * size - 0x1_0000_0000;
  }

  /** Whatever is done to a new cache, it finds all it has promised to keep, finds nothing that was not put
      in (but for the element its slots are made with), and never lets an epoch grow past its bound. */
  lemma EveryRun<E(!new)>(h: Hashes<E>, size: nat, depthLimit: nat, blank: E, ops: seq<Op<E>>, e: E)
    requires 0 < size < 0x1_0000_0000 && depthLimit > 0
    ensures Inv(h, Fresh(size, depthLimit, blank))
    ensures var s := Run(h, Fresh(size, depthLimit, blank), ops);
      && (e in Live(s) ==> Contains(h, s, e))
      && (Contains(h, s, e) ==> e == blank || Insert(e) in ops)
      && RecentLive(s.dead, s.recent) + s.counter <= Bound(s.epochSize)
  {
    hide Locs, RecentLive, Run, Live;
    FreshInv(h, size, depthLimit, blank);
    var s0 := Fresh(size, depthLimit, blank);
    var s := Run(h, s0, ops);
    RunHolds(h, s0, ops, {blank});
    ContainsMeans(h, s, e);
    if e in Live(s) { ContainsLive(h, s, e); }
  }
}
