/** Compact blocks: taking a block apart into short transaction ids, and putting it together again from a
    pool of transactions and the ones that had to be asked for. */
module CompactBlocks {
  import opened Basics

  type Header = nat
  type Hash = nat
  type Tx = nat
  type ShortId = nat
  type Uint16 = x: nat | x < 0x1_0000

  datatype Block = Block(header: Header, sig: seq<nat>, vtx: seq<Tx>)

  datatype Prefilled = Prefilled(index: Uint16, tx: Tx)

  datatype CompactBlock = CompactBlock(header: Header, nonce: nat, sig: seq<nat>, shorttxids: seq<ShortId>, prefilledtxn: seq<Prefilled>)

  datatype Status = Ok | InvalidData | Failed | CheckBlockFailed

  datatype Verdict = Passes | Mutated | Fails

  /** Hashes and checks from elsewhere.  shortId is keyed by header and nonce. */
  datatype Env = Env(hash: Tx -> Hash, witnessHash: Tx -> Hash, shortId: (Header, nat, Hash) -> ShortId,
                     headerNull: Header -> bool, txNull: Tx -> bool, check: Block -> Verdict,
                     overfull: (seq<ShortId>, nat) -> bool)  // a bucket of the short-id table with more than 12 entries

  /** A transaction with the hash it is looked up by. */
  type Candidate = (Hash, Tx)

  const MAX_TRANSACTIONS: nat := 4000000 / 40

  // ---------------------------------------------------------------- making a compact block

  function ShortIds(e: Env, header: Header, nonce: nat, txs: seq<Tx>, useWitness: bool): seq<ShortId> {
    seq<ShortId>(|txs|, i requires 0 <= i < |txs| => e.shortId(header, nonce, if useWitness then e.witnessHash(txs[i]) else e.hash(txs[i])))
  }

  /** The first transaction goes in full, the others as short ids. */
  function Compacted(e: Env, block: Block, nonce: nat, useWitness: bool): CompactBlock
    requires block.vtx != []
  {
    CompactBlock(block.header, nonce, block.sig, ShortIds(e, block.header, nonce, block.vtx[1..], useWitness),
                 [Prefilled(0, block.vtx[0])])
  }

  method Compact(e: Env, block: Block, nonce: nat, useWitness: bool) returns (cb: CompactBlock)
    requires block.vtx != []
    ensures cb == Compacted(e, block, nonce, useWitness)
  {
    var short := new ShortId[|block.vtx| - 1];
    var i := 1;
    while i < |block.vtx|
      invariant 1 <= i <= |block.vtx|
      invariant forall j | 0 <= j < i - 1 :: short[j] == ShortIds(e, block.header, nonce, block.vtx[1..], useWitness)[j]
    {
      var tx := block.vtx[i];
      short[i - 1] := e.shortId(block.header, nonce, if useWitness then e.witnessHash(tx) else e.hash(tx));
      i := i + 1;
    }
    cb := CompactBlock(block.header, nonce, block.sig, short[..], [Prefilled(0, block.vtx[0])]);
  }

  // ---------------------------------------------------------------- positions

  /** The positions still empty, in order. */
  ghost function Free(a: seq<Option<Tx>>): (f: seq<nat>)
    ensures forall k | 0 <= k < |f| :: f[k] < |a| && a[f[k]] == None
    ensures forall k, l | 0 <= k < l < |f| :: f[k] < f[l]
  {
    if a == [] then []
    else Free(a[..|a| - 1]) + if a[|a| - 1] == None then [|a| - 1] else []
  }

  lemma {:induction false} FreeAll(a: seq<Option<Tx>>, p: nat)
    requires p < |a| && a[p] == None
    ensures exists k :: 0 <= k < |Free(a)| && Free(a)[k] == p
  {
    var n := |a| - 1;
    if p == n {
      assert Free(a)[|Free(a)| - 1] == p;
    } else {
      FreeAll(a[..n], p);
      var k :| 0 <= k < |Free(a[..n])| && Free(a[..n])[k] == p;
      assert Free(a)[k] == p;
    }
  }

  lemma {:induction false} FreeSet(a: seq<Option<Tx>>, p: nat, t: Option<Tx>)
    requires p < |a|
    ensures |Free(a[p := t])| + (if a[p] == None then 1 else 0) == |Free(a)| + (if t == None then 1 else 0)
  {
    var n := |a| - 1;
    if p < n {
      assert a[p := t][..n] == a[..n][p := t];
      FreeSet(a[..n], p, t);
    } else {
      assert a[p := t][..n] == a[..n];
    }
  }

  function Empty(n: nat): seq<Option<Tx>> { seq(n, _ => None) }

  lemma {:induction false} FreeEmpty(n: nat)
    ensures |Free(Empty(n))| == n
  {
    if n > 0 {
      assert Empty(n)[..n - 1] == Empty(n - 1);
      FreeEmpty(n - 1);
    }
  }

  /** Where the i-th prefilled transaction goes: indexes count from the one before. */
  ghost function Position(pre: seq<Prefilled>, i: nat): nat
    requires i < |pre|
  {
    if i == 0 then pre[0].index else Position(pre, i - 1) + 1 + pre[i].index
  }

  lemma {:induction false} PositionsGrow(pre: seq<Prefilled>, i: nat, j: nat)
    requires i < j < |pre|
    ensures Position(pre, i) < Position(pre, j)
    decreases j
  {
    if i < j - 1 { PositionsGrow(pre, i, j - 1); }
  }

  /** The i-th prefilled transaction is there and its position leaves no gap that nothing could fill. */
  ghost predicate PrefilledOk(e: Env, cb: CompactBlock, i: nat)
    requires i < |cb.prefilledtxn|
  {
    && !e.txNull(cb.prefilledtxn[i].tx)
    && Position(cb.prefilledtxn, i) <= 0xFFFF
    && Position(cb.prefilledtxn, i) <= |cb.shorttxids| + i
  }

  /** The block with the first n prefilled transactions in place. */
  ghost function Placed(cb: CompactBlock, n: nat): (a: seq<Option<Tx>>)
    requires n <= |cb.prefilledtxn|
    ensures |a| == |cb.shorttxids| + |cb.prefilledtxn|
  {
    if n == 0 then Empty(|cb.shorttxids| + |cb.prefilledtxn|)
    else
      var a, p := Placed(cb, n - 1), Position(cb.prefilledtxn, n - 1);
      if p < |a| then a[p := Some(cb.prefilledtxn[n - 1].tx)] else a
  }

  /** Prefilled transactions in place, everything else empty. */
  ghost predicate PlacedUpTo(cb: CompactBlock, n: nat, a: seq<Option<Tx>>)
    requires n <= |cb.prefilledtxn|
  {
    && |a| == |cb.shorttxids| + |cb.prefilledtxn|
    && (forall i | 0 <= i < n :: Position(cb.prefilledtxn, i) < |a| && a[Position(cb.prefilledtxn, i)] == Some(cb.prefilledtxn[i].tx))
    && |Free(a)| == |a| - n
    && (forall p | 0 <= p < |a| && (n > 0 ==> p > Position(cb.prefilledtxn, n - 1)) :: a[p] == None)
  }

  /** Positions that pass the checks are in range and differ, so each short id is left exactly one position. */
  lemma {:induction false} PlacedShape(e: Env, cb: CompactBlock, n: nat)
    requires n <= |cb.prefilledtxn| && forall i | 0 <= i < n :: PrefilledOk(e, cb, i)
    ensures PlacedUpTo(cb, n, Placed(cb, n))
  {
    hide Free, PlacedUpTo, Position, PrefilledOk;
    if n == 0 {
      PlacedNothing(cb);
    } else {
      PlacedShape(e, cb, n - 1);
      assert PrefilledOk(e, cb, n - 1);
      PlacedMore(e, cb, n - 1, Placed(cb, n - 1));
    }
  }

  lemma PlacedNothing(cb: CompactBlock)
    ensures PlacedUpTo(cb, 0, Placed(cb, 0))
  {
    hide Free;
    FreeEmpty(|cb.shorttxids| + |cb.prefilledtxn|);
  }

  lemma PlacedMore(e: Env, cb: CompactBlock, n: nat, a: seq<Option<Tx>>)
    requires n < |cb.prefilledtxn| && PlacedUpTo(cb, n, a) && PrefilledOk(e, cb, n)
    ensures var p := Position(cb.prefilledtxn, n);
      p < |a| && PlacedUpTo(cb, n + 1, a[p := Some(cb.prefilledtxn[n].tx)])
  {
    hide Free;
    var p := Position(cb.prefilledtxn, n);
    forall j | 0 <= j < n ensures Position(cb.prefilledtxn, j) < p { PositionsGrow(cb.prefilledtxn, j, n); }
    FreeSet(a, p, Some(cb.prefilledtxn[n].tx));
  }

  // ---------------------------------------------------------------- matching

  /** What is known of the slot of one short id, after the candidates before b: if one was put there, it has that id,
      and if the slot is empty again there were two of them. */
  ghost predicate Backed(ids: seq<ShortId>, txs: seq<Tx>, id: ShortId, slot: Option<Tx>, b: nat)
    requires b <= |ids| == |txs|
  {
    exists j :: 0 <= j < b && ids[j] == id
      && (slot == Some(txs[j]) || (slot == None && exists j' :: 0 <= j' < b && j' != j && ids[j'] == id))
  }

  /** The state of the matching: slots are filled only by candidates with their id. */
  ghost predicate Matching(short: seq<ShortId>, slots: seq<nat>, ids: seq<ShortId>, txs: seq<Tx>,
                           a0: seq<Option<Tx>>, a: seq<Option<Tx>>, have: seq<bool>, b: nat)
  {
    && |slots| == |short| && b <= |ids| == |txs| && |a| == |a0| == |have|
    && (forall k | 0 <= k < |slots| :: slots[k] < |a|)
    && (forall p | 0 <= p < |a| && p !in slots :: a[p] == a0[p])
    && (forall k | 0 <= k < |slots| ::
          if have[slots[k]] then Backed(ids, txs, short[k], a[slots[k]], b) else a[slots[k]] == None)
  }

  ghost predicate AllSeen(short: seq<ShortId>, slots: seq<nat>, ids: seq<ShortId>, have: seq<bool>, lo: nat, b: nat)
    requires |slots| == |short| && lo <= b <= |ids| && forall k | 0 <= k < |slots| :: slots[k] < |have|
  {
    forall k, j | 0 <= k < |slots| && lo <= j < b && ids[j] == short[k] :: have[slots[k]]
  }

  ghost function IdsOf(e: Env, cb: CompactBlock, cands: seq<Candidate>): (ids: seq<ShortId>)
    ensures |ids| == |cands|
  {
    seq<ShortId>(|cands|, i requires 0 <= i < |cands| => e.shortId(cb.header, cb.nonce, cands[i].0))
  }

  ghost function TxsOf(cands: seq<Candidate>): (txs: seq<Tx>)
    ensures |txs| == |cands|
  {
    seq<Tx>(|cands|, i requires 0 <= i < |cands| => cands[i].1)
  }

  ghost predicate Distinct(s: seq<ShortId>) {
    forall i, j | 0 <= i < j < |s| :: s[i] != s[j]
  }

  /** Short ids stand for the empty positions, in order. */
  ghost predicate Mapped(short: seq<ShortId>, slots: seq<nat>, m: map<ShortId, nat>, n: nat)
    requires n <= |short| <= |slots|
  {
    && (forall i | 0 <= i < n :: short[i] in m)
    && (forall id | id in m :: Held(short, slots, id, m[id], n))
  }

  /** The table has an entry for each id exactly if they are distinct. */
  ghost predicate Sizes(short: seq<ShortId>, m: map<ShortId, nat>, n: nat)
    requires n <= |short|
  {
    |m| <= n && (|m| == n <==> Distinct(short[..n]))
  }

  lemma MappedNothing(short: seq<ShortId>, slots: seq<nat>)
    requires |short| <= |slots|
    ensures Mapped(short, slots, map[], 0) && Sizes(short, map[], 0)
  {
  }

  lemma SizesWhole(short: seq<ShortId>, m: map<ShortId, nat>)
    requires Sizes(short, m, |short|)
    ensures |m| == |short| <==> Distinct(short)
  {
    assert short[..|short|] == short;
  }

  /** id belongs to one of the first n short ids, with this slot. */
  ghost predicate Held(short: seq<ShortId>, slots: seq<nat>, id: ShortId, slot: nat, n: nat)
    requires n <= |short| <= |slots|
  {
    exists i :: 0 <= i < n && short[i] == id && slot == slots[i]
  }

  lemma MappedMore(short: seq<ShortId>, slots: seq<nat>, m: map<ShortId, nat>, i: nat)
    requires i < |short| <= |slots| && Mapped(short, slots, m, i) && Sizes(short, m, i)
    ensures Mapped(short, slots, m[short[i] := slots[i]], i + 1) && Sizes(short, m[short[i] := slots[i]], i + 1)
  {
    hide Distinct;
    var id := short[i];
    var m' := m[id := slots[i]];
    forall x | x in m' ensures Held(short, slots, x, m'[x], i + 1) {
      if x == id {
        assert short[i] == x && m'[x] == slots[i];
      } else {
        assert x in m && Held(short, slots, x, m[x], i);
      }
    }
    assert m'.Keys == m.Keys + {id};
    DistinctMore(short, i);
    assert id in m ==> Held(short, slots, id, m[id], i);
  }

  lemma DistinctMore(short: seq<ShortId>, i: nat)
    requires i < |short|
    ensures Distinct(short[..i + 1]) <==> Distinct(short[..i]) && forall k | 0 <= k < i :: short[k] != short[i]
  {
    var a, b := short[..i], short[..i + 1];
    if Distinct(b) {
      forall k, l | 0 <= k < l < |a| ensures a[k] != a[l] { assert b[k] != b[l]; }
      forall k | 0 <= k < i ensures short[k] != short[i] { assert b[k] != b[i]; }
    }
    if Distinct(a) && forall k | 0 <= k < i :: short[k] != short[i] {
      forall k, l | 0 <= k < l < |b| ensures b[k] != b[l] { assert l < i ==> a[k] != a[l]; }
    }
  }

  // ---------------------------------------------------------------- one candidate

  ghost predicate Slots(short: seq<ShortId>, slots: seq<nat>) {
    |slots| == |short| && Distinct(short) && forall k, l | 0 <= k < l < |slots| :: slots[k] < slots[l]
  }

  lemma BackedMore(ids: seq<ShortId>, txs: seq<Tx>, id: ShortId, slot: Option<Tx>, b: nat)
    requires b < |ids| == |txs| && Backed(ids, txs, id, slot, b)
    ensures Backed(ids, txs, id, slot, b + 1)
  {
    var j :| 0 <= j < b && ids[j] == id
      && (slot == Some(txs[j]) || (slot == None && exists j' :: 0 <= j' < b && j' != j && ids[j'] == id));
    if slot == None {
      var j' :| 0 <= j' < b && j' != j && ids[j'] == id;
    }
  }

  /** A second candidate for a filled slot empties it. */
  lemma BackedEmptied(ids: seq<ShortId>, txs: seq<Tx>, id: ShortId, slot: Option<Tx>, b: nat)
    requires b < |ids| == |txs| && Backed(ids, txs, id, slot, b) && ids[b] == id && slot != None
    ensures Backed(ids, txs, id, None, b + 1)
  {
    var j :| 0 <= j < b && ids[j] == id && slot == Some(txs[j]);
    assert ids[b] == id && b != j;
  }

  lemma BackedFirst(ids: seq<ShortId>, txs: seq<Tx>, id: ShortId, b: nat)
    requires b < |ids| == |txs| && ids[b] == id
    ensures Backed(ids, txs, id, Some(txs[b]), b + 1)
  {
  }

  lemma MatchStep(short: seq<ShortId>, slots: seq<nat>, ids: seq<ShortId>, txs: seq<Tx>, a0: seq<Option<Tx>>,
                  a: seq<Option<Tx>>, have: seq<bool>, b: nat, k: nat, slot: Option<Tx>)
    requires Slots(short, slots) && Matching(short, slots, ids, txs, a0, a, have, b) && b < |ids|
    requires k < |short| && ids[b] == short[k] && Backed(ids, txs, short[k], slot, b + 1)
    ensures Matching(short, slots, ids, txs, a0, a[slots[k] := slot], have[slots[k] := true], b + 1)
  {
    hide Backed, Distinct;
    var a', have' := a[slots[k] := slot], have[slots[k] := true];
    forall l | 0 <= l < |slots|
      ensures if have'[slots[l]] then Backed(ids, txs, short[l], a'[slots[l]], b + 1) else a'[slots[l]] == None
    {
      if l != k {
        assert slots[l] != slots[k];
        if have[slots[l]] { BackedMore(ids, txs, short[l], a[slots[l]], b); }
      }
    }
  }

  lemma SkipStep(short: seq<ShortId>, slots: seq<nat>, ids: seq<ShortId>, txs: seq<Tx>, a0: seq<Option<Tx>>,
                 a: seq<Option<Tx>>, have: seq<bool>, b: nat)
    requires Matching(short, slots, ids, txs, a0, a, have, b) && b < |ids|
    ensures Matching(short, slots, ids, txs, a0, a, have, b + 1)
  {
    hide Backed;
    forall l | 0 <= l < |slots| && have[slots[l]] ensures Backed(ids, txs, short[l], a[slots[l]], b + 1) {
      BackedMore(ids, txs, short[l], a[slots[l]], b);
    }
  }

  lemma SeenStep(short: seq<ShortId>, slots: seq<nat>, ids: seq<ShortId>, have: seq<bool>, have': seq<bool>, lo: nat, b: nat)
    requires Slots(short, slots) && lo <= b < |ids| && |have| == |have'| && (forall k | 0 <= k < |slots| :: slots[k] < |have|)
    requires AllSeen(short, slots, ids, have, lo, b)
    requires forall p | 0 <= p < |have| :: have[p] ==> have'[p]
    requires forall k | 0 <= k < |slots| && short[k] == ids[b] :: have'[slots[k]]
    ensures AllSeen(short, slots, ids, have', lo, b + 1)
  {
  }

  /** With every slot filled, every id has been seen. */
  lemma SeenFull(short: seq<ShortId>, slots: seq<nat>, ids: seq<ShortId>, txs: seq<Tx>, a0: seq<Option<Tx>>,
                 a: seq<Option<Tx>>, have: seq<bool>, b: nat, lo: nat, hi: nat)
    requires Matching(short, slots, ids, txs, a0, a, have, b) && b <= hi && lo <= hi <= |ids| && Free(a) == []
    ensures AllSeen(short, slots, ids, have, lo, hi) && Matching(short, slots, ids, txs, a0, a, have, hi)
    decreases hi - b
  {
    hide Backed, Free;
    forall k | 0 <= k < |slots| ensures have[slots[k]] {
      if !have[slots[k]] { FreeAll(a, slots[k]); }
    }
    if b < hi {
      SkipStep(short, slots, ids, txs, a0, a, have, b);
      SeenFull(short, slots, ids, txs, a0, a, have, b + 1, lo, hi);
    }
  }

  // ---------------------------------------------------------------- what initialisation achieves

  ghost predicate Malformed(e: Env, cb: CompactBlock) {
    || e.headerNull(cb.header) || (cb.shorttxids == [] && cb.prefilledtxn == [])
    || |cb.shorttxids| + |cb.prefilledtxn| > MAX_TRANSACTIONS
    || exists i :: 0 <= i < |cb.prefilledtxn| && !PrefilledOk(e, cb, i)
  }

  ghost predicate Ambiguous(e: Env, cb: CompactBlock) {
    !Distinct(cb.shorttxids) || exists i :: 0 <= i < |cb.shorttxids| && e.overfull(cb.shorttxids, i)
  }

  ghost predicate Matches(ids: seq<ShortId>, id: ShortId, j: int) {
    0 <= j < |ids| && ids[j] == id
  }

  /** Prefilled transactions are in place; the k-th empty position is for the k-th short id, holds a candidate with that
      id if anything, and is empty only if there is no such candidate or more than one. */
  ghost predicate Filled(e: Env, cb: CompactBlock, cands: seq<Candidate>, a: seq<Option<Tx>>)
    requires !Malformed(e, cb)
  {
    var a0 := Placed(cb, |cb.prefilledtxn|);
    var slots, ids, txs := Free(a0), IdsOf(e, cb, cands), TxsOf(cands);
    && |a| == |a0| && |slots| == |cb.shorttxids|
    && (forall p | 0 <= p < |a| && p !in slots :: a[p] == a0[p])
    && (forall k | 0 <= k < |slots| && a[slots[k]] != None ::
          exists j :: Matches(ids, cb.shorttxids[k], j) && a[slots[k]] == Some(txs[j]))
    && (forall k, j | 0 <= k < |slots| && a[slots[k]] == None && Matches(ids, cb.shorttxids[k], j) ::
          exists j' :: j' != j && Matches(ids, cb.shorttxids[k], j'))
  }

  lemma FilledFrom(e: Env, cb: CompactBlock, cands: seq<Candidate>, a: seq<Option<Tx>>, have: seq<bool>)
    requires !Malformed(e, cb)
    requires var a0 := Placed(cb, |cb.prefilledtxn|);
      && Matching(cb.shorttxids, Free(a0), IdsOf(e, cb, cands), TxsOf(cands), a0, a, have, |cands|)
      && AllSeen(cb.shorttxids, Free(a0), IdsOf(e, cb, cands), have, 0, |cands|)
    ensures Filled(e, cb, cands, a)
  {
    hide Free, Placed, IdsOf, TxsOf;
    var slots, ids, txs := Free(Placed(cb, |cb.prefilledtxn|)), IdsOf(e, cb, cands), TxsOf(cands);
    forall k | 0 <= k < |slots| && a[slots[k]] != None
      ensures exists j :: Matches(ids, cb.shorttxids[k], j) && a[slots[k]] == Some(txs[j])
    {
      assert Backed(ids, txs, cb.shorttxids[k], a[slots[k]], |cands|);
      var j :| 0 <= j < |cands| && ids[j] == cb.shorttxids[k] && a[slots[k]] == Some(txs[j]);
      assert Matches(ids, cb.shorttxids[k], j);
    }
    forall k, j | 0 <= k < |slots| && a[slots[k]] == None && Matches(ids, cb.shorttxids[k], j)
      ensures exists j' :: j' != j && Matches(ids, cb.shorttxids[k], j')
    {
      var id := cb.shorttxids[k];
      assert have[slots[k]] && Backed(ids, txs, id, None, |cands|);
      var i :| 0 <= i < |cands| && ids[i] == id && exists j' :: 0 <= j' < |cands| && j' != i && ids[j'] == id;
      var i' :| 0 <= i' < |cands| && i' != i && ids[i'] == id;
      assert Matches(ids, id, i) && Matches(ids, id, i');
    }
  }

  lemma SeenGrows(short: seq<ShortId>, slots: seq<nat>, ids: seq<ShortId>, have: seq<bool>, have': seq<bool>, lo: nat, b: nat)
    requires |slots| == |short| && lo <= b <= |ids| && |have| == |have'| && (forall k | 0 <= k < |slots| :: slots[k] < |have|)
    requires AllSeen(short, slots, ids, have, lo, b) && forall p | 0 <= p < |have| :: have[p] ==> have'[p]
    ensures AllSeen(short, slots, ids, have', lo, b)
  {
  }

  class PartiallyDownloadedBlock {
    const e: Env
    const pool: seq<Candidate>
    var header: Option<Header>
    var sig: seq<nat>
    var txnAvailable: seq<Option<Tx>>
    var prefilledCount: nat
    var mempoolCount: int

    constructor (e: Env, pool: seq<Candidate>)
      ensures this.e == e && this.pool == pool && header == None && txnAvailable == [] && mempoolCount == 0
    {
      this.e, this.pool, header, sig, txnAvailable, prefilledCount, mempoolCount := e, pool, None, [], [], 0, 0;
    }

    /** Puts the prefilled transactions in place. */
    method Prefill(cb: CompactBlock) returns (ok: bool)
      requires txnAvailable == Empty(|cb.shorttxids| + |cb.prefilledtxn|)
      modifies this`txnAvailable
      ensures ok <==> forall i | 0 <= i < |cb.prefilledtxn| :: PrefilledOk(e, cb, i)
      ensures ok ==> txnAvailable == Placed(cb, |cb.prefilledtxn|)
    {
      var last := -1;
      var i := 0;
      while i < |cb.prefilledtxn|
        invariant i <= |cb.prefilledtxn| && last == (if i == 0 then -1 else Position(cb.prefilledtxn, i - 1))
        invariant txnAvailable == Placed(cb, i) && forall j | 0 <= j < i :: PrefilledOk(e, cb, j)
      {
        if e.txNull(cb.prefilledtxn[i].tx) {
          assert !PrefilledOk(e, cb, i);
          return false;
        }
        last := last + cb.prefilledtxn[i].index + 1;
        if last > 0xFFFF || last > |cb.shorttxids| + i {
          assert !PrefilledOk(e, cb, i);
          return false;
        }
        txnAvailable := txnAvailable[last := Some(cb.prefilledtxn[i].tx)];
        i := i + 1;
      }
      ok := true;
    }

    /** Gives each short id the next empty position. */
    method MapShortIds(cb: CompactBlock) returns (ok: bool, m: map<ShortId, nat>)
      requires |Free(txnAvailable)| == |cb.shorttxids|
      ensures ok == (Distinct(cb.shorttxids) && forall i | 0 <= i < |cb.shorttxids| :: !e.overfull(cb.shorttxids, i))
      ensures ok ==> Mapped(cb.shorttxids, Free(txnAvailable), m, |cb.shorttxids|) && |m| == |cb.shorttxids|
    {
      hide Free, Mapped, Sizes;
      ghost var slots, short := Free(txnAvailable), cb.shorttxids;
      m := map[];
      MappedNothing(short, slots);
      var offset := 0;
      var i := 0;
      while i < |cb.shorttxids|
        invariant i <= |short| && (i == 0 ==> offset == 0) && (i > 0 ==> slots[i - 1] == i - 1 + offset)
        invariant Mapped(short, slots, m, i) && Sizes(short, m, i)
        invariant forall j | 0 <= j < i :: !e.overfull(short, j)
      {
        while txnAvailable[i + offset] != None
          invariant 0 <= offset && i + offset <= slots[i] && (i > 0 ==> slots[i - 1] < i + offset)
          decreases slots[i] - offset
        {
          offset := offset + 1;
        }
        NextFree(txnAvailable, i, i + offset);
        MappedMore(short, slots, m, i);
        m := m[cb.shorttxids[i] := i + offset];
        if e.overfull(cb.shorttxids, i) {
          return false, m;
        }
        i := i + 1;
      }
      SizesWhole(short, m);
      ok := |m| == |cb.shorttxids|;
    }

    /** One transaction that may belong to the block.  A second one with the same id empties the slot, unless it
        comes from the extra transactions and is the same transaction. */
    method Consider(m: map<ShortId, nat>, id: ShortId, tx: Tx, isExtra: bool, have: seq<bool>, ghost short: seq<ShortId>,
                    ghost slots: seq<nat>, ghost ids: seq<ShortId>, ghost txs: seq<Tx>, ghost a0: seq<Option<Tx>>,
                    ghost lo: nat, ghost b: nat) returns (have': seq<bool>)
      requires Slots(short, slots) && Mapped(short, slots, m, |short|)
      requires Matching(short, slots, ids, txs, a0, txnAvailable, have, b) && lo <= b < |ids| && ids[b] == id && txs[b] == tx
      requires AllSeen(short, slots, ids, have, lo, b)
      modifies this`txnAvailable, this`mempoolCount
      ensures Matching(short, slots, ids, txs, a0, txnAvailable, have', b + 1)
      ensures AllSeen(short, slots, ids, have', lo, b + 1)
      ensures mempoolCount + |Free(txnAvailable)| == old(mempoolCount + |Free(txnAvailable)|)
      ensures |have'| == |have| && forall p | 0 <= p < |have| :: have[p] ==> have'[p]
    {
      hide Backed, Free, Distinct, AllSeen;
      have' := have;
      if id !in m {
        SkipStep(short, slots, ids, txs, a0, txnAvailable, have, b);
        SeenStep(short, slots, ids, have, have', lo, b);
        return;
      }
      var slot := m[id];
      ghost var k := SlotOf(short, slots, m, id);
      ghost var a := txnAvailable;
      if !have[slot] {
        txnAvailable := txnAvailable[slot := Some(tx)];
        have' := have[slot := true];
        mempoolCount := mempoolCount + 1;
        BackedFirst(ids, txs, id, b);
        FreeSet(a, slot, Some(tx));
      } else if txnAvailable[slot] != None && (!isExtra || e.witnessHash(txnAvailable[slot].value) != e.witnessHash(tx)) {
        BackedEmptied(ids, txs, id, a[slot], b);
        txnAvailable := txnAvailable[slot := None];
        mempoolCount := mempoolCount - 1;
        FreeSet(a, slot, None);
      } else {
        BackedMore(ids, txs, id, a[slot], b);
        assert a[slot := a[slot]] == a;
      }
      MatchStep(short, slots, ids, txs, a0, a, have, b, k, txnAvailable[slot]);
      assert have[slot := true] == have' && a[slot := txnAvailable[slot]] == txnAvailable;
      OnlySlot(short, slots, k, id);
      SeenStep(short, slots, ids, have, have', lo, b);
    }

    /** Fills empty positions from the pool and then from the extra transactions. */
    method MatchAll(cb: CompactBlock, extra: seq<Candidate>, m: map<ShortId, nat>)
      requires !Malformed(e, cb) && Distinct(cb.shorttxids) && txnAvailable == Placed(cb, |cb.prefilledtxn|)
      requires |Free(txnAvailable)| == |cb.shorttxids| == |m| && mempoolCount == 0
      requires Mapped(cb.shorttxids, Free(txnAvailable), m, |cb.shorttxids|)
      modifies this`txnAvailable, this`mempoolCount
      ensures Filled(e, cb, pool + extra, txnAvailable)
      ensures mempoolCount + |Free(txnAvailable)| == |cb.shorttxids|
    {
      hide Free, Placed, Backed, Distinct, AllSeen, Mapped, Matching, Filled, Slots;
      ghost var a0, short, slots := txnAvailable, cb.shorttxids, Free(txnAvailable);
      ghost var cands := pool + extra;
      ghost var ids, txs := IdsOf(e, cb, cands), TxsOf(cands);
      var have := seq(|txnAvailable|, _ => false);
      MatchStart(short, slots, ids, txs, a0, have);
      var i := 0;
      while i < |pool|
        invariant i <= |pool| && |have| == |a0| && Matching(short, slots, ids, txs, a0, txnAvailable, have, i)
        invariant (forall k | 0 <= k < |slots| :: slots[k] < |a0|) && AllSeen(short, slots, ids, have, 0, i)
        invariant mempoolCount + |Free(txnAvailable)| == |short|
      {
        var id := e.shortId(cb.header, cb.nonce, pool[i].0);
        have := Consider(m, id, pool[i].1, false, have, short, slots, ids, txs, a0, 0, i);
        i := i + 1;
        if mempoolCount == |m| {
          break;
        }
      }
      MatchEnd(short, slots, ids, txs, a0, txnAvailable, have, i, 0, |pool|);
      MatchExtra(cb, extra, m, have, short, slots, ids, txs, a0);
    }

    method MatchExtra(cb: CompactBlock, extra: seq<Candidate>, m: map<ShortId, nat>, have0: seq<bool>, ghost short: seq<ShortId>,
                      ghost slots: seq<nat>, ghost ids: seq<ShortId>, ghost txs: seq<Tx>, ghost a0: seq<Option<Tx>>)
      requires !Malformed(e, cb) && short == cb.shorttxids && a0 == Placed(cb, |cb.prefilledtxn|) && slots == Free(a0)
      requires ids == IdsOf(e, cb, pool + extra) && txs == TxsOf(pool + extra)
      requires Slots(short, slots) && |slots| == |short| && Mapped(short, slots, m, |short|) && |m| == |short|
      requires |have0| == |a0| && Matching(short, slots, ids, txs, a0, txnAvailable, have0, |pool|)
      requires AllSeen(short, slots, ids, have0, 0, |pool|)
      requires mempoolCount + |Free(txnAvailable)| == |short|
      modifies this`txnAvailable, this`mempoolCount
      ensures Filled(e, cb, pool + extra, txnAvailable)
      ensures mempoolCount + |Free(txnAvailable)| == |cb.shorttxids|
    {
      hide Free, Placed, Backed, Distinct, AllSeen, Mapped, Matching, Filled, Slots;
      var have := have0;
      var i := 0;
      SeenNothing(short, slots, ids, have, |pool|);
      while i < |extra|
        invariant i <= |extra| && |have| == |a0| && Matching(short, slots, ids, txs, a0, txnAvailable, have, |pool| + i)
        invariant AllSeen(short, slots, ids, have, 0, |pool|) && AllSeen(short, slots, ids, have, |pool|, |pool| + i)
        invariant mempoolCount + |Free(txnAvailable)| == |short|
      {
        var id := e.shortId(cb.header, cb.nonce, extra[i].0);
        ghost var before := have;
        have := Consider(m, id, extra[i].1, true, have, short, slots, ids, txs, a0, |pool|, |pool| + i);
        SeenGrows(short, slots, ids, before, have, 0, |pool|);
        i := i + 1;
        if mempoolCount == |m| {
          break;
        }
      }
      MatchEnd(short, slots, ids, txs, a0, txnAvailable, have, |pool| + i, |pool|, |pool + extra|);
      SeenJoined(short, slots, ids, have, |pool|, |pool + extra|);
      FilledFrom(e, cb, pool + extra, txnAvailable, have);
    }

    /** Sets up the block from a compact block and the transactions at hand. */
    method InitData(cb: CompactBlock, extra: seq<Candidate>) returns (status: Status)
      requires header == None && txnAvailable == [] && mempoolCount == 0
      requires |cb.shorttxids| + |cb.prefilledtxn| <= 0xFFFF
      modifies this
      ensures status == if Malformed(e, cb) then InvalidData else if Ambiguous(e, cb) then Failed else Ok
      ensures status == Ok ==>
        && header == Some(cb.header) && sig == cb.sig && prefilledCount == |cb.prefilledtxn|
        && Filled(e, cb, pool + extra, txnAvailable)
        && mempoolCount == |cb.shorttxids| - |Free(txnAvailable)|
    {
      hide Free, Placed, Distinct, Mapped, Filled, PrefilledOk, Position;
      if e.headerNull(cb.header) || (cb.shorttxids == [] && cb.prefilledtxn == []) {
        return InvalidData;
      }
      if |cb.shorttxids| + |cb.prefilledtxn| > MAX_TRANSACTIONS {
        return InvalidData;
      }
      header := Some(cb.header);
      sig := cb.sig;
      txnAvailable := Empty(|cb.shorttxids| + |cb.prefilledtxn|);
      var ok := Prefill(cb);
      if !ok {
        return InvalidData;
      }
      PlacedShape(e, cb, |cb.prefilledtxn|);
      prefilledCount := |cb.prefilledtxn|;
      var mapped, m := MapShortIds(cb);
      if !mapped {
        return Failed;
      }
      MatchAll(cb, extra, m);
      return Ok;
    }

    /** Takes the transactions at hand and, for the gaps, the missing ones in order, as far as they go. */
    method TakeAll(missing: seq<Tx>) returns (ok: bool, vtx: seq<Tx>, offset: nat)
      modifies this`txnAvailable
      ensures var a := old(txnAvailable); var f := Free(a);
        if |missing| < |f| then !ok && txnAvailable == Empty(f[|missing|]) + a[f[|missing|]..]
        else ok && vtx == Merged(a, missing) && offset == |f|
    {
      hide Merged, Free;
      ghost var a := txnAvailable;
      vtx, offset := [], 0;
      var i := 0;
      MergedStart(a, missing);
      assert a == Empty(0) + a[0..];
      while i < |txnAvailable|
        invariant i <= |a| && txnAvailable == Empty(i) + a[i..]
        invariant offset == |Free(a[..i])| <= |missing| && vtx == Merged(a[..i], missing)
      {
        FreeTake(a, i);
        assert txnAvailable[i] == a[i];
        if txnAvailable[i] == None {
          if |missing| <= offset {
            return false, vtx, offset;
          }
          MergedTake(a, i, missing);
          vtx := vtx + [missing[offset]];
          offset := offset + 1;
        } else {
          MergedTake(a, i, missing);
          vtx := vtx + [txnAvailable[i].value];
          txnAvailable := txnAvailable[i := None];
        }
        i := i + 1;
        assert txnAvailable == Empty(i) + a[i..];
      }
      assert a[..i] == a;
      ok := true;
    }

    /** Completes the block from the transactions that were missing, in order.  A call that lacks some still takes
        out what it got to. */
    method FillBlock(missing: seq<Tx>) returns (status: Status, block: Block)
      requires header != None
      modifies this
      ensures var a := old(txnAvailable); var f := Free(a);
        if |missing| < |f| then
          status == InvalidData && header == old(header) && txnAvailable == Empty(f[|missing|]) + a[f[|missing|]..]
        else
          && header == None && txnAvailable == []
          && block == Block(old(header).value, old(sig), Merged(a, missing))
          && status == if |missing| > |f| then InvalidData
                       else match e.check(block) case Passes => Ok case Mutated => Failed case Fails => CheckBlockFailed
    {
      hide Merged, Free;
      block := Block(header.value, sig, []);
      var ok, vtx, offset := TakeAll(missing);
      if !ok {
        return InvalidData, block;
      }
      block := block.(vtx := vtx);
      header := None;
      txnAvailable := [];
      if |missing| != offset {
        return InvalidData, block;
      }
      match e.check(block)
      case Passes => status := Ok;
      case Mutated => status := Failed;
      case Fails => status := CheckBlockFailed;
    }
  }

  // ---------------------------------------------------------------- reconstruction

  /** The transactions at hand with the missing ones in the gaps. */
  ghost function Merged(a: seq<Option<Tx>>, missing: seq<Tx>): (vtx: seq<Tx>)
    requires |Free(a)| <= |missing|
    ensures |vtx| == |a|
  {
    if a == [] then []
    else
      FreeTake(a, |a| - 1);
      Merged(a[..|a| - 1], missing) + [if a[|a| - 1] == None then missing[|Free(a)| - 1] else a[|a| - 1].value]
  }

  /** One more position: what is empty so far, and where the next empty one is. */
  lemma FreeTake(a: seq<Option<Tx>>, i: nat)
    requires i < |a|
    ensures Free(a[..i + 1]) == Free(a[..i]) + (if a[i] == None then [i] else [])
    ensures |Free(a[..i + 1])| <= |Free(a)| && (a[i] == None ==> Free(a)[|Free(a[..i])|] == i)
  {
    assert a[..i + 1][..i] == a[..i];
    FreePrefix(a, i + 1);
  }

  lemma {:induction false} FreePrefix(a: seq<Option<Tx>>, i: nat)
    requires i <= |a|
    ensures |Free(a[..i])| <= |Free(a)| && Free(a)[..|Free(a[..i])|] == Free(a[..i])
  {
    if i == |a| {
      assert a[..i] == a;
    } else {
      assert a[..|a| - 1][..i] == a[..i];
      FreePrefix(a[..|a| - 1], i);
    }
  }

  lemma MergedStart(a: seq<Option<Tx>>, missing: seq<Tx>)
    ensures |Free(a[..0])| == 0 && Merged(a[..0], missing) == []
  {
  }

  lemma MergedTake(a: seq<Option<Tx>>, i: nat, missing: seq<Tx>)
    requires i < |a| && |Free(a[..i + 1])| <= |missing|
    ensures |Free(a[..i])| <= |missing| && (a[i] == None ==> |Free(a[..i])| < |missing|)
    ensures Merged(a[..i + 1], missing) == Merged(a[..i], missing) + [if a[i] == None then missing[|Free(a[..i])|] else a[i].value]
  {
    hide Free;
    var b := a[..i + 1];
    assert b[..i] == a[..i];
    FreeTake(a, i);
  }

  /** With nothing wrong at hand and the right transactions for the gaps, the original comes back. */
  lemma {:induction false} MergedRight(a: seq<Option<Tx>>, missing: seq<Tx>, vtx: seq<Tx>)
    requires |a| == |vtx| && |missing| >= |Free(a)|
    requires forall p | 0 <= p < |a| && a[p] != None :: a[p].value == vtx[p]
    requires forall k | 0 <= k < |Free(a)| :: missing[k] == vtx[Free(a)[k]]
    ensures Merged(a, missing) == vtx
  {
    hide Free, Merged;
    if a == [] {
      MergedStart(a, missing);
      assert a[..0] == a;
    } else {
      var n := |a| - 1;
      assert a[..n + 1] == a;
      FreeTake(a, n);
      MergedTake(a, n, missing);
      forall k | 0 <= k < |Free(a[..n])| ensures missing[k] == vtx[..n][Free(a[..n])[k]] {
        assert Free(a)[k] == Free(a[..n])[k];
      }
      MergedRight(a[..n], missing, vtx[..n]);
      assert vtx == vtx[..n] + [vtx[n]];
    }
  }

  lemma MatchStart(short: seq<ShortId>, slots: seq<nat>, ids: seq<ShortId>, txs: seq<Tx>, a0: seq<Option<Tx>>, have: seq<bool>)
    requires slots == Free(a0) && |slots| == |short| && Distinct(short) && |ids| == |txs| && |have| == |a0|
    requires forall p | 0 <= p < |have| :: !have[p]
    ensures Slots(short, slots) && Matching(short, slots, ids, txs, a0, a0, have, 0) && AllSeen(short, slots, ids, have, 0, 0)
  {
    hide Free, Distinct;
  }

  /** A loop that ran to its end, or stopped because every slot was filled. */
  lemma MatchEnd(short: seq<ShortId>, slots: seq<nat>, ids: seq<ShortId>, txs: seq<Tx>, a0: seq<Option<Tx>>,
                 a: seq<Option<Tx>>, have: seq<bool>, b: nat, lo: nat, hi: nat)
    requires Matching(short, slots, ids, txs, a0, a, have, b) && lo <= b <= hi <= |ids|
    requires AllSeen(short, slots, ids, have, lo, b) && (b == hi || |Free(a)| == 0)
    ensures Matching(short, slots, ids, txs, a0, a, have, hi) && AllSeen(short, slots, ids, have, lo, hi)
  {
    hide Free, Backed, Matching;
    if b < hi { SeenFull(short, slots, ids, txs, a0, a, have, b, lo, hi); }
  }

  lemma SeenNothing(short: seq<ShortId>, slots: seq<nat>, ids: seq<ShortId>, have: seq<bool>, lo: nat)
    requires |slots| == |short| && lo <= |ids| && forall k | 0 <= k < |slots| :: slots[k] < |have|
    ensures AllSeen(short, slots, ids, have, lo, lo)
  {
  }

  lemma SeenJoined(short: seq<ShortId>, slots: seq<nat>, ids: seq<ShortId>, have: seq<bool>, mid: nat, b: nat)
    requires |slots| == |short| && mid <= b <= |ids| && forall k | 0 <= k < |slots| :: slots[k] < |have|
    requires AllSeen(short, slots, ids, have, 0, mid) && AllSeen(short, slots, ids, have, mid, b)
    ensures AllSeen(short, slots, ids, have, 0, b)
  {
  }

  lemma SlotOf(short: seq<ShortId>, slots: seq<nat>, m: map<ShortId, nat>, id: ShortId) returns (k: nat)
    requires |slots| == |short| && Mapped(short, slots, m, |short|) && id in m
    ensures k < |short| && short[k] == id && m[id] == slots[k]
  {
    assert Held(short, slots, id, m[id], |short|);
    k :| 0 <= k < |short| && short[k] == id && m[id] == slots[k];
  }

  lemma OnlySlot(short: seq<ShortId>, slots: seq<nat>, k: nat, id: ShortId)
    requires Slots(short, slots) && k < |short| && short[k] == id
    ensures forall l | 0 <= l < |short| && short[l] == id :: l == k
  {
  }

  /** The first empty position past the k-th is the next one in the list. */
  lemma NextFree(a: seq<Option<Tx>>, k: nat, p: nat)
    requires k < |Free(a)| && p <= Free(a)[k] && (k > 0 ==> Free(a)[k - 1] < p) && a[p] == None
    ensures p == Free(a)[k]
  {
    hide Free;
    FreeAll(a, p);
    var l :| 0 <= l < |Free(a)| && Free(a)[l] == p;
    assert l <= k && (k > 0 ==> l > k - 1);
  }

  // ---------------------------------------------------------------- a block there and back

  lemma CompactedWellFormed(e: Env, block: Block, nonce: nat, useWitness: bool)
    requires 0 < |block.vtx| <= MAX_TRANSACTIONS && !e.headerNull(block.header) && !e.txNull(block.vtx[0])
    ensures !Malformed(e, Compacted(e, block, nonce, useWitness))
  {
    var cb := Compacted(e, block, nonce, useWitness);
    forall i | 0 <= i < |cb.prefilledtxn| ensures PrefilledOk(e, cb, i) {}
  }

  lemma {:induction false} FreeTail(t: Tx, m: nat)
    ensures var f := Free([Some(t)] + Empty(m)); |f| == m && forall k | 0 <= k < m :: f[k] == k + 1
  {
    var a := [Some(t)] + Empty(m);
    if m == 0 {
      assert a == [Some(t)] && a[..0] == [];
    } else {
      assert a[..m] == [Some(t)] + Empty(m - 1);
      FreeTail(t, m - 1);
    }
  }

  lemma CompactedSlots(e: Env, block: Block, nonce: nat, useWitness: bool)
    requires block.vtx != []
    ensures var cb := Compacted(e, block, nonce, useWitness); var f := Free(Placed(cb, 1));
      && Placed(cb, 1) == [Some(block.vtx[0])] + Empty(|block.vtx| - 1)
      && |f| == |block.vtx| - 1 && forall k | 0 <= k < |f| :: f[k] == k + 1
  {
    hide Free;
    var cb := Compacted(e, block, nonce, useWitness);
    var n := |block.vtx|;
    assert Position(cb.prefilledtxn, 0) == 0;
    assert Placed(cb, 0) == Empty(n);
    assert Placed(cb, 1) == [Some(block.vtx[0])] + Empty(n - 1);
    FreeTail(block.vtx[0], n - 1);
  }

  /** No candidate has the short id of a transaction of the block without being that transaction. */
  ghost predicate NoImpostors(e: Env, cb: CompactBlock, block: Block, cands: seq<Candidate>) {
    && |block.vtx| == |cb.shorttxids| + 1
    && forall k, j | 0 <= k < |cb.shorttxids| && Matches(IdsOf(e, cb, cands), cb.shorttxids[k], j) :: cands[j].1 == block.vtx[k + 1]
  }

  /** A block goes through its compact form unchanged: header, signature and transactions, in order. */
  lemma Reconstructed(e: Env, block: Block, nonce: nat, useWitness: bool, cands: seq<Candidate>, a: seq<Option<Tx>>, missing: seq<Tx>)
    requires block.vtx != [] && !Malformed(e, Compacted(e, block, nonce, useWitness))
    requires Filled(e, Compacted(e, block, nonce, useWitness), cands, a)
    requires NoImpostors(e, Compacted(e, block, nonce, useWitness), block, cands)
    requires |a| == |block.vtx| ==> |missing| == |Free(a)| && forall k | 0 <= k < |missing| :: missing[k] == block.vtx[Free(a)[k]]
    ensures |missing| == |Free(a)| && Block(block.header, block.sig, Merged(a, missing)) == block
  {
    hide Free, Merged, Placed;
    var cb := Compacted(e, block, nonce, useWitness);
    CompactedSlots(e, block, nonce, useWitness);
    var slots := Free(Placed(cb, 1));
    forall p | 0 <= p < |a| && a[p] != None ensures a[p].value == block.vtx[p] {
      if p == 0 {
        assert p !in slots;
      } else {
        assert slots[p - 1] == p;
        var j :| Matches(IdsOf(e, cb, cands), cb.shorttxids[p - 1], j) && a[slots[p - 1]] == Some(TxsOf(cands)[j]);
      }
    }
    MergedRight(a, missing, block.vtx);
  }

  // ---------------------------------------------------------------- differential indexes

  const MAX64: nat := 0xFFFF_FFFF_FFFF_FFFF

  /** A list of indexes as the gaps between them; no list that does not grow has any. */
  function Differences(vs: seq<nat>, shift: nat): Option<seq<nat>> {
    if vs == [] then Some([])
    else if vs[0] < shift || vs[0] >= MAX64 then None
    else
      var rest := Differences(vs[1..], vs[0] + 1);
      if rest == None then None else Some([vs[0] - shift] + rest.value)
  }

  /** Gaps summed up again, in 64-bit arithmetic, for an index type with largest value maxI. */
  function Sums(ns: seq<nat>, shift: nat, maxI: nat): Option<seq<nat>> {
    if ns == [] then Some([])
    else
      var s := (shift + ns[0]) % (MAX64 + 1);
      if s < ns[0] || s >= MAX64 || s > maxI then None
      else
        var rest := Sums(ns[1..], s + 1, maxI);
        if rest == None then None else Some([s] + rest.value)
  }

  ghost predicate Growing(vs: seq<nat>, shift: nat, maxI: nat) {
    (forall i | 0 <= i < |vs| :: shift <= vs[i] <= maxI && vs[i] < MAX64) && forall i, j | 0 <= i < j < |vs| :: vs[i] < vs[j]
  }

  /** Exactly the growing lists can be written, and reading gives them back. */
  lemma {:induction false} SumsDifferences(vs: seq<nat>, shift: nat, maxI: nat)
    requires shift <= MAX64
    ensures Growing(vs, shift, MAX64) <==> Differences(vs, shift) != None
    ensures Growing(vs, shift, maxI) ==> Sums(Differences(vs, shift).value, shift, maxI) == Some(vs)
    decreases |vs|
  {
    hide Growing;
    if vs == [] {
      GrowingNothing(shift, MAX64);
    } else {
      GrowingRest(vs, shift, MAX64);
      GrowingRest(vs, shift, maxI);
      if shift <= vs[0] < MAX64 {
        SumsDifferences(vs[1..], vs[0] + 1, maxI);
        if Growing(vs, shift, maxI) {
          GrowingWider(vs[1..], vs[0] + 1, maxI);
          var rest := Differences(vs[1..], vs[0] + 1).value;
          SumsNext(vs[0] - shift, rest, shift, maxI);
          assert [vs[0]] + vs[1..] == vs;
        }
      }
    }
  }

  lemma GrowingWider(vs: seq<nat>, shift: nat, maxI: nat)
    requires Growing(vs, shift, maxI)
    ensures Growing(vs, shift, MAX64)
  {
  }

  lemma GrowingNothing(shift: nat, maxI: nat)
    ensures Growing([], shift, maxI)
  {
  }

  lemma SumsNext(n: nat, rest: seq<nat>, shift: nat, maxI: nat)
    requires shift + n < MAX64 && shift + n <= maxI
    ensures Sums([n] + rest, shift, maxI) == Prepended([shift + n], Sums(rest, shift + n + 1, maxI))
  {
    assert ([n] + rest)[1..] == rest;
    WrapOnce(shift, n);
  }

  lemma GrowingRest(vs: seq<nat>, shift: nat, maxI: nat)
    requires vs != []
    ensures Growing(vs, shift, maxI) <==> shift <= vs[0] <= maxI && vs[0] < MAX64 && Growing(vs[1..], vs[0] + 1, maxI)
  {
    if shift <= vs[0] <= maxI && vs[0] < MAX64 && Growing(vs[1..], vs[0] + 1, maxI) {
      forall i | 0 <= i < |vs| ensures shift <= vs[i] <= maxI && vs[i] < MAX64 { assert i > 0 ==> vs[i] == vs[1..][i - 1]; }
      forall i, j | 0 <= i < j < |vs| ensures vs[i] < vs[j] {
        assert vs[j] == vs[1..][j - 1];
        if i > 0 { assert vs[i] == vs[1..][i - 1]; }
      }
    }
  }

  lemma WrapOnce(x: nat, y: nat)
    requires x <= MAX64 && y <= MAX64
    ensures (x + y) % (MAX64 + 1) == if x + y <= MAX64 then x + y else x + y - MAX64 - 1
  {
  }

  /** Whatever is read grows and stays in range, and would be written the same way. */
  lemma {:induction false} DifferencesSums(ns: seq<nat>, shift: nat, maxI: nat)
    requires shift <= MAX64 && (forall i | 0 <= i < |ns| :: ns[i] <= MAX64) && Sums(ns, shift, maxI) != None
    ensures var vs := Sums(ns, shift, maxI).value;
      Growing(vs, shift, maxI) && Differences(vs, shift) == Some(ns)
    decreases |ns|
  {
    hide Growing;
    if ns == [] {
      GrowingNothing(shift, maxI);
    } else {
      WrapOnce(shift, ns[0]);
      var s := shift + ns[0];
      assert s < MAX64 && s <= maxI && Sums(ns[1..], s + 1, maxI) != None;
      DifferencesSums(ns[1..], s + 1, maxI);
      var rest := Sums(ns[1..], s + 1, maxI).value;
      DifferencesNext(s, rest, shift, maxI);
      assert [ns[0]] + ns[1..] == ns;
    }
  }

  lemma DifferencesNext(s: nat, rest: seq<nat>, shift: nat, maxI: nat)
    requires shift <= s < MAX64 && s <= maxI && Growing(rest, s + 1, maxI)
    ensures Growing([s] + rest, shift, maxI)
    ensures Differences([s] + rest, shift) == Prepended([s - shift], Differences(rest, s + 1))
  {
    hide Growing;
    assert ([s] + rest)[1..] == rest;
    GrowingRest([s] + rest, shift, maxI);
  }

  class DifferenceFormatter {
    var shift: nat

    constructor ()
      ensures shift == 0
    {
      shift := 0;
    }

    method Ser(v: nat) returns (n: Option<nat>)
      requires shift <= MAX64
      modifies this
      ensures n == if v < old(shift) || v >= MAX64 then None else Some(v - old(shift))
      ensures shift == if n == None then old(shift) else v + 1
    {
      if v < shift || v >= MAX64 {
        return None;
      }
      n := Some(v - shift);
      shift := v + 1;
    }

    method Unser(n: nat, maxI: nat) returns (v: Option<nat>)
      requires shift <= MAX64 && n <= MAX64
      modifies this
      ensures var s := (old(shift) + n) % (MAX64 + 1);
        && v == (if s < n || s >= MAX64 || s > maxI then None else Some(s))
        && shift == if v == None then s else s + 1
    {
      shift := (shift + n) % (MAX64 + 1);
      if shift < n || shift >= MAX64 || shift > maxI {
        return None;
      }
      v := Some(shift);
      shift := shift + 1;
    }

    /** Writes a list of indexes. */
    method SerAll(vs: seq<nat>) returns (ns: Option<seq<nat>>)
      requires shift <= MAX64
      modifies this
      ensures ns == Differences(vs, old(shift))
    {
      var out: seq<nat> := [];
      var i := 0;
      assert vs[0..] == vs;
      PrependedNothing(Differences(vs, shift));
      while i < |vs|
        invariant i <= |vs| && shift <= MAX64
        invariant Differences(vs, old(shift)) == Prepended(out, Differences(vs[i..], shift))
      {
        assert vs[i..][1..] == vs[i + 1..];
        var n := Ser(vs[i]);
        if n == None {
          return None;
        }
        PrependedMore(out, n.value, Differences(vs[i + 1..], shift));
        out := out + [n.value];
        i := i + 1;
      }
      assert out + [] == out;
      ns := Some(out);
    }

    /** Reads a list of indexes. */
    method UnserAll(ns: seq<nat>, maxI: nat) returns (vs: Option<seq<nat>>)
      requires shift <= MAX64 && forall i | 0 <= i < |ns| :: ns[i] <= MAX64
      modifies this
      ensures vs == Sums(ns, old(shift), maxI)
    {
      var out: seq<nat> := [];
      var i := 0;
      assert ns[0..] == ns;
      PrependedNothing(Sums(ns, shift, maxI));
      while i < |ns|
        invariant i <= |ns| && shift <= MAX64
        invariant Sums(ns, old(shift), maxI) == Prepended(out, Sums(ns[i..], shift, maxI))
      {
        assert ns[i..][1..] == ns[i + 1..];
        var v := Unser(ns[i], maxI);
        if v == None {
          return None;
        }
        PrependedMore(out, v.value, Sums(ns[i + 1..], shift, maxI));
        out := out + [v.value];
        i := i + 1;
      }
      assert out + [] == out;
      vs := Some(out);
    }
  }

  ghost function Prepended(out: seq<nat>, rest: Option<seq<nat>>): Option<seq<nat>> {
    if rest == None then None else Some(out + rest.value)
  }

  lemma PrependedNothing(rest: Option<seq<nat>>)
    ensures Prepended([], rest) == rest
  {
    assert rest != None ==> [] + rest.value == rest.value;
  }

  lemma PrependedMore(out: seq<nat>, n: nat, rest: Option<seq<nat>>)
    ensures Prepended(out, Prepended([n], rest)) == Prepended(out + [n], rest)
  {
    assert rest != None ==> out + ([n] + rest.value) == out + [n] + rest.value;
  }
}
