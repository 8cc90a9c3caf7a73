/** Removing entries whose addresses are no longer valid. */
module AddrPurge {
  import opened AddrState
  import opened AddrInvariant
  import opened AddrSteps
  import opened AddrDisk
  import opened AddrRestore

  function SlotAt(n: nat): Slot { Slot(n / BUCKET_SIZE, n % BUCKET_SIZE) }

  predicate BadAt(e: Env, info: map<int, Info>, table: map<Slot, int>, slot: Slot) {
    slot in table && table[slot] in info && !e.isValid(info[table[slot]].service.addr)
  }

  /** Drop a tried entry altogether. */
  ghost function TriedRemoved(s: State, slot: Slot): State
    requires slot in s.tried && s.tried[slot] in s.info
  {
    var id := s.tried[slot];
    if Droppable(s, id)
    then Dropped(s, id).(tried := s.tried - {slot}, nTried := s.nTried - 1, collisions := s.collisions - {id})
    else s
  }

  ghost function NewPurged(e: Env, s: State, n: nat): State {
    if n == 0 then s
    else
      var s1, slot := NewPurged(e, s, n - 1), SlotAt(n - 1);
      if BadAt(e, s1.info, s1.news, slot) then NewCleared(s1, slot) else s1
  }

  ghost function TriedPurged(e: Env, s: State, n: nat): State {
    if n == 0 then s
    else
      var s1, slot := TriedPurged(e, s, n - 1), SlotAt(n - 1);
      if BadAt(e, s1.info, s1.tried, slot) then TriedRemoved(s1, slot) else s1
  }

  ghost function Purged(e: Env, s: State): State {
    TriedPurged(e, NewPurged(e, s, NEW_BUCKETS * BUCKET_SIZE), TRIED_BUCKETS * BUCKET_SIZE)
  }

  // ---------------------------------------------------------------- each removal

  /** Everything is in order but perhaps addresses and times, and every entry has a place. */
  ghost predicate AllPlaced(e: Env, all: map<int, Info>, s: State) {
    Loading(e, s) && Limbo(s.info) == {} && Latest(all, s.info, s.addr)
  }

  /** Some entries may be gone; the others are as they were, up to positions and references. */
  ghost predicate Fewer(info: map<int, Info>, info': map<int, Info>) {
    forall id | id in info' :: id in info && info'[id].service == info[id].service
  }

  lemma TriedRemovedKeeps(e: Env, all: map<int, Info>, s: State, slot: Slot)
    requires AllPlaced(e, all, s) && slot in s.tried
    ensures s.tried[slot] in s.info && Droppable(s, s.tried[slot])
    ensures var s' := TriedRemoved(s, slot);
      && AllPlaced(e, all, s') && Without(s.info, s'.info, s.tried[slot]) && Fewer(s.info, s'.info)
      && s'.tried == s.tried - {slot} && s'.news == s.news && s'.key == s.key
  {
    hide Ranked, RefsOk, Counted, NewPlaced, Dropped, Limbo, Latest;
    var id := s.tried[slot];
    DroppedRanked(s, id);
    RankedAt(s.info, s.rnd, s.idCount, id);
    var info' := TriedRemoved(s, slot).info;
    RemovedRefs(s.info, info', id);
    RemovedCounted(s.info, info', id, s.nTried, s.nNew, |s.rnd|);
    RemovedTried(e, s.key, s.info, info', s.tried, slot);
    RemovedNew(e, s.key, s.info, info', s.news, id);
    LimboWithout(s.info, info', id);
    LatestRemoved(all, s.info, info', s.addr, id);
  }

  lemma UnreferencedLoading(e: Env, s: State, slot: Slot)
    requires Loading(e, s) && slot in s.news
    ensures s.news[slot] in s.info && !s.info[s.news[slot]].fInTried && s.info[s.news[slot]].nRefCount > 0
    ensures Loading(e, Unreferenced(s, slot))
  {
    hide Ranked, TriedPlaced, TriedIds, NewIds;
    var id, i := s.news[slot], Unreferenced(s, slot).info[s.news[slot]];
    assert slot in Slots(s.news, id);
    TouchedRanked(s.info, s.rnd, s.idCount, id, i);
    TouchedCounted(s.info, id, i);
    TouchedTried(e, s.key, s.info, s.tried, id, i);
    UnreferencedNew(e, s.key, s.info, s.news, slot, i);
  }

  lemma LimboTouched(info: map<int, Info>, id: int, i: Info)
    requires Limbo(info) == {} && id in info && !i.fInTried
    ensures Limbo(info[id := i]) == if i.nRefCount == 0 then {id} else {}
  {
    var limbo: set<int> := if i.nRefCount == 0 then {id} else {};
    forall j ensures j in Limbo(info[id := i]) <==> j in limbo {
      assert j !in Limbo(info);
    }
  }

  lemma NewClearedPlaced(e: Env, all: map<int, Info>, s: State, slot: Slot)
    requires AllPlaced(e, all, s) && slot in s.news
    ensures s.news[slot] in s.info
    ensures var s' := NewCleared(s, slot);
      && AllPlaced(e, all, s') && KeepsAllBut(s.info, s'.info, {s.news[slot]}) && Fewer(s.info, s'.info)
      && s'.news == s.news - {slot} && s'.tried == s.tried && s'.key == s.key
  {
    hide Loading, Limbo, Latest, Deleted;
    UnreferencedLoading(e, s, slot);
    var id, s1 := s.news[slot], Unreferenced(s, slot);
    LimboTouched(s.info, id, s1.info[id]);
    LatestKept(all, s.info, s.addr, id, s1.info[id]);
    if s1.info[id].nRefCount == 0 {
      DeletedLoading(e, s1, id);
      LatestRemoved(all, s1.info, Deleted(s1, id).info, s1.addr, id);
    }
  }

  // ---------------------------------------------------------------- both tables

  ghost predicate IsGood(e: Env, i: Info) { e.isValid(i.service.addr) }

  /** Valid entries are all still there, and nothing new. */
  ghost predicate KeepsGood(e: Env, info: map<int, Info>, info': map<int, Info>) {
    Fewer(info, info') && forall id | id in info && IsGood(e, info[id]) :: id in info' && SameButPos(info'[id], info[id])
  }

  ghost predicate Clean(e: Env, info: map<int, Info>, table: map<Slot, int>, n: nat) {
    forall m | 0 <= m < n :: !BadAt(e, info, table, SlotAt(m))
  }

  lemma StillFine(e: Env, info: map<int, Info>, info': map<int, Info>, table: map<Slot, int>, table': map<Slot, int>, slot: Slot)
    requires !BadAt(e, info, table, slot) && Fewer(info, info')
    requires slot in table' ==> slot in table && table'[slot] == table[slot]
    ensures !BadAt(e, info', table', slot)
  {
    if slot in table' {
      var id := table'[slot];
      assert id in info' ==> id in info && info'[id].service == info[id].service;
    }
  }

  lemma GoodChain(e: Env, info: map<int, Info>, info1: map<int, Info>, info2: map<int, Info>, id: int)
    requires KeepsGood(e, info, info1) && Fewer(info1, info2) && id in info1 && !IsGood(e, info1[id])
    requires forall j | j in info1 && j != id :: j in info2 && SameButPos(info2[j], info1[j])
    ensures KeepsGood(e, info, info2)
  {
  }

  lemma {:induction false} NewPurgedMeans(e: Env, all: map<int, Info>, s: State, n: nat)
    requires AllPlaced(e, all, s)
    ensures var s' := NewPurged(e, s, n);
      && AllPlaced(e, all, s') && KeepsGood(e, s.info, s'.info) && Clean(e, s'.info, s'.news, n)
      && s'.tried == s.tried && s'.key == s.key
  {
    hide AllPlaced, NewCleared, SlotAt;
    if n > 0 {
      NewPurgedMeans(e, all, s, n - 1);
      var s1, slot := NewPurged(e, s, n - 1), SlotAt(n - 1);
      if BadAt(e, s1.info, s1.news, slot) {
        NewClearedPlaced(e, all, s1, slot);
        var s' := NewCleared(s1, slot);
        GoodChain(e, s.info, s1.info, s'.info, s1.news[slot]);
        forall m | 0 <= m < n - 1 ensures !BadAt(e, s'.info, s'.news, SlotAt(m)) {
          assert !BadAt(e, s1.info, s1.news, SlotAt(m));
          StillFine(e, s1.info, s'.info, s1.news, s'.news, SlotAt(m));
        }
      }
    }
  }

  lemma {:induction false} TriedPurgedMeans(e: Env, all: map<int, Info>, s: State, n: nat)
    requires AllPlaced(e, all, s)
    ensures var s' := TriedPurged(e, s, n);
      && AllPlaced(e, all, s') && KeepsGood(e, s.info, s'.info) && Clean(e, s'.info, s'.tried, n)
      && s'.news == s.news && s'.key == s.key
  {
    hide AllPlaced, TriedRemoved, SlotAt;
    if n > 0 {
      TriedPurgedMeans(e, all, s, n - 1);
      var s1, slot := TriedPurged(e, s, n - 1), SlotAt(n - 1);
      if BadAt(e, s1.info, s1.tried, slot) {
        TriedRemovedKeeps(e, all, s1, slot);
        var s' := TriedRemoved(s1, slot);
        GoodChain(e, s.info, s1.info, s'.info, s1.tried[slot]);
        forall m | 0 <= m < n - 1 ensures !BadAt(e, s'.info, s'.tried, SlotAt(m)) {
          assert !BadAt(e, s1.info, s1.tried, SlotAt(m));
          StillFine(e, s1.info, s'.info, s1.tried, s'.tried, SlotAt(m));
        }
      }
    }
  }

  lemma PlaceOf(e: Env, s: State, id: int) returns (slot: Slot)
    requires Loading(e, s) && Limbo(s.info) == {} && id in s.info
    ensures if s.info[id].fInTried then slot in s.tried && s.tried[slot] == id && slot == TriedSlot(e, s.key, s.info[id].service)
            else slot in s.news && s.news[slot] == id && slot.bucket < NEW_BUCKETS && slot.pos < BUCKET_SIZE
  {
    if s.info[id].fInTried {
      slot := TriedSlot(e, s.key, s.info[id].service);
    } else {
      assert id !in Limbo(s.info);
      assert |Slots(s.news, id)| > 0;
      slot :| slot in Slots(s.news, id);
    }
  }

  /** Exactly the entries with valid addresses remain, as they were. */
  lemma PurgedMeans(e: Env, all: map<int, Info>, s: State)
    requires AllPlaced(e, all, s)
    ensures var s' := Purged(e, s);
      && AllPlaced(e, all, s') && s'.key == s.key
      && (forall id | id in s'.info :: id in s.info && IsGood(e, s.info[id]) && SameButPos(s'.info[id], s.info[id]))
      && (forall id | id in s.info && IsGood(e, s.info[id]) :: id in s'.info)
  {
    hide Loading, Limbo, Latest, NewPurged, TriedPurged, SameButPos;
    var s1 := NewPurged(e, s, NEW_BUCKETS * BUCKET_SIZE);
    NewPurgedMeans(e, all, s, NEW_BUCKETS * BUCKET_SIZE);
    TriedPurgedMeans(e, all, s1, TRIED_BUCKETS * BUCKET_SIZE);
    var s' := Purged(e, s);
    forall id | id in s'.info ensures id in s1.info && id in s.info && IsGood(e, s.info[id]) {
      assert s'.info[id].service == s1.info[id].service == s.info[id].service;
      var slot := PlaceOf(e, s', id);
      if s'.info[id].fInTried {
        SlotNumber(slot, TRIED_BUCKETS);
      } else {
        SlotNumber(slot, NEW_BUCKETS);
        assert !BadAt(e, s1.info, s1.news, slot);
      }
    }
    forall id | id in s.info && IsGood(e, s.info[id]) ensures id in s'.info && SameButPos(s'.info[id], s.info[id]) {
      SamePosChain(s'.info[id], s1.info[id], s.info[id]);
    }
  }

  lemma SamePosChain(i: Info, j: Info, k: Info)
    requires SameButPos(j, k)
    ensures j.service == k.service && (SameButPos(i, j) ==> SameButPos(i, k))
  {
  }

  lemma SlotNumber(slot: Slot, buckets: nat)
    requires slot.bucket < buckets && slot.pos < BUCKET_SIZE
    ensures var m := slot.bucket * BUCKET_SIZE + slot.pos; 0 <= m < buckets * BUCKET_SIZE && SlotAt(m) == slot
  {
  }

  lemma InvPlaced(e: Env, s: State)
    requires Inv(e, s)
    ensures AllPlaced(e, s.info, s)
  {
    hide Inv, Loading;
    ConsistentIff(e, s);
    forall a ensures Whole(s.info, s.info, a) {}
  }

  /** A consistent address manager stays one. */
  lemma PurgedKeeps(e: Env, s: State)
    requires Inv(e, s)
    ensures Inv(e, Purged(e, s))
  {
    hide Inv, Loading, Limbo, Latest, Purged;
    InvPlaced(e, s);
    PurgedMeans(e, s.info, s);
    ConsistentFrom(e, s.info, s);
    ConsistentFrom(e, s.info, Purged(e, s));
  }

  /** With only valid addresses nothing happens. */
  lemma PurgedNothing(e: Env, s: State)
    requires forall id | id in s.info :: IsGood(e, s.info[id])
    ensures Purged(e, s) == s
  {
    NewPurgedNothing(e, s, NEW_BUCKETS * BUCKET_SIZE);
    TriedPurgedNothing(e, s, TRIED_BUCKETS * BUCKET_SIZE);
  }

  lemma {:induction false} NewPurgedNothing(e: Env, s: State, n: nat)
    requires forall id | id in s.info :: IsGood(e, s.info[id])
    ensures NewPurged(e, s, n) == s
  {
    if n > 0 { NewPurgedNothing(e, s, n - 1); }
  }

  lemma {:induction false} TriedPurgedNothing(e: Env, s: State, n: nat)
    requires forall id | id in s.info :: IsGood(e, s.info[id])
    ensures TriedPurged(e, s, n) == s
  {
    if n > 0 { TriedPurgedNothing(e, s, n - 1); }
  }

  // ---------------------------------------------------------------- the loops

  lemma PurgedStart(e: Env, s: State)
    ensures NewPurged(e, s, 0) == s && TriedPurged(e, s, 0) == s
  {
  }

  lemma NewPurgedNext(e: Env, all: map<int, Info>, s: State, n: nat)
    requires AllPlaced(e, all, s)
    ensures var s1, slot := NewPurged(e, s, n), SlotAt(n);
      && AllPlaced(e, all, s1)
      && (slot in s1.news ==>
            var id := s1.news[slot];
            id in s1.info && !s1.info[id].fInTried && s1.info[id].nRefCount > 0 && Droppable(s1, id))
      && NewPurged(e, s, n + 1) == if BadAt(e, s1.info, s1.news, slot) then NewCleared(s1, slot) else s1
  {
    hide Loading, Limbo, Latest, SlotAt, NewCleared;
    NewPurgedMeans(e, all, s, n);
    var s1, slot := NewPurged(e, s, n), SlotAt(n);
    if slot in s1.news {
      UnreferencedLoading(e, s1, slot);
      LoadingDroppable(e, s1, s1.news[slot]);
    }
  }

  lemma LoadingDroppable(e: Env, s: State, id: int)
    requires Loading(e, s) && id in s.info
    ensures Droppable(s, id)
  {
    hide TriedPlaced, NewPlaced, Counted, RefsOk;
    RankedAt(s.info, s.rnd, s.idCount, id);
  }

  lemma TriedPurgedNext(e: Env, all: map<int, Info>, s: State, n: nat)
    requires AllPlaced(e, all, s)
    ensures var s1, slot := TriedPurged(e, s, n), SlotAt(n);
      && AllPlaced(e, all, s1)
      && (slot in s1.tried ==> s1.tried[slot] in s1.info && Droppable(s1, s1.tried[slot]))
      && TriedPurged(e, s, n + 1) == if BadAt(e, s1.info, s1.tried, slot) then TriedRemoved(s1, slot) else s1
  {
    hide AllPlaced, SlotAt, TriedRemoved;
    TriedPurgedMeans(e, all, s, n);
    var s1 := TriedPurged(e, s, n);
    if SlotAt(n) in s1.tried { TriedRemovedKeeps(e, all, s1, SlotAt(n)); }
  }

  /** Writing a consistent address manager of valid addresses and reading it back, under the same map of groups, gives
      it back up to numbering: nothing is deleted for want of a place, and nothing as invalid. */
  lemma FileRoundTrip(e: Env, s: State, order: seq<int>, asmap: nat, order': seq<int>)
    requires Inv(e, s) && Enumerates(order, s.info) && forall id | id in s.info :: IsGood(e, s.info[id])
    ensures forall slot | slot in s.news :: s.news[slot] in Chosen(s.info, order, false)
    ensures var r := Filled(e, Serialized(s, order, asmap), asmap);
      && Inv(e, r) && Purged(e, Pruned(r, order')) == r && SameUpToNumbers(s, r, Numbering(s.info, order))
  {
    hide Inv, Chosen, Serialized, Filled, Pruned, Purged, Numbering, SameUpToNumbers, IsGood;
    RestoredExactly(e, s, order, asmap, order');
    var r := Filled(e, Serialized(s, order, asmap), asmap);
    GoodBack(e, s, r, Numbering(s.info, order));
    PurgedNothing(e, r);
  }

  lemma GoodBack(e: Env, s: State, r: State, ids: seq<int>)
    requires SameUpToNumbers(s, r, ids) && forall id | id in s.info :: IsGood(e, s.info[id])
    ensures forall k | k in r.info :: IsGood(e, r.info[k])
  {
    forall k | k in r.info ensures IsGood(e, r.info[k]) {
      assert 0 <= k < |ids| && ids[k] in s.info && r.info[k] == Renewed(s.info[ids[k]], k, s.info[ids[k]].nRefCount);
      assert IsGood(e, s.info[ids[k]]);
    }
  }
}
