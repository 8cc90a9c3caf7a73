/** The address manager as the object it is: maps, a vector, counters and two bucket arrays updated in
    place.  Each method leaves exactly the state its function in AddrOps describes. */
module AddrMan {
  import opened Basics
  import opened Numbers
  import opened AddrState
  import opened AddrSteps
  import opened AddrOps
  import opened AddrRun
  import opened AddrDisk
  import opened AddrRestore
  import opened AddrPurge
  import opened AddrRead

  /** The occupied slots of a bucket array. */
  ghost function Occupied(t: array2<int>): map<Slot, int>
    reads t
  {
    map b: nat, p: nat | b < t.Length0 && p < t.Length1 && t[b, p] != -1 :: Slot(b, p) := t[b, p]
  }

  lemma OccupiedAt(t: array2<int>, slot: Slot)
    requires slot.bucket < t.Length0 && slot.pos < t.Length1
    ensures slot in Occupied(t) <==> t[slot.bucket, slot.pos] != -1
    ensures slot in Occupied(t) ==> Occupied(t)[slot] == t[slot.bucket, slot.pos]
  {
    assert slot == Slot(slot.bucket, slot.pos);
  }

  /** Writes a slot of a bucket array; -1 frees it. */
  method Put(t: array2<int>, slot: Slot, id: int)
    requires slot.bucket < t.Length0 && slot.pos < t.Length1
    modifies t
    ensures Occupied(t) == if id == -1 then old(Occupied(t)) - {slot} else old(Occupied(t))[slot := id]
  {
    t[slot.bucket, slot.pos] := id;
  }

  /** Reads a slot of a bucket array. */
  method Holder(t: array2<int>, slot: Slot) returns (id: int)
    requires slot.bucket < t.Length0 && slot.pos < t.Length1
    ensures id == if slot in Occupied(t) then Occupied(t)[slot] else -1
    ensures slot in Occupied(t) <==> id != -1
  {
    OccupiedAt(t, slot);
    id := t[slot.bucket, slot.pos];
  }

  class AddrMan {
    const e: Env
    var nKey: nat
    var nIdCount: int
    var mapInfo: map<int, Info>
    var mapAddr: map<NetAddr, int>
    var vRandom: seq<int>
    var nTried: int
    const vvTried: array2<int>
    var nNew: int
    const vvNew: array2<int>
    var nLastGood: int
    var triedCollisions: set<int>

    ghost predicate Shaped() {
      && vvTried.Length0 == TRIED_BUCKETS && vvTried.Length1 == BUCKET_SIZE
      && vvNew.Length0 == NEW_BUCKETS && vvNew.Length1 == BUCKET_SIZE
      && vvTried != vvNew
    }

    ghost function Model(): State
      reads this, vvTried, vvNew
    {
      State(nKey, nIdCount, mapInfo, mapAddr, vRandom, nTried, Occupied(vvTried), nNew, Occupied(vvNew),
            nLastGood, triedCollisions)
    }

    ghost predicate Valid()
      reads this, vvTried, vvNew
    {
      Shaped() && Inv(e, Model())
    }

    method SwapRandom(p1: nat, p2: nat)
      requires p1 < |vRandom| && p2 < |vRandom| && vRandom[p1] in mapInfo && vRandom[p2] in mapInfo
      modifies this`mapInfo, this`vRandom
      ensures Model() == Swapped(old(Model()), p1, p2)
    {
      if p1 == p2 { return; }
      var id1, id2 := vRandom[p1], vRandom[p2];
      mapInfo := mapInfo[id1 := mapInfo[id1].(nRandomPos := p2)];
      mapInfo := mapInfo[id2 := mapInfo[id2].(nRandomPos := p1)];
      vRandom := vRandom[p1 := id2][p2 := id1];
    }

    method Create(a: Address, source: NetAddr) returns (id: int)
      modifies this`nIdCount, this`mapInfo, this`mapAddr, this`vRandom
      ensures id == old(nIdCount)
      ensures Model() == Created(old(Model()), a, source)
    {
      id := nIdCount;
      nIdCount := nIdCount + 1;
      mapInfo := mapInfo[id := Info(a.service, a.nTime, a.services, source, 0, 0, 0, 0, 0, false, -1)];
      mapAddr := mapAddr[a.service.addr := id];
      mapInfo := mapInfo[id := mapInfo[id].(nRandomPos := |vRandom|)];
      vRandom := vRandom + [id];
    }

    /** Takes an entry out of vRandom, mapAddr and mapInfo. */
    method Drop(id: int)
      requires Droppable(Model(), id)
      modifies this`mapInfo, this`mapAddr, this`vRandom
      ensures old(Droppable(Model(), id)) && Model() == Dropped(old(Model()), id)
    {
      hide Occupied;
      var i := mapInfo[id];
      SwapRandom(i.nRandomPos, |vRandom| - 1);
      vRandom := vRandom[..|vRandom| - 1];
      mapAddr := mapAddr - {i.service.addr};
      mapInfo := mapInfo - {id};
    }

    method Delete(id: int)
      requires Droppable(Model(), id) && !mapInfo[id].fInTried && mapInfo[id].nRefCount == 0
      modifies this`mapInfo, this`mapAddr, this`vRandom, this`nNew
      ensures old(Droppable(Model(), id)) && Model() == Deleted(old(Model()), id)
    {
      hide Dropped, Occupied;
      Drop(id);
      nNew := nNew - 1;
    }

    method ClearNew(slot: Slot)
      requires Shaped() && slot.bucket < NEW_BUCKETS && slot.pos < BUCKET_SIZE
      requires slot in Model().news ==>
        var id := Model().news[slot]; Droppable(Model(), id) && !mapInfo[id].fInTried && mapInfo[id].nRefCount > 0
      modifies this`mapInfo, this`mapAddr, this`vRandom, this`nNew, vvNew
      ensures Model() == NewCleared(old(Model()), slot)
    {
      hide Occupied, Dropped;
      ghost var s := Model();
      var id := Holder(vvNew, slot);
      if id != -1 {
        mapInfo := mapInfo[id := mapInfo[id].(nRefCount := mapInfo[id].nRefCount - 1)];
        Put(vvNew, slot, -1);
        assert Model() == Unreferenced(s, slot);
        if mapInfo[id].nRefCount == 0 {
          Delete(id);
        }
      }
    }

    /** Take the entry out of one new bucket. */
    method LeaveBucket(id: int, bucket: nat, ghost s: State, ghost gone: set<Slot>) returns (ghost gone': set<Slot>)
      requires Shaped() && id in s.info && id != -1 && bucket < NEW_BUCKETS && nKey == s.key
      requires gone <= FittingSlots(e, s, id)
      requires forall slot | slot in FittingSlots(e, s, id) :: slot in gone <==> slot.bucket < bucket
      requires Occupied(vvNew) == s.news - gone
      requires mapInfo == s.info[id := s.info[id].(nRefCount := s.info[id].nRefCount - |gone|)]
      modifies this`mapInfo, vvNew
      ensures gone' <= FittingSlots(e, s, id)
      ensures forall slot | slot in FittingSlots(e, s, id) :: slot in gone' <==> slot.bucket < bucket + 1
      ensures Occupied(vvNew) == s.news - gone'
      ensures mapInfo == s.info[id := s.info[id].(nRefCount := s.info[id].nRefCount - |gone'|)]
    {
      hide Occupied, FittingSlots;
      var slot := Slot(bucket, BucketPosition(bucket, mapInfo[id].service));
      FittingAt(e, s, id, slot);
      var holder := Holder(vvNew, slot);
      gone' := gone;
      if holder == id {
        Put(vvNew, slot, -1);
        gone' := gone + {slot};
        mapInfo := mapInfo[id := mapInfo[id].(nRefCount := mapInfo[id].nRefCount - 1)];
      }
    }

    /** Take the entry out of every new bucket. */
    method LeaveNewBuckets(id: int)
      requires Shaped() && id in mapInfo && id != -1
      modifies this`mapInfo, this`nNew, vvNew
      ensures Model() == Withdrawn(e, old(Model()), id)
    {
      hide Occupied, FittingSlots;
      ghost var s := Model();
      ghost var gone: set<Slot> := {};
      for bucket := 0 to NEW_BUCKETS
        invariant nNew == s.nNew
        invariant gone <= FittingSlots(e, s, id)
        invariant forall slot | slot in FittingSlots(e, s, id) :: slot in gone <==> slot.bucket < bucket
        invariant Occupied(vvNew) == s.news - gone
        invariant mapInfo == s.info[id := s.info[id].(nRefCount := s.info[id].nRefCount - |gone|)]
      {
        gone := LeaveBucket(id, bucket, s, gone);
      }
      FittingBound(e, s, id);
      assert gone == FittingSlots(e, s, id);
      nNew := nNew - 1;
    }

    function BucketPosition(bucket: nat, a: Service): (pos: nat)
      reads this
      ensures pos < BUCKET_SIZE && pos == Position(e, nKey, true, bucket, a)
    {
      Position(e, nKey, true, bucket, a)
    }

    /** Move the holder of a tried slot back to the new table, deleting whatever is there. */
    method Evict(slot: Slot, ghost limbo: set<int>)
      requires Shaped() && slot.bucket < TRIED_BUCKETS && slot.pos < BUCKET_SIZE
      requires InvExcept(e, Model(), limbo, 0) && slot in Model().tried
      modifies this`mapInfo, this`mapAddr, this`vRandom, this`nNew, this`nTried, vvNew, vvTried
      ensures IndexOk(old(Model())) && old(Model()).tried[slot] in old(Model()).info
      ensures forall u | u in old(Model()).news ::
        old(Model()).news[u] in old(Model()).info && old(Model()).news[u] != old(Model()).tried[slot]
      ensures Model() == Evicted(e, old(Model()), slot)
    {
      hide Indexed, EntriesOk, Counted, TriedPlaced, NewPlaced, Occupied, NewSlot, NewCleared;
      ghost var s := Model();
      var id := Holder(vvTried, slot);
      UntriedKeeps(e, s, slot, limbo);
      NotMinusOne(e, s, id, limbo, 0);
      mapInfo := mapInfo[id := mapInfo[id].(fInTried := false)];
      Put(vvTried, slot, -1);
      nTried := nTried - 1;
      assert Model() == Untried(s, slot);
      var u := NewSlot(e, nKey, mapInfo[id].service, mapInfo[id].source);
      NewSlotInRange(e, nKey, mapInfo[id].service, mapInfo[id].source);
      NewHolder(e, Model(), u, limbo + {id}, 0);
      IndexGives(Model());
      ClearNew(u);
      NewClearedShape(Untried(s, slot), u);
      assert u !in Model().news;
      mapInfo := mapInfo[id := mapInfo[id].(nRefCount := 1)];
      Put(vvNew, u, id);
      nNew := nNew + 1;
    }

    method MakeTried(id: int)
      requires Valid() && id in mapInfo && !mapInfo[id].fInTried
      modifies this`mapInfo, this`mapAddr, this`vRandom, this`nNew, this`nTried, vvNew, vvTried
      ensures old(Valid()) && Model() == MadeTried(e, old(Model()), id)
    {
      hide Indexed, EntriesOk, Counted, TriedPlaced, NewPlaced, Occupied, Withdrawn, Evicted, TriedSlot;
      ghost var s := Model();
      IdBelow(e, s, id);
      WithdrawnKeeps(e, s, id);
      LeaveNewBuckets(id);
      WithdrawnApart(e, s, id, TriedSlot(e, nKey, s.info[id].service));
      assert mapInfo[id].nRefCount == 0;
      var slot := TriedSlot(e, nKey, mapInfo[id].service);
      TriedSlotInRange(e, nKey, mapInfo[id].service);
      var holder := Holder(vvTried, slot);
      if holder != -1 {
        EvictedKeeps(e, Model(), slot, {id});
        EvictedShape(e, Model(), slot);
        Evict(slot, {id});
      }
      assert slot !in Model().tried;
      Put(vvTried, slot, id);
      nTried := nTried + 1;
      mapInfo := mapInfo[id := mapInfo[id].(fInTried := true)];
    }

    method Find(a: NetAddr) returns (found: bool, id: int)
      requires Valid()
      ensures found <==> a in mapAddr
      ensures found ==> id == mapAddr[a] && id in mapInfo
    {
      hide Indexed, EntriesOk, Counted, TriedPlaced, NewPlaced, Occupied;
      Linked(e, Model(), {}, 0);
      if a !in mapAddr { return false, -1; }
      return true, mapAddr[a];
    }

    /** Look for a new bucket that holds the entry, starting from a random one. */
    method SearchNewBuckets(id: int, start: nat) returns (found: int)
      requires Shaped() && id in mapInfo && id != -1 && start < NEW_BUCKETS
      ensures found == -1 <==> FittingSlots(e, Model(), id) == {}
      ensures found != -1 ==> exists slot :: slot in FittingSlots(e, Model(), id) && slot.bucket == found
    {
      hide Occupied, FittingSlots;
      ghost var slots := FittingSlots(e, Model(), id);
      FittingBound(e, Model(), id);
      var a := mapInfo[id].service;
      for n := 0 to NEW_BUCKETS
        invariant forall slot | slot in slots :: Distance(start, slot.bucket) >= n
      {
        var bucket := (n + start) % NEW_BUCKETS;
        var slot := Slot(bucket, BucketPosition(bucket, a));
        FittingAt(e, Model(), id, slot);
        var holder := Holder(vvNew, slot);
        if holder == id {
          return bucket;
        }
        assert forall u | u in slots :: u.bucket != bucket;
      }
      return -1;
    }

    method Good(a: Service, testBeforeEvict: bool, time: int, roll: nat)
      requires Valid() && time > 0 && roll < NEW_BUCKETS
      modifies this, vvNew, vvTried
      ensures Valid() && old(Valid()) && Model() == AddrOps.Good(e, old(Model()), a, testBeforeEvict, time)
    {
      hide Indexed, EntriesOk, Counted, TriedPlaced, NewPlaced, Occupied, MadeTried, TriedSlot, FittingSlots;
      ghost var s := Model();
      GoodKeeps(e, s, a, testBeforeEvict, time);
      nLastGood := time;
      var found, id := a.addr in mapAddr, -1;
      Linked(e, s, {}, 0);
      if found { id := mapAddr[a.addr]; }
      if !found || mapInfo[id].service != a { return; }
      SucceededKeeps(e, s, a, time);
      mapInfo := mapInfo[id := mapInfo[id].(nLastSuccess := time, nLastTry := time, nAttempts := 0)];
      assert Model() == Succeeded(s, a, time);
      if mapInfo[id].fInTried { return; }
      IdBelow(e, Model(), id);
      FittingSlotsAll(e, Model(), id);
      var bucket := SearchNewBuckets(id, roll);
      assert bucket != -1;
      var slot := TriedSlot(e, nKey, mapInfo[id].service);
      TriedSlotInRange(e, nKey, mapInfo[id].service);
      var holder := Holder(vvTried, slot);
      if testBeforeEvict && holder != -1 {
        if |triedCollisions| < COLLISION_SIZE {
          triedCollisions := triedCollisions + {id};
        }
      } else {
        MakeTried(id);
      }
    }

    method Introduce(a: Address, source: NetAddr, penalty: int) returns (id: int)
      modifies this`nIdCount, this`mapInfo, this`mapAddr, this`vRandom, this`nNew
      ensures id == old(nIdCount) && Model() == Introduced(old(Model()), a, source, penalty)
    {
      id := Create(a, source);
      mapInfo := mapInfo[id := mapInfo[id].(nTime := U32(Max(0, mapInfo[id].nTime - penalty)))];
      nNew := nNew + 1;
    }

    method Add(a: Address, source: NetAddr, penalty: int, now: int, roll: nat) returns (fNew: bool)
      requires Valid()
      modifies this, vvNew, vvTried
      ensures Valid() && old(Valid()) && Model() == AddrOps.Add(e, old(Model()), a, source, penalty, now, roll)
      ensures fNew <==> e.isRoutable(a.service.addr) && a.service.addr !in old(mapAddr)
    {
      hide Indexed, EntriesOk, Counted, TriedPlaced, NewPlaced, Occupied, Filed, Announced, Created;
      ghost var s := Model();
      AddKeeps(e, s, a, source, penalty, now, roll);
      if !e.isRoutable(a.service.addr) { return false; }
      var found, id := Find(a.service.addr);
      var pen := if a.service.addr == source then 0 else penalty;
      if found {
        EntryOk(e, s, id);
        AnnouncedTouches(mapInfo[id], a, pen, now);
        mapInfo := mapInfo[id := Announced(mapInfo[id], a, pen, now)];
        TouchedKeeps(e, s, id, mapInfo[id]);
        EntryOk(e, Model(), id);
        var wants := TestReference(mapInfo[id], a, roll);
        if wants {
          File(id, source, now, {}, 0);
        }
        return false;
      } else {
        IntroducedKeeps(e, s, a, source, pen);
        InLimbo(e, Introduced(s, a, source, pen), nIdCount, 1);
        id := Introduce(a, source, pen);
        File(id, source, now, {id}, 1);
        return true;
      }
    }

    /** Give the entry a reference in the new bucket its source selects, if the holder gives way. */
    method File(id: int, source: NetAddr, now: int, ghost limbo: set<int>, ghost extra: int)
      requires Shaped() && InvExcept(e, Model(), limbo, extra) && id in mapInfo && !mapInfo[id].fInTried
      modifies this`mapInfo, this`mapAddr, this`vRandom, this`nNew, vvNew
      ensures IndexOk(old(Model()))
      ensures forall u | u in old(Model()).news :: old(Model()).news[u] in old(Model()).info
      ensures Model() == Filed(e, old(Model()), id, source, now)
    {
      hide Indexed, EntriesOk, Counted, TriedPlaced, NewPlaced, Occupied, NewSlot, IsTerrible, NewCleared, Dropped;
      ghost var s := Model();
      Linked(e, s, limbo, extra);
      var slot := NewSlot(e, nKey, mapInfo[id].service, source);
      NewSlotInRange(e, nKey, mapInfo[id].service, source);
      NewHolder(e, s, slot, limbo, extra);
      IndexGives(s);
      NotMinusOne(e, s, id, limbo, extra);
      var holder := Holder(vvNew, slot);
      if holder != id {
        var insert := holder == -1;
        if !insert {
          var existing := mapInfo[holder];
          insert := IsTerrible(existing, now) || (existing.nRefCount > 1 && mapInfo[id].nRefCount == 0);
        }
        if insert {
          ClearNew(slot);
          NewClearedShape(s, slot);
          mapInfo := mapInfo[id := mapInfo[id].(nRefCount := mapInfo[id].nRefCount + 1)];
          Put(vvNew, slot, id);
        } else if mapInfo[id].nRefCount == 0 {
          Delete(id);
        }
      }
    }

    method Attempt(a: Service, countFailure: bool, time: int)
      requires Valid() && time > 0
      modifies this`mapInfo
      ensures Valid() && (a.addr in old(mapAddr) ==> old(mapAddr)[a.addr] in old(mapInfo))
      ensures Model() == AddrState.Attempt(old(Model()), a, countFailure, time)
    {
      hide Indexed, EntriesOk, Counted, TriedPlaced, NewPlaced, Occupied;
      AttemptKeeps(e, Model(), a, countFailure, time);
      var found, id := Find(a.addr);
      if !found || mapInfo[id].service != a { return; }
      ghost var s := Model();
      mapInfo := mapInfo[id := mapInfo[id].(nLastTry := time)];
      if countFailure && mapInfo[id].nLastCountAttempt < nLastGood {
        mapInfo := mapInfo[id := mapInfo[id].(nLastCountAttempt := time, nAttempts := mapInfo[id].nAttempts + 1)];
      }
      assert Model() == AddrState.Attempt(s, a, countFailure, time);
    }

    method Connected(a: Service, time: int)
      requires Valid()
      modifies this`mapInfo
      ensures Valid() && (a.addr in old(mapAddr) ==> old(mapAddr)[a.addr] in old(mapInfo))
      ensures Model() == AddrState.Connected(old(Model()), a, time)
    {
      hide Indexed, EntriesOk, Counted, TriedPlaced, NewPlaced, Occupied;
      ConnectedKeeps(e, Model(), a, time);
      var found, id := Find(a.addr);
      if !found || mapInfo[id].service != a { return; }
      if time - mapInfo[id].nTime > 20 * 60 {
        mapInfo := mapInfo[id := mapInfo[id].(nTime := U32(time))];
      }
    }

    method SetServices(a: Service, services: set<nat>)
      requires Valid()
      modifies this`mapInfo
      ensures Valid() && (a.addr in old(mapAddr) ==> old(mapAddr)[a.addr] in old(mapInfo))
      ensures Model() == AddrState.SetServices(old(Model()), a, services)
    {
      hide Indexed, EntriesOk, Counted, TriedPlaced, NewPlaced, Occupied;
      SetServicesKeeps(e, Model(), a, services);
      var found, id := Find(a.addr);
      if !found || mapInfo[id].service != a { return; }
      mapInfo := mapInfo[id := mapInfo[id].(services := services)];
    }

    method Resolve(id: int, now: int, roll: nat)
      requires Valid() && now > 0 && roll < NEW_BUCKETS
      modifies this, vvNew, vvTried
      ensures Valid() && old(Valid()) && Model() == Resolved(e, old(Model()), id, now)
    {
      hide Indexed, EntriesOk, Counted, TriedPlaced, NewPlaced, Occupied, TriedSlot, AddrOps.Good;
      ghost var s := Model();
      ResolvedKeeps(e, s, id, now);
      Linked(e, s, {}, 0);
      var erase := false;
      if id !in mapInfo {
        erase := true;
      } else {
        var a := mapInfo[id].service;
        var slot := TriedSlot(e, nKey, a);
        TriedSlotInRange(e, nKey, a);
        var holder := Holder(vvTried, slot);
        if !e.isValid(a.addr) {
          erase := true;
        } else if holder != -1 {
          var old' := mapInfo[holder];
          if now - old'.nLastSuccess < REPLACEMENT {
            erase := true;
          } else if now - old'.nLastTry < REPLACEMENT {
            if now - old'.nLastTry > 60 {
              Good(a, false, now, roll);
              erase := true;
            }
          } else if now - mapInfo[id].nLastSuccess > TEST_WINDOW {
            Good(a, false, now, roll);
            erase := true;
          }
        } else {
          Good(a, false, now, roll);
          erase := true;
        }
      }
      if erase {
        triedCollisions := triedCollisions - {id};
      }
    }

    /** The pending collisions in increasing order of id, each judged in the state the earlier ones left. */
    method ResolveCollisions(now: int, roll: nat)
      requires Valid() && now > 0 && roll < NEW_BUCKETS
      modifies this, vvNew, vvTried
      ensures Valid() && old(Valid())
      ensures Model() == ResolvedAll(e, old(Model()), old(triedCollisions), now)
    {
      hide Indexed, EntriesOk, Counted, TriedPlaced, NewPlaced, Occupied, Resolved, InvExcept;
      ghost var s := Model();
      var todo := triedCollisions;
      while todo != {}
        invariant Valid()
        invariant ResolvedAll(e, Model(), todo, now) == ResolvedAll(e, s, s.collisions, now)
        decreases todo
      {
        var id := Least(todo);
        ResolvedKeeps(e, Model(), id, now);
        Resolve(id, now, roll);
        todo := todo - {id};
      }
    }

    /** The tried entry that a pending collision would replace; `id` is the randomly chosen collision.  If its
        tried slot is free, looking up the -1 there makes an entry under that key. */
    method SelectTriedCollision(id: int) returns (old': Info)
      requires Valid() && (triedCollisions != {} ==> id in triedCollisions)
      modifies this`triedCollisions, this`mapInfo
      ensures Shaped() && (Model(), old') ==
        if old(triedCollisions) == {} then (old(Model()), BlankInfo()) else CollisionSelected(e, old(Model()), id)
      ensures Valid() <==> (id in old(triedCollisions) && id in old(mapInfo) ==>
        TriedSlot(e, nKey, old(mapInfo)[id].service) in old(Model()).tried)
      ensures old(CollisionsOk(e, Model())) ==> Valid() && CollisionsOk(e, Model())
    {
      hide Inv, CollisionsOk, Occupied, TriedSlot, BlankInfo;
      if triedCollisions == {} {
        return BlankInfo();
      }
      ghost var s := Model();
      CollisionSelectedKeepsIff(e, s, id);
      if CollisionsOk(e, s) { SelectKeeps(e, s, id); }
      TriedNames(e, s);
      if id !in mapInfo {
        triedCollisions := triedCollisions - {id};
        return BlankInfo();
      }
      var slot := TriedSlot(e, nKey, mapInfo[id].service);
      TriedSlotInRange(e, nKey, mapInfo[id].service);
      var holder := Holder(vvTried, slot);
      if holder !in mapInfo {
        mapInfo := mapInfo[holder := BlankInfo()];
      }
      return mapInfo[holder];
    }

    /** Draw entries at random without repetition, skipping those of low quality or another network. */
    method GetAddr(maxAddresses: nat, maxPct: nat, network: Option<nat>, now: int, picks: seq<nat>)
      returns (v: seq<Address>, n: nat)
      requires Valid() && |picks| == |vRandom|
      modifies this`mapInfo, this`vRandom
      ensures Valid() && old(IndexOk(Model())) && n <= |vRandom| == |old(vRandom)|
      ensures Model() == Shuffled(old(Model()), 0, picks[..n])
      ensures forall k | 0 <= k < n :: vRandom[k] in mapInfo
      ensures v == Offered(e, Model(), n, network, now)
      ensures |v| <= Limit(|vRandom|, maxAddresses, maxPct)
      ensures n < |vRandom| ==> |v| == Limit(|vRandom|, maxAddresses, maxPct)
    {
      hide Inv, Indexed, Occupied, IsTerrible, Swapped, Drawn;
      ghost var s := Model();
      InvIndex(e, s);
      var limit := Limit(|vRandom|, maxAddresses, maxPct);
      v, n := [], 0;
      while n < |vRandom| && |v| < limit
        invariant n <= |vRandom| == |s.rnd| && |v| <= limit
        invariant Valid()
        invariant Model() == Shuffled(s, 0, picks[..n])
        invariant forall k | 0 <= k < n :: vRandom[k] in mapInfo
        invariant v == Offered(e, Model(), n, network, now)
        decreases |vRandom| - n
      {
        var p := Drawn(|vRandom|, n, picks[n]);
        ghost var t := Model();
        ShuffledSnoc(s, 0, picks[..n], picks[n]);
        assert picks[..n] + [picks[n]] == picks[..n + 1];
        SwappedKeeps(e, t, n, p);
        OfferedSwapped(e, t, n, n, p, network, now);
        SwapRandom(n, p);
        InvIndex(e, Model());
        IndexRange(Model(), n);
        var i := mapInfo[vRandom[n]];
        n := n + 1;
        if Offers(e, i, network, now) {
          v := v + [AddressOf(i)];
        }
      }
    }

    /** Forget every entry; the pending collisions stay. */
    method Clear(key: nat)
      requires Shaped() && key != 0
      modifies this, vvNew, vvTried
      ensures Valid() && Model() == Cleared(key, old(triedCollisions))
    {
      hide Indexed, EntriesOk, Counted, TriedPlaced, NewPlaced, Occupied;
      vRandom := [];
      nKey := key;
      FreeAll(vvNew);
      FreeAll(vvTried);
      nIdCount := 0;
      nTried := 0;
      nNew := 0;
      nLastGood := 1;
      mapInfo := map[];
      mapAddr := map[];
      ClearedKeeps(e, key, triedCollisions);
    }

    // ---------------------------------------------------------------- removing and reading entries

    /** Drops every entry whose address is not valid; `all` are the entries there ever were. */
    method RemoveInvalid(ghost all: map<int, Info>)
      requires Shaped() && AllPlaced(e, all, Model())
      modifies this`mapInfo, this`mapAddr, this`vRandom, this`nNew, this`nTried, this`triedCollisions, vvNew, vvTried
      ensures Model() == Purged(e, old(Model())) && AllPlaced(e, all, Model()) && (old(Valid()) ==> Valid())
    {
      hide Inv, Occupied, NewPurged, TriedPurged, SlotAt, AllPlaced;
      ghost var s := Model();
      PurgedStart(e, s);
      for bucket := 0 to NEW_BUCKETS
        invariant Model() == NewPurged(e, s, bucket * BUCKET_SIZE) && AllPlaced(e, all, Model())
      {
        for i := 0 to BUCKET_SIZE
          invariant Model() == NewPurged(e, s, bucket * BUCKET_SIZE + i) && AllPlaced(e, all, Model())
        {
          SlotNumber(Slot(bucket, i), NEW_BUCKETS);
          PurgeNew(Slot(bucket, i), all, s, bucket * BUCKET_SIZE + i);
        }
      }
      ghost var s1 := Model();
      PurgedStart(e, s1);
      for bucket := 0 to TRIED_BUCKETS
        invariant Model() == TriedPurged(e, s1, bucket * BUCKET_SIZE) && AllPlaced(e, all, Model())
      {
        for i := 0 to BUCKET_SIZE
          invariant Model() == TriedPurged(e, s1, bucket * BUCKET_SIZE + i) && AllPlaced(e, all, Model())
        {
          SlotNumber(Slot(bucket, i), TRIED_BUCKETS);
          PurgeTried(Slot(bucket, i), all, s1, bucket * BUCKET_SIZE + i);
        }
      }
      if Inv(e, s) { PurgedKeeps(e, s); }
    }

    method PurgeNew(slot: Slot, ghost all: map<int, Info>, ghost s: State, ghost n: nat)
      requires Shaped() && slot.bucket < NEW_BUCKETS && slot.pos < BUCKET_SIZE && AllPlaced(e, all, s)
      requires slot == SlotAt(n) && Model() == NewPurged(e, s, n)
      modifies this`mapInfo, this`mapAddr, this`vRandom, this`nNew, vvNew
      ensures Model() == NewPurged(e, s, n + 1) && AllPlaced(e, all, Model())
    {
      hide Occupied, NewPurged, SlotAt, NewCleared, AllPlaced, Droppable;
      NewPurgedNext(e, all, s, n);
      NewPurgedNext(e, all, s, n + 1);
      HolderDrops(Model(), slot);
      var id := Holder(vvNew, slot);
      if id != -1 && !e.isValid(mapInfo[id].service.addr) {
        ClearNew(slot);
      }
    }

    method PurgeTried(slot: Slot, ghost all: map<int, Info>, ghost s: State, ghost n: nat)
      requires Shaped() && slot.bucket < TRIED_BUCKETS && slot.pos < BUCKET_SIZE && AllPlaced(e, all, s)
      requires slot == SlotAt(n) && Model() == TriedPurged(e, s, n)
      modifies this`mapInfo, this`mapAddr, this`vRandom, this`nTried, this`triedCollisions, vvTried
      ensures Model() == TriedPurged(e, s, n + 1) && AllPlaced(e, all, Model())
    {
      hide Occupied, TriedPurged, SlotAt, Dropped, AllPlaced, Droppable;
      TriedPurgedNext(e, all, s, n);
      TriedPurgedNext(e, all, s, n + 1);
      ghost var s1 := Model();
      var id := Holder(vvTried, slot);
      if id != -1 && !e.isValid(mapInfo[id].service.addr) {
        Drop(id);
        DroppedShape(s1, id);
        Put(vvTried, slot, -1);
        nTried := nTried - 1;
        triedCollisions := triedCollisions - {id};
      }
    }

    // ---------------------------------------------------------------- the file

    /** Writes the entries of one table, in the order in which mapInfo is traversed, and numbers them. */
    method SaveTable(order: seq<int>, inTried: bool) returns (ds: seq<Saved>, ghost ids: seq<int>, numbers: map<int, int>)
      requires Valid() && Enumerates(order, mapInfo)
      ensures ids == Chosen(mapInfo, order, inTried) && Listed(mapInfo, ids) && ds == SaveAll(mapInfo, ids)
      ensures forall id | id in ids :: id in numbers && 0 <= numbers[id] < |ids| && ids[numbers[id]] == id
      ensures |ds| == if inTried then nTried else nNew
    {
      hide Inv, Occupied, Chosen, DistinctIds;
      ds, ids, numbers := [], [], map[];
      var i := 0;
      ChosenStart(mapInfo);
      ListSizes(e, Model(), order);
      while i < |order|
        invariant i <= |order| && Listed(mapInfo, order[..i]) && ids == Chosen(mapInfo, order[..i], inTried)
        invariant Listed(mapInfo, ids) && ds == SaveAll(mapInfo, ids)
        invariant forall id | id in ids :: id in numbers && 0 <= numbers[id] < |ids| && ids[numbers[id]] == id
      {
        var id := order[i];
        ChosenNext(mapInfo, order, i, inTried);
        if (if inTried then mapInfo[id].fInTried else mapInfo[id].nRefCount != 0) {
          assert |ds| != if inTried then nTried else nNew;
          numbers := numbers[id := |ds|];
          ds := ds + [Save(mapInfo[id])];
          ids := ids + [id];
        }
        i := i + 1;
      }
      assert order[..i] == order;
    }

    /** The numbers of the entries in one bucket. */
    method SaveBucket(bucket: nat, numbers: map<int, int>, ghost ids: seq<int>) returns (list: seq<int>)
      requires Shaped() && bucket < NEW_BUCKETS && DistinctIds(ids)
      requires forall slot | slot in Model().news :: Model().news[slot] in ids
      requires forall id | id in ids :: id in numbers && 0 <= numbers[id] < |ids| && ids[numbers[id]] == id
      ensures list == BucketList(Model().news, ids, bucket, BUCKET_SIZE)
    {
      hide Occupied;
      ghost var news := Model().news;
      list := [];
      var i := 0;
      while i < BUCKET_SIZE
        invariant i <= BUCKET_SIZE && list == BucketList(news, ids, bucket, i)
      {
        var id := Holder(vvNew, Slot(bucket, i));
        if id != -1 {
          assert id == news[Slot(bucket, i)];
          OneIndex(ids, numbers[id], IndexOf(ids, id));
          list := list + [numbers[id]];
        }
        i := i + 1;
      }
    }

    method Serialize(order: seq<int>, asmap: nat) returns (f: DiskFile)
      requires Valid() && Enumerates(order, mapInfo)
      ensures forall slot | slot in Model().news :: Model().news[slot] in Chosen(mapInfo, order, false)
      ensures f == Serialized(Model(), order, asmap)
    {
      hide Inv, Occupied, Chosen, BucketList, SaveAll, DistinctIds;
      NumberingEnumerates(e, Model(), order);
      ChosenIs(mapInfo, order, false);
      var news, ids, numbers := SaveTable(order, false);
      var tried, _, _ := SaveTable(order, true);
      var buckets: seq<seq<int>> := [];
      var b := 0;
      while b < NEW_BUCKETS
        invariant b <= NEW_BUCKETS && |buckets| == b
        invariant forall c | 0 <= c < b :: buckets[c] == BucketList(Model().news, ids, c, BUCKET_SIZE)
      {
        var list := SaveBucket(b, numbers, ids);
        buckets := buckets + [list];
        b := b + 1;
      }
      f := DiskFile(nKey, news, tried, buckets, asmap);
    }

    method LoadNewTable(ds: seq<Saved>)
      modifies this`nIdCount, this`mapInfo, this`mapAddr, this`vRandom, this`nNew
      ensures Model() == LoadNews(old(Model()), ds)
    {
      hide Occupied;
      var n := 0;
      while n < |ds|
        invariant n <= |ds| && Model() == LoadNews(old(Model()), ds[..n])
      {
        assert ds[..n + 1][..n] == ds[..n];
        var d := ds[n];
        mapInfo := mapInfo[nIdCount := Restored(d, |vRandom|)];
        mapAddr := mapAddr[d.service.addr := nIdCount];
        vRandom := vRandom + [nIdCount];
        nIdCount := nIdCount + 1;
        nNew := nNew + 1;
        n := n + 1;
      }
      assert ds[..n] == ds;
    }

    /** One entry for the tried table, unless its slot is taken. */
    method LoadTried(d: Saved)
      requires Shaped() && nIdCount >= 0
      modifies this`nIdCount, this`mapInfo, this`mapAddr, this`vRandom, this`nTried, vvTried
      ensures nIdCount >= 0 && Model() == LoadedTried(e, old(Model()), d)
    {
      hide Occupied, TriedSlot;
      var slot := TriedSlot(e, nKey, d.service);
      TriedSlotInRange(e, nKey, d.service);
      var holder := Holder(vvTried, slot);
      if holder == -1 {
        mapInfo := mapInfo[nIdCount := Restored(d, |vRandom|).(fInTried := true)];
        vRandom := vRandom + [nIdCount];
        mapAddr := mapAddr[d.service.addr := nIdCount];
        Put(vvTried, slot, nIdCount);
        nIdCount := nIdCount + 1;
        nTried := nTried + 1;
      }
    }

    method LoadTriedTable(ds: seq<Saved>)
      requires Shaped() && nIdCount >= 0
      modifies this`nIdCount, this`mapInfo, this`mapAddr, this`vRandom, this`nTried, vvTried
      ensures Model() == LoadTrieds(e, old(Model()), ds)
    {
      hide Occupied, LoadedTried;
      var n := 0;
      while n < |ds|
        invariant n <= |ds| && nIdCount >= 0 && Model() == LoadTrieds(e, old(Model()), ds[..n])
      {
        assert ds[..n + 1][..n] == ds[..n];
        LoadTried(ds[n]);
        n := n + 1;
      }
      assert ds[..n] == ds;
    }

    /** One reference of the new table. */
    method Place(bucket: nat, id: int, restore: bool)
      requires Shaped() && id in mapInfo && id >= 0 && (restore ==> bucket < NEW_BUCKETS)
      modifies this`mapInfo, vvNew
      ensures Model() == Placed(e, old(Model()), restore, bucket, id)
    {
      hide Occupied, NewSlot;
      var i := mapInfo[id];
      if i.nRefCount >= NEW_BUCKETS_PER_ADDRESS {
        return;
      }
      if restore {
        var slot := Slot(bucket, BucketPosition(bucket, i.service));
        var holder := Holder(vvNew, slot);
        if holder == -1 {
          Put(vvNew, slot, id);
          mapInfo := mapInfo[id := i.(nRefCount := i.nRefCount + 1)];
          return;
        }
      }
      var other := NewSlot(e, nKey, i.service, i.source);
      NewSlotInRange(e, nKey, i.service, i.source);
      var holder := Holder(vvNew, other);
      if holder == -1 {
        Put(vvNew, other, id);
        mapInfo := mapInfo[id := i.(nRefCount := i.nRefCount + 1)];
      }
    }

    method PlaceEntries(entries: seq<(nat, int)>, restore: bool)
      requires Shaped() && forall k | 0 <= k < |entries| :: 0 <= entries[k].1 && entries[k].1 in mapInfo && (restore ==> entries[k].0 < NEW_BUCKETS)
      modifies this`mapInfo, vvNew
      ensures Model() == PlaceAll(e, old(Model()), restore, entries)
    {
      hide Occupied, Placed;
      var n := 0;
      while n < |entries|
        invariant n <= |entries| && Model() == PlaceAll(e, old(Model()), restore, entries[..n])
        invariant mapInfo.Keys == old(mapInfo).Keys
      {
        assert entries[..n + 1][..n] == entries[..n];
        PlacedKeys(e, Model(), restore, entries[n].0, entries[n].1);
        Place(entries[n].0, entries[n].1, restore);
        n := n + 1;
      }
      assert entries[..n] == entries;
    }

    /** Deletes the entries that found no place. */
    method Prune(order: seq<int>)
      requires Shaped() && Loading(e, Model())
      modifies this`mapInfo, this`mapAddr, this`vRandom, this`nNew
      ensures Model() == Pruned(old(Model()), order)
    {
      hide Occupied, Loading, Deleted, Droppable;
      var n := 0;
      while n < |order|
        invariant n <= |order| && Model() == Pruned(old(Model()), order[..n]) && Loading(e, Model())
      {
        assert order[..n + 1][..n] == order[..n];
        var id := order[n];
        if id in mapInfo && !mapInfo[id].fInTried && mapInfo[id].nRefCount == 0 {
          DeletedLoading(e, Model(), id);
          Delete(id);
        }
        n := n + 1;
      }
      assert order[..n] == order;
    }

    /** Reads a file into an empty address manager; false stands for the exceptions on impossible counts. */
    method Unserialize(f: DiskFile, asmap: nat, order: seq<int>) returns (ok: bool)
      requires Shaped() && Model() == Cleared(nKey, {}) && Visits(e, f, asmap, order)
      modifies this, vvNew, vvTried
      ensures ok == (|f.news| <= NEW_BUCKETS * BUCKET_SIZE && |f.tried| <= TRIED_BUCKETS * BUCKET_SIZE)
      ensures ok ==> Model() == Read(e, f, asmap, order) && (Valid() <==> Loadable(e, f, asmap))
    {
      hide Occupied, Inv, Loading, Latest, LoadNews, LoadTrieds, PlaceAll, Entries, Pruned, Purged, Visits, Limbo;
      nKey := f.key;
      if |f.news| > NEW_BUCKETS * BUCKET_SIZE || |f.tried| > TRIED_BUCKETS * BUCKET_SIZE {
        return false;
      }
      LoadNewTable(f.news);
      NewsCount(Cleared(f.key, {}), f.news);
      LoadTriedTable(f.tried);
      var entries := CollectEntries(f.buckets, |f.news|);
      FilledSteps(e, f, asmap);
      PlaceEntries(entries, Restores(f, asmap));
      PrunedPlaced(e, f, asmap, order);
      Prune(order);
      RemoveInvalid(Filled(e, f, asmap).info);
      ReadConsistentIff(e, f, asmap, order);
      ok := true;
    }

    constructor (e: Env, key: nat)
      requires key != 0
      ensures Valid() && this.e == e && fresh(vvNew) && fresh(vvTried)
      ensures Model() == Cleared(key, {}) && CollisionsOk(e, Model())
    {
      this.e := e;
      vvNew := new int[NEW_BUCKETS, BUCKET_SIZE];
      vvTried := new int[TRIED_BUCKETS, BUCKET_SIZE];
      triedCollisions := {};
      new;
      Clear(key);
    }
  }

  lemma InvIndex(e: Env, s: State)
    requires Inv(e, s)
    ensures IndexOk(s)
  {
  }

  lemma DroppedShape(s: State, id: int)
    requires Droppable(s, id)
    ensures Dropped(s, id) == s.(info := Dropped(s, id).info, addr := Dropped(s, id).addr, rnd := Dropped(s, id).rnd)
  {
  }

  lemma HolderDrops(s: State, slot: Slot)
    requires slot in s.news ==> Droppable(s, s.news[slot])
    ensures slot in s.news ==> s.news[slot] in s.info
  {
  }

  /** The references of a file that name an entry of the new table, bucket by bucket. */
  method CollectEntries(buckets: seq<seq<int>>, nNew: nat) returns (entries: seq<(nat, int)>)
    ensures entries == Entries(buckets, nNew)
  {
    entries := [];
    var b := 0;
    while b < |buckets|
      invariant b <= |buckets| && entries == Entries(buckets[..b], nNew)
    {
      assert buckets[..b + 1][..b] == buckets[..b];
      var list, n := buckets[b], 0;
      while n < |list|
        invariant n <= |list| && entries == Entries(buckets[..b], nNew) + BucketEntries(b, list[..n], nNew)
      {
        assert list[..n + 1][..n] == list[..n];
        if 0 <= list[n] < nNew {
          entries := entries + [(b, list[n])];
        }
        n := n + 1;
      }
      assert list[..n] == list;
      b := b + 1;
    }
    assert buckets[..b] == buckets;
  }

  method FreeAll(t: array2<int>)
    modifies t
    ensures Occupied(t) == map[]
  {
    for b := 0 to t.Length0
      invariant forall i, p | 0 <= i < b && 0 <= p < t.Length1 :: t[i, p] == -1
    {
      for p := 0 to t.Length1
        invariant forall i, q | 0 <= i < b && 0 <= q < t.Length1 :: t[i, q] == -1
        invariant forall q | 0 <= q < p :: t[b, q] == -1
      {
        t[b, p] := -1;
      }
    }
  }

  method AnyOf<T(==)>(s: set<T>) returns (x: T)
    requires s != {}
    ensures x in s
  {
    x :| x in s;
  }

  method Least(ids: set<int>) returns (m: int)
    requires ids != {}
    ensures m == Min(ids)
  {
    m := AnyOf(ids);
    var rest := ids - {m};
    while rest != {}
      invariant m in ids && rest <= ids
      invariant forall x | x in ids && x !in rest :: m <= x
      decreases rest
    {
      var x := AnyOf(rest);
      if x < m { m := x; }
      rest := rest - {x};
    }
  }

  /** How many steps a wrapping search of the new buckets takes to get from one bucket to another. */
  ghost function Distance(from: nat, to: nat): int {
    if to >= from then to - from else to - from + NEW_BUCKETS
  }

  /** Whether a known entry gets another reference: each one it has halves the chance of a further one. */
  method TestReference(i: Info, a: Address, roll: nat) returns (wants: bool)
    requires i.nRefCount >= 0
    ensures wants == WantsReference(i, a, roll)
  {
    if a.nTime == 0 || (i.nTime != 0 && a.nTime <= i.nTime) { return false; }
    if i.fInTried { return false; }
    if i.nRefCount == NEW_BUCKETS_PER_ADDRESS { return false; }
    var factor := 1;
    for n := 0 to i.nRefCount
      invariant factor == Pow(2, n)
    {
      factor := factor * 2;
    }
    return !(factor > 1 && roll != 0);
  }

  /** A bucket has one slot in which the entry fits. */
  lemma FittingAt(e: Env, s: State, id: int, slot: Slot)
    requires id in s.info && Fits(e, s.key, slot, s.info[id].service)
    ensures slot in FittingSlots(e, s, id) <==> slot in s.news && s.news[slot] == id
    ensures forall u | u in FittingSlots(e, s, id) && u.bucket == slot.bucket :: u == slot
  {
  }

  lemma FittingBound(e: Env, s: State, id: int)
    requires id in s.info
    ensures forall u | u in FittingSlots(e, s, id) :: u.bucket < NEW_BUCKETS && u in s.news && s.news[u] == id
  {
  }

  lemma AnnouncedTouches(i: Info, a: Address, penalty: int, now: int)
    ensures var j := Announced(i, a, penalty, now); j == i.(nTime := j.nTime, services := j.services)
  {
  }

  lemma NewSlotInRange(e: Env, key: nat, a: Service, source: NetAddr)
    ensures NewSlot(e, key, a, source).bucket < NEW_BUCKETS && NewSlot(e, key, a, source).pos < BUCKET_SIZE
  {
  }

  lemma TriedSlotInRange(e: Env, key: nat, a: Service)
    ensures TriedSlot(e, key, a).bucket < TRIED_BUCKETS && TriedSlot(e, key, a).pos < BUCKET_SIZE
  {
  }

  lemma NewHolder(e: Env, s: State, slot: Slot, limbo: set<int>, extra: int)
    requires InvExcept(e, s, limbo, extra)
    ensures slot in s.news ==>
      s.news[slot] in s.info && !s.info[s.news[slot]].fInTried && s.info[s.news[slot]].nRefCount > 0
  {
    if slot in s.news {
      var id := s.news[slot];
      assert slot in Slots(s.news, id);
    }
  }

  lemma TriedNames(e: Env, s: State)
    requires Inv(e, s)
    ensures -1 !in s.info && forall slot | slot in s.tried :: s.tried[slot] in s.info
  {
  }

  lemma NotMinusOne(e: Env, s: State, id: int, limbo: set<int>, extra: int)
    requires InvExcept(e, s, limbo, extra) && id in s.info
    ensures id != -1
  {
  }
}
