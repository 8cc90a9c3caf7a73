/** The operations of the address manager as functions of the state, what they do, and the invariant
    they keep. */
module AddrOps {
  import opened AddrState
  import opened AddrInvariant
  import opened AddrSteps

  // ---------------------------------------------------------------- moving to tried

  /** Take the entry out of its tried slot and give it one reference in the new table. */
  ghost function Evicted(e: Env, s: State, slot: Slot): State
    requires IndexOk(s) && slot in s.tried && s.tried[slot] in s.info
    requires forall u | u in s.news :: s.news[u] in s.info && s.news[u] != s.tried[slot]
  {
    var id := s.tried[slot];
    var u := NewSlot(e, s.key, s.info[id].service, s.info[id].source);
    var s1 := Untried(s, slot);
    TouchedIndexed(s.info, s.addr, s.rnd, s.idCount, id, s1.info[id]);
    NewClearedShape(s1, u);
    var s2 := NewCleared(s1, u);
    s2.(info := s2.info[id := s2.info[id].(nRefCount := 1)], news := s2.news[u := id], nNew := s2.nNew + 1)
  }

  lemma EvictedKeeps(e: Env, s: State, slot: Slot, limbo: set<int>)
    requires InvExcept(e, s, limbo, 0) && slot in s.tried
    ensures s.tried[slot] in s.info && s.tried[slot] !in limbo
    ensures forall u | u in s.news :: s.news[u] in s.info && s.news[u] != s.tried[slot]
    ensures InvExcept(e, Evicted(e, s, slot), limbo, 0)
  {
    hide Indexed, EntriesOk, Counted, TriedPlaced, NewPlaced;
    var id := s.tried[slot];
    UntriedKeeps(e, s, slot, limbo);
    var u := NewSlot(e, s.key, s.info[id].service, s.info[id].source);
    var s1 := Untried(s, slot);
    NewClearedKeeps(e, s1, u, limbo + {id}, 0);
    NewClearedShape(s1, u);
    var s2 := NewCleared(s1, u);
    assert id in limbo + {id};
    ReferencedFromLimbo(e, s2, id, u, limbo + {id}, 0);
    assert limbo + {id} - {id} == limbo;
    assert Evicted(e, s, slot) == Referenced(s2, id, u).(nNew := s2.nNew + 1);
  }

  /** The evicted entry has one reference, at the slot of its own source; only that slot's previous
      holder is touched besides. */
  lemma EvictedShape(e: Env, s: State, slot: Slot)
    requires IndexOk(s) && slot in s.tried && s.tried[slot] in s.info
    requires forall u | u in s.news :: s.news[u] in s.info && s.news[u] != s.tried[slot]
    ensures var id, s' := s.tried[slot], Evicted(e, s, slot);
      var u := NewSlot(e, s.key, s.info[id].service, s.info[id].source);
      && s' == s.(info := s'.info, addr := s'.addr, rnd := s'.rnd, nNew := s'.nNew,
                  nTried := s.nTried - 1, tried := s.tried - {slot}, news := s.news[u := id])
      && KeepsAllBut(s.info, s'.info, {id} + if u in s.news then {s.news[u]} else {})
      && id in s'.info && SameButPos(s'.info[id], s.info[id].(fInTried := false, nRefCount := 1))
  {
    hide Indexed, EntriesOk, Counted, TriedPlaced, NewPlaced;
    var id := s.tried[slot];
    var u := NewSlot(e, s.key, s.info[id].service, s.info[id].source);
    var s1 := Untried(s, slot);
    TouchedIndexed(s.info, s.addr, s.rnd, s.idCount, id, s1.info[id]);
    NewClearedShape(s1, u);
    assert (s.news - {u})[u := id] == s.news[u := id];
  }

  ghost function MadeTried(e: Env, s: State, id: int): State
    requires Inv(e, s) && id in s.info && !s.info[id].fInTried
  {
    WithdrawnKeeps(e, s, id);
    var s1 := Withdrawn(e, s, id);
    var slot := TriedSlot(e, s.key, s.info[id].service);
    if slot in s1.tried then
      EvictedKeeps(e, s1, slot, {id});
      Tried(Evicted(e, s1, slot), id, slot)
    else Tried(s1, id, slot)
  }

  lemma MadeTriedKeeps(e: Env, s: State, id: int)
    requires Inv(e, s) && id in s.info && !s.info[id].fInTried && s.info[id].nLastSuccess > 0
    ensures Inv(e, MadeTried(e, s, id))
  {
    hide Indexed, EntriesOk, Counted, TriedPlaced, NewPlaced;
    WithdrawnKeeps(e, s, id);
    var s1 := Withdrawn(e, s, id);
    var slot := TriedSlot(e, s.key, s.info[id].service);
    assert {id} - {id} == {};
    if slot in s1.tried {
      EvictedKeeps(e, s1, slot, {id});
      WithdrawnApart(e, s, id, slot);
      EvictedShape(e, s1, slot);
      TriedKeeps(e, Evicted(e, s1, slot), id, {id});
    } else {
      TriedKeeps(e, s1, id, {id});
    }
  }

  lemma WithdrawnApart(e: Env, s: State, id: int, slot: Slot)
    requires Inv(e, s) && id in s.info && !s.info[id].fInTried
    ensures Withdrawn(e, s, id) == s.(news := s.news - Slots(s.news, id), nNew := s.nNew - 1,
                                       info := s.info[id := s.info[id].(nRefCount := 0)])
    ensures forall u | u in Withdrawn(e, s, id).news :: s.news[u] != id
    ensures slot in s.tried ==> s.tried[slot] in s.info && s.tried[slot] != id
  {
    FittingSlotsAll(e, s, id);
  }

  /** Where everything is after a move into a free slot. */
  ghost predicate MovedFreely(s: State, s': State, id: int, slot: Slot) {
    && id in s.info
    && s'.tried == s.tried[slot := id]
    && s'.news == s.news - Slots(s.news, id)
    && s'.info == s.info[id := s.info[id].(fInTried := true, nRefCount := 0)]
  }

  /** Where everything is after a move into the slot of `old'`: that entry has exactly one reference, at
      the slot of its own source, and besides these two only the previous holder of that slot is touched. */
  ghost predicate MovedEvicting(e: Env, s: State, s': State, id: int, slot: Slot, old': int) {
    && id in s.info && old' in s.info
    && s'.tried == s.tried[slot := id]
    && (var rest := s.news - Slots(s.news, id);
        var u := NewSlot(e, s.key, s.info[old'].service, s.info[old'].source);
        && s'.news == rest[u := old']
        && KeepsAllBut(s.info, s'.info, {id, old'} + if u in rest then {rest[u]} else {}))
    && id in s'.info && SameButPos(s'.info[id], s.info[id].(fInTried := true, nRefCount := 0))
    && old' in s'.info && SameButPos(s'.info[old'], s.info[old'].(fInTried := false, nRefCount := 1))
  }

  lemma MadeTriedMovesFreely(e: Env, s: State, id: int)
    requires Inv(e, s) && id in s.info && !s.info[id].fInTried
    requires TriedSlot(e, s.key, s.info[id].service) !in s.tried
    ensures MovedFreely(s, MadeTried(e, s, id), id, TriedSlot(e, s.key, s.info[id].service))
  {
    hide Indexed, EntriesOk, Counted, TriedPlaced, NewPlaced;
    WithdrawnApart(e, s, id, TriedSlot(e, s.key, s.info[id].service));
  }

  lemma MadeTriedEvicts(e: Env, s: State, id: int)
    requires Inv(e, s) && id in s.info && !s.info[id].fInTried
    requires TriedSlot(e, s.key, s.info[id].service) in s.tried
    ensures var slot := TriedSlot(e, s.key, s.info[id].service);
      MovedEvicting(e, s, MadeTried(e, s, id), id, slot, s.tried[slot])
  {
    hide Indexed, EntriesOk, Counted, TriedPlaced, NewPlaced, Evicted, Withdrawn, NewSlot, TriedSlot;
    var slot := TriedSlot(e, s.key, s.info[id].service);
    WithdrawnKeeps(e, s, id);
    var s1 := Withdrawn(e, s, id);
    WithdrawnApart(e, s, id, slot);
    EvictedKeeps(e, s1, slot, {id});
    EvictedShape(e, s1, slot);
    var s2, old' := Evicted(e, s1, slot), s.tried[slot];
    assert (s.tried - {slot})[slot := id] == s.tried[slot := id];
    var u := NewSlot(e, s.key, s.info[old'].service, s.info[old'].source);
    var others := {id, old'} + if u in s1.news then {s1.news[u]} else {};
    assert KeepsAllBut(s.info, Tried(s2, id, slot).info, others);
  }

  // ---------------------------------------------------------------- Good

  predicate Known(s: State, a: Service)
    requires a.addr in s.addr ==> s.addr[a.addr] in s.info
  {
    a.addr in s.addr && s.info[s.addr[a.addr]].service == a
  }

  ghost function Succeeded(s: State, a: Service, time: int): State
    requires a.addr in s.addr && s.addr[a.addr] in s.info
  {
    var id := s.addr[a.addr];
    s.(lastGood := time, info := s.info[id := s.info[id].(nLastSuccess := time, nLastTry := time, nAttempts := 0)])
  }

  lemma SucceededKeeps(e: Env, s: State, a: Service, time: int)
    requires Inv(e, s) && time > 0 && a.addr in s.addr
    ensures s.addr[a.addr] in s.info
    ensures Inv(e, Succeeded(s, a, time))
  {
    var id := s.addr[a.addr];
    var s0 := s.(lastGood := time);
    TouchedKeeps(e, s0, id, s.info[id].(nLastSuccess := time, nLastTry := time, nAttempts := 0));
  }

  ghost function Good(e: Env, s: State, a: Service, testBeforeEvict: bool, time: int): State
    requires Inv(e, s) && time > 0
  {
    if !Known(s, a) then s.(lastGood := time) else
    SucceededKeeps(e, s, a, time);
    var id, s1 := s.addr[a.addr], Succeeded(s, a, time);
    if s1.info[id].fInTried then s1
    else if testBeforeEvict && TriedSlot(e, s.key, a) in s.tried then
      if |s.collisions| < COLLISION_SIZE then s1.(collisions := s.collisions + {id}) else s1
    else MadeTried(e, s1, id)
  }

  /** Entries keep their service, ids are not reused, and occupied tried slots stay occupied. */
  ghost predicate Extends(s: State, s': State) {
    && s'.key == s.key && s.idCount <= s'.idCount
    && (forall id | id in s'.info && id < s.idCount :: id in s.info && s'.info[id].service == s.info[id].service)
    && (forall slot | slot in s.tried :: slot in s'.tried)
  }

  lemma ExtendsCollisions(e: Env, s: State, s': State)
    requires CollisionsOk(e, s) && Extends(s, s') && s'.collisions <= s.collisions
    ensures CollisionsOk(e, s')
  {
  }

  lemma MadeTriedExtends(e: Env, s: State, id: int)
    requires Inv(e, s) && id in s.info && !s.info[id].fInTried
    ensures Extends(s, MadeTried(e, s, id)) && MadeTried(e, s, id).collisions == s.collisions
  {
    hide Indexed, EntriesOk, Counted, TriedPlaced, NewPlaced, Evicted, Withdrawn, NewSlot, TriedSlot, SameButPos;
    WithdrawnKeeps(e, s, id);
    var s1 := Withdrawn(e, s, id);
    var slot := TriedSlot(e, s.key, s.info[id].service);
    WithdrawnApart(e, s, id, slot);
    if slot in s1.tried {
      EvictedKeeps(e, s1, slot, {id});
      EvictedShape(e, s1, slot);
      EvictedServices(e, s1, slot);
    }
  }

  lemma NewClearedServices(s: State, slot: Slot)
    requires IndexOk(s)
    requires slot in s.news ==> s.news[slot] in s.info
    ensures forall id | id in NewCleared(s, slot).info :: id in s.info && NewCleared(s, slot).info[id].service == s.info[id].service
  {
    hide Indexed, EntriesOk, Counted, TriedPlaced, NewPlaced;
    if slot in s.news {
      var id, s1 := s.news[slot], Unreferenced(s, slot);
      TouchedIndexed(s.info, s.addr, s.rnd, s.idCount, id, s1.info[id]);
      if s1.info[id].nRefCount == 0 {
        IndexGives(s1);
        DroppedIndexed(s1, id);
      }
    }
  }

  lemma EvictedServices(e: Env, s: State, slot: Slot)
    requires IndexOk(s) && slot in s.tried && s.tried[slot] in s.info
    requires forall u | u in s.news :: s.news[u] in s.info && s.news[u] != s.tried[slot]
    ensures forall id | id in Evicted(e, s, slot).info ::
      id in s.info && Evicted(e, s, slot).info[id].service == s.info[id].service
  {
    hide Indexed, EntriesOk, Counted, TriedPlaced, NewPlaced;
    var id := s.tried[slot];
    var s1 := Untried(s, slot);
    TouchedIndexed(s.info, s.addr, s.rnd, s.idCount, id, s1.info[id]);
    NewClearedServices(s1, NewSlot(e, s.key, s.info[id].service, s.info[id].source));
  }

  lemma GoodKeeps(e: Env, s: State, a: Service, testBeforeEvict: bool, time: int)
    requires Inv(e, s) && time > 0
    ensures Inv(e, Good(e, s, a, testBeforeEvict, time))
  {
    hide Indexed, EntriesOk, Counted, TriedPlaced, NewPlaced;
    Linked(e, s, {}, 0);
    if Known(s, a) {
      SucceededKeeps(e, s, a, time);
      var id, s1 := s.addr[a.addr], Succeeded(s, a, time);
      if !s1.info[id].fInTried && !(testBeforeEvict && TriedSlot(e, s.key, a) in s.tried) {
        MadeTriedKeeps(e, s1, id);
      }
    }
  }

  lemma GoodExtends(e: Env, s: State, a: Service, testBeforeEvict: bool, time: int)
    requires Inv(e, s) && time > 0
    ensures Extends(s, Good(e, s, a, testBeforeEvict, time))
  {
    hide Indexed, EntriesOk, Counted, TriedPlaced, NewPlaced;
    Linked(e, s, {}, 0);
    if Known(s, a) {
      SucceededKeeps(e, s, a, time);
      var id, s1 := s.addr[a.addr], Succeeded(s, a, time);
      if !s1.info[id].fInTried && !(testBeforeEvict && TriedSlot(e, s.key, a) in s.tried) {
        MadeTriedExtends(e, s1, id);
      }
    }
  }

  lemma GoodCollisions(e: Env, s: State, a: Service, testBeforeEvict: bool, time: int)
    requires Inv(e, s) && CollisionsOk(e, s) && time > 0
    ensures CollisionsOk(e, Good(e, s, a, testBeforeEvict, time))
  {
    hide Indexed, EntriesOk, Counted, TriedPlaced, NewPlaced;
    GoodExtends(e, s, a, testBeforeEvict, time);
    Linked(e, s, {}, 0);
    var s' := Good(e, s, a, testBeforeEvict, time);
    ExtendsCollisions(e, s, s'.(collisions := s.collisions));
    if Known(s, a) {
      SucceededKeeps(e, s, a, time);
      var id, s1 := s.addr[a.addr], Succeeded(s, a, time);
      IdBelow(e, s, id);
      if !s1.info[id].fInTried && !(testBeforeEvict && TriedSlot(e, s.key, a) in s.tried) {
        MadeTriedExtends(e, s1, id);
      }
    }
  }

  lemma IdBelow(e: Env, s: State, id: int)
    requires Inv(e, s) && id in s.info
    ensures 0 <= id < s.idCount
  {
  }

  /** A known address that is not in tried ends up there unless the slot is taken and tested first. */
  lemma GoodPromotes(e: Env, s: State, a: Service, testBeforeEvict: bool, time: int)
    requires Inv(e, s) && time > 0 && Known(s, a)
    ensures var s', id := Good(e, s, a, testBeforeEvict, time), s.addr[a.addr];
      && id in s'.info && s'.info[id].nLastSuccess == s'.info[id].nLastTry == time && s'.info[id].nAttempts == 0
      && (s'.info[id].fInTried <==>
            s.info[id].fInTried || !testBeforeEvict || TriedSlot(e, s.key, a) !in s.tried)
      && (!s'.info[id].fInTried && |s.collisions| < COLLISION_SIZE ==> id in s'.collisions)
  {
    hide Indexed, EntriesOk, Counted, TriedPlaced, NewPlaced;
    SucceededKeeps(e, s, a, time);
    var id, s1 := s.addr[a.addr], Succeeded(s, a, time);
    if !s1.info[id].fInTried && !(testBeforeEvict && TriedSlot(e, s.key, a) in s.tried) {
      if TriedSlot(e, s.key, a) in s.tried {
        MadeTriedEvicts(e, s1, id);
      } else {
        MadeTriedMovesFreely(e, s1, id);
      }
    }
  }

  // ---------------------------------------------------------------- Add

  ghost function Filed(e: Env, s: State, id: int, source: NetAddr, now: int): State
    requires IndexOk(s) && id in s.info
    requires forall u | u in s.news :: s.news[u] in s.info
  {
    var slot := NewSlot(e, s.key, s.info[id].service, source);
    IndexGives(s);
    if slot in s.news && s.news[slot] == id then s
    else if Yields(s, id, slot, now) then
      NewClearedShape(s, slot);
      Referenced(NewCleared(s, slot), id, slot)
    else if s.info[id].nRefCount == 0 then Deleted(s, id)
    else s
  }

  lemma InLimbo(e: Env, s: State, id: int, extra: int)
    requires InvExcept(e, s, {id}, extra)
    ensures id in s.info && s.info[id].nRefCount == 0 && !s.info[id].fInTried
    ensures forall slot | slot in s.news :: s.news[slot] != id
  {
    assert id in {id};
    Absent(s.news, id);
  }

  lemma FiledFreshKeeps(e: Env, s: State, id: int, source: NetAddr, now: int)
    requires InvExcept(e, s, {id}, 1)
    ensures Inv(e, Filed(e, s, id, source, now))
  {
    hide Indexed, EntriesOk, Counted, TriedPlaced, NewPlaced;
    Linked(e, s, {id}, 1);
    InLimbo(e, s, id, 1);
    var slot := NewSlot(e, s.key, s.info[id].service, source);
    assert {id} - {id} == {} && {} + {id} == {id};
    if Yields(s, id, slot, now) {
      NewClearedKeeps(e, s, slot, {id}, 1);
      NewClearedShape(s, slot);
      ReferencedFromLimbo(e, NewCleared(s, slot), id, slot, {id}, 1);
    } else {
      DeletedKeeps(e, s, id, {}, 0);
    }
  }

  lemma FiledAgainKeeps(e: Env, s: State, id: int, source: NetAddr, now: int)
    requires Inv(e, s) && id in s.info && !s.info[id].fInTried && s.info[id].nRefCount < NEW_BUCKETS_PER_ADDRESS
    ensures Inv(e, Filed(e, s, id, source, now))
  {
    hide Indexed, EntriesOk, Counted, TriedPlaced, NewPlaced;
    Linked(e, s, {}, 0);
    EntryOk(e, s, id);
    var slot := NewSlot(e, s.key, s.info[id].service, source);
    if !(slot in s.news && s.news[slot] == id) && Yields(s, id, slot, now) {
      NewClearedKeeps(e, s, slot, {}, 0);
      NewClearedShape(s, slot);
      ReferencedAgain(e, NewCleared(s, slot), id, slot, {}, 0);
    }
  }

  ghost function Add(e: Env, s: State, a: Address, source: NetAddr, penalty: int, now: int, roll: nat): State
    requires Inv(e, s)
  {
    if !e.isRoutable(a.service.addr) then s else
    var pen := if a.service.addr == source then 0 else penalty;
    if a.service.addr in s.addr then
      var id := s.addr[a.service.addr];
      var s1 := s.(info := s.info[id := Announced(s.info[id], a, pen, now)]);
      TouchedKeeps(e, s, id, s1.info[id]);
      if WantsReference(s1.info[id], a, roll) then Filed(e, s1, id, source, now) else s1
    else
      IntroducedKeeps(e, s, a, source, pen);
      Filed(e, Introduced(s, a, source, pen), s.idCount, source, now)
  }

  lemma AddKeeps(e: Env, s: State, a: Address, source: NetAddr, penalty: int, now: int, roll: nat)
    requires Inv(e, s)
    ensures Inv(e, Add(e, s, a, source, penalty, now, roll))
  {
    hide Indexed, EntriesOk, Counted, TriedPlaced, NewPlaced;
    Linked(e, s, {}, 0);
    var pen := if a.service.addr == source then 0 else penalty;
    if e.isRoutable(a.service.addr) {
      if a.service.addr in s.addr {
        var id := s.addr[a.service.addr];
        var s1 := s.(info := s.info[id := Announced(s.info[id], a, pen, now)]);
        EntryOk(e, s, id);
        TouchedKeeps(e, s, id, s1.info[id]);
        if WantsReference(s1.info[id], a, roll) {
          FiledAgainKeeps(e, s1, id, source, now);
        }
      } else {
        IntroducedKeeps(e, s, a, source, pen);
        FiledFreshKeeps(e, Introduced(s, a, source, pen), s.idCount, source, now);
      }
    }
  }

  lemma FiledExtends(e: Env, s: State, id: int, source: NetAddr, now: int)
    requires IndexOk(s) && id in s.info && s.idCount >= 0
    requires forall u | u in s.news :: s.news[u] in s.info
    ensures var s' := Filed(e, s, id, source, now);
      && s'.key == s.key && s'.idCount == s.idCount && s'.tried == s.tried && s'.collisions == s.collisions
      && (forall j | j in s'.info :: j in s.info && s'.info[j].service == s.info[j].service)
  {
    hide Indexed, NewSlot, NewCleared, Dropped, IsTerrible;
    var slot := NewSlot(e, s.key, s.info[id].service, source);
    IndexGives(s);
    if !(slot in s.news && s.news[slot] == id) && Yields(s, id, slot, now) {
      NewClearedShape(s, slot);
      NewClearedServices(s, slot);
    } else {
      DeletedShape(s, id);
    }
  }

  lemma DeletedShape(s: State, id: int)
    requires IndexOk(s) && id in s.info
    ensures var s' := Deleted(s, id);
      && s' == s.(info := s'.info, addr := s'.addr, rnd := s'.rnd, nNew := s.nNew - 1)
      && id !in s'.info
      && (forall j | j in s'.info :: j in s.info && s'.info[j].service == s.info[j].service)
  {
    DroppedIndexed(s, id);
  }

  lemma AddExtends(e: Env, s: State, a: Address, source: NetAddr, penalty: int, now: int, roll: nat)
    requires Inv(e, s)
    ensures var s' := Add(e, s, a, source, penalty, now, roll);
      Extends(s, s') && s'.tried == s.tried && s'.collisions == s.collisions
  {
    hide Indexed, EntriesOk, Counted, TriedPlaced, NewPlaced, Filed;
    Linked(e, s, {}, 0);
    var pen := if a.service.addr == source then 0 else penalty;
    if e.isRoutable(a.service.addr) {
      if a.service.addr in s.addr {
        var id := s.addr[a.service.addr];
        var s1 := s.(info := s.info[id := Announced(s.info[id], a, pen, now)]);
        EntryOk(e, s, id);
        TouchedKeeps(e, s, id, s1.info[id]);
        if WantsReference(s1.info[id], a, roll) {
          FiledExtends(e, s1, id, source, now);
        }
      } else {
        IntroducedKeeps(e, s, a, source, pen);
        FiledExtends(e, Introduced(s, a, source, pen), s.idCount, source, now);
      }
    }
  }

  /** A new address is kept exactly when its slot is free or the holder gives way, and then it holds that slot. */
  lemma AddNewMeaning(e: Env, s: State, a: Address, source: NetAddr, penalty: int, now: int, roll: nat)
    requires Inv(e, s) && e.isRoutable(a.service.addr) && a.service.addr !in s.addr
    ensures var s', slot := Add(e, s, a, source, penalty, now, roll), NewSlot(e, s.key, a.service, source);
      && (slot in s.news ==> s.news[slot] in s.info)
      && (s.idCount in s'.info <==>
            slot !in s.news || IsTerrible(s.info[s.news[slot]], now) || s.info[s.news[slot]].nRefCount > 1)
      && s'.news == (if s.idCount in s'.info then s.news[slot := s.idCount] else s.news)
      && (s.idCount in s'.info ==> s'.info[s.idCount].service == a.service && s'.info[s.idCount].nRefCount == 1)
  {
    hide Indexed, EntriesOk, Counted, TriedPlaced, NewPlaced, NewSlot, IsTerrible, Filed;
    Linked(e, s, {}, 0);
    var pen := if a.service.addr == source then 0 else penalty;
    IntroducedKeeps(e, s, a, source, pen);
    var s1 := Introduced(s, a, source, pen);
    InLimbo(e, s1, s.idCount, 1);
    Linked(e, s1, {s.idCount}, 1);
    FiledFreshMeaning(e, s1, s.idCount, source, now);
  }

  lemma FiledFreshMeaning(e: Env, s: State, id: int, source: NetAddr, now: int)
    requires IndexOk(s) && id in s.info && s.info[id].nRefCount == 0
    requires forall u | u in s.news :: s.news[u] in s.info && s.news[u] != id
    ensures var s', slot := Filed(e, s, id, source, now), NewSlot(e, s.key, s.info[id].service, source);
      && (id in s'.info <==> Yields(s, id, slot, now))
      && s'.news == (if id in s'.info then s.news[slot := id] else s.news)
      && (id in s'.info ==> s'.info[id].service == s.info[id].service && s'.info[id].nRefCount == 1)
  {
    hide Indexed, NewSlot, Dropped, NewCleared, IsTerrible;
    var slot := NewSlot(e, s.key, s.info[id].service, source);
    if Yields(s, id, slot, now) {
      NewClearedShape(s, slot);
      assert (s.news - {slot})[slot := id] == s.news[slot := id];
    } else {
      DeletedShape(s, id);
    }
  }

  /** The only entry an Add can lose is the holder of the wanted slot, when it is terrible and has no
      other reference. */
  lemma AddLosesOnlyTerrible(e: Env, s: State, a: Address, source: NetAddr, penalty: int, now: int, roll: nat, j: int)
    requires Inv(e, s) && j in s.info && j !in Add(e, s, a, source, penalty, now, roll).info
    ensures var slot := NewSlot(e, s.key, if a.service.addr in s.addr then s.info[s.addr[a.service.addr]].service else a.service, source);
      slot in s.news && s.news[slot] == j && s.info[j].nRefCount == 1 && IsTerrible(s.info[j], now)
  {
    hide Indexed, EntriesOk, Counted, TriedPlaced, NewPlaced, NewSlot, IsTerrible, Filed;
    Linked(e, s, {}, 0);
    var pen := if a.service.addr == source then 0 else penalty;
    if a.service.addr in s.addr {
      var id := s.addr[a.service.addr];
      var s1 := s.(info := s.info[id := Announced(s.info[id], a, pen, now)]);
      EntryOk(e, s, id);
      TouchedKeeps(e, s, id, s1.info[id]);
      EntryOk(e, s1, id);
      FiledLoses(e, s1, id, source, now, j);
    } else {
      IntroducedKeeps(e, s, a, source, pen);
      var s1 := Introduced(s, a, source, pen);
      Linked(e, s1, {s.idCount}, 1);
      FiledLoses(e, s1, s.idCount, source, now, j);
    }
  }

  lemma FiledLoses(e: Env, s: State, id: int, source: NetAddr, now: int, j: int)
    requires IndexOk(s) && id in s.info && j in s.info
    requires forall u | u in s.news :: s.news[u] in s.info
    requires j !in Filed(e, s, id, source, now).info
    requires j == id ==> s.info[id].nRefCount != 0
    ensures var slot := NewSlot(e, s.key, s.info[id].service, source);
      j != id && slot in s.news && s.news[slot] == j && s.info[j].nRefCount == 1 && IsTerrible(s.info[j], now)
  {
    hide Indexed, NewSlot, Dropped, NewCleared, IsTerrible;
    var slot := NewSlot(e, s.key, s.info[id].service, source);
    IndexGives(s);
    if !(slot in s.news && s.news[slot] == id) && Yields(s, id, slot, now) {
      NewClearedShape(s, slot);
      if slot in s.news {
        ClearedHolder(s, slot);
      }
    } else {
      DroppedIndexed(s, id);
    }
  }

  lemma ClearedHolder(s: State, slot: Slot)
    requires IndexOk(s) && slot in s.news && s.news[slot] in s.info
    ensures s.news[slot] in NewCleared(s, slot).info <==> s.info[s.news[slot]].nRefCount != 1
  {
    hide Indexed;
    var id, s1 := s.news[slot], Unreferenced(s, slot);
    TouchedIndexed(s.info, s.addr, s.rnd, s.idCount, id, s1.info[id]);
    if s1.info[id].nRefCount == 0 {
      IndexGives(s1);
      DroppedIndexed(s1, id);
    }
  }

  // ---------------------------------------------------------------- resolving collisions

  ghost function Resolved(e: Env, s: State, id: int, now: int): State
    requires Inv(e, s) && now > 0
  {
    Linked(e, s, {}, 0);
    match Judge(e, s, id, now)
    case Keep => s
    case Erase => s.(collisions := s.collisions - {id})
    case Promote =>
      var s1 := Good(e, s, s.info[id].service, false, now);
      s1.(collisions := s1.collisions - {id})
  }

  lemma ResolvedKeeps(e: Env, s: State, id: int, now: int)
    requires Inv(e, s) && now > 0
    ensures Inv(e, Resolved(e, s, id, now))
    ensures Extends(s, Resolved(e, s, id, now))
    ensures CollisionsOk(e, s) ==> CollisionsOk(e, Resolved(e, s, id, now))
  {
    hide Indexed, EntriesOk, Counted, TriedPlaced, NewPlaced, Good;
    Linked(e, s, {}, 0);
    if Judge(e, s, id, now) == Promote {
      GoodKeeps(e, s, s.info[id].service, false, now);
      GoodExtends(e, s, s.info[id].service, false, now);
      if CollisionsOk(e, s) {
        GoodCollisions(e, s, s.info[id].service, false, now);
      }
    }
  }

  /** A collision is struck off unless it is to be kept, and a promoted entry is in tried afterwards. */
  lemma ResolvedSettles(e: Env, s: State, id: int, now: int)
    requires Inv(e, s) && now > 0 && id in s.collisions
    requires forall slot | slot in s.tried :: s.tried[slot] in s.info
    ensures var s' := Resolved(e, s, id, now);
      && (id in s'.collisions <==> Judge(e, s, id, now) == Keep)
      && (Judge(e, s, id, now) == Promote ==> id in s'.info && s'.info[id].fInTried)
      && (Judge(e, s, id, now) != Promote ==> s'.info == s.info && s'.tried == s.tried && s'.news == s.news)
  {
    hide Indexed, EntriesOk, Counted, TriedPlaced, NewPlaced, Good;
    if Judge(e, s, id, now) == Promote {
      AddrFound(e, s, id);
      GoodPromotes(e, s, s.info[id].service, false, now);
    }
  }

  lemma AddrFound(e: Env, s: State, id: int)
    requires Inv(e, s) && id in s.info
    ensures s.info[id].service.addr in s.addr && s.addr[s.info[id].service.addr] == id
  {
  }

  lemma Any<T>(s: set<T>) returns (x: T)
    requires s != {}
    ensures x in s
  {
    x :| x in s;
  }

  lemma Inhabited(ids: set<int>)
    requires ids != {}
    ensures exists id :: id in ids
  {
    var id := Any(ids);
    assert id in ids;
  }

  ghost function Min(ids: set<int>): (m: int)
    requires ids != {}
    ensures m in ids && forall id | id in ids :: m <= id
  {
    Inhabited(ids);
    var x: int :| x in ids;
    if ids == {x} then x else
    assert ids - {x} != {};
    var m := Min(ids - {x});
    assert forall id | id in ids :: id == x || id in ids - {x};
    if x < m then x else m
  }

  /** The collisions of `todo` taken in increasing order. */
  ghost function ResolvedAll(e: Env, s: State, todo: set<int>, now: int): State
    requires Inv(e, s) && now > 0
    decreases todo
  {
    if todo == {} then s else
    var id := Min(todo);
    ResolvedKeeps(e, s, id, now);
    ResolvedAll(e, Resolved(e, s, id, now), todo - {id}, now)
  }

  lemma {:induction false} ResolvedAllKeeps(e: Env, s: State, todo: set<int>, now: int)
    requires Inv(e, s) && now > 0
    ensures Inv(e, ResolvedAll(e, s, todo, now))
    ensures CollisionsOk(e, s) ==> CollisionsOk(e, ResolvedAll(e, s, todo, now))
    decreases todo
  {
    if todo != {} {
      hide Indexed, EntriesOk, Counted, TriedPlaced, NewPlaced, Resolved, CollisionsOk;
      var id := Min(todo);
      ResolvedKeeps(e, s, id, now);
      ResolvedAllKeeps(e, Resolved(e, s, id, now), todo - {id}, now);
    }
  }

  /** Looking up the entry a pending collision competes with is safe exactly when the pending id is stale
      or its tried slot is occupied; otherwise a blank entry appears under the key -1. */
  lemma CollisionSelectedKeepsIff(e: Env, s: State, id: int)
    requires Inv(e, s)
    ensures Inv(e, CollisionSelected(e, s, id).0) <==>
      id !in s.info || TriedSlot(e, s.key, s.info[id].service) in s.tried
  {
    if id in s.info {
      var slot := TriedSlot(e, s.key, s.info[id].service);
      if slot !in s.tried {
        var s' := CollisionSelected(e, s, id).0;
        assert -1 !in s.info;
        assert -1 in s'.info;
        assert !Indexed(s'.info, s'.addr, s'.rnd, s'.idCount);
      }
    }
  }

  lemma ClearedKeeps(e: Env, key: nat, collisions: set<int>)
    requires key != 0
    ensures Inv(e, Cleared(key, collisions))
  {
    var info: map<int, Info> := map[];
    assert TriedIds(info) == {} && NewIds(info) - {} == {};
  }
}
