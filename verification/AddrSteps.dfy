/** The steps that operations of the address manager are made of, on whole states. */
module AddrSteps {
  import opened AddrState
  import opened AddrInvariant

  lemma IndexGives(s: State)
    requires IndexOk(s)
    ensures forall id | id in s.info ::
      0 <= s.info[id].nRandomPos < |s.rnd| && s.rnd[s.info[id].nRandomPos] in s.info && s.rnd[|s.rnd| - 1] in s.info
  {
  }

  /** The ids in the three other structures are those of entries. */
  lemma Linked(e: Env, s: State, limbo: set<int>, extra: int)
    requires InvExcept(e, s, limbo, extra)
    ensures forall a | a in s.addr :: s.addr[a] in s.info
    ensures forall slot | slot in s.news :: s.news[slot] in s.info
    ensures forall slot | slot in s.tried :: s.tried[slot] in s.info
  {
  }

  lemma EntryOk(e: Env, s: State, id: int)
    requires Inv(e, s) && id in s.info
    ensures s.info[id].nLastTry >= 0 && s.info[id].nLastSuccess >= 0
    ensures if s.info[id].fInTried then s.info[id].nLastSuccess != 0 && s.info[id].nRefCount == 0
            else 1 <= s.info[id].nRefCount <= NEW_BUCKETS_PER_ADDRESS
  {
  }

  /** An entry in limbo that is still counted as new can be deleted. */
  lemma DeletedKeeps(e: Env, s: State, id: int, limbo: set<int>, extra: int)
    requires id in s.info && id !in limbo
    requires InvExcept(e, s, limbo + {id}, extra + 1)
    ensures InvExcept(e, Deleted(s, id), limbo, extra)
    ensures Without(s.info, Deleted(s, id).info, id)
  {
    DroppedIndexed(s, id);
    var d := Deleted(s, id);
    assert id in limbo + {id};
    DroppedEntries(s.info, d.info, id, limbo);
    DroppedCounted(s.info, d.info, id, limbo, s.nTried, s.nNew - extra - 1, |s.rnd|);
    DroppedTried(e, s.key, s.info, d.info, s.tried, id);
    DroppedNew(e, s.key, s.info, d.info, s.news, id);
  }

  /** Removing one reference leaves an entry referenced, or puts it in limbo while still counted. */
  lemma UnreferencedKeeps(e: Env, s: State, slot: Slot, limbo: set<int>, extra: int)
    requires InvExcept(e, s, limbo, extra) && slot in s.news
    ensures var id, s' := s.news[slot], Unreferenced(s, slot);
      && id !in limbo && id in s.info
      && if s.info[id].nRefCount == 1 then InvExcept(e, s', limbo + {id}, extra + 1)
         else InvExcept(e, s', limbo, extra)
  {
    var id, s' := s.news[slot], Unreferenced(s, slot);
    var i := s'.info[id];
    assert slot in Slots(s.news, id);
    var limbo' := if i.nRefCount == 0 then limbo + {id} else limbo;
    TouchedIndexed(s.info, s.addr, s.rnd, s.idCount, id, i);
    TouchedEntries(s.info, id, i, limbo, limbo');
    TouchedCounted(s.info, id, i);
    TouchedTried(e, s.key, s.info, s.tried, id, i);
    UnreferencedNew(e, s.key, s.info, s.news, slot, i);
    if i.nRefCount == 0 {
      LimboCounted(s'.info, id, limbo, s.nTried, s.nNew - extra, |s.rnd|);
    }
  }

  /** Free a slot of the new table, deleting its holder if that was its last reference. */
  ghost function NewCleared(s: State, slot: Slot): State
    requires slot in s.news ==> s.news[slot] in s.info
  {
    if slot !in s.news then s else
    var id := s.news[slot];
    var s1 := Unreferenced(s, slot);
    if s1.info[id].nRefCount == 0 && Droppable(s1, id) then Deleted(s1, id) else s1
  }

  /** All entries but `except` are kept, up to positions in vRandom, and none appears. */
  ghost predicate KeepsAllBut(info: map<int, Info>, info': map<int, Info>, except: set<int>) {
    && (forall id | id in info' :: id in info)
    && (forall id | id in info && id !in except :: id in info' && SameButPos(info'[id], info[id]))
  }

  lemma NewClearedKeeps(e: Env, s: State, slot: Slot, limbo: set<int>, extra: int)
    requires InvExcept(e, s, limbo, extra)
    ensures slot in s.news ==> s.news[slot] in s.info && s.news[slot] !in limbo
    ensures InvExcept(e, NewCleared(s, slot), limbo, extra)
  {
    if slot in s.news {
      var id, s1 := s.news[slot], Unreferenced(s, slot);
      UnreferencedKeeps(e, s, slot, limbo, extra);
      if s1.info[id].nRefCount == 0 {
        DeletedKeeps(e, s1, id, limbo, extra);
      }
    }
  }

  lemma NewClearedShape(s: State, slot: Slot)
    requires IndexOk(s)
    requires slot in s.news ==> s.news[slot] in s.info
    ensures var s' := NewCleared(s, slot);
      && s' == s.(info := s'.info, addr := s'.addr, rnd := s'.rnd, news := s.news - {slot}, nNew := s'.nNew)
      && KeepsAllBut(s.info, s'.info, if slot in s.news then {s.news[slot]} else {})
  {
    if slot in s.news {
      var id, s1 := s.news[slot], Unreferenced(s, slot);
      TouchedIndexed(s.info, s.addr, s.rnd, s.idCount, id, s1.info[id]);
      if s1.info[id].nRefCount == 0 {
        DroppedIndexed(s1, id);
      }
    }
  }

  /** An entry in limbo gets its first reference. */
  lemma ReferencedFromLimbo(e: Env, s: State, id: int, slot: Slot, limbo: set<int>, extra: int)
    requires InvExcept(e, s, limbo, extra) && id in limbo
    requires slot !in s.news && Fits(e, s.key, slot, s.info[id].service)
    ensures InvExcept(e, Referenced(s, id, slot), limbo - {id}, extra - 1)
  {
    var s' := Referenced(s, id, slot);
    var i := s'.info[id];
    TouchedIndexed(s.info, s.addr, s.rnd, s.idCount, id, i);
    TouchedEntries(s.info, id, i, limbo, limbo - {id});
    TouchedCounted(s.info, id, i);
    UnlimboCounted(s'.info, id, limbo, s.nTried, s.nNew - extra, |s.rnd|);
    TouchedTried(e, s.key, s.info, s.tried, id, i);
    ReferencedNew(e, s.key, s.info, s.news, slot, id, i);
  }

  lemma ReferencedAgain(e: Env, s: State, id: int, slot: Slot, limbo: set<int>, extra: int)
    requires InvExcept(e, s, limbo, extra) && id in s.info && !s.info[id].fInTried && id !in limbo
    requires s.info[id].nRefCount < NEW_BUCKETS_PER_ADDRESS
    requires slot !in s.news && Fits(e, s.key, slot, s.info[id].service)
    ensures InvExcept(e, Referenced(s, id, slot), limbo, extra)
  {
    var i := Referenced(s, id, slot).info[id];
    TouchedIndexed(s.info, s.addr, s.rnd, s.idCount, id, i);
    TouchedEntries(s.info, id, i, limbo, limbo);
    TouchedCounted(s.info, id, i);
    TouchedTried(e, s.key, s.info, s.tried, id, i);
    ReferencedNew(e, s.key, s.info, s.news, slot, id, i);
  }

  /** The slots searched before a move to tried are all the references the entry has. */
  lemma FittingSlotsAll(e: Env, s: State, id: int)
    requires Inv(e, s) && id in s.info && !s.info[id].fInTried
    ensures FittingSlots(e, s, id) == Slots(s.news, id) != {}
    ensures |FittingSlots(e, s, id)| == s.info[id].nRefCount
  {
  }

  lemma WithdrawnKeeps(e: Env, s: State, id: int)
    requires Inv(e, s) && id in s.info && !s.info[id].fInTried
    ensures InvExcept(e, Withdrawn(e, s, id), {id}, 0)
  {
    FittingSlotsAll(e, s, id);
    var s' := Withdrawn(e, s, id);
    var i := s'.info[id];
    TouchedIndexed(s.info, s.addr, s.rnd, s.idCount, id, i);
    TouchedEntries(s.info, id, i, {}, {id});
    TouchedCounted(s.info, id, i);
    LimboCounted(s'.info, id, {}, s.nTried, s.nNew, |s.rnd|);
    TouchedTried(e, s.key, s.info, s.tried, id, i);
    WithdrawnNew(e, s.key, s.info, s.news, id, i);
    assert {} + {id} == {id};
  }

  lemma UntriedKeeps(e: Env, s: State, slot: Slot, limbo: set<int>)
    requires InvExcept(e, s, limbo, 0) && slot in s.tried
    ensures s.tried[slot] !in limbo && s.tried[slot] in s.info && s.info[s.tried[slot]].nRefCount == 0
    ensures InvExcept(e, Untried(s, slot), limbo + {s.tried[slot]}, 0)
    ensures forall u | u in s.news :: s.news[u] in s.info && s.news[u] != s.tried[slot]
  {
    var id, s' := s.tried[slot], Untried(s, slot);
    var i := s'.info[id];
    TouchedIndexed(s.info, s.addr, s.rnd, s.idCount, id, i);
    TouchedEntries(s.info, id, i, limbo, limbo + {id});
    UntriedCounted(s.info, id, i, limbo, s.nTried, s.nNew, |s.rnd|);
    UntriedTried(e, s.key, s.info, s.tried, slot, i);
    UntriedNew(e, s.key, s.info, s.news, id, i);
  }

  lemma TriedKeeps(e: Env, s: State, id: int, limbo: set<int>)
    requires InvExcept(e, s, limbo, 0) && id in limbo && s.info[id].nLastSuccess > 0
    requires TriedSlot(e, s.key, s.info[id].service) !in s.tried
    ensures InvExcept(e, Tried(s, id, TriedSlot(e, s.key, s.info[id].service)), limbo - {id}, 0)
  {
    var i := s.info[id].(fInTried := true);
    TouchedIndexed(s.info, s.addr, s.rnd, s.idCount, id, i);
    TouchedEntries(s.info, id, i, limbo, limbo - {id});
    TriedCounted(s.info, id, i, limbo, s.nTried, s.nNew, |s.rnd|);
    TriedTried(e, s.key, s.info, s.tried, id, i);
    TriedNew(e, s.key, s.info, s.news, id, i);
  }

  lemma IntroducedKeeps(e: Env, s: State, a: Address, source: NetAddr, penalty: int)
    requires Inv(e, s) && a.service.addr !in s.addr
    ensures s.idCount !in s.info
    ensures InvExcept(e, Introduced(s, a, source, penalty), {s.idCount}, 1)
  {
    var s' := Introduced(s, a, source, penalty);
    var i := s'.info[s.idCount];
    assert s'.info == s.info[s.idCount := i];
    CreatedIndexed(s.info, s.addr, s.rnd, s.idCount, i);
    TouchedEntries(s.info, s.idCount, i, {}, {s.idCount});
    CreatedCounted(s.info, s.idCount, i, {}, s.nTried, s.nNew, |s.rnd|);
    assert {} + {s.idCount} == {s.idCount};
    TouchedTried(e, s.key, s.info, s.tried, s.idCount, i);
    CreatedNew(e, s.key, s.info, s.news, s.idCount, i);
  }

  /** Changing only times, attempts and services of one entry. */
  ghost predicate Touched(i: Info, j: Info) {
    i == j.(nTime := i.nTime, services := i.services, nLastTry := i.nLastTry, nAttempts := i.nAttempts,
            nLastCountAttempt := i.nLastCountAttempt, nLastSuccess := i.nLastSuccess)
  }

  lemma TouchedKeeps(e: Env, s: State, id: int, i: Info)
    requires Inv(e, s) && id in s.info && Touched(i, s.info[id])
    requires i.nLastTry >= 0 && i.nLastSuccess >= 0 && (i.fInTried ==> i.nLastSuccess != 0)
    ensures Inv(e, s.(info := s.info[id := i]))
  {
    TouchedIndexed(s.info, s.addr, s.rnd, s.idCount, id, i);
    TouchedEntries(s.info, id, i, {}, {});
    TouchedCounted(s.info, id, i);
    TouchedTried(e, s.key, s.info, s.tried, id, i);
    TouchedNew(e, s.key, s.info, s.news, id, i);
  }
}
