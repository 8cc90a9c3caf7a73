/** What each primitive step of the address manager does to each part of the invariant.

    Operations pass through states in which some entries are in neither table.  `InvExcept(e, s, limbo)`
    describes those states, and the lemmas below say how each step moves entries into and out of limbo.
 */
module AddrInvariant {
  import opened AddrState

  ghost predicate SameButPos(i: Info, j: Info) {
    i == j.(nRandomPos := i.nRandomPos)
  }

  /** The same entries, up to positions in vRandom. */
  ghost predicate Reordered(info: map<int, Info>, info': map<int, Info>) {
    && info'.Keys == info.Keys
    && (forall id | id in info' :: SameButPos(info'[id], info[id]))
  }

  /** `info'` is `info` without the entry `gone`, up to positions in vRandom. */
  ghost predicate Without(info: map<int, Info>, info': map<int, Info>, gone: int) {
    && (forall id | id in info' :: id in info && id != gone && SameButPos(info'[id], info[id]))
    && (forall id | id in info && id != gone :: id in info')
  }

  // ---------------------------------------------------------------- the three indexes

  lemma SwappedIndexed(s: State, p1: int, p2: int)
    requires IndexOk(s) && 0 <= p1 < |s.rnd| && 0 <= p2 < |s.rnd|
    ensures IndexOk(Swapped(s, p1, p2))
    ensures Reordered(s.info, Swapped(s, p1, p2).info) && |Swapped(s, p1, p2).rnd| == |s.rnd|
  {
    if p1 != p2 {
      var info, rnd := s.info, s.rnd;
      var id1, id2 := rnd[p1], rnd[p2];
      assert id1 != id2;
      var info' := info[id1 := info[id1].(nRandomPos := p2)][id2 := info[id2].(nRandomPos := p1)];
      var rnd' := rnd[p1 := id2][p2 := id1];
      assert Swapped(s, p1, p2).info == info' && Swapped(s, p1, p2).rnd == rnd';
      assert Indexed(info', s.addr, rnd', s.idCount);
    }
  }

  lemma LastDropped(info: map<int, Info>, addr: map<NetAddr, int>, rnd: seq<int>, idCount: int, id: int)
    requires Indexed(info, addr, rnd, idCount) && id in info && info[id].nRandomPos == |rnd| - 1
    ensures Indexed(info - {id}, addr - {info[id].service.addr}, rnd[..|rnd| - 1], idCount)
  {
    var rnd' := rnd[..|rnd| - 1];
    forall j | j in info - {id} ensures 0 <= info[j].nRandomPos < |rnd'| {
      assert rnd[info[j].nRandomPos] == j;
    }
  }

  lemma DroppedIndexed(s: State, id: int)
    requires IndexOk(s) && id in s.info
    ensures IndexOk(Dropped(s, id))
    ensures Without(s.info, Dropped(s, id).info, id)
    ensures |Dropped(s, id).rnd| == |s.rnd| - 1
  {
    hide Indexed, Swapped, SameButPos;
    var p, last := s.info[id].nRandomPos, |s.rnd| - 1;
    IndexedAt(s.info, s.addr, s.rnd, s.idCount, id);
    SwappedIndexed(s, p, last);
    SwappedLast(s, p, last);
    var s1 := Swapped(s, p, last);
    RandomAt(s1.info, s1.addr, s1.rnd, s1.idCount, last);
    SameService(s.info, s1.info, id);
    LastDropped(s1.info, s1.addr, s1.rnd, s1.idCount, id);
  }

  lemma IndexedAt(info: map<int, Info>, addr: map<NetAddr, int>, rnd: seq<int>, idCount: int, id: int)
    requires Indexed(info, addr, rnd, idCount) && id in info
    ensures 0 <= info[id].nRandomPos < |rnd| && rnd[info[id].nRandomPos] == id && rnd[|rnd| - 1] in info
  {
  }

  lemma RandomAt(info: map<int, Info>, addr: map<NetAddr, int>, rnd: seq<int>, idCount: int, p: int)
    requires Indexed(info, addr, rnd, idCount) && 0 <= p < |rnd|
    ensures rnd[p] in info && info[rnd[p]].nRandomPos == p
  {
  }

  lemma SwappedLast(s: State, p1: int, p2: int)
    requires 0 <= p1 < |s.rnd| && 0 <= p2 < |s.rnd| && s.rnd[p1] in s.info && s.rnd[p2] in s.info
    ensures var s' := Swapped(s, p1, p2);
      |s'.rnd| == |s.rnd| && s'.rnd[p2] == s.rnd[p1] && s' == s.(info := s'.info, rnd := s'.rnd)
  {
  }

  lemma SameService(info: map<int, Info>, info': map<int, Info>, id: int)
    requires Reordered(info, info') && id in info
    ensures info'[id].service == info[id].service
  {
  }

  lemma CreatedIndexed(info: map<int, Info>, addr: map<NetAddr, int>, rnd: seq<int>, idCount: int, i: Info)
    requires Indexed(info, addr, rnd, idCount) && idCount >= 0
    requires i.service.addr !in addr && i.nRandomPos == |rnd|
    ensures idCount !in info
    ensures Indexed(info[idCount := i], addr[i.service.addr := idCount], rnd + [idCount], idCount + 1)
  {
  }

  lemma TouchedIndexed(info: map<int, Info>, addr: map<NetAddr, int>, rnd: seq<int>, idCount: int, id: int, i: Info)
    requires Indexed(info, addr, rnd, idCount) && id in info
    requires i.service == info[id].service && i.nRandomPos == info[id].nRandomPos
    ensures Indexed(info[id := i], addr, rnd, idCount)
  {
  }

  // ---------------------------------------------------------------- entries and counters

  lemma DroppedEntries(info: map<int, Info>, info': map<int, Info>, id: int, limbo: set<int>)
    requires Without(info, info', id) && id !in limbo && EntriesOk(info, limbo + {id})
    ensures EntriesOk(info', limbo)
  {
  }

  lemma TouchedEntries(info: map<int, Info>, id: int, i: Info, limbo: set<int>, limbo': set<int>)
    requires EntriesOk(info, limbo) && limbo' - {id} == limbo - {id}
    requires i.nLastTry >= 0 && i.nLastSuccess >= 0
    requires if i.fInTried then i.nLastSuccess != 0 && i.nRefCount == 0 && id !in limbo'
             else if id in limbo' then i.nRefCount == 0 else 1 <= i.nRefCount <= NEW_BUCKETS_PER_ADDRESS
    ensures EntriesOk(info[id := i], limbo')
  {
    forall j | j != id ensures j in limbo <==> j in limbo' {
      assert j in limbo - {id} <==> j in limbo' - {id};
    }
  }

  lemma DroppedCounted(info: map<int, Info>, info': map<int, Info>, id: int, limbo: set<int>, nTried: int, nNew: int, total: nat)
    requires Without(info, info', id) && id in info && !info[id].fInTried && id !in limbo && total > 0
    requires Counted(info, limbo + {id}, nTried, nNew, total)
    ensures Counted(info', limbo, nTried, nNew, total - 1)
  {
    forall j ensures j in TriedIds(info') <==> j in TriedIds(info) {}
    forall j ensures j in NewIds(info') - limbo <==> j in NewIds(info) - (limbo + {id}) {}
    assert TriedIds(info') == TriedIds(info);
    assert NewIds(info') - limbo == NewIds(info) - (limbo + {id});
  }

  lemma TouchedCounted(info: map<int, Info>, id: int, i: Info)
    requires id in info && i.fInTried == info[id].fInTried
    ensures TriedIds(info[id := i]) == TriedIds(info)
    ensures NewIds(info[id := i]) == NewIds(info)
  {
  }

  lemma LimboCounted(info: map<int, Info>, id: int, limbo: set<int>, nTried: int, nNew: int, total: nat)
    requires id in info && !info[id].fInTried && id !in limbo
    requires Counted(info, limbo, nTried, nNew, total)
    ensures Counted(info, limbo + {id}, nTried, nNew - 1, total)
  {
    assert NewIds(info) - (limbo + {id}) == (NewIds(info) - limbo) - {id};
    assert id in NewIds(info) - limbo;
  }

  lemma UnlimboCounted(info: map<int, Info>, id: int, limbo: set<int>, nTried: int, nNew: int, total: nat)
    requires id in info && !info[id].fInTried && id in limbo
    requires Counted(info, limbo, nTried, nNew, total)
    ensures Counted(info, limbo - {id}, nTried, nNew + 1, total)
  {
    assert NewIds(info) - (limbo - {id}) == (NewIds(info) - limbo) + {id};
  }

  lemma UntriedCounted(info: map<int, Info>, id: int, i: Info, limbo: set<int>, nTried: int, nNew: int, total: nat)
    requires id in info && info[id].fInTried && !i.fInTried && id !in limbo
    requires Counted(info, limbo, nTried, nNew, total)
    ensures Counted(info[id := i], limbo + {id}, nTried - 1, nNew, total)
  {
    var info' := info[id := i];
    assert TriedIds(info') == TriedIds(info) - {id};
    assert NewIds(info') - (limbo + {id}) == NewIds(info) - limbo;
  }

  lemma TriedCounted(info: map<int, Info>, id: int, i: Info, limbo: set<int>, nTried: int, nNew: int, total: nat)
    requires id in info && !info[id].fInTried && i.fInTried && id in limbo
    requires Counted(info, limbo, nTried, nNew, total)
    ensures Counted(info[id := i], limbo - {id}, nTried + 1, nNew, total)
  {
    var info' := info[id := i];
    assert TriedIds(info') == TriedIds(info) + {id};
    assert NewIds(info') - (limbo - {id}) == NewIds(info) - limbo;
  }

  lemma CreatedCounted(info: map<int, Info>, id: int, i: Info, limbo: set<int>, nTried: int, nNew: int, total: nat)
    requires id !in info && !i.fInTried && id !in limbo
    requires Counted(info, limbo, nTried, nNew, total)
    ensures Counted(info[id := i], limbo + {id}, nTried, nNew, total + 1)
  {
    var info' := info[id := i];
    assert TriedIds(info') == TriedIds(info);
    assert NewIds(info') - (limbo + {id}) == NewIds(info) - limbo;
  }

  // ---------------------------------------------------------------- the tried table

  lemma DroppedTried(e: Env, key: nat, info: map<int, Info>, info': map<int, Info>, tried: map<Slot, int>, id: int)
    requires TriedPlaced(e, key, info, tried) && Without(info, info', id)
    requires id in info && !info[id].fInTried
    ensures TriedPlaced(e, key, info', tried)
  {
    forall slot | slot in tried ensures tried[slot] in info' && SameButPos(info'[tried[slot]], info[tried[slot]]) {
      var j := tried[slot];
      assert j in info && j != id;
    }
  }

  lemma TouchedTried(e: Env, key: nat, info: map<int, Info>, tried: map<Slot, int>, id: int, i: Info)
    requires TriedPlaced(e, key, info, tried)
    requires if id in info then i.service == info[id].service && i.fInTried == info[id].fInTried else !i.fInTried
    ensures TriedPlaced(e, key, info[id := i], tried)
  {
  }

  lemma UntriedTried(e: Env, key: nat, info: map<int, Info>, tried: map<Slot, int>, slot: Slot, i: Info)
    requires TriedPlaced(e, key, info, tried) && slot in tried && !i.fInTried
    ensures TriedPlaced(e, key, info[tried[slot] := i], tried - {slot})
  {
  }

  lemma TriedTried(e: Env, key: nat, info: map<int, Info>, tried: map<Slot, int>, id: int, i: Info)
    requires TriedPlaced(e, key, info, tried) && id in info && !info[id].fInTried
    requires i.fInTried && TriedSlot(e, key, i.service) !in tried
    ensures TriedPlaced(e, key, info[id := i], tried[TriedSlot(e, key, i.service) := id])
  {
  }

  // ---------------------------------------------------------------- the new table

  lemma SlotsWithout(news: map<Slot, int>, slot: Slot, id: int)
    requires slot in news
    ensures |Slots(news - {slot}, id)| == |Slots(news, id)| - (if news[slot] == id then 1 else 0)
  {
    assert Slots(news - {slot}, id) == Slots(news, id) - {slot};
  }

  lemma SlotsWith(news: map<Slot, int>, slot: Slot, id: int, j: int)
    requires slot !in news
    ensures |Slots(news[slot := id], j)| == |Slots(news, j)| + (if j == id then 1 else 0)
  {
    assert Slots(news[slot := id], j) == if j == id then Slots(news, j) + {slot} else Slots(news, j);
  }

  /** An entry without references is not in the new table. */
  lemma Absent(news: map<Slot, int>, id: int)
    requires |Slots(news, id)| == 0
    ensures Slots(news, id) == {}
    ensures forall slot | slot in news :: news[slot] != id
  {
    forall slot | slot in news ensures news[slot] != id {
      assert slot !in Slots(news, id);
    }
  }

  lemma DroppedNew(e: Env, key: nat, info: map<int, Info>, info': map<int, Info>, news: map<Slot, int>, id: int)
    requires NewPlaced(e, key, info, news) && Without(info, info', id)
    requires id in info && !info[id].fInTried && info[id].nRefCount == 0
    ensures NewPlaced(e, key, info', news)
  {
    Absent(news, id);
  }

  lemma TouchedNew(e: Env, key: nat, info: map<int, Info>, news: map<Slot, int>, id: int, i: Info)
    requires NewPlaced(e, key, info, news) && id in info
    requires i.service == info[id].service && i.fInTried == info[id].fInTried && i.nRefCount == info[id].nRefCount
    ensures NewPlaced(e, key, info[id := i], news)
  {
  }

  lemma UnreferencedNew(e: Env, key: nat, info: map<int, Info>, news: map<Slot, int>, slot: Slot, i: Info)
    requires NewPlaced(e, key, info, news) && slot in news
    requires i == info[news[slot]].(nRefCount := info[news[slot]].nRefCount - 1)
    ensures NewPlaced(e, key, info[news[slot] := i], news - {slot})
  {
    forall j | j in info ensures |Slots(news - {slot}, j)| == |Slots(news, j)| - (if news[slot] == j then 1 else 0) {
      SlotsWithout(news, slot, j);
    }
  }

  lemma ReferencedNew(e: Env, key: nat, info: map<int, Info>, news: map<Slot, int>, slot: Slot, id: int, i: Info)
    requires NewPlaced(e, key, info, news) && slot !in news && id in info && !info[id].fInTried
    requires i == info[id].(nRefCount := info[id].nRefCount + 1) && Fits(e, key, slot, i.service)
    ensures NewPlaced(e, key, info[id := i], news[slot := id])
  {
    forall j | j in info ensures |Slots(news[slot := id], j)| == |Slots(news, j)| + (if j == id then 1 else 0) {
      SlotsWith(news, slot, id, j);
    }
  }

  lemma WithdrawnNew(e: Env, key: nat, info: map<int, Info>, news: map<Slot, int>, id: int, i: Info)
    requires NewPlaced(e, key, info, news) && id in info && !info[id].fInTried
    requires i == info[id].(nRefCount := 0)
    ensures NewPlaced(e, key, info[id := i], news - Slots(news, id))
  {
    var news' := news - Slots(news, id);
    assert Slots(news', id) == {};
    forall j | j in info && j != id ensures Slots(news', j) == Slots(news, j) {
    }
  }

  /** Leaving tried makes an entry new without references; entering it needs one without references. */
  lemma UntriedNew(e: Env, key: nat, info: map<int, Info>, news: map<Slot, int>, id: int, i: Info)
    requires NewPlaced(e, key, info, news) && id in info && info[id].fInTried
    requires i.nRefCount == 0 && !i.fInTried
    ensures NewPlaced(e, key, info[id := i], news)
    ensures forall slot | slot in news :: news[slot] != id
  {
    assert Slots(news, id) == {};
  }

  lemma TriedNew(e: Env, key: nat, info: map<int, Info>, news: map<Slot, int>, id: int, i: Info)
    requires NewPlaced(e, key, info, news) && id in info && !info[id].fInTried && info[id].nRefCount == 0
    requires i.fInTried
    ensures NewPlaced(e, key, info[id := i], news)
  {
    Absent(news, id);
  }

  lemma CreatedNew(e: Env, key: nat, info: map<int, Info>, news: map<Slot, int>, id: int, i: Info)
    requires NewPlaced(e, key, info, news) && id !in info && i.nRefCount == 0
    ensures NewPlaced(e, key, info[id := i], news)
  {
    assert Slots(news, id) == {};
  }
}
