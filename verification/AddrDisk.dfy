/** The address manager on disk: what is written, what is read back, and that nothing is lost between. */
module AddrDisk {
  import opened AddrState
  import opened AddrInvariant
  import opened AddrSteps

  /** What is written of an entry. */
  datatype Saved = Saved(service: Service, nTime: nat, services: set<nat>, source: NetAddr, nLastSuccess: int, nAttempts: int)

  /** A file: the entries of the two tables, for each bucket of the new table the numbers of its entries,
      and a checksum of the map from addresses to groups. */
  datatype DiskFile = DiskFile(key: nat, news: seq<Saved>, tried: seq<Saved>, buckets: seq<seq<int>>, asmap: nat)

  function Save(i: Info): Saved {
    Saved(i.service, i.nTime, i.services, i.source, i.nLastSuccess, i.nAttempts)
  }

  function Restored(d: Saved, pos: int): Info {
    Info(d.service, d.nTime, d.services, d.source, 0, 0, d.nLastSuccess, d.nAttempts, 0, false, pos)
  }

  // ---------------------------------------------------------------- writing

  predicate Listed(info: map<int, Info>, ids: seq<int>) {
    forall k | 0 <= k < |ids| :: ids[k] in info
  }

  /** The ids of `order` whose entries are in the new table, or in the tried table. */
  function Chosen(info: map<int, Info>, order: seq<int>, tried: bool): seq<int>
    requires Listed(info, order)
  {
    if order == [] then []
    else
      var last := order[|order| - 1];
      Chosen(info, order[..|order| - 1], tried)
      + if (if tried then info[last].fInTried else info[last].nRefCount != 0) then [last] else []
  }

  function SaveAll(info: map<int, Info>, ids: seq<int>): seq<Saved>
    requires Listed(info, ids)
  {
    seq(|ids|, k requires 0 <= k < |ids| => Save(info[ids[k]]))
  }

  function IndexOf(ids: seq<int>, id: int): (k: nat)
    requires id in ids
    ensures k < |ids| && ids[k] == id
  {
    if ids[0] == id then 0 else 1 + IndexOf(ids[1..], id)
  }

  /** The entries in the first n positions of a bucket of the new table. */
  function BucketList(news: map<Slot, int>, ids: seq<int>, bucket: nat, n: nat): seq<int>
    requires forall slot | slot in news :: news[slot] in ids
  {
    if n == 0 then []
    else
      BucketList(news, ids, bucket, n - 1)
      + if Slot(bucket, n - 1) in news then [IndexOf(ids, news[Slot(bucket, n - 1)])] else []
  }

  // ---------------------------------------------------------------- reading

  function LoadedNew(s: State, d: Saved): State {
    var id := s.idCount;
    s.(idCount := id + 1, info := s.info[id := Restored(d, |s.rnd|)], addr := s.addr[d.service.addr := id],
       rnd := s.rnd + [id], nNew := s.nNew + 1)
  }

  /** An entry for the tried table, unless its slot is taken. */
  function LoadedTried(e: Env, s: State, d: Saved): State {
    var slot, id := TriedSlot(e, s.key, d.service), s.idCount;
    if slot in s.tried then s
    else
      s.(idCount := id + 1, info := s.info[id := Restored(d, |s.rnd|).(fInTried := true)], addr := s.addr[d.service.addr := id],
         rnd := s.rnd + [id], nTried := s.nTried + 1, tried := s.tried[slot := id])
  }

  /** A reference from the new table: where it was, if that can be kept, or else where the entry's source puts it. */
  function Placed(e: Env, s: State, restore: bool, bucket: nat, id: int): State
    requires id in s.info
  {
    var i := s.info[id];
    var slot := Slot(bucket, Position(e, s.key, true, bucket, i.service));
    var other := NewSlot(e, s.key, i.service, i.source);
    if i.nRefCount >= NEW_BUCKETS_PER_ADDRESS then s
    else if restore && slot !in s.news then Referenced(s, id, slot)
    else if other !in s.news then Referenced(s, id, other)
    else s
  }

  // ---------------------------------------------------------------- the invariant of reading

  /** vRandom and the positions of the entries in it belong together. */
  ghost predicate Ranked(info: map<int, Info>, rnd: seq<int>, idCount: int) {
    && (forall id | id in info ::
          0 <= id < idCount && 0 <= info[id].nRandomPos < |rnd| && rnd[info[id].nRandomPos] == id)
    && (forall p | 0 <= p < |rnd| :: rnd[p] in info && info[rnd[p]].nRandomPos == p)
  }

  ghost predicate RefsOk(info: map<int, Info>) {
    forall id | id in info ::
      if info[id].fInTried then info[id].nRefCount == 0 else 0 <= info[id].nRefCount <= NEW_BUCKETS_PER_ADDRESS
  }

  /** The entries that are in neither table yet. */
  ghost function Limbo(info: map<int, Info>): set<int> {
    set id | id in info && !info[id].fInTried && info[id].nRefCount == 0
  }

  /** What holds while a file is read, whatever is in it: everything but what depends on its addresses and times. */
  ghost predicate Loading(e: Env, s: State) {
    && s.idCount >= 0
    && Ranked(s.info, s.rnd, s.idCount)
    && RefsOk(s.info)
    && Counted(s.info, {}, s.nTried, s.nNew, |s.rnd|)
    && TriedPlaced(e, s.key, s.info, s.tried)
    && NewPlaced(e, s.key, s.info, s.news)
  }

  /** What depends on the addresses: mapAddr leads from each entry's address back to it, and nowhere else. */
  ghost predicate Addressed(info: map<int, Info>, addr: map<NetAddr, int>) {
    && (forall id | id in info :: info[id].service.addr in addr && addr[info[id].service.addr] == id)
    && (forall a | a in addr :: addr[a] in info && info[addr[a]].service.addr == a)
  }

  ghost predicate TimeOk(i: Info) {
    i.nLastTry >= 0 && i.nLastSuccess >= 0 && (i.fInTried ==> i.nLastSuccess != 0)
  }

  /** The consistency check, taken apart. */
  lemma ConsistentIff(e: Env, s: State)
    ensures Inv(e, s) <==>
      && Loading(e, s) && Limbo(s.info) == {} && s.key != 0
      && Addressed(s.info, s.addr) && forall id | id in s.info :: TimeOk(s.info[id])
  {
    hide TriedPlaced, NewPlaced, Counted;
    if Inv(e, s) {
      forall id ensures id !in Limbo(s.info) {}
    }
    if Loading(e, s) && Limbo(s.info) == {} {
      forall id | id in s.info && !s.info[id].fInTried ensures s.info[id].nRefCount != 0 {
        assert id !in Limbo(s.info);
      }
    }
  }

  // ---------------------------------------------------------------- each step keeps it

  lemma SwappedRanked(s: State, p1: int, p2: int)
    requires Ranked(s.info, s.rnd, s.idCount) && 0 <= p1 < |s.rnd| && 0 <= p2 < |s.rnd|
    ensures s.rnd[p1] in s.info && s.rnd[p2] in s.info
    ensures var t := Swapped(s, p1, p2);
      && Ranked(t.info, t.rnd, s.idCount) && Reordered(s.info, t.info) && |t.rnd| == |s.rnd|
      && t == s.(info := t.info, rnd := t.rnd) && t.rnd[p2] == s.rnd[p1]
  {
    if p1 != p2 {
      var id1, id2 := s.rnd[p1], s.rnd[p2];
      assert id1 != id2;
    }
  }

  lemma LastRanked(info: map<int, Info>, rnd: seq<int>, idCount: int, id: int)
    requires Ranked(info, rnd, idCount) && rnd != [] && rnd[|rnd| - 1] == id
    ensures Ranked(info - {id}, rnd[..|rnd| - 1], idCount)
  {
    var rnd' := rnd[..|rnd| - 1];
    forall j | j in info - {id} ensures 0 <= info[j].nRandomPos < |rnd'| {
      assert rnd[info[j].nRandomPos] == j;
    }
  }

  lemma RankedAt(info: map<int, Info>, rnd: seq<int>, idCount: int, id: int)
    requires Ranked(info, rnd, idCount) && id in info
    ensures 0 <= id < idCount && 0 <= info[id].nRandomPos < |rnd| && rnd[info[id].nRandomPos] == id && rnd[|rnd| - 1] in info
  {
  }

  lemma DroppedRanked(s: State, id: int)
    requires Ranked(s.info, s.rnd, s.idCount) && id in s.info
    ensures Droppable(s, id)
    ensures var d := Dropped(s, id);
      && Ranked(d.info, d.rnd, s.idCount) && Without(s.info, d.info, id) && |d.rnd| == |s.rnd| - 1
      && d == s.(info := d.info, addr := s.addr - {s.info[id].service.addr}, rnd := d.rnd)
  {
    hide Ranked, Swapped, SameButPos;
    RankedAt(s.info, s.rnd, s.idCount, id);
    var p, last := s.info[id].nRandomPos, |s.rnd| - 1;
    SwappedRanked(s, p, last);
    var t := Swapped(s, p, last);
    LastRanked(t.info, t.rnd, s.idCount, id);
  }

  lemma AddedRanked(info: map<int, Info>, rnd: seq<int>, id: int, i: Info)
    requires Ranked(info, rnd, id) && id >= 0 && i.nRandomPos == |rnd|
    ensures id !in info && Ranked(info[id := i], rnd + [id], id + 1)
  {
  }

  lemma TouchedRanked(info: map<int, Info>, rnd: seq<int>, idCount: int, id: int, i: Info)
    requires Ranked(info, rnd, idCount) && id in info && i.nRandomPos == info[id].nRandomPos
    ensures Ranked(info[id := i], rnd, idCount)
  {
  }

  lemma LoadedCounted(info: map<int, Info>, id: int, i: Info, limbo: set<int>, nTried: int, nNew: int, total: nat)
    requires id !in info && i.fInTried && id !in limbo && Counted(info, limbo, nTried, nNew, total)
    ensures Counted(info[id := i], limbo, nTried + 1, nNew, total + 1)
  {
    hide TriedIds, NewIds;
    LoadedSets(info, id, i);
  }

  lemma LoadedSets(info: map<int, Info>, id: int, i: Info)
    requires id !in info && i.fInTried
    ensures id !in TriedIds(info) && TriedIds(info[id := i]) == TriedIds(info) + {id}
    ensures NewIds(info[id := i]) == NewIds(info)
  {
    var info' := info[id := i];
    forall j ensures j in TriedIds(info') <==> j in TriedIds(info) + {id} {}
    forall j ensures j in NewIds(info') <==> j in NewIds(info) {}
  }

  lemma LoadedPlaced(e: Env, key: nat, info: map<int, Info>, tried: map<Slot, int>, id: int, i: Info)
    requires TriedPlaced(e, key, info, tried) && id !in info && i.fInTried && TriedSlot(e, key, i.service) !in tried
    ensures TriedPlaced(e, key, info[id := i], tried[TriedSlot(e, key, i.service) := id])
  {
  }

  lemma AddedCounted(info: map<int, Info>, id: int, i: Info, nTried: int, nNew: int, total: nat)
    requires id !in info && !i.fInTried && Counted(info, {}, nTried, nNew, total)
    ensures Counted(info[id := i], {}, nTried, nNew + 1, total + 1)
  {
    hide TriedIds, NewIds;
    AddedSets(info, id, i);
    assert NewIds(info) - {} == NewIds(info) && NewIds(info[id := i]) - {} == NewIds(info[id := i]);
  }

  lemma AddedSets(info: map<int, Info>, id: int, i: Info)
    requires id !in info && !i.fInTried
    ensures id !in NewIds(info) && NewIds(info[id := i]) == NewIds(info) + {id}
    ensures TriedIds(info[id := i]) == TriedIds(info)
  {
    var info' := info[id := i];
    forall j ensures j in NewIds(info') <==> j in NewIds(info) + {id} {}
    forall j ensures j in TriedIds(info') <==> j in TriedIds(info) {}
  }

  lemma RemovedCounted(info: map<int, Info>, info': map<int, Info>, id: int, nTried: int, nNew: int, total: nat)
    requires Without(info, info', id) && id in info && total > 0 && Counted(info, {}, nTried, nNew, total)
    ensures if info[id].fInTried then Counted(info', {}, nTried - 1, nNew, total - 1)
            else Counted(info', {}, nTried, nNew - 1, total - 1)
  {
    var gone: set<int> := {id};
    forall j ensures j in TriedIds(info') <==> j in TriedIds(info) - gone {}
    forall j ensures j in NewIds(info') - {} <==> j in NewIds(info) - {} - gone {}
    assert TriedIds(info') == TriedIds(info) - gone;
    assert NewIds(info') - {} == NewIds(info) - {} - gone;
    assert id in (if info[id].fInTried then TriedIds(info) else NewIds(info) - {});
  }

  lemma RemovedTried(e: Env, key: nat, info: map<int, Info>, info': map<int, Info>, tried: map<Slot, int>, slot: Slot)
    requires TriedPlaced(e, key, info, tried) && slot in tried && Without(info, info', tried[slot])
    ensures TriedPlaced(e, key, info', tried - {slot})
  {
    var id := tried[slot];
    forall u | u in tried - {slot} ensures tried[u] in info' && SameButPos(info'[tried[u]], info[tried[u]]) {
      var j := tried[u];
      assert j in info && j != id;
    }
  }

  lemma RemovedNew(e: Env, key: nat, info: map<int, Info>, info': map<int, Info>, news: map<Slot, int>, id: int)
    requires NewPlaced(e, key, info, news) && id in info && info[id].fInTried && Without(info, info', id)
    ensures NewPlaced(e, key, info', news)
  {
    forall u | u in news ensures news[u] in info' && SameButPos(info'[news[u]], info[news[u]]) {
      var j := news[u];
      assert j in info && j != id;
    }
  }

  lemma RemovedRefs(info: map<int, Info>, info': map<int, Info>, id: int)
    requires Without(info, info', id) && RefsOk(info)
    ensures RefsOk(info')
  {
  }

  lemma ClearedLoading(e: Env, key: nat)
    ensures Loading(e, Cleared(key, {}))
  {
    var info: map<int, Info> := map[];
    assert TriedIds(info) == {} && NewIds(info) - {} == {};
  }

  lemma LoadedNewKeeps(e: Env, s: State, d: Saved)
    requires Loading(e, s)
    ensures s.idCount !in s.info && Loading(e, LoadedNew(s, d))
  {
    hide Ranked, Counted, TriedPlaced, NewPlaced;
    var id, i := s.idCount, Restored(d, |s.rnd|);
    AddedRanked(s.info, s.rnd, id, i);
    AddedCounted(s.info, id, i, s.nTried, s.nNew, |s.rnd|);
    TouchedTried(e, s.key, s.info, s.tried, id, i);
    CreatedNew(e, s.key, s.info, s.news, id, i);
  }

  lemma LoadedTriedKeeps(e: Env, s: State, d: Saved)
    requires Loading(e, s)
    ensures s.idCount !in s.info && Loading(e, LoadedTried(e, s, d))
  {
    hide Ranked, Counted, TriedPlaced, NewPlaced;
    var slot, id, i := TriedSlot(e, s.key, d.service), s.idCount, Restored(d, |s.rnd|).(fInTried := true);
    AddedRanked(s.info, s.rnd, id, i);
    if slot !in s.tried {
      LoadedCounted(s.info, id, i, {}, s.nTried, s.nNew, |s.rnd|);
      LoadedPlaced(e, s.key, s.info, s.tried, id, i);
      CreatedNew(e, s.key, s.info, s.news, id, i);
    }
  }

  lemma ReferencedLoading(e: Env, s: State, id: int, slot: Slot)
    requires Loading(e, s) && id in s.info && !s.info[id].fInTried && s.info[id].nRefCount < NEW_BUCKETS_PER_ADDRESS
    requires slot !in s.news && Fits(e, s.key, slot, s.info[id].service)
    ensures Loading(e, Referenced(s, id, slot))
  {
    hide Ranked, TriedPlaced, NewPlaced, TriedIds, NewIds;
    var i := Referenced(s, id, slot).info[id];
    TouchedRanked(s.info, s.rnd, s.idCount, id, i);
    TouchedCounted(s.info, id, i);
    TouchedTried(e, s.key, s.info, s.tried, id, i);
    ReferencedNew(e, s.key, s.info, s.news, slot, id, i);
  }

  lemma PlacedKeeps(e: Env, s: State, restore: bool, bucket: nat, id: int)
    requires Loading(e, s) && id in s.info && !s.info[id].fInTried && (restore ==> bucket < NEW_BUCKETS)
    ensures Loading(e, Placed(e, s, restore, bucket, id))
  {
    hide Loading;
    var i := s.info[id];
    var slot := Slot(bucket, Position(e, s.key, true, bucket, i.service));
    var other := NewSlot(e, s.key, i.service, i.source);
    if i.nRefCount < NEW_BUCKETS_PER_ADDRESS {
      if restore && slot !in s.news {
        ReferencedLoading(e, s, id, slot);
      } else if other !in s.news {
        ReferencedLoading(e, s, id, other);
      }
    }
  }

  /** Deleting an entry that has no place, or no longer one. */
  lemma DeletedLoading(e: Env, s: State, id: int)
    requires Loading(e, s) && id in Limbo(s.info)
    ensures Droppable(s, id)
    ensures var s' := Deleted(s, id);
      && Loading(e, s') && Without(s.info, s'.info, id) && Limbo(s'.info) == Limbo(s.info) - {id}
      && s' == s.(info := s'.info, addr := s.addr - {s.info[id].service.addr}, rnd := s'.rnd, nNew := s.nNew - 1)
  {
    hide Ranked, RefsOk, Counted, TriedPlaced, NewPlaced, Dropped, SameButPos;
    DroppedRanked(s, id);
    RankedAt(s.info, s.rnd, s.idCount, id);
    var info' := Deleted(s, id).info;
    RemovedRefs(s.info, info', id);
    RemovedCounted(s.info, info', id, s.nTried, s.nNew, |s.rnd|);
    DroppedTried(e, s.key, s.info, info', s.tried, id);
    DroppedNew(e, s.key, s.info, info', s.news, id);
    LimboWithout(s.info, info', id);
  }

  lemma LimboWithout(info: map<int, Info>, info': map<int, Info>, id: int)
    requires Without(info, info', id)
    ensures Limbo(info') == Limbo(info) - {id}
  {
    forall j ensures j in Limbo(info') <==> j in Limbo(info) - {id} {}
  }

  // ---------------------------------------------------------------- what becomes of mapAddr

  ghost predicate Whole(all: map<int, Info>, info: map<int, Info>, a: NetAddr) {
    forall id | id in all && all[id].service.addr == a :: id in info
  }

  /** Of all entries read, some have been removed.  Each removal took the entry's address out of mapAddr, so what is
      left there are the addresses none of whose entries have been removed; each leads to one of its entries. */
  ghost predicate Latest(all: map<int, Info>, info: map<int, Info>, addr: map<NetAddr, int>) {
    && (forall id | id in info :: id in all && info[id].service == all[id].service)
    && (forall a | a in addr :: addr[a] in all && all[addr[a]].service.addr == a && Whole(all, info, a))
    && (forall id | id in all && Whole(all, info, all[id].service.addr) :: all[id].service.addr in addr)
  }

  /** No other of the entries read has its address. */
  ghost predicate Alone(all: map<int, Info>, id: int)
    requires id in all
  {
    forall j | j in all && j != id :: all[j].service.addr != all[id].service.addr
  }

  lemma LatestAdded(info: map<int, Info>, addr: map<NetAddr, int>, id: int, i: Info)
    requires Latest(info, info, addr) && id !in info
    ensures Latest(info[id := i], info[id := i], addr[i.service.addr := id])
  {
  }

  lemma LatestTouched(info: map<int, Info>, info': map<int, Info>, addr: map<NetAddr, int>)
    requires Latest(info, info, addr) && info'.Keys == info.Keys
    requires forall id | id in info :: info'[id].service == info[id].service
    ensures Latest(info', info', addr)
  {
    forall id ensures id in info <==> id in info' {
      assert id in info.Keys <==> id in info'.Keys;
    }
    forall a | a in addr ensures addr[a] in info' && info'[addr[a]].service.addr == a && Whole(info', info', a) {
      var id := addr[a];
      assert id in info && info'[id].service == info[id].service;
    }
  }

  lemma LatestRemoved(all: map<int, Info>, info: map<int, Info>, info': map<int, Info>, addr: map<NetAddr, int>, id: int)
    requires Latest(all, info, addr) && id in info && Without(info, info', id)
    ensures Latest(all, info', addr - {info[id].service.addr})
  {
    var addr' := addr - {info[id].service.addr};
    forall a | a in addr' ensures Whole(all, info', a) {
      assert Whole(all, info, a);
    }
    forall j | j in all && Whole(all, info', all[j].service.addr) ensures all[j].service.addr in addr' {
      assert Whole(all, info, all[j].service.addr);
      assert id in all && id !in info';
    }
  }

  /** An entry still referenced, but no more than that, is as much there as before. */
  lemma LatestKept(all: map<int, Info>, info: map<int, Info>, addr: map<NetAddr, int>, id: int, i: Info)
    requires Latest(all, info, addr) && id in info && i.service == info[id].service
    ensures Latest(all, info[id := i], addr)
  {
    forall a | Whole(all, info, a) ensures Whole(all, info[id := i], a) {}
    forall a | Whole(all, info[id := i], a) ensures Whole(all, info, a) {}
  }

  /** With all entries in their places, the check passes exactly if the times are right and no entry that is left had
      to share its address with another that was read. */
  lemma ConsistentFrom(e: Env, all: map<int, Info>, s: State)
    requires Loading(e, s) && Limbo(s.info) == {} && Latest(all, s.info, s.addr)
    ensures Inv(e, s) <==> s.key != 0 && forall id | id in s.info :: TimeOk(s.info[id]) && id in all && Alone(all, id)
  {
    hide Inv, Loading, Limbo;
    ConsistentIff(e, s);
    if Addressed(s.info, s.addr) {
      forall id | id in s.info ensures id in all && Alone(all, id) {
        var a := s.info[id].service.addr;
        assert Whole(all, s.info, a);
      }
    }
    if forall id | id in s.info :: id in all && Alone(all, id) {
      forall id | id in s.info ensures s.info[id].service.addr in s.addr && s.addr[s.info[id].service.addr] == id {
        assert Whole(all, s.info, all[id].service.addr);
      }
      forall a | a in s.addr ensures s.addr[a] in s.info && s.info[s.addr[a]].service.addr == a {
        var id := s.addr[a];
        assert id in all && all[id].service.addr == a && Whole(all, s.info, a);
        assert id in s.info;
      }
    }
  }

  // ---------------------------------------------------------------- a whole file

  function LoadNews(s: State, ds: seq<Saved>): State {
    if ds == [] then s else LoadedNew(LoadNews(s, ds[..|ds| - 1]), ds[|ds| - 1])
  }

  function LoadTrieds(e: Env, s: State, ds: seq<Saved>): State {
    if ds == [] then s else LoadedTried(e, LoadTrieds(e, s, ds[..|ds| - 1]), ds[|ds| - 1])
  }

  /** The references of one bucket that name an entry of the new table. */
  function BucketEntries(bucket: nat, list: seq<int>, nNew: nat): seq<(nat, int)> {
    if list == [] then []
    else
      var last := list[|list| - 1];
      BucketEntries(bucket, list[..|list| - 1], nNew) + if 0 <= last < nNew then [(bucket, last)] else []
  }

  function Entries(buckets: seq<seq<int>>, nNew: nat): seq<(nat, int)> {
    if buckets == [] then []
    else Entries(buckets[..|buckets| - 1], nNew) + BucketEntries(|buckets| - 1, buckets[|buckets| - 1], nNew)
  }

  function PlaceAll(e: Env, s: State, restore: bool, entries: seq<(nat, int)>): State {
    if entries == [] then s
    else
      var s1 := PlaceAll(e, s, restore, entries[..|entries| - 1]);
      var (bucket, id) := entries[|entries| - 1];
      if id in s1.info then Placed(e, s1, restore, bucket, id) else s1
  }

  /** Entries without a place are deleted, in some order. */
  ghost function Pruned(s: State, order: seq<int>): State {
    if order == [] then s
    else
      var s1, id := Pruned(s, order[..|order| - 1]), order[|order| - 1];
      if id in Limbo(s1.info) && Droppable(s1, id) then Deleted(s1, id) else s1
  }

  /** No address is repeated. */
  predicate Apart(ds: seq<Saved>) { forall i, j | 0 <= i < j < |ds| :: ds[i].service.addr != ds[j].service.addr }

  /** A file whose addresses are all different and whose tried entries have been connected to. */
  ghost predicate Readable(f: DiskFile) {
    var ds := f.news + f.tried;
    && f.key != 0
    && Apart(ds)
    && (forall i | 0 <= i < |f.news| :: f.news[i].nLastSuccess >= 0)
    && (forall i | 0 <= i < |f.tried| :: f.tried[i].nLastSuccess > 0)
  }

  function Restores(f: DiskFile, asmap: nat): bool {
    |f.buckets| == NEW_BUCKETS && f.asmap == asmap
  }

  /** Both tables filled, before entries without a place are dropped. */
  function Filled(e: Env, f: DiskFile, asmap: nat): State {
    var s := LoadTrieds(e, LoadNews(Cleared(f.key, {}), f.news), f.tried);
    PlaceAll(e, s, Restores(f, asmap), Entries(f.buckets, |f.news|))
  }

  lemma {:induction false} LoadNewsKeeps(e: Env, key: nat, ds: seq<Saved>)
    ensures var s := LoadNews(Cleared(key, {}), ds);
      && Loading(e, s) && Latest(s.info, s.info, s.addr) && s.idCount == |ds| && s.key == key
      && forall id | 0 <= id < |ds| :: id in s.info && !s.info[id].fInTried
  {
    hide Loading, Latest;
    if ds == [] {
      ClearedLoading(e, key);
      LatestNothing();
    } else {
      var n := |ds| - 1;
      LoadNewsKeeps(e, key, ds[..n]);
      var s := LoadNews(Cleared(key, {}), ds[..n]);
      LoadedNewKeeps(e, s, ds[n]);
      LatestAdded(s.info, s.addr, s.idCount, Restored(ds[n], |s.rnd|));
    }
  }

  lemma LatestNothing()
    ensures Latest(map[], map[], map[])
  {
  }

  lemma {:induction false} LoadTriedsKeeps(e: Env, s: State, ds: seq<Saved>)
    requires Loading(e, s) && Latest(s.info, s.info, s.addr)
    ensures var s' := LoadTrieds(e, s, ds);
      && Loading(e, s') && Latest(s'.info, s'.info, s'.addr) && s'.key == s.key
      && (forall id | id in s.info :: id in s'.info && s'.info[id] == s.info[id])
  {
    hide Loading, Latest, TriedSlot;
    if ds != [] {
      var n := |ds| - 1;
      LoadTriedsKeeps(e, s, ds[..n]);
      var s1 := LoadTrieds(e, s, ds[..n]);
      LoadedTriedKeeps(e, s1, ds[n]);
      LatestAdded(s1.info, s1.addr, s1.idCount, Restored(ds[n], |s1.rnd|).(fInTried := true));
    }
  }

  lemma {:induction false} PlaceAllKeeps(e: Env, s: State, restore: bool, entries: seq<(nat, int)>, nNew: nat)
    requires Loading(e, s) && (forall id | 0 <= id < nNew :: id in s.info && !s.info[id].fInTried)
    requires forall k | 0 <= k < |entries| :: 0 <= entries[k].1 < nNew && (restore ==> entries[k].0 < NEW_BUCKETS)
    ensures var s' := PlaceAll(e, s, restore, entries);
      Loading(e, s') && s'.key == s.key && forall id | 0 <= id < nNew :: id in s'.info && !s'.info[id].fInTried
  {
    hide Loading;
    if entries != [] {
      var n := |entries| - 1;
      PlaceAllKeeps(e, s, restore, entries[..n], nNew);
      PlacedKeeps(e, PlaceAll(e, s, restore, entries[..n]), restore, entries[n].0, entries[n].1);
    }
  }

  lemma {:induction false} PlacingKeeps(e: Env, s: State, restore: bool, entries: seq<(nat, int)>)
    ensures var s' := PlaceAll(e, s, restore, entries);
      && s' == s.(info := s'.info, news := s'.news) && s'.info.Keys == s.info.Keys
      && forall k | k in s.info :: k in s'.info && s'.info[k] == s.info[k].(nRefCount := s'.info[k].nRefCount)
  {
    hide Placed;
    if entries != [] {
      var n := |entries| - 1;
      PlacingKeeps(e, s, restore, entries[..n]);
      var s1, id := PlaceAll(e, s, restore, entries[..n]), entries[n].1;
      if id in s1.info { PlacedOnly(e, s1, restore, entries[n].0, id); }
    }
  }

  lemma PlacedOnly(e: Env, s: State, restore: bool, bucket: nat, id: int)
    requires id in s.info
    ensures var s' := Placed(e, s, restore, bucket, id);
      && s' == s.(info := s'.info, news := s'.news) && s'.info.Keys == s.info.Keys
      && forall k | k in s.info :: s'.info[k] == s.info[k].(nRefCount := s'.info[k].nRefCount)
  {
    hide NewSlot, Position;
  }

  lemma {:induction false} BucketEntriesOk(bucket: nat, list: seq<int>, nNew: nat)
    ensures forall k | 0 <= k < |BucketEntries(bucket, list, nNew)| ::
      BucketEntries(bucket, list, nNew)[k].0 == bucket && 0 <= BucketEntries(bucket, list, nNew)[k].1 < nNew
  {
    if list != [] { BucketEntriesOk(bucket, list[..|list| - 1], nNew); }
  }

  lemma {:induction false} EntriesOkFor(buckets: seq<seq<int>>, nNew: nat)
    ensures forall k | 0 <= k < |Entries(buckets, nNew)| ::
      Entries(buckets, nNew)[k].0 < |buckets| && 0 <= Entries(buckets, nNew)[k].1 < nNew
  {
    if buckets != [] {
      EntriesOkFor(buckets[..|buckets| - 1], nNew);
      BucketEntriesOk(|buckets| - 1, buckets[|buckets| - 1], nNew);
    }
  }

  /** Whatever is still there is as it was, up to positions. */
  ghost predicate Part(info: map<int, Info>, info': map<int, Info>) {
    forall id | id in info' :: id in info && SameButPos(info'[id], info[id])
  }

  /** Pruning deletes the entries without a place that it visits, and nothing else. */
  lemma {:induction false} PrunedKeeps(e: Env, all: map<int, Info>, s: State, order: seq<int>)
    requires Loading(e, s) && Latest(all, s.info, s.addr)
    ensures var s' := Pruned(s, order);
      && Loading(e, s') && Latest(all, s'.info, s'.addr) && s'.key == s.key
      && KeepsAllBut(s.info, s'.info, Limbo(s.info)) && Limbo(s'.info) <= Limbo(s.info) && Part(s.info, s'.info)
      && forall k | 0 <= k < |order| :: order[k] !in Limbo(s'.info)
  {
    hide Loading, Latest, Limbo, Deleted, SameButPos, Part;
    if order == [] {
      SameAll(s.info);
    } else {
      var n := |order| - 1;
      PrunedKeeps(e, all, s, order[..n]);
      var s1, id := Pruned(s, order[..n]), order[n];
      if id in Limbo(s1.info) {
        DeletedLoading(e, s1, id);
        LimboIn(s1.info, id);
        LatestRemoved(all, s1.info, Deleted(s1, id).info, s1.addr, id);
        KeptChain(s.info, s1.info, Deleted(s1, id).info, Limbo(s.info), id);
      }
      forall k | 0 <= k < |order| ensures order[k] !in Limbo(Pruned(s, order).info) {
        if k < n { assert order[..n][k] == order[k]; }
      }
    }
  }

  lemma SameAll(info: map<int, Info>)
    ensures (forall id | id in info :: SameButPos(info[id], info[id])) && Part(info, info)
  {
  }

  lemma LimboIn(info: map<int, Info>, id: int)
    requires id in Limbo(info)
    ensures id in info && !info[id].fInTried && info[id].nRefCount == 0
  {
  }

  lemma KeptChain(info: map<int, Info>, info1: map<int, Info>, info2: map<int, Info>, except: set<int>, id: int)
    requires KeepsAllBut(info, info1, except) && Part(info, info1) && Without(info1, info2, id) && id in except
    ensures KeepsAllBut(info, info2, except) && Part(info, info2)
  {
  }

  /** With a place for every entry nothing is deleted. */
  lemma {:induction false} PrunedNothing(s: State, order: seq<int>)
    requires Limbo(s.info) == {}
    ensures Pruned(s, order) == s
  {
    hide Limbo;
    if order != [] { PrunedNothing(s, order[..|order| - 1]); }
  }

  /** What the steps of reading a file need of each other. */
  lemma FilledSteps(e: Env, f: DiskFile, asmap: nat)
    ensures var s, entries := LoadTrieds(e, LoadNews(Cleared(f.key, {}), f.news), f.tried), Entries(f.buckets, |f.news|);
      && Loading(e, s)
      && (forall id | 0 <= id < |f.news| :: id in s.info && !s.info[id].fInTried)
      && forall k | 0 <= k < |entries| ::
           0 <= entries[k].1 < |f.news| && entries[k].1 in s.info && (Restores(f, asmap) ==> entries[k].0 < NEW_BUCKETS)
    ensures var s := Filled(e, f, asmap); Loading(e, s) && Latest(s.info, s.info, s.addr) && s.key == f.key
  {
    hide Loading, Latest, LoadNews, LoadTrieds, PlaceAll, Entries;
    LoadNewsKeeps(e, f.key, f.news);
    var s1 := LoadNews(Cleared(f.key, {}), f.news);
    LoadTriedsKeeps(e, s1, f.tried);
    var s := LoadTrieds(e, s1, f.tried);
    EntriesOkFor(f.buckets, |f.news|);
    PlaceAllKeeps(e, s, Restores(f, asmap), Entries(f.buckets, |f.news|), |f.news|);
    PlacingKeeps(e, s, Restores(f, asmap), Entries(f.buckets, |f.news|));
    LatestTouched(s.info, Filled(e, f, asmap).info, s.addr);
  }
}
