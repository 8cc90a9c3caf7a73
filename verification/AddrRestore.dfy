/** Reading back what was written restores the address manager, up to the numbering of its entries. */
module AddrRestore {
  import opened AddrState
  import opened AddrSteps
  import opened AddrOps
  import opened AddrDisk

  ghost predicate DistinctIds(ids: seq<int>) {
    forall i, j | 0 <= i < j < |ids| :: ids[i] != ids[j]
  }

  /** `ids` lists every entry once: the order in which mapInfo is traversed. */
  ghost predicate Enumerates(ids: seq<int>, info: map<int, Info>) {
    Listed(info, ids) && DistinctIds(ids) && forall id | id in info :: exists k :: 0 <= k < |ids| && ids[k] == id
  }

  /** The file written when entries are traversed in a given order. */
  ghost function Serialized(s: State, order: seq<int>, asmap: nat): DiskFile
    requires Listed(s.info, order)
    requires forall slot | slot in s.news :: s.news[slot] in Chosen(s.info, order, false)
  {
    ChosenKnown(s.info, order, false);
    ChosenKnown(s.info, order, true);
    var news := Chosen(s.info, order, false);
    DiskFile(s.key, SaveAll(s.info, news), SaveAll(s.info, Chosen(s.info, order, true)),
         seq(NEW_BUCKETS, b requires 0 <= b < NEW_BUCKETS => BucketList(s.news, news, b, BUCKET_SIZE)), asmap)
  }

  lemma {:induction false} ChosenKnown(info: map<int, Info>, order: seq<int>, tried: bool)
    requires Listed(info, order)
    ensures Listed(info, Chosen(info, order, tried))
  {
    if order != [] { ChosenKnown(info, order[..|order| - 1], tried); }
  }

  predicate Picked(info: map<int, Info>, id: int, tried: bool) {
    id in info && if tried then info[id].fInTried else info[id].nRefCount != 0
  }

  /** Exactly the picked ids are chosen, each once. */
  lemma {:induction false} ChosenIs(info: map<int, Info>, order: seq<int>, tried: bool)
    requires Listed(info, order) && DistinctIds(order)
    ensures var c := Chosen(info, order, tried);
      && DistinctIds(c) && Listed(info, c)
      && (forall k | 0 <= k < |c| :: Picked(info, c[k], tried) && c[k] in order)
      && (forall i | 0 <= i < |order| && Picked(info, order[i], tried) :: order[i] in c)
  {
    ChosenKnown(info, order, tried);
    if order != [] {
      hide DistinctIds, Listed, Picked;
      var n := |order| - 1;
      DistinctFront(order);
      ListedFront(info, order);
      ChosenIs(info, order[..n], tried);
      ChosenMore(info, order, tried);
    }
  }

  lemma DistinctFront(order: seq<int>)
    requires DistinctIds(order) && order != []
    ensures DistinctIds(order[..|order| - 1]) && order[|order| - 1] !in order[..|order| - 1]
  {
  }

  lemma ListedFront(info: map<int, Info>, order: seq<int>)
    requires Listed(info, order) && order != []
    ensures Listed(info, order[..|order| - 1])
  {
  }

  lemma ChosenMore(info: map<int, Info>, order: seq<int>, tried: bool)
    requires order != [] && Listed(info, order) && DistinctIds(order) && Listed(info, order[..|order| - 1])
    requires var c, front := Chosen(info, order[..|order| - 1], tried), order[..|order| - 1];
      && DistinctIds(c) && (forall k | 0 <= k < |c| :: Picked(info, c[k], tried) && c[k] in front)
      && (forall i | 0 <= i < |front| && Picked(info, front[i], tried) :: front[i] in c)
    ensures var c := Chosen(info, order, tried);
      && DistinctIds(c) && (forall k | 0 <= k < |c| :: Picked(info, c[k], tried) && c[k] in order)
      && (forall i | 0 <= i < |order| && Picked(info, order[i], tried) :: order[i] in c)
  {
    var n := |order| - 1;
    var front, c := order[..n], Chosen(info, order[..n], tried);
    DistinctFront(order);
    assert order == front + [order[n]];
    forall i | 0 <= i < |order| && Picked(info, order[i], tried) ensures order[i] in Chosen(info, order, tried) {
      if i < n { assert front[i] == order[i]; }
    }
  }

  /** The ids of the file's entries, in the order of their new numbers. */
  ghost function Numbering(info: map<int, Info>, order: seq<int>): seq<int>
    requires Listed(info, order)
  {
    Chosen(info, order, false) + Chosen(info, order, true)
  }

  ghost predicate Separate(info: map<int, Info>) {
    forall id | id in info :: info[id].fInTried <==> info[id].nRefCount == 0
  }

  lemma InvSeparate(e: Env, s: State)
    requires Inv(e, s)
    ensures Separate(s.info)
  {
    hide Inv;
    forall id | id in s.info ensures s.info[id].fInTried <==> s.info[id].nRefCount == 0 { EntryOk(e, s, id); }
  }

  lemma ListsDiffer(info: map<int, Info>, order: seq<int>)
    requires Separate(info) && Listed(info, order) && DistinctIds(order)
    ensures DistinctIds(Numbering(info, order)) && Listed(info, Numbering(info, order))
  {
    hide Chosen;
    var a, b := Chosen(info, order, false), Chosen(info, order, true);
    ChosenIs(info, order, false);
    ChosenIs(info, order, true);
    var ids := a + b;
    forall i, j | 0 <= i < j < |ids| ensures ids[i] != ids[j] {
      if i < |a| <= j { assert Picked(info, a[i], false) && Picked(info, b[j - |a|], true); }
    }
  }

  lemma ListedWhere(info: map<int, Info>, order: seq<int>, id: int) returns (k: nat)
    requires Separate(info) && Enumerates(order, info) && id in info
    ensures var a := Chosen(info, order, false); var ids := Numbering(info, order);
      k < |ids| && ids[k] == id && (k < |a| <==> !info[id].fInTried) && (!info[id].fInTried ==> id in a)
  {
    hide Chosen;
    var a, b := Chosen(info, order, false), Chosen(info, order, true);
    ChosenIs(info, order, false);
    ChosenIs(info, order, true);
    var i :| 0 <= i < |order| && order[i] == id;
    assert Picked(info, order[i], info[id].fInTried);
    if info[id].fInTried {
      var j :| 0 <= j < |b| && b[j] == id;
      k := |a| + j;
    } else {
      k :| 0 <= k < |a| && a[k] == id;
    }
  }

  /** In a consistent state every entry is in exactly one of the two lists. */
  lemma NumberingEnumerates(e: Env, s: State, order: seq<int>)
    requires Inv(e, s) && Enumerates(order, s.info)
    ensures Enumerates(Numbering(s.info, order), s.info)
    ensures forall slot | slot in s.news :: s.news[slot] in Chosen(s.info, order, false)
  {
    hide Chosen, Inv, Separate, DistinctIds, Numbering;
    InvSeparate(e, s);
    ListsDiffer(s.info, order);
    var ids := Numbering(s.info, order);
    forall id | id in s.info ensures exists k :: 0 <= k < |ids| && ids[k] == id {
      var k := ListedWhere(s.info, order, id);
    }
    forall slot | slot in s.news ensures s.news[slot] in Chosen(s.info, order, false) {
      NewHolderOf(e, s, slot);
      var k := ListedWhere(s.info, order, s.news[slot]);
    }
  }

  lemma NewHolderOf(e: Env, s: State, slot: Slot)
    requires Inv(e, s) && slot in s.news
    ensures s.news[slot] in s.info && !s.info[s.news[slot]].fInTried && Fits(e, s.key, slot, s.info[s.news[slot]].service)
  {
  }

  // ---------------------------------------------------------------- what has been read so far

  /** An entry as it comes back: what is kept in memory only starts afresh. */
  ghost function Renewed(i: Info, k: int, nRefCount: int): Info {
    i.(nLastTry := 0, nLastCountAttempt := 0, nRandomPos := k, nRefCount := nRefCount)
  }

  /** The first n entries are those of `ids`. */
  ghost predicate SameEntries(info: map<int, Info>, ids: seq<int>, r: map<int, Info>, n: nat)
    requires n <= |ids| && Listed(info, ids)
  {
    && (forall k | k in r :: 0 <= k < n)
    && (forall k | 0 <= k < n :: k in r && r[k] == Renewed(info[ids[k]], k, r[k].nRefCount))
  }

  ghost predicate SameTried(tried: map<Slot, int>, ids: seq<int>, r: map<Slot, int>, n: nat)
    requires n <= |ids|
  {
    && (forall slot | slot in r :: slot in tried && 0 <= r[slot] < n && ids[r[slot]] == tried[slot])
    && (forall slot, k | slot in tried && 0 <= k < n && ids[k] == tried[slot] :: slot in r)
  }

  ghost predicate SameNews(news: map<Slot, int>, ids: seq<int>, r: map<Slot, int>, done: set<Slot>) {
    && r.Keys == done && (forall slot | slot in r :: slot in news && 0 <= r[slot] < |ids| && ids[r[slot]] == news[slot])
  }

  ghost predicate Partial(s: State, r: State, ids: seq<int>, n: nat, done: set<Slot>)
    requires n <= |ids| && Listed(s.info, ids)
  {
    && r.key == s.key && r.idCount == n && |r.rnd| == n && r.lastGood == 1 && r.collisions == {}
    && SameEntries(s.info, ids, r.info, n) && SameTried(s.tried, ids, r.tried, n) && SameNews(s.news, ids, r.news, done)
  }

  lemma PartialStart(s: State, ids: seq<int>)
    requires Listed(s.info, ids)
    ensures Partial(s, Cleared(s.key, {}), ids, 0, {})
  {
  }

  lemma PartialNew(e: Env, s: State, r: State, ids: seq<int>, n: nat)
    requires Inv(e, s) && Listed(s.info, ids) && n < |ids| && Partial(s, r, ids, n, {}) && !s.info[ids[n]].fInTried
    ensures Partial(s, LoadedNew(r, Save(s.info[ids[n]])), ids, n + 1, {})
  {
    hide Indexed, EntriesOk, Counted, NewPlaced;
    var r' := LoadedNew(r, Save(s.info[ids[n]]));
    assert r'.info[n] == Renewed(s.info[ids[n]], n, r'.info[n].nRefCount);
    forall slot | slot in s.tried && ids[n] == s.tried[slot] ensures false { TriedHolder(e, s, slot); }
  }

  lemma TriedHolder(e: Env, s: State, slot: Slot)
    requires Inv(e, s) && slot in s.tried
    ensures s.tried[slot] in s.info && s.info[s.tried[slot]].fInTried && slot == TriedSlot(e, s.key, s.info[s.tried[slot]].service)
  {
  }

  lemma TriedPlace(e: Env, s: State, id: int)
    requires Inv(e, s) && id in s.info && s.info[id].fInTried
    ensures var slot := TriedSlot(e, s.key, s.info[id].service); slot in s.tried && s.tried[slot] == id
  {
  }

  /** No tried entry is lost: its slot is free when its turn comes. */
  lemma PartialTried(e: Env, s: State, r: State, ids: seq<int>, n: nat)
    requires Inv(e, s) && Listed(s.info, ids) && DistinctIds(ids) && n < |ids| && Partial(s, r, ids, n, {}) && s.info[ids[n]].fInTried
    ensures Partial(s, LoadedTried(e, r, Save(s.info[ids[n]])), ids, n + 1, {})
  {
    hide Inv, DistinctIds;
    var i := s.info[ids[n]];
    var r' := LoadedTried(e, r, Save(i));
    var slot := TriedSlot(e, s.key, i.service);
    TriedPlace(e, s, ids[n]);
    assert slot !in r.tried by {
      if slot in r.tried { Differ(ids, r.tried[slot], n); }
    }
    EntryZero(e, s, ids[n]);
    assert r'.info[n] == Renewed(i, n, r'.info[n].nRefCount);
    forall t | t in s.tried && ids[n] == s.tried[t] ensures t == slot { TriedHolder(e, s, t); }
  }

  lemma EntryZero(e: Env, s: State, id: int)
    requires Inv(e, s) && id in s.info && s.info[id].fInTried
    ensures s.info[id].nRefCount == 0
  {
    EntryOk(e, s, id);
  }

  lemma Differ(ids: seq<int>, i: nat, j: nat)
    requires DistinctIds(ids) && i < j < |ids|
    ensures ids[i] != ids[j]
  {
  }

  lemma {:induction false} NewsRead(e: Env, s: State, ids: seq<int>, ds: seq<Saved>)
    requires Inv(e, s) && Listed(s.info, ids) && |ds| <= |ids|
    requires forall k | 0 <= k < |ds| :: !s.info[ids[k]].fInTried && ds[k] == Save(s.info[ids[k]])
    ensures Partial(s, LoadNews(Cleared(s.key, {}), ds), ids, |ds|, {})
    decreases |ds|
  {
    hide Inv, Partial, LoadedNew;
    if ds == [] {
      PartialStart(s, ids);
    } else {
      var n := |ds| - 1;
      NewsRead(e, s, ids, ds[..n]);
      PartialNew(e, s, LoadNews(Cleared(s.key, {}), ds[..n]), ids, n);
    }
  }

  lemma {:induction false} TriedsRead(e: Env, s: State, ids: seq<int>, r: State, m: nat, ds: seq<Saved>)
    requires Inv(e, s) && Listed(s.info, ids) && DistinctIds(ids) && m + |ds| <= |ids| && Partial(s, r, ids, m, {})
    requires forall k | m <= k < m + |ds| :: s.info[ids[k]].fInTried && ds[k - m] == Save(s.info[ids[k]])
    ensures Partial(s, LoadTrieds(e, r, ds), ids, m + |ds|, {})
    decreases |ds|
  {
    hide Inv, Partial, LoadedTried;
    if ds != [] {
      var n := |ds| - 1;
      TriedsRead(e, s, ids, r, m, ds[..n]);
      PartialTried(e, s, LoadTrieds(e, r, ds[..n]), ids, m + n);
    }
  }

  // ---------------------------------------------------------------- the new table

  /** The slots before a given one, by bucket and then position. */
  ghost function Before(news: map<Slot, int>, bucket: nat, pos: nat): set<Slot> {
    set slot | slot in news && (slot.bucket < bucket || (slot.bucket == bucket && slot.pos < pos))
  }

  /** An entry that has not all its references back yet has room for one more. */
  lemma Room(news: map<Slot, int>, ids: seq<int>, r: map<Slot, int>, done: set<Slot>, slot: Slot, k: nat)
    requires SameNews(news, ids, r, done) && slot in news && slot !in done && k < |ids| && ids[k] == news[slot]
    ensures |Slots(r, k)| < |Slots(news, ids[k])|
  {
    var a, b := Slots(r, k), Slots(news, ids[k]);
    assert a <= b - {slot};
    SubsetSize(a, b - {slot});
  }

  lemma {:induction false} SubsetSize<T>(a: set<T>, b: set<T>)
    requires a <= b
    ensures |a| <= |b|
    decreases a
  {
    if a != {} {
      var x :| x in a;
      SubsetSize(a - {x}, b - {x});
    }
  }

  lemma RefCountIs(e: Env, r: State, id: int)
    requires Loading(e, r) && id in r.info && !r.info[id].fInTried
    ensures r.info[id].nRefCount == |Slots(r.news, id)|
  {
  }

  lemma RefCountBound(e: Env, s: State, id: int)
    requires Inv(e, s) && id in s.info && !s.info[id].fInTried
    ensures s.info[id].nRefCount == |Slots(s.news, id)| <= NEW_BUCKETS_PER_ADDRESS
  {
  }

  /** Each reference goes back to the slot it came from. */
  lemma PartialPlaced(e: Env, s: State, r: State, ids: seq<int>, done: set<Slot>, slot: Slot, k: nat)
    requires Inv(e, s) && Listed(s.info, ids) && Partial(s, r, ids, |ids|, done) && Loading(e, r)
    requires slot in s.news && slot !in done && k < |ids| && ids[k] == s.news[slot]
    ensures k in r.info
    ensures var r' := Placed(e, r, true, slot.bucket, k); Partial(s, r', ids, |ids|, done + {slot}) && Loading(e, r')
  {
    hide Inv, Loading, Listed;
    var id := ids[k];
    NewHolderOf(e, s, slot);
    assert k in r.info && r.info[k] == Renewed(s.info[id], k, r.info[k].nRefCount);
    RefCountIs(e, r, k);
    RefCountBound(e, s, id);
    Room(s.news, ids, r.news, done, slot, k);
    assert slot == Slot(slot.bucket, Position(e, r.key, true, slot.bucket, r.info[k].service));
    PlacedKeeps(e, r, true, slot.bucket, k);
    assert Placed(e, r, true, slot.bucket, k) == Referenced(r, k, slot);
  }

  lemma {:induction false} PlaceAllCat(e: Env, r: State, restore: bool, a: seq<(nat, int)>, b: seq<(nat, int)>)
    ensures PlaceAll(e, r, restore, a + b) == PlaceAll(e, PlaceAll(e, r, restore, a), restore, b)
  {
    hide Placed;
    if b == [] {
      assert a + b == a;
    } else {
      assert (a + b)[..|a + b| - 1] == a + b[..|b| - 1];
      PlaceAllCat(e, r, restore, a, b[..|b| - 1]);
    }
  }

  /** The bucket's first n positions. */
  lemma {:induction false} BucketPlaced(e: Env, s: State, r: State, ids: seq<int>, news: seq<int>, bucket: nat, n: nat)
    requires Inv(e, s) && Listed(s.info, ids) && news <= ids && (forall slot | slot in s.news :: s.news[slot] in news)
    requires Partial(s, r, ids, |ids|, Before(s.news, bucket, 0)) && Loading(e, r)
    ensures var r' := PlaceAll(e, r, true, BucketEntries(bucket, BucketList(s.news, news, bucket, n), |news|));
      Partial(s, r', ids, |ids|, Before(s.news, bucket, n)) && Loading(e, r')
    decreases n
  {
    hide Inv, Loading, Partial, Placed, Listed, Before;
    if n > 0 {
      BucketPlaced(e, s, r, ids, news, bucket, n - 1);
      var slot := Slot(bucket, n - 1);
      var list := BucketList(s.news, news, bucket, n - 1);
      var r1 := PlaceAll(e, r, true, BucketEntries(bucket, list, |news|));
      BeforeNext(s.news, bucket, n - 1);
      if slot in s.news {
        var k := IndexOf(news, s.news[slot]);
        assert ids[k] == news[k];
        PartialPlaced(e, s, r1, ids, Before(s.news, bucket, n - 1), slot, k);
        BucketEntriesMore(bucket, list, k, |news|);
        PlaceAllCat(e, r, true, BucketEntries(bucket, list, |news|), [(bucket, k)]);
        PlaceOne(e, r1, bucket, k);
      } else {
        assert BucketList(s.news, news, bucket, n) == list;
        assert Before(s.news, bucket, n - 1) + {} == Before(s.news, bucket, n - 1);
      }
    }
  }

  lemma PlaceOne(e: Env, r: State, bucket: nat, k: int)
    requires k in r.info
    ensures PlaceAll(e, r, true, [(bucket, k)]) == Placed(e, r, true, bucket, k)
  {
    hide Placed;
    var one := [(bucket, k)];
    assert one[..0] == [];
  }

  lemma BucketEntriesMore(bucket: nat, list: seq<int>, k: int, nNew: nat)
    requires 0 <= k < nNew
    ensures BucketEntries(bucket, list + [k], nNew) == BucketEntries(bucket, list, nNew) + [(bucket, k)]
  {
    assert (list + [k])[..|list|] == list;
  }

  lemma BeforeNext(news: map<Slot, int>, bucket: nat, pos: nat)
    ensures var slot := Slot(bucket, pos);
      && slot !in Before(news, bucket, pos)
      && Before(news, bucket, pos + 1) == Before(news, bucket, pos) + (if slot in news then {slot} else {})
  {
  }

  lemma {:induction false} BucketsPlaced(e: Env, s: State, r: State, ids: seq<int>, news: seq<int>, buckets: seq<seq<int>>)
    requires Inv(e, s) && Listed(s.info, ids) && news <= ids && (forall slot | slot in s.news :: s.news[slot] in news)
    requires forall b | 0 <= b < |buckets| :: buckets[b] == BucketList(s.news, news, b, BUCKET_SIZE)
    requires Partial(s, r, ids, |ids|, {}) && Loading(e, r)
    ensures var r' := PlaceAll(e, r, true, Entries(buckets, |news|));
      Partial(s, r', ids, |ids|, Before(s.news, |buckets|, 0)) && Loading(e, r')
    decreases |buckets|
  {
    hide Inv, Loading, Partial, Placed, Listed, BucketList;
    if buckets == [] {
      assert Before(s.news, 0, 0) == {};
    } else {
      var b := |buckets| - 1;
      BucketsPlaced(e, s, r, ids, news, buckets[..b]);
      var r1 := PlaceAll(e, r, true, Entries(buckets[..b], |news|));
      BucketPlaced(e, s, r1, ids, news, b, BUCKET_SIZE);
      BeforeBucket(e, s, b);
      PlaceAllCat(e, r, true, Entries(buckets[..b], |news|), BucketEntries(b, buckets[b], |news|));
    }
  }

  lemma BeforeBucket(e: Env, s: State, b: nat)
    requires Inv(e, s)
    ensures Before(s.news, b, BUCKET_SIZE) == Before(s.news, b + 1, 0)
    ensures Before(s.news, NEW_BUCKETS, 0) == s.news.Keys
  {
    hide Inv;
    forall slot | slot in s.news ensures slot.bucket < NEW_BUCKETS && slot.pos < BUCKET_SIZE { NewHolderOf(e, s, slot); }
  }

  /** The same address manager, with entry ids[k] renumbered k: every entry with all that is kept on disk, every
      reference of both tables in exactly the bucket and position it had. */
  ghost predicate SameUpToNumbers(s: State, r: State, ids: seq<int>) {
    && Enumerates(ids, s.info) && r.key == s.key && r.nNew == s.nNew && r.nTried == s.nTried
    && (forall k | k in r.info :: 0 <= k < |ids|)
    && (forall k | 0 <= k < |ids| :: k in r.info && r.info[k] == Renewed(s.info[ids[k]], k, s.info[ids[k]].nRefCount))
    && r.news.Keys == s.news.Keys && (forall slot | slot in r.news :: 0 <= r.news[slot] < |ids| && ids[r.news[slot]] == s.news[slot])
    && r.tried.Keys == s.tried.Keys && (forall slot | slot in r.tried :: 0 <= r.tried[slot] < |ids| && ids[r.tried[slot]] == s.tried[slot])
  }

  lemma RefCountsBack(e: Env, s: State, r: State, ids: seq<int>, k: nat)
    requires Inv(e, s) && Listed(s.info, ids) && DistinctIds(ids) && k < |ids|
    requires Partial(s, r, ids, |ids|, s.news.Keys) && Loading(e, r)
    ensures k in r.info && r.info[k].nRefCount == s.info[ids[k]].nRefCount
  {
    hide Inv, Loading, DistinctIds;
    var id := ids[k];
    assert k in r.info && r.info[k] == Renewed(s.info[id], k, r.info[k].nRefCount);
    if s.info[id].fInTried {
      EntryZero(e, s, id);
      TriedRefCount(e, r, k);
    } else {
      RefCountIs(e, r, k);
      RefCountBound(e, s, id);
      SlotsBack(s.news, ids, r.news, k);
    }
  }

  lemma TriedRefCount(e: Env, r: State, id: int)
    requires Loading(e, r) && id in r.info && r.info[id].fInTried
    ensures r.info[id].nRefCount == 0
  {
  }

  lemma SlotsBack(news: map<Slot, int>, ids: seq<int>, r: map<Slot, int>, k: nat)
    requires SameNews(news, ids, r, news.Keys) && DistinctIds(ids) && k < |ids|
    ensures Slots(r, k) == Slots(news, ids[k])
  {
    forall slot | slot in news ensures r[slot] == k <==> news[slot] == ids[k] {
      assert slot in r && ids[r[slot]] == news[slot];
    }
  }

  /** With every reference back, the counters agree as well. */
  lemma CountsBack(e: Env, s: State, r: State, ids: seq<int>)
    requires Inv(e, s) && Enumerates(ids, s.info) && Inv(e, r)
    requires (forall k | k in r.info :: 0 <= k < |ids|) && (forall k | 0 <= k < |ids| :: k in r.info && r.info[k].fInTried == s.info[ids[k]].fInTried)
    ensures r.nTried == s.nTried && r.nNew == s.nNew
  {
    hide Indexed, EntriesOk, TriedPlaced, NewPlaced;
    Renumbered(TriedIds(r.info), TriedIds(s.info), ids);
    Renumbered(NewIds(r.info), NewIds(s.info), ids);
    assert NewIds(r.info) - {} == NewIds(r.info) && NewIds(s.info) - {} == NewIds(s.info);
  }

  /** Renumbering keeps sizes. */
  lemma {:induction false} Renumbered(a: set<int>, b: set<int>, ids: seq<int>)
    requires DistinctIds(ids) && (forall k | k in a :: 0 <= k < |ids| && ids[k] in b)
    requires forall id | id in b :: exists k :: 0 <= k < |ids| && ids[k] == id && k in a
    ensures |a| == |b|
    decreases |b|
  {
    if b == {} {
      assert a == {} by { forall k ensures k !in a {} }
    } else {
      Inhabited(b);
      var id: int :| id in b;
      var k :| 0 <= k < |ids| && ids[k] == id && k in a;
      forall j | j in a - {k} ensures ids[j] in b - {id} { assert ids[j] != ids[k]; }
      forall x | x in b - {id} ensures exists j :: 0 <= j < |ids| && ids[j] == x && j in a - {k} {
        var j :| 0 <= j < |ids| && ids[j] == x && j in a;
        assert j != k;
      }
      Renumbered(a - {k}, b - {id}, ids);
    }
  }

  // ---------------------------------------------------------------- the round trip

  /** The lists a file is made from, entry by entry. */
  lemma FileEntries(e: Env, s: State, order: seq<int>, asmap: nat)
    requires Inv(e, s) && Enumerates(order, s.info)
    ensures var news, ids := Chosen(s.info, order, false), Numbering(s.info, order);
      && Enumerates(ids, s.info) && news <= ids && (forall slot | slot in s.news :: s.news[slot] in news)
      && var f := Serialized(s, order, asmap);
         && |f.news| == |news| && |f.news| + |f.tried| == |ids|
         && (forall k | 0 <= k < |news| :: !s.info[ids[k]].fInTried && f.news[k] == Save(s.info[ids[k]]))
         && (forall k | |news| <= k < |ids| :: s.info[ids[k]].fInTried && f.tried[k - |news|] == Save(s.info[ids[k]]))
  {
    hide Inv, Chosen, Serialized, DistinctIds, Enumerates;
    NumberingEnumerates(e, s, order);
    InvSeparate(e, s);
    EnumeratesIs(order, s.info);
    ChosenIs(s.info, order, false);
    ChosenIs(s.info, order, true);
    SerializedLists(s, order, asmap);
    var a, b := Chosen(s.info, order, false), Chosen(s.info, order, true);
    forall k | 0 <= k < |a| ensures !s.info[a[k]].fInTried { assert Picked(s.info, a[k], false); }
    forall k | 0 <= k < |b| ensures s.info[b[k]].fInTried { assert Picked(s.info, b[k], true); }
  }

  lemma EnumeratesIs(order: seq<int>, info: map<int, Info>)
    requires Enumerates(order, info)
    ensures Listed(info, order) && DistinctIds(order)
  {
  }

  lemma SerializedLists(s: State, order: seq<int>, asmap: nat)
    requires Listed(s.info, order) && Listed(s.info, Chosen(s.info, order, false)) && Listed(s.info, Chosen(s.info, order, true))
    requires forall slot | slot in s.news :: s.news[slot] in Chosen(s.info, order, false)
    ensures var f := Serialized(s, order, asmap);
      && f.news == SaveAll(s.info, Chosen(s.info, order, false)) && f.tried == SaveAll(s.info, Chosen(s.info, order, true))
  {
    hide Chosen;
  }

  /** What is written can be read: no address twice, and every tried entry has been connected to. */
  lemma FileReadable(e: Env, s: State, order: seq<int>, asmap: nat)
    requires Inv(e, s) && Enumerates(order, s.info)
    ensures forall slot | slot in s.news :: s.news[slot] in Chosen(s.info, order, false)
    ensures Readable(Serialized(s, order, asmap))
  {
    hide Inv, Chosen, Serialized;
    NumberingEnumerates(e, s, order);
    FileEntries(e, s, order, asmap);
    var f, ids := Serialized(s, order, asmap), Numbering(s.info, order);
    var ds := f.news + f.tried;
    KeyIs(e, s, order, asmap);
    forall k | 0 <= k < |ids| ensures ds[k] == Save(s.info[ids[k]]) {}
    forall i, j | 0 <= i < j < |ds| ensures ds[i].service.addr != ds[j].service.addr {
      assert ids[i] != ids[j];
      AddressOnce(e, s, ids[i], ids[j]);
    }
    forall i | 0 <= i < |f.news| ensures f.news[i].nLastSuccess >= 0 { EntryOk(e, s, ids[i]); }
    forall i | 0 <= i < |f.tried| ensures f.tried[i].nLastSuccess > 0 {
      assert f.tried[i] == Save(s.info[ids[|f.news| + i]]);
      EntryOk(e, s, ids[|f.news| + i]);
    }
  }

  lemma KeyIs(e: Env, s: State, order: seq<int>, asmap: nat)
    requires Inv(e, s) && Listed(s.info, order) && forall slot | slot in s.news :: s.news[slot] in Chosen(s.info, order, false)
    ensures var f := Serialized(s, order, asmap);
      f.key == s.key != 0 && Restores(f, asmap)
      && forall b | 0 <= b < NEW_BUCKETS :: f.buckets[b] == BucketList(s.news, Chosen(s.info, order, false), b, BUCKET_SIZE)
  {
  }

  lemma AddressOnce(e: Env, s: State, i: int, j: int)
    requires Inv(e, s) && i in s.info && j in s.info && i != j
    ensures s.info[i].service.addr != s.info[j].service.addr
  {
  }

  /** Reading back a file under the same map of groups loses nothing: it gives the same address manager up to
      numbering, in which every entry has a place, so none is dropped. */
  lemma RestoredExactly(e: Env, s: State, order: seq<int>, asmap: nat, order': seq<int>)
    requires Inv(e, s) && Enumerates(order, s.info)
    ensures forall slot | slot in s.news :: s.news[slot] in Chosen(s.info, order, false)
    ensures var r := Filled(e, Serialized(s, order, asmap), asmap);
      && Pruned(r, order') == r && Inv(e, r) && SameUpToNumbers(s, r, Numbering(s.info, order))
  {
    hide Inv, Loading, Latest, Chosen, Serialized, Partial, LoadNews, LoadTrieds, PlaceAll, Entries, SameUpToNumbers;
    NumberingEnumerates(e, s, order);
    FileEntries(e, s, order, asmap);
    KeyIs(e, s, order, asmap);
    var f, ids, news := Serialized(s, order, asmap), Numbering(s.info, order), Chosen(s.info, order, false);
    NewsRead(e, s, ids, f.news);
    var s1 := LoadNews(Cleared(f.key, {}), f.news);
    TriedsRead(e, s, ids, s1, |f.news|, f.tried);
    var s2 := LoadTrieds(e, s1, f.tried);
    FilledSteps(e, f, asmap);
    BucketsPlaced(e, s, s2, ids, news, f.buckets);
    BeforeBucket(e, s, 0);
    var r := Filled(e, f, asmap);
    AllBack(e, s, r, ids);
    PrunedNothing(r, order');
  }

  lemma AllBack(e: Env, s: State, r: State, ids: seq<int>)
    requires Inv(e, s) && Enumerates(ids, s.info) && Partial(s, r, ids, |ids|, s.news.Keys)
    requires Loading(e, r) && Latest(r.info, r.info, r.addr)
    ensures Limbo(r.info) == {} && Inv(e, r) && SameUpToNumbers(s, r, ids)
  {
    hide Inv, Loading, Latest, Limbo, DistinctIds;
    forall k | 0 <= k < |ids| ensures k in r.info && r.info[k].nRefCount == s.info[ids[k]].nRefCount {
      RefCountsBack(e, s, r, ids, k);
    }
    NoLimbo(e, s, r, ids);
    EntriesBack(e, s, r, ids);
    ConsistentFrom(e, r.info, r);
    CountsBack(e, s, r, ids);
    TriedsBack(e, s, r, ids);
  }

  lemma EntriesBack(e: Env, s: State, r: State, ids: seq<int>)
    requires Inv(e, s) && Enumerates(ids, s.info) && SameEntries(s.info, ids, r.info, |ids|)
    ensures s.key != 0 && forall k | k in r.info :: TimeOk(r.info[k]) && Alone(r.info, k)
  {
    hide Inv;
    InvKey(e, s);
    EnumeratesIs(ids, s.info);
    forall k | k in r.info ensures TimeOk(r.info[k]) && Alone(r.info, k) {
      EntryOk(e, s, ids[k]);
      forall j | j in r.info && j != k ensures r.info[j].service.addr != r.info[k].service.addr {
        if j < k { Differ(ids, j, k); } else { Differ(ids, k, j); }
        AddressOnce(e, s, ids[j], ids[k]);
      }
    }
  }

  lemma InvKey(e: Env, s: State)
    requires Inv(e, s)
    ensures s.key != 0
  {
  }

  lemma NoLimbo(e: Env, s: State, r: State, ids: seq<int>)
    requires Inv(e, s) && Listed(s.info, ids) && SameEntries(s.info, ids, r.info, |ids|)
    requires forall k | 0 <= k < |ids| :: k in r.info && r.info[k].nRefCount == s.info[ids[k]].nRefCount
    ensures Limbo(r.info) == {}
  {
    hide Inv;
    forall k ensures k !in Limbo(r.info) {
      if k in r.info { EntryOk(e, s, ids[k]); }
    }
  }

  lemma TriedsBack(e: Env, s: State, r: State, ids: seq<int>)
    requires Inv(e, s) && Enumerates(ids, s.info) && SameTried(s.tried, ids, r.tried, |ids|)
    ensures r.tried.Keys == s.tried.Keys
  {
    hide Inv, DistinctIds;
    forall slot | slot in s.tried ensures slot in r.tried {
      TriedHolder(e, s, slot);
      var k :| 0 <= k < |ids| && ids[k] == s.tried[slot];
    }
  }

  // ---------------------------------------------------------------- the counters

  lemma {:induction false} SeqSize(c: seq<int>, ids: set<int>)
    requires DistinctIds(c) && (forall k | 0 <= k < |c| :: c[k] in ids) && (forall id | id in ids :: id in c)
    ensures |c| == |ids|
    decreases |c|
  {
    if c == [] {
      assert ids == {} by { forall id ensures id !in ids {} }
    } else {
      var n := |c| - 1;
      forall id | id in ids - {c[n]} ensures id in c[..n] {
        var k :| 0 <= k < |c| && c[k] == id;
        assert c[..n][k] == id;
      }
      SeqSize(c[..n], ids - {c[n]});
    }
  }

  lemma {:induction false} HoldersBound(ids: set<int>, table: map<Slot, int>)
    requires forall id | id in ids :: exists slot :: slot in table && table[slot] == id
    ensures |ids| <= |table.Keys|
    decreases |ids|
  {
    if ids != {} {
      Inhabited(ids);
      var id: int :| id in ids;
      var slot :| slot in table && table[slot] == id;
      var table' := table - {slot};
      forall j | j in ids - {id} ensures exists u :: u in table' && table'[u] == j {
        var u :| u in table && table[u] == j;
        assert u in table';
      }
      HoldersBound(ids - {id}, table');
      assert table'.Keys == table.Keys - {slot};
    }
  }

  lemma {:induction false} SlotsBound(slots: set<Slot>, buckets: nat)
    requires forall slot | slot in slots :: slot.bucket < buckets && slot.pos < BUCKET_SIZE
    ensures |slots| <= BUCKET_SIZE * buckets
    decreases buckets
  {
    if buckets == 0 {
      assert slots == {};
    } else {
      var last := set slot | slot in slots && slot.bucket == buckets - 1;
      RowBound(last, buckets - 1, BUCKET_SIZE);
      SlotsBound(slots - last, buckets - 1);
      assert slots == (slots - last) + last;
    }
  }

  lemma {:induction false} RowBound(slots: set<Slot>, bucket: nat, n: nat)
    requires forall slot | slot in slots :: slot.bucket == bucket && slot.pos < n
    ensures |slots| <= n
    decreases n
  {
    if n == 0 {
      assert slots == {};
    } else {
      RowBound(slots - {Slot(bucket, n - 1)}, bucket, n - 1);
    }
  }

  /** The counters written are the numbers of entries that follow, and are never rejected on reading. */
  lemma CountersWritten(e: Env, s: State, order: seq<int>, asmap: nat)
    requires Inv(e, s) && Enumerates(order, s.info)
    ensures forall slot | slot in s.news :: s.news[slot] in Chosen(s.info, order, false)
    ensures var f := Serialized(s, order, asmap);
      && |f.news| == s.nNew <= NEW_BUCKETS * BUCKET_SIZE && |f.tried| == s.nTried <= TRIED_BUCKETS * BUCKET_SIZE
  {
    hide Inv, Chosen;
    NumberingEnumerates(e, s, order);
    ListSizes(e, s, order);
    forall slot | slot in s.news ensures slot.bucket < NEW_BUCKETS && slot.pos < BUCKET_SIZE { NewHolderOf(e, s, slot); }
    forall slot | slot in s.tried ensures slot.bucket < TRIED_BUCKETS && slot.pos < BUCKET_SIZE { TriedHolder(e, s, slot); }
    SlotsBound(s.news.Keys, NEW_BUCKETS);
    SlotsBound(s.tried.Keys, TRIED_BUCKETS);
    HoldersFound(e, s);
    HoldersBound(NewIds(s.info), s.news);
    HoldersBound(TriedIds(s.info), s.tried);
  }

  lemma ListSizes(e: Env, s: State, order: seq<int>)
    requires Inv(e, s) && Enumerates(order, s.info)
    ensures |Chosen(s.info, order, false)| == |NewIds(s.info)| == s.nNew
    ensures |Chosen(s.info, order, true)| == |TriedIds(s.info)| == s.nTried
  {
    hide Chosen, Indexed, EntriesOk, TriedPlaced, NewPlaced;
    InvSeparate(e, s);
    ChosenIs(s.info, order, false);
    ChosenIs(s.info, order, true);
    var a, b := Chosen(s.info, order, false), Chosen(s.info, order, true);
    forall id | id in s.info ensures if s.info[id].fInTried then id in b else id in a {
      var k :| 0 <= k < |order| && order[k] == id;
      assert Picked(s.info, order[k], s.info[id].fInTried);
    }
    forall k | 0 <= k < |a| ensures a[k] in NewIds(s.info) { assert Picked(s.info, a[k], false); }
    forall k | 0 <= k < |b| ensures b[k] in TriedIds(s.info) { assert Picked(s.info, b[k], true); }
    SeqSize(a, NewIds(s.info));
    SeqSize(b, TriedIds(s.info));
    assert NewIds(s.info) - {} == NewIds(s.info);
  }

  lemma HoldersFound(e: Env, s: State)
    requires Inv(e, s)
    ensures forall id | id in NewIds(s.info) :: exists slot :: slot in s.news && s.news[slot] == id
    ensures forall id | id in TriedIds(s.info) :: exists slot :: slot in s.tried && s.tried[slot] == id
  {
    hide Inv;
    forall id | id in NewIds(s.info) ensures exists slot :: slot in s.news && s.news[slot] == id {
      EntryOk(e, s, id);
      RefCountBound(e, s, id);
      var slot := Any(Slots(s.news, id));
    }
    forall id | id in TriedIds(s.info) ensures exists slot :: slot in s.tried && s.tried[slot] == id {
      TriedPlace(e, s, id);
    }
  }

  lemma {:induction false} NewsCount(s: State, ds: seq<Saved>)
    ensures LoadNews(s, ds).idCount == s.idCount + |ds|
  {
    if ds != [] { NewsCount(s, ds[..|ds| - 1]); }
  }

  // ---------------------------------------------------------------- the writing loops

  lemma ChosenStart(info: map<int, Info>)
    ensures Listed(info, []) && Chosen(info, [], false) == [] && Chosen(info, [], true) == [] && SaveAll(info, []) == []
  {
  }

  /** One more entry is looked at; the whole list is longer than what has been written if it is to be written. */
  lemma ChosenNext(info: map<int, Info>, order: seq<int>, i: nat, tried: bool)
    requires Listed(info, order) && i < |order| && DistinctIds(order)
    ensures Listed(info, order[..i]) && Listed(info, order[..i + 1])
    ensures var picks := if tried then info[order[i]].fInTried else info[order[i]].nRefCount != 0;
      && Chosen(info, order[..i + 1], tried) == Chosen(info, order[..i], tried) + (if picks then [order[i]] else [])
      && (picks ==> |Chosen(info, order[..i], tried)| < |Chosen(info, order, tried)| && order[i] !in Chosen(info, order[..i], tried))
  {
    assert order[..i + 1][..i] == order[..i];
    ChosenPrefix(info, order, i + 1, tried);
    ChosenIs(info, order[..i], tried);
    var c := Chosen(info, order[..i], tried);
    forall k | 0 <= k < |c| ensures c[k] != order[i] {
      assert c[k] in order[..i];
    }
  }

  lemma {:induction false} ChosenPrefix(info: map<int, Info>, order: seq<int>, i: nat, tried: bool)
    requires Listed(info, order) && i <= |order|
    ensures Listed(info, order[..i]) && |Chosen(info, order[..i], tried)| <= |Chosen(info, order, tried)|
  {
    if i == |order| {
      assert order[..i] == order;
    } else {
      assert order[..|order| - 1][..i] == order[..i];
      ChosenPrefix(info, order[..|order| - 1], i, tried);
    }
  }

  lemma OneIndex(ids: seq<int>, i: int, j: int)
    requires DistinctIds(ids) && 0 <= i < |ids| && 0 <= j < |ids| && ids[i] == ids[j]
    ensures i == j
  {
  }

  // ---------------------------------------------------------------- the reading loops

  lemma PlacedKeys(e: Env, s: State, restore: bool, bucket: nat, id: int)
    requires id in s.info
    ensures Placed(e, s, restore, bucket, id).info.Keys == s.info.Keys
  {
  }
}
