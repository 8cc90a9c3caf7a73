/** Which files are read into a consistent address manager. */
module AddrRead {
  import opened AddrState
  import opened AddrInvariant
  import opened AddrDisk
  import opened AddrPurge

  /** What reading a file leaves: both tables filled, entries without a place deleted, in the order in which mapInfo is
      traversed, and invalid addresses removed. */
  ghost function Read(e: Env, f: DiskFile, asmap: nat, order: seq<int>): State {
    Purged(e, Pruned(Filled(e, f, asmap), order))
  }

  /** The traversal reaches every entry read. */
  ghost predicate Visits(e: Env, f: DiskFile, asmap: nat, order: seq<int>) {
    forall id | id in Filled(e, f, asmap).info :: id in order
  }

  // ---------------------------------------------------------------- what can be told from the file

  /** The slots of the tried table that the entries want. */
  function Wanted(e: Env, key: nat, ds: seq<Saved>): set<Slot> {
    set k | 0 <= k < |ds| :: TriedSlot(e, key, ds[k].service)
  }

  /** The entries of the tried table, without those that come too late for their slot. */
  function Timely(e: Env, key: nat, ds: seq<Saved>): seq<Saved> {
    if ds == [] then []
    else
      var d, before := ds[|ds| - 1], ds[..|ds| - 1];
      Timely(e, key, before) + if TriedSlot(e, key, d.service) in Wanted(e, key, before) then [] else [d]
  }

  /** All entries read, in the order of their ids. */
  function Entered(e: Env, f: DiskFile): seq<Saved> { f.news + Timely(e, f.key, f.tried) }

  /** An entry of a bucket takes the seat it names, if seats can be kept and it is free, or else the one its source gives
      it, if that is free; an entry with the most places it may have takes none. */
  function Seated(e: Env, key: nat, d: Saved, restore: bool, m: map<Slot, int>, bucket: nat, id: int): map<Slot, int> {
    var slot := Slot(bucket, Position(e, key, true, bucket, d.service));
    var other := NewSlot(e, key, d.service, d.source);
    if |Slots(m, id)| >= NEW_BUCKETS_PER_ADDRESS then m
    else if restore && slot !in m then m[slot := id]
    else if other !in m then m[other := id]
    else m
  }

  /** The seats taken in the new table, bucket entry after bucket entry. */
  function Seats(e: Env, key: nat, news: seq<Saved>, restore: bool, entries: seq<(nat, int)>): map<Slot, int> {
    if entries == [] then map[]
    else
      var m := Seats(e, key, news, restore, entries[..|entries| - 1]);
      var (bucket, id) := entries[|entries| - 1];
      if 0 <= id < |news| then Seated(e, key, news[id], restore, m, bucket, id) else m
  }

  function SeatsOf(e: Env, f: DiskFile, asmap: nat): map<Slot, int> {
    Seats(e, f.key, f.news, Restores(f, asmap), Entries(f.buckets, |f.news|))
  }

  /** The entry is there at the end: its address is valid and, if it is for the new table, it has a seat. */
  predicate Stays(e: Env, f: DiskFile, asmap: nat, i: nat)
    requires i < |Entered(e, f)|
  {
    e.isValid(Entered(e, f)[i].service.addr) && (i < |f.news| ==> i in SeatsOf(e, f, asmap).Values)
  }

  /** Its times are in range, a tried entry has been connected to, and no other entry was read with its address, be it one
      that does not stay. */
  predicate Fit(ds: seq<Saved>, nNew: nat, i: nat)
    requires i < |ds|
  {
    && (if i < nNew then ds[i].nLastSuccess >= 0 else ds[i].nLastSuccess > 0)
    && forall j | 0 <= j < |ds| && j != i :: ds[j].service.addr != ds[i].service.addr
  }

  /** What a file must be for reading it to leave a consistent state. */
  predicate Loadable(e: Env, f: DiskFile, asmap: nat) {
    f.key != 0 && forall i | 0 <= i < |Entered(e, f)| && Stays(e, f, asmap, i) :: Fit(Entered(e, f), |f.news|, i)
  }

  // ---------------------------------------------------------------- the entries as they are read

  /** The entry is what the file says, but for references and positions. */
  ghost predicate ReadFrom(i: Info, d: Saved, tried: bool) {
    && i.service == d.service && i.source == d.source && i.nLastSuccess == d.nLastSuccess
    && i.nLastTry == 0 && i.fInTried == tried
  }

  lemma {:induction false} NewsAre(key: nat, ds: seq<Saved>)
    ensures var s := LoadNews(Cleared(key, {}), ds);
      && s.idCount == |ds| && s.key == key && s.tried == map[] && s.news == map[]
      && (forall id | id in s.info :: 0 <= id < |ds|)
      && forall k | 0 <= k < |ds| :: k in s.info && ReadFrom(s.info[k], ds[k], false)
  {
    if ds != [] { NewsAre(key, ds[..|ds| - 1]); }
  }

  /** The slots taken are those wanted, so exactly the late entries are lost; the others get the next ids. */
  lemma {:induction false} TriedsAre(e: Env, s: State, ds: seq<Saved>)
    requires s.tried == map[] && s.idCount >= 0 && forall id | id in s.info :: 0 <= id < s.idCount
    ensures var s', sv := LoadTrieds(e, s, ds), Timely(e, s.key, ds);
      && s'.key == s.key && s'.news == s.news && s'.idCount == s.idCount + |sv|
      && (forall id | id in s'.info :: 0 <= id < s'.idCount)
      && (forall k | k in s.info :: k in s'.info && s'.info[k] == s.info[k])
      && (forall k | s.idCount <= k < s'.idCount :: k in s'.info && ReadFrom(s'.info[k], sv[k - s.idCount], true))
      && s'.tried.Keys == Wanted(e, s.key, ds)
  {
    hide TriedSlot, Wanted, LoadedTried, ReadFrom;
    if ds == [] {
      WantedNone(e, s.key);
    } else {
      TriedsAre(e, s, ds[..|ds| - 1]);
      WantedMore(e, s.key, ds);
      TriedIs(e, LoadTrieds(e, s, ds[..|ds| - 1]), ds[|ds| - 1]);
    }
  }

  lemma TriedIs(e: Env, s: State, d: Saved)
    ensures var s', slot := LoadedTried(e, s, d), TriedSlot(e, s.key, d.service);
      if slot in s.tried then s' == s
      else
        && s'.key == s.key && s'.news == s.news && s'.idCount == s.idCount + 1 && s'.tried.Keys == s.tried.Keys + {slot}
        && s.idCount in s'.info && s'.info == s.info[s.idCount := s'.info[s.idCount]]
        && ReadFrom(s'.info[s.idCount], d, true)
  {
    hide TriedSlot;
  }

  lemma WantedNone(e: Env, key: nat)
    ensures Wanted(e, key, []) == {}
  {
  }

  lemma WantedMore(e: Env, key: nat, ds: seq<Saved>)
    requires ds != []
    ensures Wanted(e, key, ds) == Wanted(e, key, ds[..|ds| - 1]) + {TriedSlot(e, key, ds[|ds| - 1].service)}
  {
    hide TriedSlot;
    var n := |ds| - 1;
    forall k | 0 <= k < n ensures ds[..n][k] == ds[k] {}
    forall slot | slot in Wanted(e, key, ds)
      ensures slot in Wanted(e, key, ds[..n]) + {TriedSlot(e, key, ds[n].service)}
    {
      var k :| 0 <= k < |ds| && slot == TriedSlot(e, key, ds[k].service);
      if k < n { assert ds[..n][k] == ds[k]; }
    }
    forall slot | slot in Wanted(e, key, ds[..n]) ensures slot in Wanted(e, key, ds) {
      var k :| 0 <= k < n && slot == TriedSlot(e, key, ds[..n][k].service);
      assert ds[..n][k] == ds[k];
    }
  }

  /** The new table comes to hold what the seating plan says. */
  lemma {:induction false} SeatsAre(e: Env, s: State, news: seq<Saved>, restore: bool, entries: seq<(nat, int)>)
    requires Loading(e, s) && s.news == map[]
    requires forall k | 0 <= k < |news| :: k in s.info && ReadFrom(s.info[k], news[k], false)
    requires forall k | 0 <= k < |entries| :: 0 <= entries[k].1 < |news| && (restore ==> entries[k].0 < NEW_BUCKETS)
    ensures PlaceAll(e, s, restore, entries).news == Seats(e, s.key, news, restore, entries)
  {
    hide Loading, Placed, Seated, ReadFrom;
    if entries != [] {
      var n := |entries| - 1;
      SeatsAre(e, s, news, restore, entries[..n]);
      var s1, id := PlaceAll(e, s, restore, entries[..n]), entries[n].1;
      PlacingKeeps(e, s, restore, entries[..n]);
      assert forall k | 0 <= k < |news| :: k in s.info && !s.info[k].fInTried by { NotTried(s.info, news); }
      PlaceAllKeeps(e, s, restore, entries[..n], |news|);
      RefsCount(e, s1, id);
      ReadFromKept(s.info[id], s1.info[id].nRefCount, news[id], false);
      SeatedIs(e, s1, news[id], restore, entries[n].0, id);
    }
  }

  lemma NotTried(info: map<int, Info>, news: seq<Saved>)
    requires forall k | 0 <= k < |news| :: k in info && ReadFrom(info[k], news[k], false)
    ensures forall k | 0 <= k < |news| :: k in info && !info[k].fInTried
  {
  }

  lemma SeatedIs(e: Env, s: State, d: Saved, restore: bool, bucket: nat, id: int)
    requires id in s.info && ReadFrom(s.info[id], d, false) && s.info[id].nRefCount == |Slots(s.news, id)|
    ensures Placed(e, s, restore, bucket, id).news == Seated(e, s.key, d, restore, s.news, bucket, id)
  {
    hide NewSlot, Position, Slots;
  }

  lemma RefsCount(e: Env, s: State, id: int)
    requires Loading(e, s) && id in s.info && !s.info[id].fInTried
    ensures s.info[id].nRefCount == |Slots(s.news, id)|
  {
  }

  lemma FilledAre(e: Env, f: DiskFile, asmap: nat)
    ensures var s, ds := Filled(e, f, asmap), Entered(e, f);
      && s.news == SeatsOf(e, f, asmap)
      && (forall id | id in s.info :: 0 <= id < |ds|)
      && forall k | 0 <= k < |ds| :: k in s.info && ReadFrom(s.info[k], ds[k], k >= |f.news|)
  {
    hide Loading, LoadNews, LoadTrieds, PlaceAll, Entries, Timely, Seats, ReadFrom;
    var s0 := LoadNews(Cleared(f.key, {}), f.news);
    NewsAre(f.key, f.news);
    TriedsAre(e, s0, f.tried);
    var s1 := LoadTrieds(e, s0, f.tried);
    FilledSteps(e, f, asmap);
    var restore, entries := Restores(f, asmap), Entries(f.buckets, |f.news|);
    EntriesOkFor(f.buckets, |f.news|);
    SeatsAre(e, s1, f.news, restore, entries);
    PlacingKeeps(e, s1, restore, entries);
    var s, ds := Filled(e, f, asmap), Entered(e, f);
    forall id | id in s.info ensures 0 <= id < |ds| {
      assert id in s.info.Keys && id in s1.info;
    }
    forall k | 0 <= k < |ds| ensures k in s.info && ReadFrom(s.info[k], ds[k], k >= |f.news|) {
      assert k in s1.info && ReadFrom(s1.info[k], ds[k], k >= |f.news|);
      ReadFromKept(s1.info[k], s.info[k].nRefCount, ds[k], k >= |f.news|);
    }
  }

  lemma ReadFromKept(i: Info, n: int, d: Saved, t: bool)
    requires ReadFrom(i, d, t)
    ensures ReadFrom(i.(nRefCount := n), d, t)
  {
  }

  // ---------------------------------------------------------------- the entries that stay

  lemma SeatIff(e: Env, s: State, id: int)
    requires Loading(e, s) && id in s.info && !s.info[id].fInTried
    ensures id in Limbo(s.info) <==> id !in s.news.Values
  {
    RefsCount(e, s, id);
    if id in s.news.Values {
      var slot :| slot in s.news && s.news[slot] == id;
      assert slot in Slots(s.news, id);
    } else {
      forall slot ensures slot !in Slots(s.news, id) {
        assert slot in s.news ==> s.news[slot] in s.news.Values;
      }
      assert Slots(s.news, id) == {};
    }
  }

  /** Exactly the entries that stay are there at the end, with their times as in the file. */
  lemma ReadIs(e: Env, f: DiskFile, asmap: nat, order: seq<int>)
    requires Visits(e, f, asmap, order)
    ensures var r, ds := Read(e, f, asmap, order), Entered(e, f);
      && AllPlaced(e, Filled(e, f, asmap).info, r) && r.key == f.key
      && (forall id | id in r.info :: 0 <= id < |ds| && Stays(e, f, asmap, id) && ReadFrom(r.info[id], ds[id], id >= |f.news|))
      && forall id | 0 <= id < |ds| && Stays(e, f, asmap, id) :: id in r.info
  {
    hide Loading, Latest, Filled, Pruned, Purged, Limbo, Timely, SeatsOf, ReadFrom, SameButPos, Part;
    var s, ds := Filled(e, f, asmap), Entered(e, f);
    FilledSteps(e, f, asmap);
    FilledAre(e, f, asmap);
    PrunedKeeps(e, s.info, s, order);
    var t := Pruned(s, order);
    NoneLeft(s.info, t.info, order);
    PurgedMeans(e, s.info, t);
    var r := Purged(e, t);
    forall id | 0 <= id < |ds| ensures Stays(e, f, asmap, id) <==> IsGood(e, s.info[id]) && id !in Limbo(s.info) {
      ReadFromIs(s.info[id], ds[id], id >= |f.news|);
      if id < |f.news| { SeatIff(e, s, id); } else { LimboNew(s.info, id); }
    }
    forall id | id in r.info
      ensures 0 <= id < |ds| && Stays(e, f, asmap, id) && ReadFrom(r.info[id], ds[id], id >= |f.news|)
    {
      KeptValues(s.info, t.info, id);
      SameService(t.info[id], s.info[id]);
      SameTwice(r.info[id], t.info[id], s.info[id]);
      SameReadFrom(r.info[id], s.info[id], ds[id], id >= |f.news|);
    }
    forall id | 0 <= id < |ds| && Stays(e, f, asmap, id) ensures id in r.info {
      assert id in t.info;
      SameService(t.info[id], s.info[id]);
    }
  }

  /** Pruning leaves every entry with a place. */
  lemma PrunedPlaced(e: Env, f: DiskFile, asmap: nat, order: seq<int>)
    requires Visits(e, f, asmap, order)
    ensures AllPlaced(e, Filled(e, f, asmap).info, Pruned(Filled(e, f, asmap), order))
  {
    hide Loading, Latest, Filled, Pruned, Limbo, Part;
    var s := Filled(e, f, asmap);
    FilledSteps(e, f, asmap);
    PrunedKeeps(e, s.info, s, order);
    NoneLeft(s.info, Pruned(s, order).info, order);
  }

  lemma ReadFromIs(i: Info, d: Saved, tried: bool)
    requires ReadFrom(i, d, tried)
    ensures i.service == d.service && i.fInTried == tried
  {
  }

  lemma LimboNew(info: map<int, Info>, id: int)
    requires id in info && info[id].fInTried
    ensures id !in Limbo(info)
  {
  }

  lemma SameService(i: Info, j: Info)
    requires SameButPos(i, j)
    ensures i.service == j.service
  {
  }

  lemma SameTwice(i: Info, j: Info, k: Info)
    requires SameButPos(i, j) && SameButPos(j, k)
    ensures SameButPos(i, k)
  {
  }

  lemma SameReadFrom(i: Info, j: Info, d: Saved, tried: bool)
    requires SameButPos(i, j) && ReadFrom(j, d, tried)
    ensures ReadFrom(i, d, tried)
  {
  }

  /** A traversal of all entries leaves none without a place. */
  lemma NoneLeft(info: map<int, Info>, info': map<int, Info>, order: seq<int>)
    requires (forall id | id in info :: id in order) && Limbo(info') <= Limbo(info)
    requires forall k | 0 <= k < |order| :: order[k] !in Limbo(info')
    ensures Limbo(info') == {}
  {
    forall id ensures id !in Limbo(info') {}
  }

  /** What is still there had a place all along and is as it was. */
  lemma KeptValues(info: map<int, Info>, info': map<int, Info>, id: int)
    requires Part(info, info') && Limbo(info') == {} && id in info'
    ensures id in info && id !in Limbo(info) && SameButPos(info'[id], info[id])
  {
    assert id !in Limbo(info');
  }

  // ---------------------------------------------------------------- the condition is exact

  lemma FitIff(info: map<int, Info>, ds: seq<Saved>, nNew: nat, i: Info, id: nat)
    requires forall k | k in info :: 0 <= k < |ds|
    requires forall k | 0 <= k < |ds| :: k in info && ReadFrom(info[k], ds[k], k >= nNew)
    requires id < |ds| && ReadFrom(i, ds[id], id >= nNew)
    ensures TimeOk(i) && Alone(info, id) <==> Fit(ds, nNew, id)
  {
  }

  /** Reading a file leaves a consistent state exactly if every entry that stays is fit: for every file, every map of the
      network, and every order in which the entries are visited. */
  lemma ReadConsistentIff(e: Env, f: DiskFile, asmap: nat, order: seq<int>)
    requires Visits(e, f, asmap, order)
    ensures Inv(e, Read(e, f, asmap, order)) <==> Loadable(e, f, asmap)
  {
    hide Inv, Loading, Latest, Filled, Visits, Read, Entered, Stays, ReadFrom, TimeOk, Alone, Fit, Limbo;
    var s, ds, r := Filled(e, f, asmap), Entered(e, f), Read(e, f, asmap, order);
    ReadIs(e, f, asmap, order);
    FilledAre(e, f, asmap);
    ConsistentFrom(e, s.info, r);
    forall id | id in r.info ensures TimeOk(r.info[id]) && Alone(s.info, id) <==> Fit(ds, |f.news|, id) {
      FitIff(s.info, ds, |f.news|, r.info[id], id);
    }
  }

  // ---------------------------------------------------------------- what it means for whole files

  lemma {:induction false} TimelyFrom(e: Env, key: nat, ds: seq<Saved>)
    requires Apart(ds)
    ensures Apart(Timely(e, key, ds)) && forall d | d in Timely(e, key, ds) :: d in ds
  {
    hide Wanted, TriedSlot;
    if ds != [] {
      var n := |ds| - 1;
      TimelyFrom(e, key, ds[..n]);
      var sv, before := Timely(e, key, ds), Timely(e, key, ds[..n]);
      forall i | 0 <= i < |before| ensures before[i] in ds && before[i].service.addr != ds[n].service.addr {
        assert before[i] in before && before[i] in ds[..n];
        var k :| 0 <= k < n && ds[k] == before[i];
      }
      assert forall i | 0 <= i < |sv| :: sv[i] == if i < |before| then before[i] else ds[n];
    }
  }

  lemma ApartParts(ds: seq<Saved>, ds': seq<Saved>)
    ensures Apart(ds + ds') <==>
      && Apart(ds) && Apart(ds')
      && forall i, j | 0 <= i < |ds| && 0 <= j < |ds'| :: ds[i].service.addr != ds'[j].service.addr
  {
    var all := ds + ds';
    assert forall i | 0 <= i < |all| :: all[i] == if i < |ds| then ds[i] else ds'[i - |ds|];
    if Apart(all) {
      forall i, j | 0 <= i < j < |ds'| ensures ds'[i].service.addr != ds'[j].service.addr {
        assert all[|ds| + i] == ds'[i] && all[|ds| + j] == ds'[j];
      }
      forall i, j | 0 <= i < |ds| && 0 <= j < |ds'| ensures ds[i].service.addr != ds'[j].service.addr {
        assert all[i] == ds[i] && all[|ds| + j] == ds'[j];
      }
    }
  }

  /** A file without repeated addresses, with times in range, is read into a consistent state whatever is lost on the way. */
  lemma ReadableLoadable(e: Env, f: DiskFile, asmap: nat)
    requires Readable(f)
    ensures Loadable(e, f, asmap)
  {
    hide Stays, Timely;
    var ds, sv := Entered(e, f), Timely(e, f.key, f.tried);
    ApartParts(f.news, f.tried);
    TimelyFrom(e, f.key, f.tried);
    forall i | 0 <= i < |sv|
      ensures sv[i].nLastSuccess > 0 && forall k | 0 <= k < |f.news| :: f.news[k].service.addr != sv[i].service.addr
    {
      assert sv[i] in sv && sv[i] in f.tried;
      var m :| 0 <= m < |f.tried| && f.tried[m] == sv[i];
    }
    ApartParts(f.news, sv);
    assert Apart(ds);
  }

  lemma {:induction false} AllTimely(e: Env, key: nat, ds: seq<Saved>)
    requires forall i, j | 0 <= i < j < |ds| :: TriedSlot(e, key, ds[i].service) != TriedSlot(e, key, ds[j].service)
    ensures Timely(e, key, ds) == ds
  {
    hide TriedSlot;
    if ds != [] { AllTimely(e, key, ds[..|ds| - 1]); }
  }

  /** When all entries stay, the file has to be free of repetitions. */
  lemma AllStayLoadable(e: Env, f: DiskFile, asmap: nat)
    requires forall i, j | 0 <= i < j < |f.tried| ::
               TriedSlot(e, f.key, f.tried[i].service) != TriedSlot(e, f.key, f.tried[j].service)
    requires forall i | 0 <= i < |f.news| :: e.isValid(f.news[i].service.addr) && i in SeatsOf(e, f, asmap).Values
    requires forall i | 0 <= i < |f.tried| :: e.isValid(f.tried[i].service.addr)
    ensures Loadable(e, f, asmap) <==> Readable(f)
  {
    hide SeatsOf, TriedSlot, Timely;
    AllTimely(e, f.key, f.tried);
    var ds := Entered(e, f);
    forall i | 0 <= i < |ds| ensures Stays(e, f, asmap, i) {}
    if Loadable(e, f, asmap) {
      forall i | 0 <= i < |ds| ensures Fit(ds, |f.news|, i) {}
      forall i | 0 <= i < |f.tried| ensures f.tried[i].nLastSuccess > 0 {
        assert Fit(ds, |f.news|, |f.news| + i);
      }
      forall i | 0 <= i < |f.news| ensures f.news[i].nLastSuccess >= 0 {
        assert Fit(ds, |f.news|, i);
      }
      assert ds == f.news + f.tried;
      forall i, j | 0 <= i < j < |ds| ensures ds[i].service.addr != ds[j].service.addr {
        assert Fit(ds, |f.news|, i);
      }
    } else if Readable(f) {
      ReadableLoadable(e, f, asmap);
    }
  }

  /** An address saved in both tables breaks the state, though with the second entry alone nothing is wrong. */
  lemma RepeatedAddressBreaks(e: Env, key: nat, d: Saved, asmap: nat, order: seq<int>)
    requires key != 0 && d.nLastSuccess > 0 && e.isValid(d.service.addr)
    requires Visits(e, DiskFile(key, [d], [d], [[0]], asmap), asmap, order)
    ensures !Inv(e, Read(e, DiskFile(key, [d], [d], [[0]], asmap), asmap, order))
    ensures Loadable(e, DiskFile(key, [], [d], [], asmap), asmap)
  {
    hide Inv, Filled, Read, Visits, TriedSlot, SeatsOf;
    var f := DiskFile(key, [d], [d], [[0]], asmap);
    AllTimely(e, key, [d]);
    assert Entered(e, f) == [d, d] && Stays(e, f, asmap, 1);
    assert Entered(e, f)[0].service.addr == Entered(e, f)[1].service.addr;
    assert !Fit(Entered(e, f), 1, 1);
    ReadConsistentIff(e, f, asmap, order);
    ReadableLoadable(e, DiskFile(key, [], [d], [], asmap), asmap);
  }

  /** It does no harm if the address is not valid. */
  lemma RepeatedInvalidPasses(e: Env, key: nat, d: Saved, asmap: nat, order: seq<int>)
    requires key != 0 && !e.isValid(d.service.addr)
    requires Visits(e, DiskFile(key, [d], [d], [[0]], asmap), asmap, order)
    ensures Inv(e, Read(e, DiskFile(key, [d], [d], [[0]], asmap), asmap, order))
  {
    hide Inv, Filled, Read, Visits, TriedSlot, SeatsOf, Fit;
    var f := DiskFile(key, [d], [d], [[0]], asmap);
    AllTimely(e, key, [d]);
    assert Entered(e, f) == [d, d];
    ReadConsistentIff(e, f, asmap, order);
  }

  /** It does no harm either in the tried table, where the second entry finds its slot taken. */
  lemma RepeatedTriedPasses(e: Env, key: nat, d: Saved, asmap: nat, order: seq<int>)
    requires key != 0 && d.nLastSuccess > 0
    requires Visits(e, DiskFile(key, [], [d, d], [], asmap), asmap, order)
    ensures Inv(e, Read(e, DiskFile(key, [], [d, d], [], asmap), asmap, order))
  {
    hide Inv, Filled, Read, Visits, TriedSlot, Wanted, Stays, Loadable;
    var f := DiskFile(key, [], [d, d], [], asmap);
    assert [d, d][..1] == [d];
    AllTimely(e, key, [d]);
    WantedMore(e, key, [d]);
    assert Timely(e, key, [d, d]) == [d];
    assert Entered(e, f) == [d];
    OneLoadable(e, f, d, asmap);
    ReadConsistentIff(e, f, asmap, order);
  }

  lemma OneLoadable(e: Env, f: DiskFile, d: Saved, asmap: nat)
    requires f.key != 0 && Entered(e, f) == [d] && d.nLastSuccess > 0
    ensures Loadable(e, f, asmap)
  {
    hide Entered, Stays;
  }
}
