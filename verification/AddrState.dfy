/** The address manager's data and, for each operation, the state it leaves behind.

    The two bucket tables are kept here as maps from occupied slots to entry ids; the class in
    AddrMan.dfy stores them as arrays in which -1 marks a free slot.  Hashes, address
    classification and group keys are functions in `Env`; the clock and the random source are
    arguments of the operations that consult them.
 */
module AddrState {
  import opened Basics
  import opened Numbers

  const TRIED_BUCKETS: nat := 256
  const NEW_BUCKETS: nat := 1024
  const BUCKET_SIZE: nat := 64
  const TRIED_BUCKETS_PER_GROUP: nat := 8
  const NEW_BUCKETS_PER_SOURCE_GROUP: nat := 64
  const NEW_BUCKETS_PER_ADDRESS: nat := 8
  const HORIZON: nat := 30 * 24 * 60 * 60
  const RETRIES: nat := 3
  const MAX_FAILURES: nat := 10
  const MIN_FAIL: nat := 7 * 24 * 60 * 60
  const REPLACEMENT: nat := 4 * 60 * 60
  const TEST_WINDOW: nat := 40 * 60
  const COLLISION_SIZE: nat := 10

  datatype NetAddr = NetAddr(net: nat, bytes: seq<nat>)
  datatype Service = Service(addr: NetAddr, port: nat)
  datatype Address = Address(service: Service, nTime: nat, services: set<nat>)

  datatype Info = Info(
    service: Service, nTime: nat, services: set<nat>, source: NetAddr,
    nLastTry: int, nLastCountAttempt: int, nLastSuccess: int, nAttempts: int,
    nRefCount: int, fInTried: bool, nRandomPos: int)

  datatype Slot = Slot(bucket: nat, pos: nat)

  /** 64-bit hashes of the serialized arguments, and what the network layer knows of an address. */
  datatype Env = Env(
    keyHash: (nat, Service) -> nat,
    triedHash: (nat, nat, nat) -> nat,
    groupHash: (nat, nat, nat) -> nat,
    sourceHash: (nat, nat, nat) -> nat,
    posHash: (nat, bool, nat, Service) -> nat,
    group: NetAddr -> nat,
    isRoutable: NetAddr -> bool,
    isValid: NetAddr -> bool,
    netClass: NetAddr -> nat)

  datatype State = State(
    key: nat, idCount: int,
    info: map<int, Info>, addr: map<NetAddr, int>, rnd: seq<int>,
    nTried: int, tried: map<Slot, int>,
    nNew: int, news: map<Slot, int>,
    lastGood: int, collisions: set<int>)

  // ---------------------------------------------------------------- buckets

  function Position(e: Env, key: nat, fNew: bool, bucket: nat, a: Service): nat {
    e.posHash(key, fNew, bucket, a) % BUCKET_SIZE
  }

  function TriedSlot(e: Env, key: nat, a: Service): Slot {
    var hash1 := e.keyHash(key, a);
    var bucket := e.triedHash(key, e.group(a.addr), hash1 % TRIED_BUCKETS_PER_GROUP) % TRIED_BUCKETS;
    Slot(bucket, Position(e, key, false, bucket, a))
  }

  function NewSlot(e: Env, key: nat, a: Service, source: NetAddr): Slot {
    var hash1 := e.groupHash(key, e.group(a.addr), e.group(source));
    var bucket := e.sourceHash(key, e.group(source), hash1 % NEW_BUCKETS_PER_SOURCE_GROUP) % NEW_BUCKETS;
    Slot(bucket, Position(e, key, true, bucket, a))
  }

  /** The new-table slot an entry may occupy in a given bucket. */
  predicate Fits(e: Env, key: nat, slot: Slot, a: Service) {
    slot.bucket < NEW_BUCKETS && slot.pos == Position(e, key, true, slot.bucket, a)
  }

  predicate IsTerrible(i: Info, now: int) {
    if i.nLastTry != 0 && i.nLastTry >= now - 60 then false
    else if i.nTime > now + 10 * 60 then true
    else if i.nTime == 0 || now - i.nTime > HORIZON then true
    else if i.nLastSuccess == 0 && i.nAttempts >= RETRIES then true
    else now - i.nLastSuccess > MIN_FAIL && i.nAttempts >= MAX_FAILURES
  }

  /** Conversion of a 64-bit time to the 32-bit nTime field. */
  function U32(x: int): nat { x % 0x1_0000_0000 }

  // ---------------------------------------------------------------- the state

  function Slots(news: map<Slot, int>, id: int): set<Slot> {
    set slot | slot in news && news[slot] == id
  }

  ghost function TriedIds(info: map<int, Info>): set<int> {
    set id | id in info && info[id].fInTried
  }

  ghost function NewIds(info: map<int, Info>): set<int> {
    set id | id in info && !info[id].fInTried
  }

  /** mapInfo, mapAddr and vRandom index the same entries. */
  ghost predicate Indexed(info: map<int, Info>, addr: map<NetAddr, int>, rnd: seq<int>, idCount: int) {
    && (forall id | id in info ::
          && 0 <= id < idCount
          && info[id].service.addr in addr && addr[info[id].service.addr] == id
          && 0 <= info[id].nRandomPos < |rnd| && rnd[info[id].nRandomPos] == id)
    && (forall a | a in addr :: addr[a] in info && info[addr[a]].service.addr == a)
    && (forall p | 0 <= p < |rnd| :: rnd[p] in info && info[rnd[p]].nRandomPos == p)
  }

  /** Flags, reference counts and times of each entry; `limbo` holds entries that an operation has
      taken out of both tables and not yet put back. */
  ghost predicate EntriesOk(info: map<int, Info>, limbo: set<int>) {
    && (forall id | id in info ::
          && info[id].nLastTry >= 0 && info[id].nLastSuccess >= 0
          && (info[id].fInTried ==> info[id].nLastSuccess != 0 && info[id].nRefCount == 0)
          && (!info[id].fInTried && id !in limbo ==> 1 <= info[id].nRefCount <= NEW_BUCKETS_PER_ADDRESS))
    && (forall id | id in limbo :: id in info && !info[id].fInTried && info[id].nRefCount == 0)
  }

  ghost predicate Counted(info: map<int, Info>, limbo: set<int>, nTried: int, nNew: int, total: nat) {
    && |TriedIds(info)| == nTried
    && |NewIds(info) - limbo| == nNew
    && total == nTried + nNew + |limbo|
  }

  /** Each tried entry sits at its hashed slot and nowhere else. */
  ghost predicate TriedPlaced(e: Env, key: nat, info: map<int, Info>, tried: map<Slot, int>) {
    && (forall slot | slot in tried ::
          && tried[slot] in info && info[tried[slot]].fInTried
          && slot == TriedSlot(e, key, info[tried[slot]].service))
    && (forall id | id in info && info[id].fInTried ::
          var slot := TriedSlot(e, key, info[id].service);
          slot in tried && tried[slot] == id)
  }

  /** Each new-table reference fits its slot, and reference counts count the references. */
  ghost predicate NewPlaced(e: Env, key: nat, info: map<int, Info>, news: map<Slot, int>) {
    && (forall slot | slot in news ::
          && news[slot] in info && !info[news[slot]].fInTried
          && Fits(e, key, slot, info[news[slot]].service))
    && (forall id | id in info && !info[id].fInTried :: |Slots(news, id)| == info[id].nRefCount)
  }

  ghost predicate IndexOk(s: State) {
    Indexed(s.info, s.addr, s.rnd, s.idCount)
  }

  /** The invariant while the entries of `limbo` are in neither table; nNew still counts `extra` of them. */
  ghost predicate InvExcept(e: Env, s: State, limbo: set<int>, extra: int) {
    && s.key != 0 && s.idCount >= 0
    && Indexed(s.info, s.addr, s.rnd, s.idCount)
    && EntriesOk(s.info, limbo)
    && Counted(s.info, limbo, s.nTried, s.nNew - extra, |s.rnd|)
    && TriedPlaced(e, s.key, s.info, s.tried)
    && NewPlaced(e, s.key, s.info, s.news)
  }

  /** The consistency check the source states, together with: mapAddr and vRandom hold nothing else. */
  ghost predicate Inv(e: Env, s: State) {
    InvExcept(e, s, {}, 0)
  }

  /** Every pending collision that still names an entry is with an occupied tried slot. */
  ghost predicate CollisionsOk(e: Env, s: State) {
    && (forall id | id in s.collisions :: id < s.idCount)
    && (forall id | id in s.collisions && id in s.info :: TriedSlot(e, s.key, s.info[id].service) in s.tried)
  }

  // ---------------------------------------------------------------- operations

  function Cleared(key: nat, collisions: set<int>): State {
    State(key, 0, map[], map[], [], 0, map[], 0, map[], 1, collisions)
  }

  function Swapped(s: State, p1: int, p2: int): State
    requires 0 <= p1 < |s.rnd| && s.rnd[p1] in s.info
    requires 0 <= p2 < |s.rnd| && s.rnd[p2] in s.info
  {
    if p1 == p2 then s else
    var id1, id2 := s.rnd[p1], s.rnd[p2];
    var info1 := s.info[id1 := s.info[id1].(nRandomPos := p2)];
    s.(info := info1[id2 := info1[id2].(nRandomPos := p1)], rnd := s.rnd[p1 := id2][p2 := id1])
  }

  function Created(s: State, a: Address, source: NetAddr): State {
    var i := Info(a.service, a.nTime, a.services, source, 0, 0, 0, 0, 0, false, |s.rnd|);
    s.(idCount := s.idCount + 1, info := s.info[s.idCount := i],
       addr := s.addr[a.service.addr := s.idCount], rnd := s.rnd + [s.idCount])
  }

  /** The entry has a position in vRandom, and the entries with which it changes places are there. */
  predicate Droppable(s: State, id: int) {
    && id in s.info && 0 <= s.info[id].nRandomPos < |s.rnd|
    && s.rnd[s.info[id].nRandomPos] in s.info && s.rnd[|s.rnd| - 1] in s.info
  }

  /** Drop the entry from vRandom, mapAddr and mapInfo. */
  function Dropped(s: State, id: int): State
    requires Droppable(s, id)
  {
    var s1 := Swapped(s, s.info[id].nRandomPos, |s.rnd| - 1);
    s1.(rnd := s1.rnd[..|s1.rnd| - 1], addr := s1.addr - {s.info[id].service.addr}, info := s1.info - {id})
  }

  function Deleted(s: State, id: int): State
    requires Droppable(s, id)
  {
    var s1 := Dropped(s, id);
    s1.(nNew := s1.nNew - 1)
  }

  function Unreferenced(s: State, slot: Slot): State
    requires slot in s.news && s.news[slot] in s.info
  {
    var id := s.news[slot];
    s.(news := s.news - {slot}, info := s.info[id := s.info[id].(nRefCount := s.info[id].nRefCount - 1)])
  }

  function Referenced(s: State, id: int, slot: Slot): State
    requires id in s.info
  {
    s.(news := s.news[slot := id], info := s.info[id := s.info[id].(nRefCount := s.info[id].nRefCount + 1)])
  }

  /** The slots from which the move to tried removes an entry. */
  function FittingSlots(e: Env, s: State, id: int): set<Slot>
    requires id in s.info
  {
    set slot | slot in s.news && s.news[slot] == id && Fits(e, s.key, slot, s.info[id].service)
  }

  function Withdrawn(e: Env, s: State, id: int): State
    requires id in s.info
  {
    var slots := FittingSlots(e, s, id);
    s.(news := s.news - slots, nNew := s.nNew - 1,
       info := s.info[id := s.info[id].(nRefCount := s.info[id].nRefCount - |slots|)])
  }

  function Untried(s: State, slot: Slot): State
    requires slot in s.tried && s.tried[slot] in s.info
  {
    var id := s.tried[slot];
    s.(tried := s.tried - {slot}, nTried := s.nTried - 1, info := s.info[id := s.info[id].(fInTried := false)])
  }

  function Tried(s: State, id: int, slot: Slot): State
    requires id in s.info
  {
    s.(tried := s.tried[slot := id], nTried := s.nTried + 1, info := s.info[id := s.info[id].(fInTried := true)])
  }

  /** What is refreshed when an address already known is announced again. */
  function Announced(i: Info, a: Address, penalty: int, now: int): Info {
    var interval := if now - a.nTime < 24 * 60 * 60 then 60 * 60 else 24 * 60 * 60;
    var t := if a.nTime != 0 && (i.nTime == 0 || i.nTime < a.nTime - interval - penalty)
             then U32(Max(0, a.nTime - penalty)) else i.nTime;
    i.(nTime := t, services := i.services + a.services)
  }

  predicate WantsReference(i: Info, a: Address, roll: nat)
    requires i.nRefCount >= 0
  {
    && !(a.nTime == 0 || (i.nTime != 0 && a.nTime <= i.nTime))
    && !i.fInTried
    && i.nRefCount != NEW_BUCKETS_PER_ADDRESS
    && !(Pow(2, i.nRefCount) > 1 && roll != 0)
  }

  /** Whether the holder of a slot gives way to the entry `id`. */
  predicate Yields(s: State, id: int, slot: Slot, now: int)
    requires id in s.info && (slot in s.news ==> s.news[slot] in s.info)
  {
    slot in s.news ==>
      var holder := s.info[s.news[slot]];
      IsTerrible(holder, now) || (holder.nRefCount > 1 && s.info[id].nRefCount == 0)
  }

  function Introduced(s: State, a: Address, source: NetAddr, penalty: int): State {
    var s1 := Created(s, a, source);
    var i := s1.info[s.idCount];
    s1.(nNew := s1.nNew + 1, info := s1.info[s.idCount := i.(nTime := U32(Max(0, i.nTime - penalty)))])
  }

  function Attempt(s: State, a: Service, countFailure: bool, time: int): State
    requires a.addr in s.addr ==> s.addr[a.addr] in s.info
  {
    if a.addr !in s.addr || s.info[s.addr[a.addr]].service != a then s else
    var id := s.addr[a.addr];
    var i := s.info[id].(nLastTry := time);
    s.(info := s.info[id := if countFailure && i.nLastCountAttempt < s.lastGood
                            then i.(nLastCountAttempt := time, nAttempts := i.nAttempts + 1) else i])
  }

  function Connected(s: State, a: Service, time: int): State
    requires a.addr in s.addr ==> s.addr[a.addr] in s.info
  {
    if a.addr !in s.addr || s.info[s.addr[a.addr]].service != a then s else
    var id := s.addr[a.addr];
    if time - s.info[id].nTime > 20 * 60 then s.(info := s.info[id := s.info[id].(nTime := U32(time))]) else s
  }

  function SetServices(s: State, a: Service, services: set<nat>): State
    requires a.addr in s.addr ==> s.addr[a.addr] in s.info
  {
    if a.addr !in s.addr || s.info[s.addr[a.addr]].service != a then s else
    var id := s.addr[a.addr];
    s.(info := s.info[id := s.info[id].(services := services)])
  }

  /** What the resolver does about one pending collision. */
  datatype Verdict = Keep | Erase | Promote

  function Judge(e: Env, s: State, id: int, now: int): Verdict
    requires forall slot | slot in s.tried :: s.tried[slot] in s.info
  {
    if id !in s.info || !e.isValid(s.info[id].service.addr) then Erase else
    var slot := TriedSlot(e, s.key, s.info[id].service);
    if slot !in s.tried then Promote else
    var old' := s.info[s.tried[slot]];
    if now - old'.nLastSuccess < REPLACEMENT then Erase
    else if now - old'.nLastTry < REPLACEMENT then (if now - old'.nLastTry > 60 then Promote else Keep)
    else if now - s.info[id].nLastSuccess > TEST_WINDOW then Promote
    else Keep
  }

  function BlankInfo(): Info {
    Info(Service(NetAddr(0, []), 0), 0, {}, NetAddr(0, []), 0, 0, 0, 0, 0, false, -1)
  }

  /** The entry whose tried slot the pending entry `id` wants, and the state left behind; looking
      up a free slot's -1 in mapInfo inserts a blank entry under that key. */
  function CollisionSelected(e: Env, s: State, id: int): (State, Info) {
    if id !in s.info then (s.(collisions := s.collisions - {id}), BlankInfo()) else
    var slot := TriedSlot(e, s.key, s.info[id].service);
    var old' := if slot in s.tried then s.tried[slot] else -1;
    if old' in s.info then (s, s.info[old'])
    else (s.(info := s.info[old' := BlankInfo()]), BlankInfo())
  }
}
