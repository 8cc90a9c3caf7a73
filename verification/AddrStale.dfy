/** A run that breaks the address manager: a collision that is pending when it is cleared outlives the entry
    it was about, and names the first entry added afterwards. */
module AddrStale {
  import opened AddrState
  import opened AddrSteps
  import opened AddrOps
  import opened AddrRun
  import opened AddrRestore

  /** A new address takes the next id and leaves all other ids alone. */
  lemma AddCounts(e: Env, s: State, a: Address, source: NetAddr, penalty: int, now: int, roll: nat)
    requires Inv(e, s) && e.isRoutable(a.service.addr) && a.service.addr !in s.addr
    ensures Add(e, s, a, source, penalty, now, roll).idCount == s.idCount + 1
  {
    hide Indexed, EntriesOk, Counted, TriedPlaced, NewPlaced, Filed;
    Linked(e, s, {}, 0);
    var pen := if a.service.addr == source then 0 else penalty;
    IntroducedKeeps(e, s, a, source, pen);
    Linked(e, Introduced(s, a, source, pen), {s.idCount}, 1);
    FiledExtends(e, Introduced(s, a, source, pen), s.idCount, source, now);
  }

  /** What adding an address to a free new slot comes to. */
  lemma AddedToFree(e: Env, s: State, a: Address, source: NetAddr, now: int, s': State)
    requires Inv(e, s) && e.isRoutable(a.service.addr) && a.service.addr !in s.addr
    requires NewSlot(e, s.key, a.service, source) !in s.news && s' == Add(e, s, a, source, 0, now, 0)
    ensures Inv(e, s') && s'.key == s.key && s'.idCount == s.idCount + 1
    ensures s'.tried == s.tried && s'.collisions == s.collisions
    ensures s'.news == s.news[NewSlot(e, s.key, a.service, source) := s.idCount]
    ensures s.idCount in s'.info && s'.info[s.idCount].service == a.service && !s'.info[s.idCount].fInTried
    ensures forall id | id in s.info :: id in s'.info
    ensures forall id | id in s'.info && id != s.idCount :: id in s.info && s'.info[id].service == s.info[id].service
  {
    hide Indexed, EntriesOk, Counted, TriedPlaced, Add, NewSlot;
    AddKeeps(e, s, a, source, 0, now, 0);
    AddCounts(e, s, a, source, 0, now, 0);
    AddExtends(e, s, a, source, 0, now, 0);
    AddNewMeaning(e, s, a, source, 0, now, 0);
    forall id | id in s.info ensures id in s'.info {
      if id !in s'.info { AddLosesOnlyTerrible(e, s, a, source, 0, now, 0, id); }
    }
    forall id | id in s'.info ensures id < s'.idCount { IdBelow(e, s', id); }
    NewHolderOf(e, s', NewSlot(e, s.key, a.service, source));
  }

  /** Two routable addresses that want one tried slot but different new ones. */
  ghost predicate Clashing(e: Env, key: nat, a: Address, b: Address, source: NetAddr) {
    && key != 0 && e.isRoutable(a.service.addr) && e.isRoutable(b.service.addr) && a.service.addr != b.service.addr
    && TriedSlot(e, key, a.service) == TriedSlot(e, key, b.service)
    && NewSlot(e, key, a.service, source) != NewSlot(e, key, b.service, source)
  }

  lemma ClashExample() returns (e: Env, key: nat, a: Address, b: Address, source: NetAddr)
    ensures Clashing(e, key, a, b, source)
  {
    e := Env((_, _) => 0, (_, _, _) => 0, (_, _, _) => 0, (_, _, _) => 0, (_, fNew, _, x: Service) => if fNew then x.port else 0,
             _ => 0, _ => true, _ => true, _ => 0);
    key, source := 1, NetAddr(0, [9]);
    a, b := Address(Service(NetAddr(0, [1]), 1), 1, {}), Address(Service(NetAddr(0, [2]), 2), 1, {});
    assert NewSlot(e, key, a.service, source).pos == 1 && NewSlot(e, key, b.service, source).pos == 2;
    assert [1][0] != [2][0];
  }

  /** Two addresses of one tried slot are on record, and neither is tried. */
  ghost predicate Rivals(e: Env, s: State, a: Service, b: Service) {
    && Inv(e, s) && s.tried == map[] && s.collisions == {}
    && 0 in s.info && s.info[0].service == a && !s.info[0].fInTried
    && 1 in s.info && s.info[1].service == b && !s.info[1].fInTried
    && TriedSlot(e, s.key, a) == TriedSlot(e, s.key, b)
  }

  lemma RivalsAdded(e: Env, key: nat, a: Address, b: Address, source: NetAddr, now: int, s1: State, s2: State)
    requires Clashing(e, key, a, b, source) && Inv(e, Cleared(key, {}))
    requires s1 == Add(e, Cleared(key, {}), a, source, 0, now, 0) && Inv(e, s1)
    requires s2 == Add(e, s1, b, source, 0, now, 0)
    ensures Rivals(e, s2, a.service, b.service) && s2.key == key
  {
    hide Inv, Add, NewSlot, TriedSlot;
    AddedToFree(e, Cleared(key, {}), a, source, now, s1);
    if b.service.addr in s1.addr {
      AddrNames(e, s1, b.service.addr);
    }
    AddedToFree(e, s1, b, source, now, s2);
    StillNew(e, s2);
  }

  lemma AddrNames(e: Env, s: State, a: NetAddr)
    requires Inv(e, s) && a in s.addr
    ensures s.addr[a] in s.info && s.info[s.addr[a]].service.addr == a
  {
  }

  lemma StillNew(e: Env, s: State)
    requires Inv(e, s) && s.tried == map[]
    ensures forall id | id in s.info :: !s.info[id].fInTried
  {
    hide Indexed, EntriesOk, Counted, NewPlaced;
    forall id | id in s.info ensures !s.info[id].fInTried {
      if s.info[id].fInTried { TriedPlace(e, s, id); }
    }
  }

  /** The first of two rivals to succeed is tried; the second has to wait for a test of the first. */
  lemma SecondPends(e: Env, s: State, a: Service, b: Service, time: int, s1: State, s2: State)
    requires Rivals(e, s, a, b) && time > 0
    requires s1 == Good(e, s, b, true, time) && Inv(e, s1) && s2 == Good(e, s1, a, true, time)
    ensures 0 in s2.collisions
  {
    hide Indexed, EntriesOk, Counted, TriedPlaced, NewPlaced, Good, TriedSlot, MadeTried;
    AddrFound(e, s, 0);
    AddrFound(e, s, 1);
    Linked(e, s, {}, 0);
    GoodPromotes(e, s, b, true, time);
    FirstSucceeds(e, s, a, b, time, s1);
    GoodExtends(e, s, b, true, time);
    TriedPlace(e, s1, 1);
    Linked(e, s1, {}, 0);
    AddrFound(e, s1, 0);
    GoodPromotes(e, s1, a, true, time);
  }

  lemma FirstSucceeds(e: Env, s: State, a: Service, b: Service, time: int, s1: State)
    requires Rivals(e, s, a, b) && time > 0 && s1 == Good(e, s, b, true, time)
    ensures 0 in s1.info && s1.info[0] == s.info[0] && s1.collisions == {}
    ensures 1 in s1.info && s1.info[1].service == b
  {
    hide Indexed, EntriesOk, Counted, TriedPlaced, NewPlaced, TriedSlot, MadeTried;
    AddrFound(e, s, 1);
    Linked(e, s, {}, 0);
    SucceededKeeps(e, s, b, time);
    var s0 := Succeeded(s, b, time);
    MadeTriedMovesFreely(e, s0, 1);
    MadeTriedExtends(e, s0, 1);
  }

  function StaleOps(a: Address, b: Address, source: NetAddr, now: int, key': nat): seq<Op> {
    [DoAdd(a, source, 0, now, 0), DoAdd(b, source, 0, now, 0), DoGood(b.service, true, now), DoGood(a.service, true, now),
     DoClear(key'), DoAdd(a, source, 0, now, 0)]
  }

  /** The run: two rivals are added, both succeed, the manager is cleared while the second is pending, and an address
      is added.  It gets the id that is pending, its tried slot is free, and the next selection breaks the invariant. */
  lemma StaleCollisionBreaks(e: Env, key: nat, a: Address, b: Address, source: NetAddr, now: int, key': nat)
    requires Clashing(e, key, a, b, source) && now > 0 && key' != 0
    ensures Inv(e, Cleared(key, {})) && forall op | op in StaleOps(a, b, source, now, key') :: Timely(op)
    ensures GuardedRun(e, Cleared(key, {}), StaleOps(a, b, source, now, key'))
    ensures var s := Run(e, Cleared(key, {}), StaleOps(a, b, source, now, key'));
      0 in s.collisions && 0 in s.info && !Guarded(e, s, DoSelectCollision(0)) && !Inv(e, Step(e, s, DoSelectCollision(0)))
  {
    hide Inv, GuardedRun, Run, Add, Good, ResolvedAll, Shuffled, CollisionSelected, TriedSlot, NewSlot, Clashing, Rivals;
    var ops, s0 := StaleOps(a, b, source, now, key'), Cleared(key, {});
    ClashingRoutable(e, key, a, b, source);
    ClearedKeeps(e, key, {});
    var s1 := RunNext(e, s0, ops, 0);
    var s2 := RunNext(e, s1, ops, 1);
    var s3 := RunNext(e, s2, ops, 2);
    var s4 := RunNext(e, s3, ops, 3);
    var s5 := RunNext(e, s4, ops, 4);
    var s6 := RunNext(e, s5, ops, 5);
    RunNothing(e, s6);
    assert ops[0..] == ops && ops[6..] == [];
    RivalsAdded(e, key, a, b, source, now, s1, s2);
    SecondPends(e, s2, a.service, b.service, now, s3, s4);
    AddedToFree(e, s5, a, source, now, s6);
    StepKeepsIff(e, s6, DoSelectCollision(0));
  }

  lemma ClashingRoutable(e: Env, key: nat, a: Address, b: Address, source: NetAddr)
    requires Clashing(e, key, a, b, source)
    ensures key != 0 && e.isRoutable(a.service.addr)
  {
  }

  lemma RunNothing(e: Env, s: State)
    requires Inv(e, s)
    ensures GuardedRun(e, s, []) && Run(e, s, []) == s
  {
  }

  /** The k-th step of a run without selections, and how the run goes on from there. */
  lemma RunNext(e: Env, s: State, ops: seq<Op>, k: nat) returns (s': State)
    requires Inv(e, s) && k < |ops| && (forall op | op in ops :: Timely(op)) && !ops[k].DoSelectCollision?
    ensures s' == Step(e, s, ops[k]) && Inv(e, s')
    ensures GuardedRun(e, s', ops[k + 1..]) ==>
      GuardedRun(e, s, ops[k..]) && Run(e, s, ops[k..]) == Run(e, s', ops[k + 1..])
  {
    hide Inv, Step;
    s' := Step(e, s, ops[k]);
    StepKeepsIff(e, s, ops[k]);
    assert ops[k..][1..] == ops[k + 1..];
  }
}
