/** Every run of the address manager from an empty table keeps the invariant. */
module AddrRun {
  import opened Basics
  import opened AddrState
  import opened AddrInvariant
  import opened AddrSteps
  import opened AddrOps

  lemma AttemptKeeps(e: Env, s: State, a: Service, countFailure: bool, time: int)
    requires Inv(e, s) && time >= 0
    ensures a.addr in s.addr ==> s.addr[a.addr] in s.info
    ensures Inv(e, Attempt(s, a, countFailure, time)) && Extends(s, Attempt(s, a, countFailure, time))
  {
    hide Indexed, EntriesOk, Counted, TriedPlaced, NewPlaced;
    Linked(e, s, {}, 0);
    if Known(s, a) {
      var id := s.addr[a.addr];
      EntryOk(e, s, id);
      TouchedKeeps(e, s, id, Attempt(s, a, countFailure, time).info[id]);
    }
  }

  ghost function Attempts(e: Env, s: State, a: Service, times: seq<int>): (s': State)
    requires Inv(e, s) && forall k | 0 <= k < |times| :: times[k] >= 0
    ensures Inv(e, s')
    decreases |times|
  {
    if times == [] then s else
    AttemptKeeps(e, s, a, true, times[0]);
    Attempts(e, Attempt(s, a, true, times[0]), a, times[1..])
  }

  /** However often a peer is tried, one failure at most is counted between two successes with whatever peer. */
  lemma {:induction false} FailuresCountOnce(e: Env, s: State, a: Service, times: seq<int>)
    requires Inv(e, s) && Known(s, a) && forall k | 0 <= k < |times| :: times[k] >= 0 && times[k] >= s.lastGood
    ensures var s', id := Attempts(e, s, a, times), s.addr[a.addr];
      && id in s'.info && s'.lastGood == s.lastGood
      && s'.info[id].nAttempts == s.info[id].nAttempts +
           if times != [] && s.info[id].nLastCountAttempt < s.lastGood then 1 else 0
    decreases |times|
  {
    hide Indexed, EntriesOk, Counted, TriedPlaced, NewPlaced;
    Linked(e, s, {}, 0);
    if times != [] {
      AttemptKeeps(e, s, a, true, times[0]);
      FailuresCountOnce(e, Attempt(s, a, true, times[0]), a, times[1..]);
    }
  }

  lemma ConnectedKeeps(e: Env, s: State, a: Service, time: int)
    requires Inv(e, s)
    ensures a.addr in s.addr ==> s.addr[a.addr] in s.info
    ensures Inv(e, Connected(s, a, time)) && Extends(s, Connected(s, a, time))
  {
    hide Indexed, EntriesOk, Counted, TriedPlaced, NewPlaced;
    Linked(e, s, {}, 0);
    if Known(s, a) {
      var id := s.addr[a.addr];
      EntryOk(e, s, id);
      TouchedKeeps(e, s, id, Connected(s, a, time).info[id]);
      assert s.info[id := s.info[id]] == s.info;
    }
  }

  lemma SetServicesKeeps(e: Env, s: State, a: Service, services: set<nat>)
    requires Inv(e, s)
    ensures a.addr in s.addr ==> s.addr[a.addr] in s.info
    ensures Inv(e, SetServices(s, a, services)) && Extends(s, SetServices(s, a, services))
  {
    hide Indexed, EntriesOk, Counted, TriedPlaced, NewPlaced;
    Linked(e, s, {}, 0);
    if Known(s, a) {
      var id := s.addr[a.addr];
      EntryOk(e, s, id);
      TouchedKeeps(e, s, id, SetServices(s, a, services).info[id]);
    }
  }

  /** A position drawn uniformly from those not drawn yet. */
  function Drawn(total: nat, n: nat, x: nat): (p: nat)
    requires n < total
    ensures n <= p < total
  {
    n + x % (total - n)
  }

  /** The selection of random entries draws vRandom into a new order, one position at a time. */
  ghost function Shuffled(s: State, n: nat, picks: seq<nat>): State
    requires IndexOk(s)
    decreases |picks|
  {
    if picks == [] || n >= |s.rnd| then s else
    var p := Drawn(|s.rnd|, n, picks[0]);
    SwappedIndexed(s, n, p);
    Shuffled(Swapped(s, n, p), n + 1, picks[1..])
  }

  lemma SwappedKeeps(e: Env, s: State, p1: int, p2: int)
    requires Inv(e, s) && 0 <= p1 < |s.rnd| && 0 <= p2 < |s.rnd|
    ensures IndexOk(s) && s.rnd[p1] in s.info && s.rnd[p2] in s.info
    ensures Inv(e, Swapped(s, p1, p2)) && Extends(s, Swapped(s, p1, p2))
    ensures Swapped(s, p1, p2) == s.(info := Swapped(s, p1, p2).info, rnd := Swapped(s, p1, p2).rnd)
  {
    SwappedIndexed(s, p1, p2);
    ReorderedKeeps(e, s, Swapped(s, p1, p2).info, Swapped(s, p1, p2).rnd);
  }

  lemma ReorderedKeeps(e: Env, s: State, info': map<int, Info>, rnd': seq<int>)
    requires Inv(e, s) && Reordered(s.info, info') && |rnd'| == |s.rnd|
    requires Indexed(info', s.addr, rnd', s.idCount)
    ensures Inv(e, s.(info := info', rnd := rnd')) && Extends(s, s.(info := info', rnd := rnd'))
  {
    hide Indexed;
    ReorderedParts(e, s.key, s.info, info', s.tried, s.news);
  }

  lemma ReorderedParts(e: Env, key: nat, info: map<int, Info>, info': map<int, Info>, tried: map<Slot, int>, news: map<Slot, int>)
    requires Reordered(info, info')
    ensures EntriesOk(info, {}) ==> EntriesOk(info', {})
    ensures TriedIds(info') == TriedIds(info) && NewIds(info') == NewIds(info)
    ensures TriedPlaced(e, key, info, tried) ==> TriedPlaced(e, key, info', tried)
    ensures NewPlaced(e, key, info, news) ==> NewPlaced(e, key, info', news)
  {
    forall id ensures id in info' <==> id in info {}
    forall slot | slot in tried && tried[slot] in info ensures SameButPos(info'[tried[slot]], info[tried[slot]]) {
      var id := tried[slot];
      assert id in info';
    }
    forall slot | slot in news && news[slot] in info ensures SameButPos(info'[news[slot]], info[news[slot]]) {
      var id := news[slot];
      assert id in info';
    }
    forall id ensures id in TriedIds(info') <==> id in TriedIds(info) {}
    forall id ensures id in NewIds(info') <==> id in NewIds(info) {}
  }

  lemma {:induction false} ShuffledKeeps(e: Env, s: State, n: nat, picks: seq<nat>)
    requires Inv(e, s)
    ensures Inv(e, Shuffled(s, n, picks)) && Extends(s, Shuffled(s, n, picks))
    ensures Shuffled(s, n, picks).collisions == s.collisions
    decreases |picks|
  {
    hide Indexed, EntriesOk, Counted, TriedPlaced, NewPlaced;
    if picks != [] && n < |s.rnd| {
      var p := Drawn(|s.rnd|, n, picks[0]);
      SwappedKeeps(e, s, n, p);
      ShuffledKeeps(e, Swapped(s, n, p), n + 1, picks[1..]);
    }
  }

  lemma {:induction false} ShuffledSnoc(s: State, n: nat, picks: seq<nat>, x: nat)
    requires IndexOk(s) && n + |picks| < |s.rnd|
    ensures var t, k := Shuffled(s, n, picks), n + |picks|;
      && IndexOk(t) && |t.rnd| == |s.rnd|
      && Shuffled(s, n, picks + [x]) == Swapped(t, k, Drawn(|s.rnd|, k, x))
    decreases |picks|
  {
    hide Indexed, Swapped, Drawn;
    if picks == [] {
      var p := Drawn(|s.rnd|, n, x);
      assert (picks + [x])[1..] == [];
      IndexRange(s, n);
      IndexRange(s, p);
    } else {
      var p := Drawn(|s.rnd|, n, picks[0]);
      SwappedIndexed(s, n, p);
      IndexRange(s, n);
      IndexRange(s, p);
      assert (picks + [x])[1..] == picks[1..] + [x];
      ShuffledSnoc(Swapped(s, n, p), n + 1, picks[1..], x);
      var t, k := Shuffled(s, n, picks), n + |picks|;
      IndexRange(t, k);
      IndexRange(t, Drawn(|s.rnd|, k, x));
    }
  }

  lemma IndexRange(s: State, p: int)
    requires IndexOk(s) && 0 <= p < |s.rnd|
    ensures s.rnd[p] in s.info
  {
  }

  function Limit(total: nat, maxAddresses: nat, maxPct: nat): nat {
    var n := if maxPct != 0 then maxPct * total / 100 else total;
    if maxAddresses != 0 && maxAddresses < n then maxAddresses else n
  }

  predicate Offers(e: Env, i: Info, network: Option<nat>, now: int) {
    (network == None || network == Some(e.netClass(i.service.addr))) && !IsTerrible(i, now)
  }

  function AddressOf(i: Info): Address {
    Address(i.service, i.nTime, i.services)
  }

  /** The addresses offered among the first n of vRandom. */
  ghost function Offered(e: Env, s: State, n: nat, network: Option<nat>, now: int): seq<Address>
    requires n <= |s.rnd| && forall k | 0 <= k < n :: s.rnd[k] in s.info
  {
    if n == 0 then [] else
    var i := s.info[s.rnd[n - 1]];
    Offered(e, s, n - 1, network, now) + if Offers(e, i, network, now) then [AddressOf(i)] else []
  }

  lemma SwappedLater(s: State, m: nat, p: nat, k: nat)
    requires IndexOk(s) && k < m < |s.rnd| && m <= p < |s.rnd|
    ensures s.rnd[m] in s.info && s.rnd[p] in s.info && s.rnd[k] in s.info
    ensures var t := Swapped(s, m, p);
      && |t.rnd| == |s.rnd| && t.rnd[k] == s.rnd[k] && t.rnd[k] in t.info
      && SameButPos(t.info[s.rnd[k]], s.info[s.rnd[k]])
  {
  }

  lemma SameOffer(e: Env, i: Info, j: Info, network: Option<nat>, now: int)
    requires SameButPos(i, j)
    ensures Offers(e, i, network, now) == Offers(e, j, network, now) && AddressOf(i) == AddressOf(j)
  {
  }

  /** Drawing later positions does not disturb what the earlier ones offer. */
  lemma {:induction false} OfferedSwapped(e: Env, s: State, n: nat, m: nat, p: nat, network: Option<nat>, now: int)
    requires IndexOk(s) && n <= m < |s.rnd| && m <= p < |s.rnd|
    ensures s.rnd[m] in s.info && s.rnd[p] in s.info
    ensures var t := Swapped(s, m, p);
      && |t.rnd| == |s.rnd|
      && (forall k | 0 <= k < n :: t.rnd[k] in t.info && s.rnd[k] in s.info)
      && Offered(e, t, n, network, now) == Offered(e, s, n, network, now)
  {
    hide Indexed, Swapped, Offers, AddressOf, SameButPos;
    IndexRange(s, m);
    IndexRange(s, p);
    SwappedIndexed(s, m, p);
    if n > 0 {
      OfferedSwapped(e, s, n - 1, m, p, network, now);
      var t, id := Swapped(s, m, p), s.rnd[n - 1];
      SwappedLater(s, m, p, n - 1);
      SameOffer(e, t.info[id], s.info[id], network, now);
    }
  }

  /** When every position is drawn, exactly the entries of good quality are offered. */
  lemma {:induction false} OfferedExactly(e: Env, s: State, n: nat, network: Option<nat>, now: int, a: Address)
    requires IndexOk(s) && n <= |s.rnd|
    ensures forall k | 0 <= k < n :: s.rnd[k] in s.info
    ensures a in Offered(e, s, n, network, now) <==>
      exists id :: id in s.info && s.info[id].nRandomPos < n && Offers(e, s.info[id], network, now) && a == AddressOf(s.info[id])
  {
    if n > 0 {
      OfferedExactly(e, s, n - 1, network, now, a);
      var last := s.rnd[n - 1];
      assert s.info[last].nRandomPos == n - 1;
      assert forall id | id in s.info && s.info[id].nRandomPos == n - 1 :: id == last;
    }
  }

  datatype Op =
    | DoAdd(address: Address, source: NetAddr, penalty: int, now: int, roll: nat)
    | DoGood(a: Service, testBeforeEvict: bool, time: int)
    | DoAttempt(a: Service, countFailure: bool, time: int)
    | DoConnected(a: Service, time: int)
    | DoSetServices(a: Service, services: set<nat>)
    | DoResolve(now: int)
    | DoSelectCollision(id: int)
    | DoGetAddr(picks: seq<nat>)
    | DoClear(key: nat)

  /** Times are positive, and random keys are not zero. */
  predicate Timely(op: Op) {
    match op
    case DoClear(key) => key != 0
    case DoGood(_, _, time) => time > 0
    case DoAttempt(_, _, time) => time > 0
    case DoResolve(now) => now > 0
    case _ => true
  }

  ghost function Step(e: Env, s: State, op: Op): State
    requires Inv(e, s) && Timely(op)
  {
    Linked(e, s, {}, 0);
    match op
    case DoAdd(a, source, penalty, now, roll) => Add(e, s, a, source, penalty, now, roll)
    case DoGood(a, testBeforeEvict, time) => Good(e, s, a, testBeforeEvict, time)
    case DoAttempt(a, countFailure, time) => Attempt(s, a, countFailure, time)
    case DoConnected(a, time) => Connected(s, a, time)
    case DoSetServices(a, services) => SetServices(s, a, services)
    case DoResolve(now) => ResolvedAll(e, s, s.collisions, now)
    case DoSelectCollision(id) => if id in s.collisions then CollisionSelected(e, s, id).0 else s
    case DoGetAddr(picks) => Shuffled(s, 0, picks)
    case DoClear(key) => Cleared(key, s.collisions)
  }

  /** A selection is of a collision whose entry is gone or whose tried slot is occupied. */
  predicate Guarded(e: Env, s: State, op: Op) {
    op.DoSelectCollision? && op.id in s.collisions && op.id in s.info ==>
      TriedSlot(e, s.key, s.info[op.id].service) in s.tried
  }

  /** Every operation but an unguarded selection keeps the invariant, and that one always breaks it. */
  lemma StepKeepsIff(e: Env, s: State, op: Op)
    requires Inv(e, s) && Timely(op)
    ensures Inv(e, Step(e, s, op)) <==> Guarded(e, s, op)
  {
    hide Indexed, EntriesOk, Counted, TriedPlaced, NewPlaced, Add, Good, ResolvedAll, Shuffled, InvExcept, TriedSlot;
    Linked(e, s, {}, 0);
    match op
    case DoAdd(a, source, penalty, now, roll) => AddKeeps(e, s, a, source, penalty, now, roll);
    case DoGood(a, testBeforeEvict, time) => GoodKeeps(e, s, a, testBeforeEvict, time);
    case DoAttempt(a, countFailure, time) => AttemptKeeps(e, s, a, countFailure, time);
    case DoConnected(a, time) => ConnectedKeeps(e, s, a, time);
    case DoSetServices(a, services) => SetServicesKeeps(e, s, a, services);
    case DoResolve(now) => ResolvedAllKeeps(e, s, s.collisions, now);
    case DoSelectCollision(id) => CollisionSelectedKeepsIff(e, s, id);
    case DoGetAddr(picks) => ShuffledKeeps(e, s, 0, picks);
    case DoClear(key) => ClearedKeeps(e, key, s.collisions);
  }

  /** Nothing is cleared while collisions are pending. */
  predicate Settled(s: State, op: Op) {
    op.DoClear? ==> s.collisions == {}
  }

  lemma StepKeeps(e: Env, s: State, op: Op)
    requires Inv(e, s) && CollisionsOk(e, s) && Timely(op) && Settled(s, op)
    ensures Inv(e, Step(e, s, op)) && CollisionsOk(e, Step(e, s, op)) && Guarded(e, s, op)
  {
    hide Indexed, EntriesOk, Counted, TriedPlaced, NewPlaced, CollisionsOk, Add, Good, ResolvedAll, Shuffled, InvExcept;
    Linked(e, s, {}, 0);
    var s' := Step(e, s, op);
    match op
    case DoAdd(a, source, penalty, now, roll) =>
      AddKeeps(e, s, a, source, penalty, now, roll);
      AddExtends(e, s, a, source, penalty, now, roll);
      ExtendsCollisions(e, s, s');
    case DoGood(a, testBeforeEvict, time) =>
      GoodKeeps(e, s, a, testBeforeEvict, time);
      GoodCollisions(e, s, a, testBeforeEvict, time);
    case DoAttempt(a, countFailure, time) =>
      AttemptKeeps(e, s, a, countFailure, time);
      ExtendsCollisions(e, s, s');
    case DoConnected(a, time) =>
      ConnectedKeeps(e, s, a, time);
      ExtendsCollisions(e, s, s');
    case DoSetServices(a, services) =>
      SetServicesKeeps(e, s, a, services);
      ExtendsCollisions(e, s, s');
    case DoResolve(now) =>
      ResolvedAllKeeps(e, s, s.collisions, now);
    case DoSelectCollision(id) =>
      if id in s.collisions {
        SelectKeeps(e, s, id);
      }
    case DoGetAddr(picks) =>
      ShuffledKeeps(e, s, 0, picks);
      ExtendsCollisions(e, s, s');
    case DoClear(key) =>
      ClearedKeeps(e, key, s.collisions);
      NothingPending(e, key);
  }

  lemma NothingPending(e: Env, key: nat)
    ensures CollisionsOk(e, Cleared(key, {}))
  {
  }

  /** While collisions are with occupied slots, selecting one changes nothing but a stale id. */
  lemma SelectKeeps(e: Env, s: State, id: int)
    requires Inv(e, s) && CollisionsOk(e, s) && id in s.collisions
    ensures var (s', old') := CollisionSelected(e, s, id);
      && Inv(e, s') && CollisionsOk(e, s')
      && s' == s.(collisions := s'.collisions)
      && (id in s.info ==> s'.collisions == s.collisions && old'.fInTried
                           && TriedSlot(e, s.key, old'.service) == TriedSlot(e, s.key, s.info[id].service))
  {
    CollisionSelectedKeepsIff(e, s, id);
  }

  /** Every selection of the run is guarded where it happens. */
  ghost predicate GuardedRun(e: Env, s: State, ops: seq<Op>)
    requires Inv(e, s) && forall op | op in ops :: Timely(op)
    decreases |ops|
  {
    ops != [] ==>
      && Guarded(e, s, ops[0])
      && (StepKeepsIff(e, s, ops[0]); GuardedRun(e, Step(e, s, ops[0]), ops[1..]))
  }

  ghost function Run(e: Env, s: State, ops: seq<Op>): (s': State)
    requires Inv(e, s) && (forall op | op in ops :: Timely(op)) && GuardedRun(e, s, ops)
    ensures Inv(e, s')
    decreases |ops|
  {
    if ops == [] then s else
    StepKeepsIff(e, s, ops[0]);
    Run(e, Step(e, s, ops[0]), ops[1..])
  }

  /** Every clearing of the run happens without pending collisions. */
  ghost predicate SettledRun(e: Env, s: State, ops: seq<Op>)
    requires Inv(e, s) && CollisionsOk(e, s) && forall op | op in ops :: Timely(op)
    decreases |ops|
  {
    ops != [] ==>
      && Settled(s, ops[0])
      && (StepKeeps(e, s, ops[0]); SettledRun(e, Step(e, s, ops[0]), ops[1..]))
  }

  /** A run without clearing is one. */
  lemma {:induction false} NoClearSettled(e: Env, s: State, ops: seq<Op>)
    requires Inv(e, s) && CollisionsOk(e, s) && forall op | op in ops :: Timely(op) && !op.DoClear?
    ensures SettledRun(e, s, ops)
    decreases |ops|
  {
    hide Inv, CollisionsOk, Step;
    if ops != [] {
      StepKeeps(e, s, ops[0]);
      NoClearSettled(e, Step(e, s, ops[0]), ops[1..]);
    }
  }

  lemma {:induction false} RunKeeps(e: Env, s: State, ops: seq<Op>)
    requires Inv(e, s) && CollisionsOk(e, s) && (forall op | op in ops :: Timely(op)) && SettledRun(e, s, ops)
    ensures GuardedRun(e, s, ops) && Inv(e, Run(e, s, ops)) && CollisionsOk(e, Run(e, s, ops))
    decreases |ops|
  {
    hide Inv, CollisionsOk, Step, Guarded;
    if ops != [] {
      StepKeeps(e, s, ops[0]);
      RunKeeps(e, Step(e, s, ops[0]), ops[1..]);
    }
  }

  /** The consistency check passes after any sequence of operations on a fresh manager, as long as it is cleared
      only while no collision is pending. */
  lemma EveryRunConsistent(e: Env, key: nat, ops: seq<Op>)
    requires key != 0 && forall op | op in ops :: Timely(op)
    ensures Inv(e, Cleared(key, {})) && CollisionsOk(e, Cleared(key, {}))
    ensures (forall op | op in ops :: !op.DoClear?) ==> SettledRun(e, Cleared(key, {}), ops)
    ensures SettledRun(e, Cleared(key, {}), ops) ==>
      GuardedRun(e, Cleared(key, {}), ops)
      && Inv(e, Run(e, Cleared(key, {}), ops)) && CollisionsOk(e, Run(e, Cleared(key, {}), ops))
  {
    hide Inv, CollisionsOk, Step;
    ClearedKeeps(e, key, {});
    NothingPending(e, key);
    if forall op | op in ops :: !op.DoClear? { NoClearSettled(e, Cleared(key, {}), ops); }
    if SettledRun(e, Cleared(key, {}), ops) { RunKeeps(e, Cleared(key, {}), ops); }
  }
}
