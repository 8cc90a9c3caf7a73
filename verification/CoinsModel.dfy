/** A stack of write-back coin caches over a database, as a value: what each operation makes of it, and
    the plain outpoint-to-coin maps that the layers stand for. */
module CoinsModel {
  datatype OutPoint = OutPoint(hash: nat, n: nat)
  datatype TxOut = TxOut(nValue: int, script: seq<nat>)
  datatype Coin = Coin(out: TxOut, fCoinBase: bool, nHeight: nat, fCoinStake: bool, nTime: nat)

  const OP_RETURN: nat := 0x6a
  const MAX_SCRIPT_SIZE: nat := 10000
  const EMPTY_COIN := Coin(TxOut(-1, []), false, 0, false, 0)

  predicate IsSpent(coin: Coin) { coin.out.nValue == -1 }

  predicate IsUnspendable(script: seq<nat>) {
    (|script| > 0 && script[0] == OP_RETURN) || |script| > MAX_SCRIPT_SIZE
  }

  datatype Entry = Entry(coin: Coin, isDirty: bool, isFresh: bool)
  type Cache = map<OutPoint, Entry>
  type Coins = map<OutPoint, Coin>

  /** Caches stacked on a database; the first layer is the top one. */
  datatype Stack = Db(coins: Coins) | Layer(cache: Cache, base: Stack)

  datatype Result<T> = Ok(value: T) | Throws

  // ---------------------------------------------------------------- what a stack stands for

  /** The unspent coins that one layer shows over those below it. */
  function Overlay(cache: Cache, below: Coins): Coins {
    map o | o in cache.Keys + below.Keys && (o in cache ==> !IsSpent(cache[o].coin)) ::
      if o in cache then cache[o].coin else below[o]
  }

  function View(st: Stack): Coins {
    match st
    case Db(coins) => coins
    case Layer(cache, base) => Overlay(cache, View(base))
  }

  /** The views of all layers, top first. */
  function Views(st: Stack): seq<Coins> {
    match st
    case Db(coins) => [coins]
    case Layer(_, base) => [View(st)] + Views(base)
  }

  lemma ViewsHead(st: Stack)
    ensures |Views(st)| >= 1 && Views(st)[0] == View(st)
    ensures st.Layer? ==> |Views(st)| >= 2 && Views(st)[1..] == Views(st.base)
    ensures st.Layer? && |Views(st)| >= 3 ==> st.base.Layer?
  {
  }

  /** The flag states an entry can be in: FRESH means nothing unspent below, not DIRTY means the same
      coin below, and a spent entry is kept only to carry its spentness down. */
  predicate EntryOk(o: OutPoint, entry: Entry, below: Coins) {
    && (entry.isFresh ==> o !in below && entry.isDirty)
    && (!entry.isDirty ==> o in below && below[o] == entry.coin)
    && (IsSpent(entry.coin) ==> entry.isDirty && !entry.isFresh)
  }

  ghost predicate Inv(st: Stack) {
    match st
    case Db(coins) => forall o | o in coins :: !IsSpent(coins[o])
    case Layer(cache, base) => Inv(base) && forall o | o in cache :: EntryOk(o, cache[o], View(base))
  }

  // ---------------------------------------------------------------- operations

  /** Looking an outpoint up fills every cache on the way down to where it is found. */
  function Fetched(st: Stack, o: OutPoint): Stack {
    match st
    case Db(_) => st
    case Layer(cache, base) =>
      if o in cache then st else
      var base' := Fetched(base, o);
      if o in View(base) then Layer(cache[o := Entry(View(base)[o], false, IsSpent(View(base)[o]))], base')
      else Layer(cache, base')
  }

  function WithCoin(cache: Cache, o: OutPoint, coin: Coin, overwrite: bool): Result<Cache> {
    if IsUnspendable(coin.out.script) then Ok(cache) else
    var entry := if o in cache then cache[o] else Entry(EMPTY_COIN, false, false);
    if !overwrite && !IsSpent(entry.coin) then Throws else
    var isFresh := !overwrite && !entry.isDirty;
    Ok(cache[o := Entry(coin, true, entry.isFresh || isFresh)])
  }

  function Added(st: Stack, o: OutPoint, coin: Coin, overwrite: bool): Result<Stack>
    requires st.Layer?
  {
    match WithCoin(st.cache, o, coin, overwrite)
    case Throws => Throws
    case Ok(cache) => Ok(Layer(cache, st.base))
  }

  function WithoutCoin(cache: Cache, o: OutPoint): Cache {
    if o !in cache then cache
    else if cache[o].isFresh then cache - {o}
    else cache[o := Entry(EMPTY_COIN, true, false)]
  }

  function Spent(st: Stack, o: OutPoint): Stack
    requires st.Layer?
  {
    var st1 := Fetched(st, o);
    Layer(WithoutCoin(st1.cache, o), st1.base)
  }

  function Uncached(st: Stack, o: OutPoint): Stack
    requires st.Layer?
  {
    if o in st.cache && !st.cache[o].isDirty && !st.cache[o].isFresh then Layer(st.cache - {o}, st.base) else st
  }

  /** What a child's entry makes of the entry its parent has for the same outpoint, if any. */
  datatype Merge = Absent | Present(entry: Entry)

  function Merged(us: Merge, them: Entry): Merge {
    if !them.isDirty then us else
    match us
    case Absent =>
      if them.isFresh && IsSpent(them.coin) then Absent else Present(Entry(them.coin, true, them.isFresh))
    case Present(entry) =>
      if entry.isFresh && IsSpent(them.coin) then Absent
      else Present(Entry(them.coin, true, entry.isFresh))
  }

  /** A child entry claims FRESH although its parent's cache holds the coin unspent. */
  predicate Misapplied(cache: Cache, o: OutPoint, them: Entry) {
    them.isDirty && them.isFresh && o in cache && !IsSpent(cache[o].coin)
  }

  function At(cache: Cache, o: OutPoint): Merge {
    if o in cache then Present(cache[o]) else Absent
  }

  function MergedCache(cache: Cache, child: Cache): Cache {
    map o | o in cache.Keys + child.Keys &&
            (if o in child then Merged(At(cache, o), child[o]) else At(cache, o)).Present? ::
      (if o in child then Merged(At(cache, o), child[o]) else At(cache, o)).entry
  }

  function MergedDb(coins: Coins, child: Cache): Coins {
    map o | o in coins.Keys + child.Keys &&
            (if o in child && child[o].isDirty then !IsSpent(child[o].coin) else o in coins) ::
      if o in child && child[o].isDirty then child[o].coin else coins[o]
  }

  function BatchWritten(base: Stack, child: Cache): Result<Stack> {
    match base
    case Db(coins) => Ok(Db(MergedDb(coins, child)))
    case Layer(cache, below) =>
      if exists o | o in child :: Misapplied(cache, o, child[o]) then Throws
      else Ok(Layer(MergedCache(cache, child), below))
  }

  function Flushed(st: Stack): Result<Stack>
    requires st.Layer?
  {
    match BatchWritten(st.base, st.cache)
    case Throws => Throws
    case Ok(base) => Ok(Layer(map[], base))
  }

  lemma OverlayNothing(below: Coins)
    ensures Overlay(map[], below) == below
  {
  }

  lemma OverlayPut(cache: Cache, below: Coins, o: OutPoint, entry: Entry)
    ensures Overlay(cache[o := entry], below) ==
      if IsSpent(entry.coin) then Overlay(cache, below) - {o} else Overlay(cache, below)[o := entry.coin]
  {
  }

  lemma OverlayDrop(cache: Cache, below: Coins, o: OutPoint)
    ensures Overlay(cache - {o}, below) ==
      if o in below then Overlay(cache, below)[o := below[o]] else Overlay(cache, below) - {o}
  {
  }

  // ---------------------------------------------------------------- reading

  lemma {:induction false} FetchedKeeps(st: Stack, o: OutPoint)
    requires Inv(st)
    ensures Inv(Fetched(st, o))
    ensures Views(Fetched(st, o)) == Views(st) && View(Fetched(st, o)) == View(st)
  {
    match st
    case Db(_) =>
    case Layer(cache, base) =>
      if o !in cache {
        FetchedKeeps(base, o);
        ViewUnspent(base);
        hide Overlay;
        if o in View(base) {
          OverlayPut(cache, View(base), o, Entry(View(base)[o], false, false));
          OverlayShows(cache, View(base), o);
          assert View(st)[o := View(base)[o]] == View(st);
        }
      }
  }

  lemma OverlayShows(cache: Cache, below: Coins, o: OutPoint)
    ensures o !in cache ==> (o in Overlay(cache, below) <==> o in below)
    ensures o !in cache && o in below ==> Overlay(cache, below)[o] == below[o]
    ensures o in cache ==> (o in Overlay(cache, below) <==> !IsSpent(cache[o].coin))
    ensures o in cache && !IsSpent(cache[o].coin) ==> Overlay(cache, below)[o] == cache[o].coin
  {
  }

  /** A view shows unspent coins only. */
  lemma {:induction false} ViewUnspent(st: Stack)
    requires Inv(st)
    ensures forall o | o in View(st) :: !IsSpent(View(st)[o])
  {
    match st
    case Db(_) =>
    case Layer(cache, base) => ViewUnspent(base);
  }

  /** After a fetch the top cache answers for the outpoint. */
  lemma FetchedAnswers(st: Stack, o: OutPoint)
    requires Inv(st) && st.Layer?
    ensures var c := Fetched(st, o).cache; o in View(st) <==> o in c && !IsSpent(c[o].coin)
    ensures o in View(st) ==> Fetched(st, o).cache[o].coin == View(st)[o]
  {
    if o !in st.cache {
      ViewUnspent(st.base);
    }
  }

  /** A fetch leaves an entry exactly if there was one or the view shows the coin. */
  lemma FetchedHolds(st: Stack, o: OutPoint)
    requires Inv(st) && st.Layer?
    ensures var c := Fetched(st, o).cache;
      && (o in c <==> o in st.cache || o in View(st))
      && (o in c && o !in View(st) ==> IsSpent(c[o].coin))
  {
    FetchedAnswers(st, o);
  }

  // ---------------------------------------------------------------- changing the top layer

  /** Adding puts the coin in the top view and touches no other layer, provided that a caller who rules
      out an overwrite is right. */
  lemma AddedKeeps(st: Stack, o: OutPoint, coin: Coin, overwrite: bool)
    requires Inv(st) && st.Layer? && !IsSpent(coin)
    requires overwrite || IsUnspendable(coin.out.script) || o !in View(st)
    ensures var r := Added(st, o, coin, overwrite);
      && r.Ok? && Inv(r.value) && r.value.base == st.base
      && View(r.value) == if IsUnspendable(coin.out.script) then View(st) else View(st)[o := coin]
  {
    hide Overlay, IsUnspendable;
    OverlayShows(st.cache, View(st.base), o);
    if !IsUnspendable(coin.out.script) {
      OverlayPut(st.cache, View(st.base), o, Added(st, o, coin, overwrite).value.cache[o]);
    }
  }

  /** Ruling out an overwrite wrongly is either caught or leaves a flag that lies. */
  lemma AddedKeepsIff(st: Stack, o: OutPoint, coin: Coin)
    requires Inv(st) && st.Layer? && !IsSpent(coin) && !IsUnspendable(coin.out.script)
    ensures var r := Added(st, o, coin, false);
      (r.Ok? && Inv(r.value)) <==> o !in View(st)
  {
    if o !in View(st) {
      AddedKeeps(st, o, coin, false);
    } else if o !in st.cache {
      assert o in View(st.base);
      var st' := Added(st, o, coin, false).value;
      assert !EntryOk(o, st'.cache[o], View(st.base));
    }
  }

  /** What the lying flag does: after a spend the coin below is back. */
  lemma MisappliedFreshRevives(db: Coins, o: OutPoint, coin: Coin)
    requires Inv(Db(db)) && o in db && !IsSpent(coin) && !IsUnspendable(coin.out.script)
    ensures var r := Added(Layer(map[], Db(db)), o, coin, false); r.Ok? && o in View(Spent(r.value, o))
  {
  }

  lemma SpentKeeps(st: Stack, o: OutPoint)
    requires Inv(st) && st.Layer?
    ensures var st' := Spent(st, o);
      Inv(st') && View(st') == View(st) - {o} && Views(st')[1..] == Views(st)[1..]
  {
    hide Overlay;
    FetchedKeeps(st, o);
    var st1 := Fetched(st, o);
    assert Views(st1)[1..] == Views(st1.base) && Views(st)[1..] == Views(st.base);
    OverlayShows(st1.cache, View(st1.base), o);
    OverlayDrop(st1.cache, View(st1.base), o);
    OverlayPut(st1.cache, View(st1.base), o, Entry(EMPTY_COIN, true, false));
  }

  /** A coin of the database, once spent, is still cached, so a second spend of it reports success as well. */
  lemma SpentStaysCached(db: Coins, o: OutPoint)
    requires Inv(Db(db)) && o in db
    ensures var st := Spent(Layer(map[], Db(db)), o); Inv(st) && o in st.cache && o !in View(st)
  {
    OverlayNothing(db);
    SpentKeeps(Layer(map[], Db(db)), o);
  }

  lemma UncachedKeeps(st: Stack, o: OutPoint)
    requires Inv(st) && st.Layer?
    ensures Inv(Uncached(st, o)) && Views(Uncached(st, o)) == Views(st)
  {
    assert View(Uncached(st, o)) == View(st) by {
      if Uncached(st, o) != st {
        ViewUnspent(st.base);
      }
    }
  }

  // ---------------------------------------------------------------- flushing

  lemma MergedDbView(coins: Coins, child: Cache)
    requires Inv(Db(coins)) && forall o | o in child :: EntryOk(o, child[o], coins)
    ensures MergedDb(coins, child) == Overlay(child, coins)
    ensures Inv(Db(MergedDb(coins, child)))
  {
  }

  /** No child entry of a consistent stack trips the parent's FRESH test. */
  lemma NeverMisapplied(cache: Cache, below: Coins, child: Cache, o: OutPoint)
    requires o in child && EntryOk(o, child[o], Overlay(cache, below))
    ensures !Misapplied(cache, o, child[o])
  {
  }

  lemma MergedCacheView(cache: Cache, below: Coins, child: Cache)
    requires forall o | o in cache :: EntryOk(o, cache[o], below)
    requires forall o | o in child :: EntryOk(o, child[o], Overlay(cache, below))
    ensures forall o | o in MergedCache(cache, child) :: EntryOk(o, MergedCache(cache, child)[o], below)
    ensures Overlay(MergedCache(cache, child), below) == Overlay(child, Overlay(cache, below))
  {
    var merged, shown := MergedCache(cache, child), Overlay(cache, below);
    forall o
      ensures o in merged ==> EntryOk(o, merged[o], below)
      ensures o in Overlay(merged, below) <==> o in Overlay(child, shown)
      ensures o in Overlay(merged, below) ==> Overlay(merged, below)[o] == Overlay(child, shown)[o]
    {
      MergedAt(cache, below, child, o);
    }
  }

  lemma MergedAt(cache: Cache, below: Coins, child: Cache, o: OutPoint)
    requires o in cache ==> EntryOk(o, cache[o], below)
    requires o in child ==> EntryOk(o, child[o], Overlay(cache, below))
    ensures var merged, shown := MergedCache(cache, child), Overlay(cache, below);
      && (o in merged ==> EntryOk(o, merged[o], below))
      && (o in Overlay(merged, below) <==> o in Overlay(child, shown))
      && (o in Overlay(merged, below) ==> Overlay(merged, below)[o] == Overlay(child, shown)[o])
  {
    var merged, shown := MergedCache(cache, child), Overlay(cache, below);
    var m := if o in child then Merged(At(cache, o), child[o]) else At(cache, o);
    assert o in merged <==> m.Present?;
    assert o in merged ==> merged[o] == m.entry;
    hide MergedCache, Overlay;
    OverlayShows(cache, below, o);
    OverlayShows(merged, below, o);
    OverlayShows(child, shown, o);
  }

  lemma BatchWrittenKeeps(base: Stack, child: Cache)
    requires Inv(Layer(child, base))
    ensures var r := BatchWritten(base, child);
      && r.Ok? && Inv(r.value) && View(r.value) == Overlay(child, View(base))
      && Views(r.value)[1..] == Views(base)[1..]
  {
    match base
    case Db(coins) => MergedDbView(coins, child);
    case Layer(cache, below) =>
      forall o | o in child ensures !Misapplied(cache, o, child[o]) {
        NeverMisapplied(cache, View(below), child, o);
      }
      MergedCacheView(cache, View(below), child);
  }

  /** Flushing never throws, leaves the top view as it is, and makes the parent's view equal to it. */
  lemma FlushedKeeps(st: Stack)
    requires Inv(st) && st.Layer?
    ensures var r := Flushed(st);
      && r.Ok? && Inv(r.value) && r.value.Layer?
      && |Views(st)| >= 2 && Views(r.value) == [View(st), View(st)] + Views(st)[2..]
  {
    hide Overlay, MergedCache, MergedDb;
    BatchWrittenKeeps(st.base, st.cache);
    var st' := Flushed(st).value;
    OverlayNothing(View(st'.base));
    assert View(st') == View(st'.base);
    assert Views(st) == [View(st)] + Views(st.base);
    assert Views(st.base)[1..] == Views(st)[2..];
  }
}
