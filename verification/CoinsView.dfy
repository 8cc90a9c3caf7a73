/** The views as linked objects: each cache holds a pointer to the view it is backed by, lookups fill the
    caches on the way, and memory usage is tracked as entries come and go. */
module CoinsView {
  import opened CoinsModel

  /** Dynamic memory of all cached coins. */
  ghost function Total(usage: seq<nat> -> nat, cache: Cache): nat {
    if cache == map[] then 0 else
    var o :| o in cache;
    usage(cache[o].coin.out.script) + Total(usage, cache - {o})
  }

  lemma {:induction false} TotalAt(usage: seq<nat> -> nat, cache: Cache, o: OutPoint)
    requires o in cache
    ensures Total(usage, cache) == usage(cache[o].coin.out.script) + Total(usage, cache - {o})
    decreases |cache|
  {
    var x :| x in cache && Total(usage, cache) == usage(cache[x].coin.out.script) + Total(usage, cache - {x});
    if x != o {
      TotalAt(usage, cache - {x}, o);
      TotalAt(usage, cache - {o}, x);
      assert cache - {x} - {o} == cache - {o} - {x};
    }
  }

  lemma TotalNothing(usage: seq<nat> -> nat)
    ensures Total(usage, map[]) == 0
  {
  }

  lemma TotalPut(usage: seq<nat> -> nat, cache: Cache, o: OutPoint, entry: Entry)
    ensures Total(usage, cache[o := entry]) ==
      Total(usage, cache) - (if o in cache then usage(cache[o].coin.out.script) else 0) + usage(entry.coin.out.script)
  {
    var cache' := cache[o := entry];
    TotalAt(usage, cache', o);
    if o in cache {
      TotalAt(usage, cache, o);
      assert cache' - {o} == cache - {o};
    } else {
      assert cache' - {o} == cache;
    }
  }

  lemma MergedStep(cache: Cache, done: Cache, o: OutPoint, them: Entry)
    requires o !in done
    ensures At(MergedCache(cache, done), o) == At(cache, o)
    ensures MergedCache(cache, done[o := them]) ==
      match Merged(At(cache, o), them)
      case Absent => MergedCache(cache, done) - {o}
      case Present(entry) => MergedCache(cache, done)[o := entry]
  {
  }

  datatype Tx = Tx(id: nat, inputs: seq<OutPoint>, outputs: seq<TxOut>, isCoinBase: bool, isCoinStake: bool, nTime: nat)

  function Output(tx: Tx, i: nat, height: nat): Coin
    requires i < |tx.outputs|
  {
    Coin(tx.outputs[i], tx.isCoinBase, height, tx.isCoinStake, tx.nTime)
  }

  /** A set of coins with the first n outputs of a transaction, those that can be spent, put in. */
  function WithOutputs(coins: Coins, tx: Tx, n: nat, height: nat): Coins
    requires n <= |tx.outputs|
  {
    if n == 0 then coins else
    var rest := WithOutputs(coins, tx, n - 1, height);
    if IsUnspendable(tx.outputs[n - 1].script) then rest
    else rest[OutPoint(tx.id, n - 1) := Output(tx, n - 1, height)]
  }

  lemma {:induction false} WithOutputsLater(coins: Coins, tx: Tx, n: nat, height: nat, o: OutPoint)
    requires n <= |tx.outputs| && (o.hash != tx.id || o.n >= n)
    ensures o in WithOutputs(coins, tx, n, height) <==> o in coins
  {
    if n > 0 {
      WithOutputsLater(coins, tx, n - 1, height, o);
    }
  }

  /** The values of the coins spent; a missing coin counts -1, the value of an empty output. */
  function InputSum(coins: Coins, inputs: seq<OutPoint>): int {
    if inputs == [] then 0 else
    var o := inputs[|inputs| - 1];
    InputSum(coins, inputs[..|inputs| - 1]) + if o in coins then coins[o].out.nValue else -1
  }

  class CoinsView {
    /** The view below; a view with none is the database. */
    const base: CoinsView?
    const usage: seq<nat> -> nat
    ghost const Repr: set<CoinsView>
    ghost const depth: nat

    var coins: Coins
    var cacheCoins: Cache
    var cachedCoinsUsage: int

    ghost predicate Linked()
      decreases depth
    {
      && usage([]) == 0
      && if base == null then Repr == {this}
         else this !in base.Repr && Repr == {this} + base.Repr && base.depth < depth && base.usage == usage && base.Linked()
    }

    ghost function Model(): Stack
      requires Linked()
      reads this, Repr
      decreases depth
    {
      if base == null then Db(coins) else Layer(cacheCoins, base.Model())
    }

    /** In every layer the counter is the memory of the cached coins. */
    ghost predicate Accounted()
      requires Linked()
      reads this, Repr
      decreases depth
    {
      cachedCoinsUsage == Total(usage, cacheCoins) && (base != null ==> base.Accounted())
    }

    ghost predicate Valid()
      reads this, Repr
    {
      Linked() && Accounted() && Inv(Model())
    }

    constructor Database(coins: Coins, usage: seq<nat> -> nat)
      requires usage([]) == 0 && forall o | o in coins :: !IsSpent(coins[o])
      ensures Valid() && base == null && Model() == Db(coins) && fresh(Repr)
    {
      base := null;
      this.usage := usage;
      this.coins := coins;
      cacheCoins := map[];
      cachedCoinsUsage := 0;
      Repr := {this};
      depth := 0;
    }

    constructor Over(view: CoinsView)
      requires view.Valid()
      ensures Valid() && base == view && Model() == Layer(map[], view.Model()) && fresh(Repr - view.Repr)
    {
      base := view;
      usage := view.usage;
      coins := map[];
      cacheCoins := map[];
      cachedCoinsUsage := 0;
      Repr := {this} + view.Repr;
      depth := view.depth + 1;
    }

    /** Bring the outpoint into this cache if there is anything to bring. */
    method FetchCoin(o: OutPoint) returns (found: bool)
      requires Valid() && base != null
      modifies Repr
      ensures Valid() && Model() == Fetched(old(Model()), o) && found == (o in cacheCoins)
      decreases depth, 0
    {
      hide Overlay;
      FetchedKeeps(Model(), o);
      if o in cacheCoins { return true; }
      var ok, coin := base.GetCoin(o);
      if !ok { return false; }
      var entry := Entry(coin, false, IsSpent(coin));
      TotalPut(usage, cacheCoins, o, entry);
      cacheCoins := cacheCoins[o := entry];
      cachedCoinsUsage := cachedCoinsUsage + usage(coin.out.script);
      return true;
    }

    method GetCoin(o: OutPoint) returns (ok: bool, coin: Coin)
      requires Valid()
      modifies Repr
      ensures Valid() && Model() == Fetched(old(Model()), o)
      ensures ok == (o in View(old(Model()))) && (ok ==> coin == View(old(Model()))[o])
      decreases depth, 1
    {
      if base == null {
        return o in coins, if o in coins then coins[o] else EMPTY_COIN;
      }
      FetchedAnswers(Model(), o);
      var found := FetchCoin(o);
      if !found { return false, EMPTY_COIN; }
      return !IsSpent(cacheCoins[o].coin), cacheCoins[o].coin;
    }

    method HaveCoin(o: OutPoint) returns (ok: bool)
      requires Valid() && base != null
      modifies Repr
      ensures Valid() && Model() == Fetched(old(Model()), o)
      ensures ok == (o in View(old(Model())))
    {
      FetchedAnswers(Model(), o);
      var found := FetchCoin(o);
      return found && !IsSpent(cacheCoins[o].coin);
    }

    method AccessCoin(o: OutPoint) returns (coin: Coin)
      requires Valid() && base != null
      modifies Repr
      ensures Valid() && Model() == Fetched(old(Model()), o)
      ensures o in View(old(Model())) ==> coin == View(old(Model()))[o]
      ensures o !in View(old(Model())) ==> IsSpent(coin)
    {
      FetchedAnswers(Model(), o);
      var found := FetchCoin(o);
      return if found then cacheCoins[o].coin else EMPTY_COIN;
    }

    method AddCoin(o: OutPoint, coin: Coin, overwrite: bool) returns (ok: bool)
      requires Valid() && base != null && !IsSpent(coin)
      modifies this
      ensures Linked() && ok == Added(old(Model()), o, coin, overwrite).Ok?
      ensures Model() == if ok then Added(old(Model()), o, coin, overwrite).value else old(Model())
      ensures overwrite || IsUnspendable(coin.out.script) || o !in View(old(Model())) ==> ok && Valid()
    {
      hide Overlay, IsUnspendable, Inv, Total;
      if overwrite || IsUnspendable(coin.out.script) || o !in View(Model()) {
        AddedKeeps(Model(), o, coin, overwrite);
      }
      if IsUnspendable(coin.out.script) { return true; }
      var entry := Entry(EMPTY_COIN, false, false);
      if o in cacheCoins {
        entry := cacheCoins[o];
        cachedCoinsUsage := cachedCoinsUsage - usage(entry.coin.out.script);
      }
      var nowFresh := false;
      if !overwrite {
        if !IsSpent(entry.coin) { return false; }
        nowFresh := !entry.isDirty;
      }
      var entry' := Entry(coin, true, entry.isFresh || nowFresh);
      TotalPut(usage, cacheCoins, o, entry');
      cacheCoins := cacheCoins[o := entry'];
      cachedCoinsUsage := cachedCoinsUsage + usage(coin.out.script);
      return true;
    }

    /** `moved` is the coin handed out; it is the coin the view showed, if it showed one.  Success is also
        reported for a coin that is cached as spent already. */
    method SpendCoin(o: OutPoint) returns (ok: bool, moved: Coin)
      requires Valid() && base != null
      modifies Repr
      ensures Valid() && Model() == Spent(old(Model()), o)
      ensures ok <==> o in old(cacheCoins) || o in View(old(Model()))
      ensures o in View(old(Model())) ==> moved == View(old(Model()))[o]
      ensures o !in View(old(Model())) ==> IsSpent(moved)
    {
      hide Overlay, Inv, Total, View, Fetched;
      SpentKeeps(Model(), o);
      FetchedAnswers(Model(), o);
      FetchedHolds(Model(), o);
      ok := FetchCoin(o);
      moved := EMPTY_COIN;
      if ok {
        moved := cacheCoins[o].coin;
        cachedCoinsUsage := cachedCoinsUsage - usage(moved.out.script);
        TotalAt(usage, cacheCoins, o);
        TotalPut(usage, cacheCoins, o, Entry(EMPTY_COIN, true, false));
        if cacheCoins[o].isFresh {
          cacheCoins := cacheCoins - {o};
        } else {
          cacheCoins := cacheCoins[o := Entry(EMPTY_COIN, true, false)];
        }
      }
    }

    method Uncache(o: OutPoint)
      requires Valid() && base != null
      modifies this
      ensures Valid() && Model() == Uncached(old(Model()), o)
    {
      UncachedKeeps(Model(), o);
      if o in cacheCoins && !cacheCoins[o].isDirty && !cacheCoins[o].isFresh {
        TotalAt(usage, cacheCoins, o);
        cachedCoinsUsage := cachedCoinsUsage - usage(cacheCoins[o].coin.out.script);
        cacheCoins := cacheCoins - {o};
      }
    }

    /** Take over a child's modified entries, in any order. */
    method BatchWrite(mapCoins: Cache) returns (ok: bool)
      requires Linked() && Accounted()
      modifies this
      ensures Linked() && ok == BatchWritten(old(Model()), mapCoins).Ok?
      ensures ok ==> Accounted() && Model() == BatchWritten(old(Model()), mapCoins).value
    {
      if base == null {
        WriteDatabase(mapCoins);
        return true;
      }
      ok := MergeEntries(mapCoins);
    }

    method MergeEntries(mapCoins: Cache) returns (ok: bool)
      requires cachedCoinsUsage == Total(usage, cacheCoins)
      modifies this`cacheCoins, this`cachedCoinsUsage
      ensures ok <==> forall o | o in mapCoins :: !Misapplied(old(cacheCoins), o, mapCoins[o])
      ensures ok ==> cacheCoins == MergedCache(old(cacheCoins), mapCoins)
      ensures ok ==> cachedCoinsUsage == Total(usage, cacheCoins)
    {
      hide MergedCache, Total;
      ghost var cache := cacheCoins;
      var rest := mapCoins;
      ghost var done: Cache := map[];
      MergedNothing(cache);
      while rest != map[]
        invariant done.Keys !! rest.Keys
        invariant mapCoins == done + rest
        invariant cacheCoins == MergedCache(cache, done)
        invariant cachedCoinsUsage == Total(usage, cacheCoins)
        invariant forall o | o in done :: !Misapplied(cache, o, done[o])
        decreases rest.Keys
      {
        var o :| o in rest;
        var them := rest[o];
        MergedStep(cache, done, o, them);
        if Misapplied(cacheCoins, o, them) {
          assert mapCoins[o] == them;
          return false;
        }
        MergeEntry(o, them);
        rest := rest - {o};
        done := done[o := them];
      }
      assert mapCoins == done;
      return true;
    }

    method MergeEntry(o: OutPoint, them: Entry)
      requires cachedCoinsUsage == Total(usage, cacheCoins)
      modifies this`cacheCoins, this`cachedCoinsUsage
      ensures cachedCoinsUsage == Total(usage, cacheCoins)
      ensures cacheCoins == match Merged(At(old(cacheCoins), o), them)
                            case Absent => old(cacheCoins) - {o}
                            case Present(entry) => old(cacheCoins)[o := entry]
    {
      hide Total;
      if !them.isDirty { return; }
      if o !in cacheCoins {
        if !(them.isFresh && IsSpent(them.coin)) {
          var entry := Entry(them.coin, true, false);
          if them.isFresh {
            entry := entry.(isFresh := true);
          }
          TotalPut(usage, cacheCoins, o, entry);
          cacheCoins := cacheCoins[o := entry];
          cachedCoinsUsage := cachedCoinsUsage + usage(them.coin.out.script);
        }
      } else if cacheCoins[o].isFresh && IsSpent(them.coin) {
        TotalAt(usage, cacheCoins, o);
        cachedCoinsUsage := cachedCoinsUsage - usage(cacheCoins[o].coin.out.script);
        cacheCoins := cacheCoins - {o};
      } else {
        var entry := cacheCoins[o].(coin := them.coin, isDirty := true);
        TotalPut(usage, cacheCoins, o, entry);
        cachedCoinsUsage := cachedCoinsUsage - usage(cacheCoins[o].coin.out.script);
        cacheCoins := cacheCoins[o := entry];
        cachedCoinsUsage := cachedCoinsUsage + usage(them.coin.out.script);
      }
    }

    method WriteDatabase(mapCoins: Cache)
      modifies this`coins
      ensures coins == MergedDb(old(coins), mapCoins)
    {
      hide MergedDb;
      ghost var before := coins;
      var rest := mapCoins;
      ghost var done: Cache := map[];
      MergedDbNothing(before);
      while rest != map[]
        invariant done.Keys !! rest.Keys
        invariant mapCoins == done + rest
        invariant coins == MergedDb(before, done)
        decreases rest.Keys
      {
        var o :| o in rest;
        MergedDbStep(before, done, o, rest[o]);
        if rest[o].isDirty {
          if IsSpent(rest[o].coin) {
            coins := coins - {o};
          } else {
            coins := coins[o := rest[o].coin];
          }
        }
        done := done[o := rest[o]];
        rest := rest - {o};
      }
      assert mapCoins == done;
    }

    method Flush() returns (ok: bool)
      requires Valid() && base != null
      modifies Repr
      ensures ok && Valid() && Ok(Model()) == Flushed(old(Model()))
    {
      hide Overlay, MergedCache, MergedDb, Misapplied, Views;
      FlushedKeeps(Model());
      TotalNothing(usage);
      BatchWrittenKeeps(base.Model(), cacheCoins);
      ok := base.BatchWrite(cacheCoins);
      cacheCoins := map[];
      cachedCoinsUsage := 0;
    }

    /** Add all outputs of a transaction.  When `check` is false the caller vouches that only a coinbase
        can overwrite; then, as with `check`, the contract of AddCoin is met at every output. */
    method AddCoins(tx: Tx, height: nat, check: bool) returns (ok: bool)
      requires Valid() && base != null && forall i | 0 <= i < |tx.outputs| :: tx.outputs[i].nValue != -1
      requires check || tx.isCoinBase || forall i | 0 <= i < |tx.outputs| :: OutPoint(tx.id, i) !in View(Model())
      modifies Repr
      ensures ok && Valid()
      ensures View(Model()) == WithOutputs(View(old(Model())), tx, |tx.outputs|, height)
      ensures Model().Layer? && Views(Model().base) == Views(old(Model()).base)
    {
      hide Overlay, IsUnspendable, Inv;
      ghost var st := Model();
      for i := 0 to |tx.outputs|
        invariant Valid()
        invariant View(Model()) == WithOutputs(View(st), tx, i, height)
        invariant Views(Model().base) == Views(st.base)
      {
        var o := OutPoint(tx.id, i);
        var overwrite := tx.isCoinBase;
        FetchedKeeps(Model(), o);
        ViewsHead(Model());
        WithOutputsLater(View(st), tx, i, height, o);
        if check {
          overwrite := HaveCoin(o);
        }
        ViewsHead(Model());
        AddedKeeps(Model(), o, Output(tx, i, height), overwrite);
        var added := AddCoin(o, Output(tx, i, height), overwrite);
        assert added;
      }
      return true;
    }

    method HaveInputs(tx: Tx) returns (ok: bool)
      requires Valid() && base != null
      modifies Repr
      ensures Valid() && Views(Model()) == Views(old(Model()))
      ensures ok <==> tx.isCoinBase || forall o | o in tx.inputs :: o in View(old(Model()))
    {
      hide Overlay, Inv;
      ghost var st := Model();
      if !tx.isCoinBase {
        for i := 0 to |tx.inputs|
          invariant Valid() && Views(Model()) == Views(st) && View(Model()) == View(st)
          invariant forall k | 0 <= k < i :: tx.inputs[k] in View(st)
        {
          FetchedKeeps(Model(), tx.inputs[i]);
          var have := HaveCoin(tx.inputs[i]);
          if !have { return false; }
        }
      }
      return true;
    }

    method GetValueIn(tx: Tx) returns (sum: int)
      requires Valid() && base != null
      modifies Repr
      ensures Valid() && Views(Model()) == Views(old(Model()))
      ensures sum == if tx.isCoinBase then 0 else InputSum(View(old(Model())), tx.inputs)
    {
      hide Overlay, Inv;
      ghost var st := Model();
      sum := 0;
      if tx.isCoinBase { return; }
      for i := 0 to |tx.inputs|
        invariant Valid() && Views(Model()) == Views(st) && View(Model()) == View(st)
        invariant sum == InputSum(View(st), tx.inputs[..i])
      {
        FetchedKeeps(Model(), tx.inputs[i]);
        var coin := AccessCoin(tx.inputs[i]);
        sum := sum + coin.out.nValue;
        assert tx.inputs[..i + 1][..i] == tx.inputs[..i];
      }
      assert tx.inputs[..|tx.inputs|] == tx.inputs;
    }
  }

  lemma MergedDbNothing(coins: Coins)
    ensures MergedDb(coins, map[]) == coins
  {
  }

  lemma MergedDbStep(coins: Coins, done: Cache, o: OutPoint, them: Entry)
    requires o !in done
    ensures MergedDb(coins, done[o := them]) ==
      if !them.isDirty then MergedDb(coins, done)
      else if IsSpent(them.coin) then MergedDb(coins, done) - {o} else MergedDb(coins, done)[o := them.coin]
  {
  }

  lemma MergedNothing(cache: Cache)
    ensures MergedCache(cache, map[]) == cache
  {
  }
}
