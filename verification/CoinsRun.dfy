/** Every run on a stack of coin caches is a run on plain maps, one per layer. */
module CoinsRun {
  import opened CoinsModel

  datatype Op =
    | Fetch(o: OutPoint)
    | Add(o: OutPoint, coin: Coin, overwrite: bool)
    | Spend(o: OutPoint)
    | Uncache(o: OutPoint)
    | Flush
    | Push
    | Pop

  /** The operations on the topmost cache, and putting an empty cache on top or dropping the top one. */
  function Step(st: Stack, op: Op): Result<Stack>
    requires st.Layer?
  {
    match op
    case Fetch(o) => Ok(Fetched(st, o))
    case Add(o, coin, overwrite) => Added(st, o, coin, overwrite)
    case Spend(o) => Ok(Spent(st, o))
    case Uncache(o) => Ok(Uncached(st, o))
    case Flush => Flushed(st)
    case Push => Ok(Layer(map[], st))
    case Pop => if st.base.Layer? then Ok(st.base) else Throws
  }

  /** What a caller has to know, said of the plain maps alone. */
  predicate Allowed(vs: seq<Coins>, op: Op)
    requires |vs| >= 2
  {
    match op
    case Add(o, coin, overwrite) =>
      !IsSpent(coin) && (overwrite || IsUnspendable(coin.out.script) || o !in vs[0])
    case Pop => |vs| >= 3
    case _ => true
  }

  /** The same operation on a stack of plain maps, the current one first. */
  function PlainStep(vs: seq<Coins>, op: Op): seq<Coins>
    requires |vs| >= 2
  {
    match op
    case Fetch(_) => vs
    case Add(o, coin, _) => if IsUnspendable(coin.out.script) then vs else [vs[0][o := coin]] + vs[1..]
    case Spend(o) => [vs[0] - {o}] + vs[1..]
    case Uncache(_) => vs
    case Flush => [vs[0], vs[0]] + vs[2..]
    case Push => [vs[0]] + vs
    case Pop => vs[1..]
  }

  lemma StepRefines(st: Stack, op: Op)
    requires Inv(st) && st.Layer?
    ensures |Views(st)| >= 2
    ensures Allowed(Views(st), op) ==>
      var r := Step(st, op);
      r.Ok? && r.value.Layer? && Inv(r.value) && Views(r.value) == PlainStep(Views(st), op)
  {
    hide Overlay, IsUnspendable;
    ViewsHead(st);
    match op
    case Fetch(o) => FetchedKeeps(st, o);
    case Add(o, coin, overwrite) =>
      if Allowed(Views(st), op) {
        AddedKeeps(st, o, coin, overwrite);
        ViewsHead(Step(st, op).value);
      }
    case Spend(o) =>
      SpentKeeps(st, o);
      ViewsHead(Step(st, op).value);
    case Uncache(o) => UncachedKeeps(st, o);
    case Flush => FlushedKeeps(st);
    case Push => OverlayNothing(View(st));
    case Pop =>
  }

  predicate AllowedRun(vs: seq<Coins>, ops: seq<Op>)
    decreases |ops|
  {
    ops == [] || (|vs| >= 2 && Allowed(vs, ops[0]) && AllowedRun(PlainStep(vs, ops[0]), ops[1..]))
  }

  function PlainRun(vs: seq<Coins>, ops: seq<Op>): seq<Coins>
    requires AllowedRun(vs, ops)
    decreases |ops|
  {
    if ops == [] then vs else PlainRun(PlainStep(vs, ops[0]), ops[1..])
  }

  function Run(st: Stack, ops: seq<Op>): Result<Stack>
    requires st.Layer?
    decreases |ops|
  {
    if ops == [] then Ok(st) else
    match Step(st, ops[0])
    case Throws => Throws
    case Ok(st') => if st'.Layer? then Run(st', ops[1..]) else Throws
  }

  /** A run whose calls are allowed on the plain maps never throws, and shows exactly the plain maps. */
  lemma {:induction false} RunRefines(st: Stack, ops: seq<Op>)
    requires Inv(st) && st.Layer? && AllowedRun(Views(st), ops)
    ensures var r := Run(st, ops);
      r.Ok? && Inv(r.value) && Views(r.value) == PlainRun(Views(st), ops)
    decreases |ops|
  {
    hide Views, Step, Allowed, PlainStep, Inv;
    if ops != [] {
      StepRefines(st, ops[0]);
      RunRefines(Step(st, ops[0]).value, ops[1..]);
    }
  }

  /** Every entry of every layer is in one of four of the eight states of spent, FRESH and DIRTY. */
  ghost predicate FourStates(st: Stack) {
    st.Layer? ==>
      && FourStates(st.base)
      && forall o | o in st.cache ::
           var entry := st.cache[o];
           if entry.isDirty then !(IsSpent(entry.coin) && entry.isFresh) else !IsSpent(entry.coin) && !entry.isFresh
  }

  lemma {:induction false} InvFourStates(st: Stack)
    requires Inv(st)
    ensures FourStates(st)
  {
    if st.Layer? { InvFourStates(st.base); }
  }

  /** So in no run is a coin cached as spent, FRESH and not DIRTY. */
  lemma EveryRunFourStates(db: Coins, ops: seq<Op>)
    requires Inv(Db(db)) && AllowedRun(Views(Layer(map[], Db(db))), ops)
    ensures var r := Run(Layer(map[], Db(db)), ops); r.Ok? && FourStates(r.value)
  {
    hide Run;
    RunRefines(Layer(map[], Db(db)), ops);
    InvFourStates(Run(Layer(map[], Db(db)), ops).value);
  }
}
