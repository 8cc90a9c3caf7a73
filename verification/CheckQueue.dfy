/** The check queue as a protocol: one master and any number of workers, each step one critical section
    under the queue's mutex or one check run outside it.  Thread 0 is the master.

    Condition variables are modelled by a flag on each sleeping thread.  A sleeping thread may also wake
    without being notified, as condition variables allow. */
module CheckQueue {
  import opened Basics
  import opened Numbers

  type Check = nat

  datatype Thread =
    | Outside                                         // the master, between waits
    | Starting                                        // in Loop, before its first critical section
    | Working(batch: seq<Check>, done: nat, fOk: bool)
    | Sleeping(notified: bool)

  datatype State = State(
    queue: seq<Check>, nTodo: int, nIdle: int, nTotal: int, fAllOk: bool, threads: seq<Thread>,
    // history since the master's last Wait returned
    added: multiset<Check>, finished: multiset<Check>, ran: multiset<Check>)

  /** The result of each check, and the largest batch. */
  datatype Env = Env(passes: Check -> bool, nBatchSize: nat)

  datatype Step =
    | Add(checks: seq<Check>, woken: nat)             // woken: the worker that notify_one picks
    | CallWait
    | Enter(t: nat)                                   // t takes the mutex
    | RunOne(t: nat)                                  // t runs the next check of its batch

  function Initial(workers: nat): State {
    State([], 0, 0, 0, true, [Outside] + seq(workers, _ => Starting), multiset{}, multiset{}, multiset{})
  }

  // ---------------------------------------------------------------- steps

  function Min(a: int, b: int): int { if a < b then a else b }

  /** Smaller batches the fewer checks are left per thread, but at least one check. */
  function BatchSize(e: Env, queued: nat, nTotal: nat, nIdle: nat): (n: nat)
    requires queued > 0
    ensures 1 <= n <= queued
  {
    DivLe(queued, nTotal + nIdle + 1);
    Max(1, Min(e.nBatchSize, queued / (nTotal + nIdle + 1)))
  }

  function Notify(th: Thread): Thread {
    if th.Sleeping? then Sleeping(true) else th
  }

  /** notify_one reaches some worker that still waits, if there is one. */
  predicate Reached(s: State, woken: nat) {
    if woken == 0 then forall t | 0 < t < |s.threads| :: s.threads[t] != Sleeping(false)
    else woken < |s.threads| && s.threads[woken] == Sleeping(false)
  }

  predicate Enabled(s: State, step: Step) {
    match step
    case Add(checks, woken) => |s.threads| > 0 && s.threads[0].Outside? && (|checks| == 1 ==> Reached(s, woken))
    case CallWait => |s.threads| > 0 && s.threads[0].Outside?
    case Enter(t) =>
      t < |s.threads| && !s.threads[t].Outside? && (s.threads[t].Working? ==> s.threads[t].done == |s.threads[t].batch|)
    case RunOne(t) => t < |s.threads| && s.threads[t].Working? && s.threads[t].done < |s.threads[t].batch|
  }

  function Added(s: State, checks: seq<Check>, woken: nat): State
    requires Enabled(s, Add(checks, woken))
  {
    var threads :=
      if |checks| == 1 then (if woken == 0 then s.threads else s.threads[woken := Sleeping(true)])
      else if |checks| > 1 then seq(|s.threads|, t requires 0 <= t < |s.threads| => if t == 0 then s.threads[0] else Notify(s.threads[t]))
      else s.threads;
    s.(queue := s.queue + checks, nTodo := s.nTodo + |checks|, threads := threads, added := s.added + multiset(checks))
  }

  /** The clean-up on taking the mutex. */
  function CleanedUp(s: State, t: nat): State
    requires Enabled(s, Enter(t))
  {
    match s.threads[t]
    case Working(batch, _, fOk) =>
      var s1 := s.(fAllOk := s.fAllOk && fOk, nTodo := s.nTodo - |batch|, finished := s.finished + multiset(batch));
      if s1.nTodo == 0 && t != 0 then s1.(threads := s1.threads[0 := Notify(s1.threads[0])]) else s1
    case Sleeping(_) => s.(nIdle := s.nIdle - 1)
    case _ => s.(nTotal := s.nTotal + 1)
  }

  predicate Returns(s: State, t: nat)
    requires Enabled(s, Enter(t))
  {
    var s1 := CleanedUp(s, t);
    s1.queue == [] && t == 0 && s1.nTodo == 0
  }

  /** The value Wait returns. */
  predicate Verdict(s: State, t: nat)
    requires Enabled(s, Enter(t))
  {
    CleanedUp(s, t).fAllOk
  }

  function Reversed(q: seq<Check>): seq<Check> {
    if q == [] then [] else [q[|q| - 1]] + Reversed(q[..|q| - 1])
  }

  function Entered(e: Env, s: State, t: nat): State
    requires Enabled(s, Enter(t)) && s.nTotal >= 0 && s.nIdle >= 0
    requires s.threads[t].Sleeping? ==> s.nIdle > 0
  {
    var s1 := CleanedUp(s, t);
    if s1.queue != [] then
      var cut := |s1.queue| - BatchSize(e, |s1.queue|, s1.nTotal, s1.nIdle);
      s1.(queue := s1.queue[..cut], threads := s1.threads[t := Working(Reversed(s1.queue[cut..]), 0, s1.fAllOk)])
    else if Returns(s, t) then
      s1.(nTotal := s1.nTotal - 1, fAllOk := true, threads := s1.threads[t := Outside],
          added := multiset{}, finished := multiset{}, ran := multiset{})
    else
      s1.(nIdle := s1.nIdle + 1, threads := s1.threads[t := Sleeping(false)])
  }

  function RanOne(e: Env, s: State, t: nat): State
    requires Enabled(s, RunOne(t))
  {
    var th := s.threads[t];
    var c := th.batch[th.done];
    if th.fOk then
      s.(threads := s.threads[t := th.(done := th.done + 1, fOk := e.passes(c))], ran := s.ran + multiset{c})
    else
      s.(threads := s.threads[t := th.(done := th.done + 1)])
  }

  // ---------------------------------------------------------------- the invariant

  function Held(th: Thread): multiset<Check> {
    if th.Working? then multiset(th.batch) else multiset{}
  }

  function Tried(th: Thread): multiset<Check> {
    if th.Working? && th.done <= |th.batch| then multiset(th.batch[..th.done]) else multiset{}
  }

  ghost function Sum(threads: seq<Thread>, f: Thread -> multiset<Check>): multiset<Check> {
    if threads == [] then multiset{} else Sum(threads[..|threads| - 1], f) + f(threads[|threads| - 1])
  }

  ghost function Count(threads: seq<Thread>, p: Thread -> bool): nat {
    if threads == [] then 0 else Count(threads[..|threads| - 1], p) + if p(threads[|threads| - 1]) then 1 else 0
  }

  lemma {:induction false} SumSet(threads: seq<Thread>, f: Thread -> multiset<Check>, t: nat, th: Thread)
    requires t < |threads|
    ensures Sum(threads[t := th], f) + f(threads[t]) == Sum(threads, f) + f(th)
  {
    var n := |threads| - 1;
    if t < n {
      assert threads[t := th][..n] == threads[..n][t := th];
      SumSet(threads[..n], f, t, th);
      var a, b, l := Sum(threads[..n][t := th], f), Sum(threads[..n], f), f(threads[n]);
      assert (a + l) + f(threads[t]) == (a + f(threads[t])) + l;
      assert (b + l) + f(th) == (b + f(th)) + l;
    } else {
      assert threads[t := th][..n] == threads[..n];
    }
  }

  lemma {:induction false} SumSame(threads: seq<Thread>, threads': seq<Thread>, f: Thread -> multiset<Check>)
    requires |threads| == |threads'| && forall t | 0 <= t < |threads| :: f(threads[t]) == f(threads'[t])
    ensures Sum(threads, f) == Sum(threads', f)
  {
    if threads != [] {
      SumSame(threads[..|threads| - 1], threads'[..|threads| - 1], f);
    }
  }

  lemma {:induction false} CountSet(threads: seq<Thread>, p: Thread -> bool, t: nat, th: Thread)
    requires t < |threads|
    ensures Count(threads[t := th], p) + (if p(threads[t]) then 1 else 0) == Count(threads, p) + (if p(th) then 1 else 0)
  {
    var n := |threads| - 1;
    if t < n {
      assert threads[t := th][..n] == threads[..n][t := th];
      CountSet(threads[..n], p, t, th);
    } else {
      assert threads[t := th][..n] == threads[..n];
    }
  }

  lemma {:induction false} CountSame(threads: seq<Thread>, threads': seq<Thread>, p: Thread -> bool)
    requires |threads| == |threads'| && forall t | 0 <= t < |threads| :: p(threads[t]) == p(threads'[t])
    ensures Count(threads, p) == Count(threads', p)
  {
    if threads != [] {
      CountSame(threads[..|threads| - 1], threads'[..|threads| - 1], p);
    }
  }

  /** A thread's part is contained in the sum. */
  lemma SumHas(threads: seq<Thread>, f: Thread -> multiset<Check>, t: nat)
    requires t < |threads|
    ensures f(threads[t]) <= Sum(threads, f)
  {
    if t < |threads| - 1 {
      SumHas(threads[..|threads| - 1], f, t);
    }
  }

  ghost predicate WellFormed(threads: seq<Thread>) {
    && |threads| > 0
    && (forall t | 0 < t < |threads| :: !threads[t].Outside?)
    && (forall t | 0 <= t < |threads| && threads[t].Working? ::
          0 < |threads[t].batch| && threads[t].done <= |threads[t].batch|)
  }

  predicate IsSleeping(th: Thread) { th.Sleeping? }
  predicate IsInside(th: Thread) { th.Sleeping? || th.Working? }

  /** No thread holds a failure. */
  ghost predicate NoneFailed(threads: seq<Thread>) {
    forall t | 0 <= t < |threads| && threads[t].Working? :: threads[t].fOk
  }

  /** What has been added is queued, held by a thread, or finished; a check runs at most once, and as long
      as nothing has failed every check passed by has run and passed. */
  ghost predicate Books(e: Env, added: multiset<Check>, queued: multiset<Check>, held: multiset<Check>,
                        finished: multiset<Check>, tried: multiset<Check>, ran: multiset<Check>, good: bool)
  {
    && added == queued + held + finished
    && ran <= finished + tried
    && (good ==> ran == finished + tried && forall c | c in ran :: e.passes(c))
    && (!good ==> exists c :: c in added && !e.passes(c))
  }

  ghost predicate Accounted(e: Env, s: State) {
    Books(e, s.added, multiset(s.queue), Sum(s.threads, Held), s.finished, Sum(s.threads, Tried), s.ran,
          s.fAllOk && NoneFailed(s.threads))
  }

  /** nTodo counts what is queued or in some thread's batch; the other counters count threads, and
      `extra` threads that are in the middle of a critical section. */
  ghost predicate Counted(s: State, extra: nat) {
    && s.nTodo == |s.queue| + |Sum(s.threads, Held)|
    && s.nIdle == Count(s.threads, IsSleeping)
    && s.nTotal == Count(s.threads, IsInside) + extra
  }

  /** A master that sleeps without having been notified has work to wait for. */
  ghost predicate Awaited(s: State) {
    |s.threads| > 0 && s.threads[0] == Sleeping(false) ==> s.queue == [] && s.nTodo > 0
  }

  ghost predicate Inv(e: Env, s: State) {
    WellFormed(s.threads) && Counted(s, 0) && Accounted(e, s) && Awaited(s)
  }

  // ---------------------------------------------------------------- what a step does to sums

  /** Replacing a thread by one that holds and has tried the same. */
  ghost predicate Alike(th: Thread, th': Thread) {
    && Held(th') == Held(th) && Tried(th') == Tried(th)
    && (th.Working? ==> th'.Working? && th'.fOk == th.fOk) && (th'.Working? ==> th.Working?)
    && IsSleeping(th') == IsSleeping(th) && IsInside(th') == IsInside(th)
  }

  lemma AlikeSums(threads: seq<Thread>, threads': seq<Thread>)
    requires |threads| == |threads'| && forall t | 0 <= t < |threads| :: Alike(threads[t], threads'[t])
    ensures Sum(threads', Held) == Sum(threads, Held) && Sum(threads', Tried) == Sum(threads, Tried)
    ensures Count(threads', IsSleeping) == Count(threads, IsSleeping)
    ensures Count(threads', IsInside) == Count(threads, IsInside)
    ensures NoneFailed(threads') == NoneFailed(threads)
  {
    hide Held, Tried;
    SumSame(threads, threads', Held);
    SumSame(threads, threads', Tried);
    CountSame(threads, threads', IsSleeping);
    CountSame(threads, threads', IsInside);
  }

  lemma Replaced(threads: seq<Thread>, t: nat, th: Thread)
    requires t < |threads|
    ensures var threads' := threads[t := th];
      && Sum(threads', Held) + Held(threads[t]) == Sum(threads, Held) + Held(th)
      && Sum(threads', Tried) + Tried(threads[t]) == Sum(threads, Tried) + Tried(th)
      && Count(threads', IsSleeping) + (if IsSleeping(threads[t]) then 1 else 0)
         == Count(threads, IsSleeping) + (if IsSleeping(th) then 1 else 0)
      && Count(threads', IsInside) + (if IsInside(threads[t]) then 1 else 0)
         == Count(threads, IsInside) + (if IsInside(th) then 1 else 0)
  {
    SumSet(threads, Held, t, th);
    SumSet(threads, Tried, t, th);
    CountSet(threads, IsSleeping, t, th);
    CountSet(threads, IsInside, t, th);
  }

  /** A failure among the threads is there before or after a replacement, or in the thread replaced. */
  lemma ReplacedFailed(threads: seq<Thread>, t: nat, th: Thread)
    requires t < |threads|
    ensures NoneFailed(threads) && (th.Working? ==> th.fOk) ==> NoneFailed(threads[t := th])
    ensures NoneFailed(threads[t := th]) && (threads[t].Working? ==> threads[t].fOk) ==> NoneFailed(threads)
  {
    var threads' := threads[t := th];
    if NoneFailed(threads') && (threads[t].Working? ==> threads[t].fOk) {
      forall u | 0 <= u < |threads| && threads[u].Working? ensures threads[u].fOk {
        assert u == t || threads'[u] == threads[u];
      }
    }
  }

  // ---------------------------------------------------------------- every step keeps the invariant

  lemma {:induction false} SumNothing(threads: seq<Thread>, f: Thread -> multiset<Check>)
    requires forall t | 0 <= t < |threads| :: f(threads[t]) == multiset{}
    ensures Sum(threads, f) == multiset{}
  {
    if threads != [] {
      SumNothing(threads[..|threads| - 1], f);
    }
  }

  lemma {:induction false} CountNothing(threads: seq<Thread>, p: Thread -> bool)
    requires forall t | 0 <= t < |threads| :: !p(threads[t])
    ensures Count(threads, p) == 0
  {
    if threads != [] {
      CountNothing(threads[..|threads| - 1], p);
    }
  }

  lemma InitialInv(e: Env, workers: nat)
    ensures Inv(e, Initial(workers))
  {
    var threads := Initial(workers).threads;
    SumNothing(threads, Held);
    SumNothing(threads, Tried);
    CountNothing(threads, IsSleeping);
    CountNothing(threads, IsInside);
  }

  lemma AlikeNotified(th: Thread)
    ensures Alike(th, th) && Alike(th, Notify(th))
  {
  }

  lemma AddedThreads(s: State, checks: seq<Check>, woken: nat)
    requires Enabled(s, Add(checks, woken)) && WellFormed(s.threads)
    ensures var threads' := Added(s, checks, woken).threads;
      && |threads'| == |s.threads| && threads'[0] == s.threads[0] && WellFormed(threads')
      && forall t | 0 <= t < |s.threads| :: Alike(s.threads[t], threads'[t])
  {
    hide Alike;
    var threads' := Added(s, checks, woken).threads;
    forall t | 0 <= t < |s.threads|
      ensures threads'[t] == s.threads[t] || (s.threads[t].Sleeping? && threads'[t] == Sleeping(true))
      ensures Alike(s.threads[t], threads'[t])
    {
      AlikeNotified(s.threads[t]);
    }
  }

  lemma AddedKeeps(e: Env, s: State, checks: seq<Check>, woken: nat)
    requires Inv(e, s) && Enabled(s, Add(checks, woken))
    ensures Inv(e, Added(s, checks, woken))
  {
    hide Sum, Count, Books, WellFormed, Alike, NoneFailed, Reached, Held, Tried;
    var s' := Added(s, checks, woken);
    AddedThreads(s, checks, woken);
    AlikeSums(s.threads, s'.threads);
    assert multiset(s.queue + checks) == multiset(s.queue) + multiset(checks);
    BooksAdded(e, s.added, multiset(s.queue), Sum(s.threads, Held), s.finished, Sum(s.threads, Tried), s.ran,
               s.fAllOk && NoneFailed(s.threads), multiset(checks));
  }

  lemma BooksAdded(e: Env, added: multiset<Check>, queued: multiset<Check>, held: multiset<Check>,
                   finished: multiset<Check>, tried: multiset<Check>, ran: multiset<Check>, good: bool, more: multiset<Check>)
    requires Books(e, added, queued, held, finished, tried, ran, good)
    ensures Books(e, added + more, queued + more, held, finished, tried, ran, good)
  {
    if !good {
      var c :| c in added && !e.passes(c);
      assert c in added + more;
    }
  }

  function Called(s: State): State
    requires |s.threads| > 0
  {
    s.(threads := s.threads[0 := Starting])
  }

  lemma CalledKeeps(e: Env, s: State)
    requires Inv(e, s) && Enabled(s, CallWait)
    ensures Inv(e, Called(s))
  {
    hide Sum, Count, Books;
    AlikeSums(s.threads, Called(s).threads);
  }

  /** A run of one check moves it, and only it, to what the thread has tried. */
  lemma RanOneThreads(e: Env, s: State, t: nat)
    requires WellFormed(s.threads) && Enabled(s, RunOne(t))
    ensures var s', th := RanOne(e, s, t), s.threads[t];
      var c := th.batch[th.done];
      && c in Sum(s.threads, Held)
      && Sum(s'.threads, Held) == Sum(s.threads, Held)
      && Sum(s'.threads, Tried) == Sum(s.threads, Tried) + multiset{c}
      && Count(s'.threads, IsSleeping) == Count(s.threads, IsSleeping)
      && Count(s'.threads, IsInside) == Count(s.threads, IsInside)
      && (NoneFailed(s'.threads) <==> NoneFailed(s.threads) && e.passes(c))
      && (NoneFailed(s.threads) ==> th.fOk)
  {
    hide Sum, Count;
    var s' := RanOne(e, s, t);
    var th, th' := s.threads[t], s'.threads[t];
    var c := th.batch[th.done];
    Replaced(s.threads, t, th');
    assert th.batch[..th.done + 1] == th.batch[..th.done] + [c];
    Cancel(Sum(s'.threads, Tried), Sum(s.threads, Tried), Tried(th), multiset{c});
    Cancel(Sum(s'.threads, Held), Sum(s.threads, Held), Held(th), multiset{});
    SumHas(s.threads, Held, t);
    assert c in Held(th);
    ReplacedFailed(s.threads, t, th');
  }

  lemma RanOneKeeps(e: Env, s: State, t: nat)
    requires Inv(e, s) && Enabled(s, RunOne(t))
    ensures Inv(e, RanOne(e, s, t))
  {
    hide Sum, Count, Books, NoneFailed, Held, Tried;
    var s', th := RanOne(e, s, t), s.threads[t];
    RanOneThreads(e, s, t);
    BooksRan(e, s.added, multiset(s.queue), Sum(s.threads, Held), s.finished, Sum(s.threads, Tried), s.ran,
             s.fAllOk && NoneFailed(s.threads), th.batch[th.done], th.fOk, s'.fAllOk && NoneFailed(s'.threads));
  }

  lemma Cancel(a: multiset<Check>, b: multiset<Check>, c: multiset<Check>, d: multiset<Check>)
    requires a + c == b + (c + d)
    ensures a == b + d && (d == multiset{} ==> a == b)
  {
    forall x ensures a[x] == (b + d)[x] {
      assert (a + c)[x] == (b + (c + d))[x];
    }
  }

  lemma BooksRan(e: Env, added: multiset<Check>, queued: multiset<Check>, held: multiset<Check>,
                 finished: multiset<Check>, tried: multiset<Check>, ran: multiset<Check>, good: bool,
                 c: Check, runs: bool, good': bool)
    requires Books(e, added, queued, held, finished, tried, ran, good) && c in held
    requires (good ==> runs) && good' == (good && e.passes(c))
    ensures Books(e, added, queued, held, finished, tried + multiset{c}, if runs then ran + multiset{c} else ran, good')
  {
    assert finished + (tried + multiset{c}) == (finished + tried) + multiset{c};
    assert c in added;
    if !good {
      var d :| d in added && !e.passes(d);
    }
  }

  // ---------------------------------------------------------------- the critical section

  /** The state once thread t has cleaned up and holds nothing. */
  function Middle(s: State, t: nat): State
    requires Enabled(s, Enter(t))
  {
    var s1 := CleanedUp(s, t);
    s1.(threads := s1.threads[t := Starting])
  }

  ghost predicate MiddleInv(e: Env, m: State, t: nat) {
    && t < |m.threads| && m.threads[t] == Starting && WellFormed(m.threads)
    && Counted(m, 1) && Accounted(e, m) && Awaited(m)
  }

  lemma BooksFinished(e: Env, added: multiset<Check>, queued: multiset<Check>, held: multiset<Check>, finished: multiset<Check>,
                      tried: multiset<Check>, ran: multiset<Check>, good: bool, batch: multiset<Check>, held': multiset<Check>, tried': multiset<Check>)
    requires Books(e, added, queued, held, finished, tried, ran, good)
    requires held' + batch == held && tried' + batch == tried
    ensures Books(e, added, queued, held', finished + batch, tried', ran, good)
  {
    assert queued + held' + (finished + batch) == queued + (held' + batch) + finished;
    assert (finished + batch) + tried' == finished + (tried' + batch);
  }

  /** Replacing one thread without a batch by another. */
  lemma ReplacedIdle(threads: seq<Thread>, t: nat, th: Thread)
    requires t < |threads| && WellFormed(threads) && !threads[t].Working? && !th.Working? && !(t > 0 && th.Outside?)
    ensures var threads' := threads[t := th];
      && WellFormed(threads')
      && Sum(threads', Held) == Sum(threads, Held) && Sum(threads', Tried) == Sum(threads, Tried)
      && Count(threads', IsSleeping) + (if IsSleeping(threads[t]) then 1 else 0)
         == Count(threads, IsSleeping) + (if IsSleeping(th) then 1 else 0)
      && Count(threads', IsInside) + (if IsInside(threads[t]) then 1 else 0)
         == Count(threads, IsInside) + (if IsInside(th) then 1 else 0)
      && NoneFailed(threads') == NoneFailed(threads)
  {
    hide Sum, Count;
    var threads' := threads[t := th];
    Replaced(threads, t, th);
    ReplacedFailed(threads, t, th);
    Cancel(Sum(threads', Held), Sum(threads, Held), multiset{}, multiset{});
    Cancel(Sum(threads', Tried), Sum(threads, Tried), multiset{}, multiset{});
  }

  lemma MiddleSleeping(e: Env, s: State, t: nat)
    requires Inv(e, s) && Enabled(s, Enter(t)) && !s.threads[t].Working?
    ensures MiddleInv(e, Middle(s, t), t)
    ensures s.threads[t].Sleeping? ==> s.nIdle > 0
  {
    hide Sum, Count, Books, NoneFailed, WellFormed, Held, Tried;
    ReplacedIdle(s.threads, t, Starting);
    assert Middle(s, t).threads == s.threads[t := Starting];
  }

  /** Dropping a thread that has run its whole batch. */
  lemma WorkedOff(threads: seq<Thread>, t: nat)
    requires t < |threads| && threads[t].Working? && threads[t].done == |threads[t].batch|
    ensures var threads', batch := threads[t := Starting], multiset(threads[t].batch);
      && Sum(threads', Held) + batch == Sum(threads, Held)
      && Sum(threads', Tried) + batch == Sum(threads, Tried)
      && Count(threads', IsSleeping) == Count(threads, IsSleeping)
      && Count(threads', IsInside) + 1 == Count(threads, IsInside)
      && (NoneFailed(threads) <==> NoneFailed(threads') && threads[t].fOk)
  {
    hide Sum, Count;
    Replaced(threads, t, Starting);
    ReplacedFailed(threads, t, Starting);
    assert threads[t].batch[..threads[t].done] == threads[t].batch;
  }

  lemma MiddleWorking(e: Env, s: State, t: nat)
    requires Inv(e, s) && Enabled(s, Enter(t)) && s.threads[t].Working?
    ensures MiddleInv(e, Middle(s, t), t)
  {
    hide Sum, Count, Books, NoneFailed, Held, Tried, Alike, WellFormed, Middle, CleanedUp, Reached;
    var threads', batch := s.threads[t := Starting], s.threads[t].batch;
    WorkedOff(s.threads, t);
    BooksFinished(e, s.added, multiset(s.queue), Sum(s.threads, Held), s.finished, Sum(s.threads, Tried), s.ran,
                  s.fAllOk && NoneFailed(s.threads), multiset(batch), Sum(threads', Held), Sum(threads', Tried));
    var m := Middle(s, t);
    assert |Sum(s.threads, Held)| == |Sum(threads', Held)| + |batch|;
    MiddleThreads(s, t);
    MiddleRest(s, t);
    AlikeSums(threads', m.threads);
  }

  lemma MiddleRest(s: State, t: nat)
    requires Enabled(s, Enter(t)) && s.threads[t].Working?
    ensures var m, th := Middle(s, t), s.threads[t];
      && m.queue == s.queue && m.nTodo == s.nTodo - |th.batch| && m.nIdle == s.nIdle && m.nTotal == s.nTotal
      && m.fAllOk == (s.fAllOk && th.fOk) && m.added == s.added && m.ran == s.ran && m.finished == s.finished + multiset(th.batch)
  {
  }

  lemma MiddleThreads(s: State, t: nat)
    requires Enabled(s, Enter(t)) && s.threads[t].Working? && WellFormed(s.threads)
    ensures var threads, threads' := s.threads[t := Starting], Middle(s, t).threads;
      && |threads'| == |threads| && WellFormed(threads') && threads'[t] == Starting
      && (forall u | 0 <= u < |threads| :: Alike(threads[u], threads'[u]))
      && (threads'[0] == Sleeping(false) ==> s.threads[0] == Sleeping(false) && s.nTodo != |s.threads[t].batch|)
  {
    hide Alike;
    var threads, threads' := s.threads[t := Starting], Middle(s, t).threads;
    forall u | 0 <= u < |threads|
      ensures threads'[u] == threads[u] || threads'[u] == Notify(threads[u])
      ensures Alike(threads[u], threads'[u])
    {
      AlikeNotified(threads[u]);
    }
  }

  lemma {:induction false} ReversedSame(q: seq<Check>)
    ensures multiset(Reversed(q)) == multiset(q) && |Reversed(q)| == |q|
  {
    if q != [] {
      ReversedSame(q[..|q| - 1]);
      assert q == q[..|q| - 1] + [q[|q| - 1]];
    }
  }

  /** A thread without a batch takes one. */
  lemma ReplacedBusy(threads: seq<Thread>, t: nat, batch: seq<Check>, fOk: bool)
    requires t < |threads| && WellFormed(threads) && threads[t] == Starting && |batch| > 0
    ensures var threads' := threads[t := Working(batch, 0, fOk)];
      && WellFormed(threads')
      && Sum(threads', Held) == Sum(threads, Held) + multiset(batch) && Sum(threads', Tried) == Sum(threads, Tried)
      && Count(threads', IsSleeping) == Count(threads, IsSleeping)
      && Count(threads', IsInside) == Count(threads, IsInside) + 1
      && NoneFailed(threads') == (NoneFailed(threads) && fOk)
  {
    hide Sum, Count;
    var th := Working(batch, 0, fOk);
    var threads' := threads[t := th];
    assert threads'[t] == th;
    Replaced(threads, t, th);
    ReplacedFailed(threads, t, th);
    Cancel(Sum(threads', Held), Sum(threads, Held), multiset{}, multiset(batch));
    Cancel(Sum(threads', Tried), Sum(threads, Tried), multiset{}, multiset{});
  }

  /** Taking a batch from the back of the queue. */
  lemma TakenKeeps(e: Env, m: State, t: nat, cut: nat)
    requires MiddleInv(e, m, t) && cut < |m.queue|
    ensures Inv(e, m.(queue := m.queue[..cut], threads := m.threads[t := Working(Reversed(m.queue[cut..]), 0, m.fAllOk)]))
  {
    hide Sum, Count, Books, NoneFailed, WellFormed, Held, Tried, Reversed;
    var batch := Reversed(m.queue[cut..]);
    ReversedSame(m.queue[cut..]);
    assert m.queue == m.queue[..cut] + m.queue[cut..];
    ReplacedBusy(m.threads, t, batch, m.fAllOk);
    BooksTaken(e, m.added, multiset(m.queue[..cut]), Sum(m.threads, Held), m.finished, Sum(m.threads, Tried), m.ran,
               m.fAllOk && NoneFailed(m.threads), multiset(batch));
  }

  lemma BooksTaken(e: Env, added: multiset<Check>, queued: multiset<Check>, held: multiset<Check>, finished: multiset<Check>,
                   tried: multiset<Check>, ran: multiset<Check>, good: bool, batch: multiset<Check>)
    requires Books(e, added, queued + batch, held, finished, tried, ran, good)
    ensures Books(e, added, queued, held + batch, finished, tried, ran, good)
  {
    assert queued + batch + held + finished == queued + (held + batch) + finished;
  }

  lemma SleptKeeps(e: Env, m: State, t: nat)
    requires MiddleInv(e, m, t) && m.queue == [] && (t == 0 ==> m.nTodo != 0)
    ensures Inv(e, m.(nIdle := m.nIdle + 1, threads := m.threads[t := Sleeping(false)]))
  {
    hide Sum, Count, Books, NoneFailed, WellFormed, Held, Tried;
    ReplacedIdle(m.threads, t, Sleeping(false));
  }

  /** With nothing to do and nothing queued, no thread holds a batch. */
  lemma Idle(threads: seq<Thread>)
    requires WellFormed(threads) && |Sum(threads, Held)| == 0
    ensures Sum(threads, Held) == multiset{} && Sum(threads, Tried) == multiset{}
    ensures forall t | 0 <= t < |threads| :: !threads[t].Working?
  {
    forall t | 0 <= t < |threads| ensures !threads[t].Working? {
      SumHas(threads, Held, t);
    }
    SumNothing(threads, Tried);
  }

  lemma ReturnedKeeps(e: Env, m: State)
    requires MiddleInv(e, m, 0) && m.queue == [] && m.nTodo == 0
    ensures Inv(e, m.(nTotal := m.nTotal - 1, fAllOk := true, threads := m.threads[0 := Outside],
                      added := multiset{}, finished := multiset{}, ran := multiset{}))
  {
    hide Sum, Count;
    var threads' := m.threads[0 := Outside];
    Idle(m.threads);
    AlikeSums(m.threads, threads');
  }

  lemma EnteredKeeps(e: Env, s: State, t: nat)
    requires Inv(e, s) && Enabled(s, Enter(t))
    ensures s.nTotal >= 0 && s.nIdle >= 0 && (s.threads[t].Sleeping? ==> s.nIdle > 0)
    ensures Inv(e, Entered(e, s, t))
  {
    hide Sum, Count, Accounted, WellFormed, BatchSize, Held;
    if s.threads[t].Working? {
      MiddleWorking(e, s, t);
    } else {
      MiddleSleeping(e, s, t);
    }
    EnteredIs(e, s, t);
    var m := Middle(s, t);
    if m.queue != [] {
      TakenKeeps(e, m, t, |m.queue| - BatchSize(e, |m.queue|, m.nTotal, m.nIdle));
    } else if Returns(s, t) {
      ReturnedKeeps(e, m);
    } else {
      SleptKeeps(e, m, t);
    }
  }

  /** The critical section, in terms of the state after the clean-up. */
  lemma EnteredIs(e: Env, s: State, t: nat)
    requires Enabled(s, Enter(t)) && s.nTotal >= 0 && s.nIdle >= 0
    requires s.threads[t].Sleeping? ==> s.nIdle > 0
    ensures var m := Middle(s, t);
      Entered(e, s, t) ==
        if m.queue != [] then
          var cut := |m.queue| - BatchSize(e, |m.queue|, m.nTotal, m.nIdle);
          m.(queue := m.queue[..cut], threads := m.threads[t := Working(Reversed(m.queue[cut..]), 0, m.fAllOk)])
        else if Returns(s, t) then
          m.(nTotal := m.nTotal - 1, fAllOk := true, threads := m.threads[t := Outside],
             added := multiset{}, finished := multiset{}, ran := multiset{})
        else
          m.(nIdle := m.nIdle + 1, threads := m.threads[t := Sleeping(false)])
  {
    hide BatchSize, Reversed;
    var s1, m := CleanedUp(s, t), Middle(s, t);
    if s1.queue != [] {
      var cut := |m.queue| - BatchSize(e, |m.queue|, m.nTotal, m.nIdle);
      var th := Working(Reversed(m.queue[cut..]), 0, m.fAllOk);
      assert s1.threads[t := th] == m.threads[t := th];
    } else if Returns(s, t) {
      assert s1.threads[t := Outside] == m.threads[t := Outside];
    } else {
      assert s1.threads[t := Sleeping(false)] == m.threads[t := Sleeping(false)];
    }
  }

  // ---------------------------------------------------------------- what the master gets

  /** Wait returns whether every check added since the last Wait passes; then each has run exactly once,
      and otherwise at most once. */
  lemma WaitVerdict(e: Env, s: State)
    requires Inv(e, s) && Enabled(s, Enter(0)) && Returns(s, 0)
    ensures Verdict(s, 0) <==> forall c | c in s.added :: e.passes(c)
    ensures Verdict(s, 0) ==> s.ran == s.added
    ensures s.ran <= s.added
  {
    hide Sum, Count;
    if s.threads[0].Working? {
      MiddleWorking(e, s, 0);
    } else {
      MiddleSleeping(e, s, 0);
    }
    var m := Middle(s, 0);
    Idle(m.threads);
    assert m.added == s.added && m.ran == s.ran;
  }

  /** No lost wakeup: a master asleep without a notification waits for a batch some worker still holds. */
  lemma MasterAwaits(e: Env, s: State)
    requires Inv(e, s) && s.threads[0] == Sleeping(false)
    ensures s.queue == [] && s.nTodo > 0
    ensures exists t :: 0 < t < |s.threads| && s.threads[t].Working?
  {
    if forall t | 0 < t < |s.threads| :: !s.threads[t].Working? {
      SumNothing(s.threads, Held);
    }
  }

  /** A step that needs no spurious wakeup. */
  predicate Prompt(s: State, step: Step) {
    Enabled(s, step) && (step.Enter? ==> s.threads[step.t] != Sleeping(false))
  }

  /** While the master is in Wait, some thread can move without a spurious wakeup. */
  lemma NeverStuck(e: Env, s: State)
    requires Inv(e, s) && !s.threads[0].Outside?
    ensures exists step: Step :: (step.Enter? || step.RunOne?) && Prompt(s, step)
  {
    var t := 0;
    if s.threads[0] == Sleeping(false) {
      MasterAwaits(e, s);
      t :| 0 < t < |s.threads| && s.threads[t].Working?;
    }
    if s.threads[t].Working? && s.threads[t].done < |s.threads[t].batch| {
      assert Prompt(s, RunOne(t));
    } else {
      assert Prompt(s, Enter(t));
    }
  }

  // ---------------------------------------------------------------- progress

  function Weight(th: Thread): nat {
    match th
    case Outside => 0
    case Starting => 2
    case Working(batch, done, _) => 2 + if done <= |batch| then |batch| - done else 0
    case Sleeping(notified) => if notified then 1 else 0
  }

  ghost function Total(threads: seq<Thread>): nat {
    if threads == [] then 0 else Total(threads[..|threads| - 1]) + Weight(threads[|threads| - 1])
  }

  lemma {:induction false} TotalSet(threads: seq<Thread>, t: nat, th: Thread)
    requires t < |threads|
    ensures Total(threads[t := th]) + Weight(threads[t]) == Total(threads) + Weight(th)
  {
    var n := |threads| - 1;
    if t < n {
      assert threads[t := th][..n] == threads[..n][t := th];
      TotalSet(threads[..n], t, th);
    } else {
      assert threads[t := th][..n] == threads[..n];
    }
  }

  /** How much is left to do, in steps. */
  ghost function Left(s: State): nat {
    4 * |s.queue| + Total(s.threads)
  }

  lemma RanOneProgress(e: Env, s: State, t: nat)
    requires Enabled(s, RunOne(t))
    ensures Left(RanOne(e, s, t)) < Left(s)
  {
    hide Total;
    TotalSet(s.threads, t, RanOne(e, s, t).threads[t]);
  }

  lemma MiddleLeft(s: State, t: nat)
    requires Enabled(s, Enter(t))
    ensures var m, th := Middle(s, t), s.threads[t];
      && m.queue == s.queue && t < |m.threads| && m.threads[t] == Starting
      && (th == Sleeping(false) ==> m.nIdle + 1 == s.nIdle && m == s.(nIdle := m.nIdle, threads := s.threads[t := Starting]))
      && m.nTotal >= s.nTotal && (if th.Sleeping? then s.nIdle == m.nIdle + 1 else m.nIdle == s.nIdle)
      && Left(m) + Weight(th) <= Left(s) + 2 + (if th.Working? && m.nTodo == 0 then 1 else 0)
  {
    hide Total;
    var threads := s.threads[t := Starting];
    TotalSet(s.threads, t, Starting);
    if s.threads[t].Working? && t != 0 {
      TotalSet(threads, 0, Notify(threads[0]));
      assert s.threads[0 := Notify(s.threads[0])][t := Starting] == threads[0 := Notify(threads[0])];
    }
  }

  lemma MiddleTodo(e: Env, s: State, t: nat)
    requires Inv(e, s) && Enabled(s, Enter(t))
    ensures Middle(s, t).nTodo == 0 && s.threads[t].Working? ==> s.queue == []
    ensures s.threads[t] == Sleeping(false) ==> !Returns(s, t)
    ensures Returns(s, t) ==> t == 0
  {
    hide Sum, Count, Accounted, WellFormed;
    if s.threads[t].Working? {
      MiddleWorking(e, s, t);
    }
  }

  lemma LeftSet(m: State, s: State, t: nat, th: Thread)
    requires t < |m.threads| && s.threads == m.threads[t := th]
    ensures Left(s) + 4 * |m.queue| + Weight(m.threads[t]) == Left(m) + 4 * |s.queue| + Weight(th)
  {
    hide Total, Weight;
    TotalSet(m.threads, t, th);
  }

  /** Every step of the threads gets closer to the end, except a spurious wakeup that finds nothing to do,
      and that changes nothing. */
  lemma EnteredProgress(e: Env, s: State, t: nat)
    requires Inv(e, s) && Enabled(s, Enter(t))
    ensures s.nTotal >= 0 && s.nIdle >= 0 && (s.threads[t].Sleeping? ==> s.nIdle > 0)
    ensures var s' := Entered(e, s, t);
      if s.threads[t] == Sleeping(false) && s.queue == [] && !Returns(s, t) then s' == s else Left(s') < Left(s)
  {
    hide Left, Inv, BatchSize, Reversed, Entered, Middle, CleanedUp, Returns;
    EnteredKeeps(e, s, t);
    MiddleTodo(e, s, t);
    EnteredIs(e, s, t);
    MiddleLeft(s, t);
    var m, s' := Middle(s, t), Entered(e, s, t);
    if m.queue != [] {
      var cut := |m.queue| - BatchSize(e, |m.queue|, m.nTotal, m.nIdle);
      ReversedSame(m.queue[cut..]);
      LeftSet(m, s', t, Working(Reversed(m.queue[cut..]), 0, m.fAllOk));
    } else if Returns(s, t) {
      LeftSet(m, s', t, Outside);
    } else {
      LeftSet(m, s', t, Sleeping(false));
      if s.threads[t] == Sleeping(false) {
        assert m.threads[t := Sleeping(false)] == s.threads;
      }
    }
  }

  // ---------------------------------------------------------------- whole runs

  ghost function After(e: Env, s: State, step: Step): (s': State)
    requires Inv(e, s) && Enabled(s, step)
    ensures Inv(e, s')
  {
    match step
    case Add(checks, woken) => AddedKeeps(e, s, checks, woken); Added(s, checks, woken)
    case CallWait => CalledKeeps(e, s); Called(s)
    case Enter(t) => EnteredKeeps(e, s, t); Entered(e, s, t)
    case RunOne(t) => RanOneKeeps(e, s, t); RanOne(e, s, t)
  }

  /** A schedule: any interleaving of the threads' steps. */
  ghost predicate Possible(e: Env, s: State, steps: seq<Step>)
    requires Inv(e, s)
    decreases |steps|
  {
    steps != [] ==> Enabled(s, steps[0]) && Possible(e, After(e, s, steps[0]), steps[1..])
  }

  ghost function Run(e: Env, s: State, steps: seq<Step>): (s': State)
    requires Inv(e, s) && Possible(e, s, steps)
    ensures Inv(e, s')
    decreases |steps|
  {
    if steps == [] then s else Run(e, After(e, s, steps[0]), steps[1..])
  }

  /** In every run of any number of workers, whenever Wait returns, its value is whether all checks added
      since the last Wait pass; none has then run twice, and none is left anywhere. */
  lemma EveryWaitIsRight(e: Env, workers: nat, steps: seq<Step>)
    ensures Inv(e, Initial(workers))
    ensures Possible(e, Initial(workers), steps) ==>
      var s := Run(e, Initial(workers), steps);
      Enabled(s, Enter(0)) && Returns(s, 0) ==>
        && (Verdict(s, 0) <==> forall c | c in s.added :: e.passes(c))
        && (Verdict(s, 0) ==> s.ran == s.added) && s.ran <= s.added
        && var s' := After(e, s, Enter(0));
           s'.queue == [] && s'.nTodo == 0 && s'.fAllOk && s'.added == multiset{}
           && forall t | 0 < t < |s'.threads| :: s'.threads[t].Starting? || s'.threads[t].Sleeping?
  {
    hide Inv, Run, Possible;
    InitialInv(e, workers);
    if Possible(e, Initial(workers), steps) {
      var s := Run(e, Initial(workers), steps);
      if Enabled(s, Enter(0)) && Returns(s, 0) {
        WaitVerdict(e, s);
        AllIdle(e, s);
      }
    }
  }

  lemma AllIdle(e: Env, s: State)
    requires Inv(e, s) && Enabled(s, Enter(0)) && Returns(s, 0)
    ensures var s' := After(e, s, Enter(0));
      && s'.queue == [] && s'.nTodo == 0 && s'.fAllOk && s'.added == multiset{}
      && forall t | 0 < t < |s'.threads| :: s'.threads[t].Starting? || s'.threads[t].Sleeping?
  {
    hide Sum, Count, Held, Accounted;
    var s' := After(e, s, Enter(0));
    Idle(s'.threads);
  }

  ghost predicate ThreadsOnly(steps: seq<Step>) {
    forall i | 0 <= i < |steps| :: steps[i].Enter? || steps[i].RunOne?
  }

  /** No step of the schedule is a spurious wakeup. */
  ghost predicate NoSpurious(e: Env, s: State, steps: seq<Step>)
    requires Inv(e, s) && Possible(e, s, steps)
    decreases |steps|
  {
    steps != [] ==> Prompt(s, steps[0]) && NoSpurious(e, After(e, s, steps[0]), steps[1..])
  }

  /** The threads cannot go on for ever without a new check or a spurious wakeup; as one of them can always
      move while the master waits, Wait returns. */
  lemma {:induction false} RunsEnd(e: Env, s: State, steps: seq<Step>)
    requires Inv(e, s) && Possible(e, s, steps) && ThreadsOnly(steps) && NoSpurious(e, s, steps)
    ensures |steps| <= Left(s)
    decreases |steps|
  {
    hide Inv, Left;
    if steps != [] {
      if steps[0].Enter? {
        EnteredProgress(e, s, steps[0].t);
      } else {
        RanOneProgress(e, s, steps[0].t);
      }
      assert forall i | 0 <= i < |steps[1..]| :: steps[1..][i] == steps[i + 1];
      RunsEnd(e, After(e, s, steps[0]), steps[1..]);
    }
  }

  /** No thread can move without a spurious wakeup. */
  ghost predicate Stuck(s: State) {
    forall step: Step :: (step.Enter? || step.RunOne?) ==> !Prompt(s, step)
  }

  /** At some step of the schedule Wait returns. */
  ghost predicate WaitReturns(e: Env, s: State, steps: seq<Step>)
    requires Inv(e, s) && Possible(e, s, steps)
    decreases |steps|
  {
    steps != [] && ((steps[0] == Enter(0) && Returns(s, 0)) || WaitReturns(e, After(e, s, steps[0]), steps[1..]))
  }

  /** The master leaves Wait only by returning. */
  lemma StaysInside(e: Env, s: State, step: Step)
    requires Inv(e, s) && (step.Enter? || step.RunOne?) && Enabled(s, step) && !s.threads[0].Outside?
    requires !(step == Enter(0) && Returns(s, 0))
    ensures |After(e, s, step).threads| > 0 && !After(e, s, step).threads[0].Outside?
  {
    hide Sum, Count, Accounted, BatchSize, Reversed;
    if step.Enter? { EnteredKeeps(e, s, step.t); }
  }

  /** Wait returns: a schedule of the threads alone, without spurious wakeups, that starts inside Wait and cannot
      be continued contains the step at which Wait returns, and its length is bounded in advance. */
  lemma {:induction false} EveryWaitReturns(e: Env, s: State, steps: seq<Step>)
    requires Inv(e, s) && !s.threads[0].Outside?
    requires Possible(e, s, steps) && ThreadsOnly(steps) && NoSpurious(e, s, steps) && Stuck(Run(e, s, steps))
    ensures |steps| <= Left(s) && WaitReturns(e, s, steps)
    decreases |steps|
  {
    hide Inv, Left, Prompt;
    RunsEnd(e, s, steps);
    if steps == [] {
      NeverStuck(e, s);
    } else if !(steps[0] == Enter(0) && Returns(s, 0)) {
      StaysInside(e, s, steps[0]);
      assert forall i | 0 <= i < |steps[1..]| :: steps[1..][i] == steps[i + 1];
      EveryWaitReturns(e, After(e, s, steps[0]), steps[1..]);
    }
  }
}
