/** The lock's test program: N threads, each counting to M under the lock and adding up the time
    it waited.  A thread's turn is one atomic access to shared memory or to the clock; g_total_count
    and g_spinlock_cast are read and written in separate turns. */
module SpinlockTest {
  import opened Spinlock
  import opened DivisionFacts

  const UINT_RANGE: nat := 0x1_0000_0000
  const ULONG_RANGE: nat := 0x1_0000_0000_0000_0000

  /** Where a thread is in pthread_routine, with the values of its local variables. */
  datatype Pc =
    | Loop
    | Spin(start: int)
    | ReadClock(start: int)
    | LoadCast(cost: int)
    | StoreCast(cost: int, cast: int)
    | LoadCount
    | StoreCount(count: int)
    | Unlocking
    | Done

  datatype Thread = Thread(i: nat, pc: Pc)

  /** spent is the sum of the waiting times stored so far, without wrap-around. */
  datatype World = World(locked: int, cast: int, total: int, spent: int, threads: seq<Thread>)

  ghost function Initial(n: nat): World {
    World(0, 0, 0, 0, seq(n, _ => Thread(0, Loop)))
  }

  /** One turn of thread t; now is what the clock shows.  m is the number of iterations. */
  ghost function Turn(m: nat, w: World, t: nat, now: int): World
    requires t < |w.threads|
  {
    var th := w.threads[t];
    match th.pc
    case Loop => w.(threads := w.threads[t := th.(pc := if th.i < m then Spin(now) else Done)])
    case Spin(start) =>
      if w.locked == 0 then w.(locked := 1, threads := w.threads[t := th.(pc := ReadClock(start))]) else w
    case ReadClock(start) => w.(threads := w.threads[t := th.(pc := LoadCast(now - start))])
    case LoadCast(cost) => w.(threads := w.threads[t := th.(pc := StoreCast(cost, w.cast))])
    case StoreCast(cost, cast) =>
      w.(cast := (cast + cost) % ULONG_RANGE, spent := w.spent + cost, threads := w.threads[t := th.(pc := LoadCount)])
    case LoadCount => w.(threads := w.threads[t := th.(pc := StoreCount(w.total))])
    case StoreCount(count) => w.(total := (count + 1) % UINT_RANGE, threads := w.threads[t := th.(pc := Unlocking)])
    case Unlocking => w.(locked := 0, threads := w.threads[t := Thread(th.i + 1, Loop)])
    case Done => w
  }

  /** Between a successful compare-and-swap and the release. */
  ghost predicate Inside(th: Thread) {
    !th.pc.Loop? && !th.pc.Spin? && !th.pc.Done?
  }

  /** Increments of g_total_count a thread has stored. */
  ghost function Counted(th: Thread): nat {
    th.i + if th.pc.Unlocking? then 1 else 0
  }

  ghost function TotalCounted(ts: seq<Thread>): nat {
    if ts == [] then 0 else Counted(ts[0]) + TotalCounted(ts[1..])
  }

  ghost predicate ThreadOk(m: nat, w: World, th: Thread) {
    && th.i <= m
    && (th.pc.Done? ==> th.i == m)
    && (!th.pc.Loop? && !th.pc.Done? ==> th.i < m)
    && (th.pc.StoreCast? ==> th.pc.cast == w.cast)
    && (th.pc.StoreCount? ==> th.pc.count == w.total)
  }

  ghost predicate MutuallyExclusive(w: World) {
    && (w.locked == 0 || w.locked == 1)
    && (w.locked == 0 <==> forall t | 0 <= t < |w.threads| :: !Inside(w.threads[t]))
    && (forall t, u | 0 <= t < u < |w.threads| :: !(Inside(w.threads[t]) && Inside(w.threads[u])))
  }

  ghost predicate Inv(m: nat, w: World) {
    && MutuallyExclusive(w)
    && (forall t | 0 <= t < |w.threads| :: ThreadOk(m, w, w.threads[t]))
    && w.total == TotalCounted(w.threads) % UINT_RANGE
    && w.cast == w.spent % ULONG_RANGE
  }

  lemma {:induction false} CountUpdate(ts: seq<Thread>, t: nat, th: Thread)
    requires t < |ts|
    ensures TotalCounted(ts[t := th]) == TotalCounted(ts) - Counted(ts[t]) + Counted(th)
  {
    if t == 0 {
      assert ts[0 := th][1..] == ts[1..];
    } else {
      assert ts[t := th][1..] == ts[1..][t - 1 := th];
      CountUpdate(ts[1..], t - 1, th);
    }
  }

  lemma {:induction false} CountNone(n: nat)
    ensures TotalCounted(seq(n, _ => Thread(0, Loop))) == 0
  {
    if n > 0 {
      assert seq(n, _ => Thread(0, Loop))[1..] == seq(n - 1, _ => Thread(0, Loop));
      CountNone(n - 1);
    }
  }

  /** No turn lets two threads in or loses an update. */
  lemma TurnInv(m: nat, w: World, t: nat, now: int)
    requires Inv(m, w) && t < |w.threads|
    ensures Inv(m, Turn(m, w, t, now))
  {
    var w' := Turn(m, w, t, now);
    var th := w.threads[t];
    assert ThreadOk(m, w, th);
    CountUpdate(w.threads, t, w'.threads[t]);
    assert w'.threads == w.threads[t := w'.threads[t]];
    TurnExcludes(m, w, t, now);
    TurnThreads(m, w, t, now);
    WrapAdd(w.spent, if th.pc.StoreCast? then th.pc.cost else 0, ULONG_RANGE);
    WrapAdd(TotalCounted(w.threads), 1, UINT_RANGE);
  }

  lemma TurnThreads(m: nat, w: World, t: nat, now: int)
    requires MutuallyExclusive(w) && t < |w.threads|
    requires forall u | 0 <= u < |w.threads| :: ThreadOk(m, w, w.threads[u])
    ensures var w' := Turn(m, w, t, now); forall u | 0 <= u < |w'.threads| :: ThreadOk(m, w', w'.threads[u])
  {
    var w' := Turn(m, w, t, now);
    forall u | 0 <= u < |w.threads| ensures ThreadOk(m, w', w'.threads[u]) {
      assert ThreadOk(m, w, w.threads[u]);
    }
  }

  lemma TurnExcludes(m: nat, w: World, t: nat, now: int)
    requires MutuallyExclusive(w) && t < |w.threads|
    ensures MutuallyExclusive(Turn(m, w, t, now))
  {
    var w' := Turn(m, w, t, now);
    if w' != w {
      assert w'.threads[t] != w.threads[t];
      assert forall u | 0 <= u < |w.threads| && u != t :: w'.threads[u] == w.threads[u];
    }
  }

  // ---- runs ----

  datatype Tick = Tick(t: nat, now: int)

  ghost predicate ForThreads(n: nat, sched: seq<Tick>) {
    forall k | k in sched :: k.t < n
  }

  ghost function After(m: nat, w: World, sched: seq<Tick>): (w': World)
    requires ForThreads(|w.threads|, sched)
    ensures |w'.threads| == |w.threads|
  {
    if sched == [] then w
    else Turn(m, After(m, w, sched[..|sched| - 1]), sched[|sched| - 1].t, sched[|sched| - 1].now)
  }

  lemma InitialInv(m: nat, n: nat)
    ensures Inv(m, Initial(n))
  {
    CountNone(n);
  }

  lemma {:induction false} RunInv(m: nat, w: World, sched: seq<Tick>)
    requires Inv(m, w) && ForThreads(|w.threads|, sched)
    ensures Inv(m, After(m, w, sched))
  {
    if sched != [] {
      var k := sched[|sched| - 1];
      RunInv(m, w, sched[..|sched| - 1]);
      TurnInv(m, After(m, w, sched[..|sched| - 1]), k.t, k.now);
    }
  }

  ghost predicate AllDone(w: World) {
    forall t | 0 <= t < |w.threads| :: w.threads[t].pc.Done?
  }

  lemma {:induction false} CountDone(m: nat, ts: seq<Thread>)
    requires forall t | 0 <= t < |ts| :: ts[t].pc.Done? && ts[t].i == m
    ensures TotalCounted(ts) == |ts| * m
  {
    if ts != [] {
      CountDone(m, ts[1..]);
      assert |ts| * m == m + (|ts| - 1) * m;
    }
  }

  // ---- the measured times, from the schedule ----

  /** What the clock showed at thread t's last turn at the head of its loop. */
  ghost function StartedAt(m: nat, n: nat, sched: seq<Tick>, t: nat): int
    requires ForThreads(n, sched) && t < n
  {
    if sched == [] then 0
    else
      var rest, k := sched[..|sched| - 1], sched[|sched| - 1];
      if k.t == t && After(m, Initial(n), rest).threads[t].pc.Loop? then k.now else StartedAt(m, n, rest, t)
  }

  /** What thread t measured last: the clock when it had the lock, less the clock when it began. */
  ghost function Measured(m: nat, n: nat, sched: seq<Tick>, t: nat): int
    requires ForThreads(n, sched) && t < n
  {
    if sched == [] then 0
    else
      var rest, k := sched[..|sched| - 1], sched[|sched| - 1];
      if k.t == t && After(m, Initial(n), rest).threads[t].pc.ReadClock? then k.now - StartedAt(m, n, rest, t)
      else Measured(m, n, rest, t)
  }

  /** The measured times stored so far. */
  ghost function StoredTimes(m: nat, n: nat, sched: seq<Tick>): int
    requires ForThreads(n, sched)
  {
    if sched == [] then 0
    else
      var rest, k := sched[..|sched| - 1], sched[|sched| - 1];
      StoredTimes(m, n, rest)
      + if After(m, Initial(n), rest).threads[k.t].pc.StoreCast? then Measured(m, n, rest, k.t) else 0
  }

  /** What a thread remembers of the clock is what the schedule says. */
  ghost predicate Remembers(pc: Pc, started: int, measured: int) {
    && (pc.Spin? ==> pc.start == started)
    && (pc.ReadClock? ==> pc.start == started)
    && (pc.LoadCast? ==> pc.cost == measured)
    && (pc.StoreCast? ==> pc.cost == measured)
  }

  lemma {:induction false} TimesRemembered(m: nat, n: nat, sched: seq<Tick>)
    requires ForThreads(n, sched)
    ensures var w := After(m, Initial(n), sched);
            && w.spent == StoredTimes(m, n, sched)
            && forall t | 0 <= t < n :: Remembers(w.threads[t].pc, StartedAt(m, n, sched, t), Measured(m, n, sched, t))
  {
    if sched != [] {
      var k := sched[|sched| - 1];
      assert k in sched;
      TimesRemembered(m, n, sched[..|sched| - 1]);
    }
  }

  /** In every reachable state g_spinlock_cast is the sum of the measured times stored, in 64 bits. */
  lemma CastIsStoredTimes(m: nat, n: nat, sched: seq<Tick>)
    requires ForThreads(n, sched)
    ensures After(m, Initial(n), sched).cast == StoredTimes(m, n, sched) % 18446744073709551616
  {
    InitialInv(m, n);
    RunInv(m, Initial(n), sched);
    TimesRemembered(m, n, sched);
  }

  /** All readings of the clock so far: those that end a wait, less those that begin one. */
  ghost function NetClock(m: nat, n: nat, sched: seq<Tick>): int
    requires ForThreads(n, sched)
  {
    if sched == [] then 0
    else
      var rest, k := sched[..|sched| - 1], sched[|sched| - 1];
      var th := After(m, Initial(n), rest).threads[k.t];
      NetClock(m, n, rest) + if th.pc.ReadClock? then k.now else if th.pc.Loop? && th.i < m then -k.now else 0
  }

  /** What a thread has read of the clock and not yet stored. */
  ghost function Pending(th: Thread): int {
    match th.pc
    case Spin(start) => -start
    case ReadClock(start) => -start
    case LoadCast(cost) => cost
    case StoreCast(cost, _) => cost
    case _ => 0
  }

  ghost function TotalPending(ts: seq<Thread>): int {
    if ts == [] then 0 else Pending(ts[0]) + TotalPending(ts[1..])
  }

  lemma {:induction false} PendingUpdate(ts: seq<Thread>, t: nat, th: Thread)
    requires t < |ts|
    ensures TotalPending(ts[t := th]) == TotalPending(ts) - Pending(ts[t]) + Pending(th)
  {
    if t == 0 {
      assert ts[0 := th][1..] == ts[1..];
    } else {
      assert ts[t := th][1..] == ts[1..][t - 1 := th];
      PendingUpdate(ts[1..], t - 1, th);
    }
  }

  lemma {:induction false} NonePending(ts: seq<Thread>)
    requires forall t | 0 <= t < |ts| :: Pending(ts[t]) == 0
    ensures TotalPending(ts) == 0
  {
    if ts != [] {
      NonePending(ts[1..]);
    }
  }

  lemma TurnClock(m: nat, w: World, t: nat, now: int)
    requires t < |w.threads|
    ensures var w', th := Turn(m, w, t, now), w.threads[t];
            w'.spent + TotalPending(w'.threads) == w.spent + TotalPending(w.threads)
              + if th.pc.ReadClock? then now else if th.pc.Loop? && th.i < m then -now else 0
  {
    var w' := Turn(m, w, t, now);
    PendingUpdate(w.threads, t, w'.threads[t]);
    assert w'.threads == w.threads[t := w'.threads[t]];
  }

  /** No reading of the clock is lost: each is in the sum stored or in a thread's hands. */
  lemma {:induction false} ClockConserved(m: nat, n: nat, sched: seq<Tick>)
    requires ForThreads(n, sched)
    ensures var w := After(m, Initial(n), sched); NetClock(m, n, sched) == w.spent + TotalPending(w.threads)
  {
    if sched == [] {
      NonePending(Initial(n).threads);
    } else {
      var rest, k := sched[..|sched| - 1], sched[|sched| - 1];
      ClockConserved(m, n, rest);
      TurnClock(m, After(m, Initial(n), rest), k.t, k.now);
    }
  }

  /** At the join, after any interleaving: threads times iterations in 32 bits, and in 64 bits the
      clock readings that ended a wait less those that began one, each thread's time measured from
      its own beginning. */
  lemma NoLostUpdates(m: nat, n: nat, sched: seq<Tick>)
    requires ForThreads(n, sched) && AllDone(After(m, Initial(n), sched))
    ensures var w := After(m, Initial(n), sched);
            && w.total == (n * m) % 4294967296 && (n * m < 4294967296 ==> w.total == n * m)
            && w.cast == StoredTimes(m, n, sched) % 18446744073709551616
            && w.cast == NetClock(m, n, sched) % 18446744073709551616
            && w.locked == 0
  {
    var w := After(m, Initial(n), sched);
    InitialInv(m, n);
    RunInv(m, Initial(n), sched);
    forall t | 0 <= t < |w.threads| ensures w.threads[t].pc.Done? && w.threads[t].i == m {
      assert ThreadOk(m, w, w.threads[t]);
    }
    CountDone(m, w.threads);
    CastIsStoredTimes(m, n, sched);
    ClockConserved(m, n, sched);
    NonePending(w.threads);
    if n * m < 4294967296 {
      DivMod(n * m, 4294967296, 0, n * m);
    }
  }

  // ---- termination ----

  /** The turns a thread still has to take, failed compare-and-swaps not counted. */
  ghost function Left(m: nat, th: Thread): int {
    8 * (m - th.i) + match th.pc {
      case Loop => 1
      case Spin(_) => 0
      case ReadClock(_) => -1
      case LoadCast(_) => -2
      case StoreCast(_, _) => -3
      case LoadCount => -4
      case StoreCount(_) => -5
      case Unlocking => -6
      case Done => 0
    }
  }

  ghost function TotalLeft(m: nat, ts: seq<Thread>): int {
    if ts == [] then 0 else Left(m, ts[0]) + TotalLeft(m, ts[1..])
  }

  /** The turn is neither a failed compare-and-swap nor that of a finished thread. */
  ghost predicate Works(w: World, t: nat)
    requires t < |w.threads|
  {
    !w.threads[t].pc.Done? && (w.threads[t].pc.Spin? ==> w.locked == 0)
  }

  lemma {:induction false} LeftUpdate(m: nat, ts: seq<Thread>, t: nat, th: Thread)
    requires t < |ts|
    ensures TotalLeft(m, ts[t := th]) == TotalLeft(m, ts) - Left(m, ts[t]) + Left(m, th)
  {
    if t == 0 {
      assert ts[0 := th][1..] == ts[1..];
    } else {
      assert ts[t := th][1..] == ts[1..][t - 1 := th];
      LeftUpdate(m, ts[1..], t - 1, th);
    }
  }

  /** A working turn brings the end nearer by exactly one; any other turn changes nothing. */
  lemma TurnProgress(m: nat, w: World, t: nat, now: int)
    requires Inv(m, w) && t < |w.threads|
    ensures TotalLeft(m, Turn(m, w, t, now).threads) == TotalLeft(m, w.threads) - if Works(w, t) then 1 else 0
    ensures !Works(w, t) ==> Turn(m, w, t, now) == w
  {
    assert ThreadOk(m, w, w.threads[t]);
    LeftUpdate(m, w.threads, t, Turn(m, w, t, now).threads[t]);
  }

  /** No state short of the end is stuck: somebody's next turn is a working one. */
  lemma SomeoneWorks(m: nat, w: World) returns (t: nat)
    requires Inv(m, w) && !AllDone(w)
    ensures t < |w.threads| && Works(w, t)
  {
    if u :| 0 <= u < |w.threads| && Inside(w.threads[u]) {
      t := u;
    } else {
      t :| 0 <= t < |w.threads| && !w.threads[t].pc.Done?;
    }
  }

  lemma {:induction false} LeftNonNegative(m: nat, w: World, ts: seq<Thread>)
    requires forall th | th in ts :: ThreadOk(m, w, th)
    ensures TotalLeft(m, ts) >= 0
    ensures TotalLeft(m, ts) == 0 <==> forall t | 0 <= t < |ts| :: ts[t].pc.Done?
  {
    if ts != [] {
      assert ThreadOk(m, w, ts[0]);
      LeftNonNegative(m, w, ts[1..]);
      assert forall t | 1 <= t < |ts| :: ts[t] == ts[1..][t - 1];
      if TotalLeft(m, ts[1..]) == 0 {
        forall t | 1 <= t < |ts| ensures ts[t].pc.Done? {
          assert ts[t] == ts[1..][t - 1];
        }
      } else {
        var t :| 0 <= t < |ts[1..]| && !ts[1..][t].pc.Done?;
        assert !ts[t + 1].pc.Done?;
      }
    }
  }

  /** The working turns of a schedule. */
  ghost function Work(m: nat, w: World, sched: seq<Tick>): nat
    requires ForThreads(|w.threads|, sched)
  {
    if sched == [] then 0
    else
      Work(m, w, sched[..|sched| - 1])
      + if Works(After(m, w, sched[..|sched| - 1]), sched[|sched| - 1].t) then 1 else 0
  }

  lemma {:induction false} WorkIsProgress(m: nat, w: World, sched: seq<Tick>)
    requires Inv(m, w) && ForThreads(|w.threads|, sched)
    ensures Work(m, w, sched) == TotalLeft(m, w.threads) - TotalLeft(m, After(m, w, sched).threads)
  {
    if sched != [] {
      var rest, k := sched[..|sched| - 1], sched[|sched| - 1];
      WorkIsProgress(m, w, rest);
      RunInv(m, w, rest);
      TurnProgress(m, After(m, w, rest), k.t, k.now);
    }
  }

  lemma {:induction false} LeftAtStart(m: nat, n: nat)
    ensures TotalLeft(m, Initial(n).threads) == n * (8 * m + 1)
  {
    if n > 0 {
      LeftAtStart(m, n - 1);
      assert Initial(n).threads[1..] == Initial(n - 1).threads;
      assert n * (8 * m + 1) == (8 * m + 1) + (n - 1) * (8 * m + 1);
    }
  }

  /** However the threads are scheduled and however often they spin, a run has at most
      n * (8 * m + 1) working turns, and exactly that many when it is over. */
  lemma BoundedWork(m: nat, n: nat, sched: seq<Tick>)
    requires ForThreads(n, sched)
    ensures Work(m, Initial(n), sched) <= n * (8 * m + 1)
    ensures Work(m, Initial(n), sched) == n * (8 * m + 1) <==> AllDone(After(m, Initial(n), sched))
  {
    var w := After(m, Initial(n), sched);
    InitialInv(m, n);
    RunInv(m, Initial(n), sched);
    WorkIsProgress(m, Initial(n), sched);
    LeftAtStart(m, n);
    assert forall th | th in w.threads :: ThreadOk(m, w, th);
    LeftNonNegative(m, w, w.threads);
  }

  /** From every reachable state the program can still finish. */
  lemma {:induction false} CanFinish(m: nat, w: World) returns (sched: seq<Tick>)
    requires Inv(m, w)
    ensures ForThreads(|w.threads|, sched) && AllDone(After(m, w, sched))
    decreases TotalLeft(m, w.threads)
  {
    if AllDone(w) {
      sched := [];
    } else {
      assert forall th | th in w.threads :: ThreadOk(m, w, th);
      LeftNonNegative(m, w, w.threads);
      var t := SomeoneWorks(m, w);
      TurnProgress(m, w, t, 0);
      TurnInv(m, w, t, 0);
      var rest := CanFinish(m, Turn(m, w, t, 0));
      sched := [Tick(t, 0)] + rest;
      AfterFirst(m, w, Tick(t, 0), rest);
    }
  }

  lemma {:induction false} AfterFirst(m: nat, w: World, k: Tick, rest: seq<Tick>)
    requires k.t < |w.threads| && ForThreads(|w.threads|, rest)
    ensures ForThreads(|w.threads|, [k] + rest)
    ensures After(m, w, [k] + rest) == After(m, Turn(m, w, k.t, k.now), rest)
    decreases |rest|
  {
    if rest == [] {
      assert [k] + rest == [k] && [k][..0] == [];
      assert After(m, w, []) == w;
    } else {
      var n := |rest| - 1;
      AfterFirst(m, w, k, rest[..n]);
      WithoutLast(k, rest);
    }
  }

  lemma WithoutLast<T>(k: T, rest: seq<T>)
    requires rest != []
    ensures var all, n := [k] + rest, |rest| - 1;
            |all| - 1 == n + 1 && all[..n + 1] == [k] + rest[..n] && all[n + 1] == rest[n]
  {
  }

  // ---- the program ----

  /** The globals of the test and the program counters of its threads. */
  class Program {
    const m: nat
    const lock: Lock
    const threads: array<Thread>
    var gSpinlockCast: int
    var gTotalCount: int
    ghost var spent: int

    constructor (iterations: nat, threadNum: nat)
      ensures m == iterations && Abs() == Initial(threadNum)
      ensures fresh(lock) && fresh(threads)
    {
      m := iterations;
      lock := new Lock();
      threads := new Thread[threadNum](_ => Thread(0, Loop));
      gSpinlockCast, gTotalCount, spent := 0, 0, 0;
    }

    ghost function Abs(): World
      reads this, lock, threads
    {
      World(lock.locked, gSpinlockCast, gTotalCount, spent, threads[..])
    }

    /** One turn of thread t of pthread_routine. */
    method TakeTurn(t: nat, now: int)
      requires t < threads.Length
      modifies this, lock, threads
      ensures Abs() == Turn(m, old(Abs()), t, now)
    {
      var th := threads[t];
      match th.pc
      case Loop =>
        if th.i < m {
          threads[t] := th.(pc := Spin(now));
        } else {
          threads[t] := th.(pc := Done);
        }
      case Spin(start) =>
        var ok := lock.TryLock(t);
        if ok {
          threads[t] := th.(pc := ReadClock(start));
        }
      case ReadClock(start) =>
        threads[t] := th.(pc := LoadCast(now - start));
      case LoadCast(cost) =>
        threads[t] := th.(pc := StoreCast(cost, gSpinlockCast));
      case StoreCast(cost, cast) =>
        gSpinlockCast := (cast + cost) % ULONG_RANGE;
        spent := spent + cost;
        threads[t] := th.(pc := LoadCount);
      case LoadCount =>
        threads[t] := th.(pc := StoreCount(gTotalCount));
      case StoreCount(count) =>
        gTotalCount := (count + 1) % UINT_RANGE;
        threads[t] := th.(pc := Unlocking);
      case Unlocking =>
        lock.Unlock(t);
        threads[t] := Thread(th.i + 1, Loop);
      case Done =>
    }

    /** The scheduler gives turns to threads in the given order. */
    method Execute(sched: seq<Tick>)
      requires ForThreads(threads.Length, sched)
      modifies this, lock, threads
      ensures Abs() == After(m, old(Abs()), sched)
    {
      for k := 0 to |sched|
        invariant Abs() == After(m, old(Abs()), sched[..k])
      {
        assert sched[..k + 1][..k] == sched[..k];
        assert sched[k] in sched;
        TakeTurn(sched[k].t, sched[k].now);
      }
      assert sched[..|sched|] == sched;
    }
  }
}
