/** The start-up gate: every worker locks the mutex, waits on the condition once, and unlocks;
    the main thread creates the workers and then broadcasts once, without the mutex and without
    a flag to go with the condition.  Waiting ends only by the broadcast. */
module Gate {

  datatype Worker = Unborn | Ready | Locked | Waiting | Woken | Relocked | Passed

  datatype Mutex = Free | HeldBy(t: nat)

  /** called is the set of workers that were waiting when the broadcast came. */
  datatype State = State(mutex: Mutex, created: nat, broadcast: bool, called: set<nat>, workers: seq<Worker>)

  datatype Step = Create | Broadcast | Go(t: nat)

  ghost function Initial(n: nat): State {
    State(Free, 0, false, {}, seq(n, _ => Unborn))
  }

  ghost predicate Enabled(s: State, step: Step) {
    match step
    case Create => !s.broadcast && s.created < |s.workers|
    case Broadcast => !s.broadcast && s.created >= |s.workers|
    case Go(t) =>
      t < |s.workers| &&
      match s.workers[t] {
        case Ready => s.mutex == Free
        case Woken => s.mutex == Free
        case Locked => s.mutex == HeldBy(t)
        case Relocked => s.mutex == HeldBy(t)
        case _ => false
      }
  }

  ghost function WaitingSet(s: State): set<nat> {
    set t | 0 <= t < |s.workers| && s.workers[t] == Waiting
  }

  ghost function Next(s: State, step: Step): (s': State)
    requires Enabled(s, step)
    ensures |s'.workers| == |s.workers|
  {
    match step
    case Create => s.(created := s.created + 1, workers := s.workers[s.created := Ready])
    case Broadcast =>
      s.(broadcast := true, called := WaitingSet(s),
         workers := seq(|s.workers|, t requires 0 <= t < |s.workers| =>
                      if s.workers[t] == Waiting then Woken else s.workers[t]))
    case Go(t) =>
      if s.workers[t] == Ready then s.(mutex := HeldBy(t), workers := s.workers[t := Locked])
      else if s.workers[t] == Locked then s.(mutex := Free, workers := s.workers[t := Waiting])
      else if s.workers[t] == Woken then s.(mutex := HeldBy(t), workers := s.workers[t := Relocked])
      else s.(mutex := Free, workers := s.workers[t := Passed])
  }

  // ---- the invariant ----

  ghost predicate WorkerOk(s: State, t: nat)
    requires t < |s.workers|
  {
    var w := s.workers[t];
    && (w == Unborn <==> s.created <= t)
    && (w in {Locked, Relocked} <==> s.mutex == HeldBy(t))
    && (t in s.called <==> w in {Woken, Relocked, Passed})
  }

  ghost predicate Inv(s: State) {
    && s.created <= |s.workers|
    && (s.broadcast ==> s.created == |s.workers|)
    && (!s.broadcast ==> s.called == {})
    && (forall t | 0 <= t < |s.workers| :: WorkerOk(s, t))
    && (s.mutex.HeldBy? ==> s.mutex.t < |s.workers|)
    && (forall t | t in s.called :: t < |s.workers|)
  }

  lemma StepInv(s: State, step: Step)
    requires Inv(s) && Enabled(s, step)
    ensures Inv(Next(s, step))
    ensures s.broadcast ==> Next(s, step).broadcast && Next(s, step).called == s.called
  {
    var s' := Next(s, step);
    forall t | 0 <= t < |s'.workers| ensures WorkerOk(s', t) {
      assert WorkerOk(s, t);
      assert s.mutex.HeldBy? ==> WorkerOk(s, s.mutex.t);
    }
  }

  // ---- runs ----

  ghost predicate Legal(s: State, steps: seq<Step>)
    decreases |steps|, 0
  {
    steps == [] || (Legal(s, steps[..|steps| - 1]) && Enabled(After(s, steps[..|steps| - 1]), steps[|steps| - 1]))
  }

  ghost function After(s: State, steps: seq<Step>): (s': State)
    requires Legal(s, steps)
    ensures |s'.workers| == |s.workers|
    decreases |steps|, 1
  {
    if steps == [] then s else Next(After(s, steps[..|steps| - 1]), steps[|steps| - 1])
  }

  lemma {:induction false} RunInv(s: State, steps: seq<Step>)
    requires Inv(s) && Legal(s, steps)
    ensures Inv(After(s, steps))
    ensures s.broadcast ==> After(s, steps).broadcast && After(s, steps).called == s.called
    decreases |steps|
  {
    if steps != [] {
      RunInv(s, steps[..|steps| - 1]);
      StepInv(After(s, steps[..|steps| - 1]), steps[|steps| - 1]);
    }
  }

  lemma InitialInv(n: nat)
    ensures Inv(Initial(n))
  {
    assert forall u | 0 <= u < n :: WorkerOk(Initial(n), u);
  }

  /** After a broadcast there was a point at which it came, and the workers it called are those
      that were waiting then. */
  lemma {:induction false} CalledWaited(n: nat, steps: seq<Step>) returns (k: nat)
    requires Legal(Initial(n), steps) && After(Initial(n), steps).broadcast
    ensures k < |steps| && steps[k] == Broadcast && Legal(Initial(n), steps[..k])
    ensures forall t: nat :: t in After(Initial(n), steps).called <==>
              t < n && After(Initial(n), steps[..k]).workers[t] == Waiting
    decreases |steps|
  {
    var m := |steps| - 1;
    if After(Initial(n), steps[..m]).broadcast {
      k := CalledWaited(n, steps[..m]);
      assert steps[..m][..k] == steps[..k];
      InitialInv(n);
      RunInv(Initial(n), steps[..m]);
      StepInv(After(Initial(n), steps[..m]), steps[m]);
    } else {
      k := m;
    }
  }

  /** No worker gets past the gate before the broadcast, and afterwards only those that were
      waiting when it came. */
  lemma OnlyCalledPass(n: nat, steps: seq<Step>, t: nat) returns (k: nat)
    requires Legal(Initial(n), steps) && t < n && After(Initial(n), steps).workers[t] == Passed
    ensures After(Initial(n), steps).broadcast && t in After(Initial(n), steps).called
    ensures k < |steps| && steps[k] == Broadcast && Legal(Initial(n), steps[..k])
    ensures After(Initial(n), steps[..k]).workers[t] == Waiting
  {
    InitialInv(n);
    RunInv(Initial(n), steps);
    assert WorkerOk(After(Initial(n), steps), t);
    k := CalledWaited(n, steps);
  }

  // ---- every schedule comes to rest ----

  ghost function Rank(w: Worker): nat {
    match w
    case Unborn => 6
    case Ready => 5
    case Locked => 4
    case Waiting => 3
    case Woken => 2
    case Relocked => 1
    case Passed => 0
  }

  ghost function TotalRank(ws: seq<Worker>): nat {
    if ws == [] then 0 else Rank(ws[0]) + TotalRank(ws[1..])
  }

  ghost function Measure(s: State): nat {
    TotalRank(s.workers) + if s.broadcast then 0 else 1
  }

  lemma {:induction false} RankUpdate(ws: seq<Worker>, t: nat, w: Worker)
    requires t < |ws|
    ensures TotalRank(ws[t := w]) == TotalRank(ws) - Rank(ws[t]) + Rank(w)
  {
    if t == 0 {
      assert ws[0 := w][1..] == ws[1..];
    } else {
      assert ws[t := w][1..] == ws[1..][t - 1 := w];
      RankUpdate(ws[1..], t - 1, w);
    }
  }

  lemma {:induction false} RankLower(ws: seq<Worker>, vs: seq<Worker>)
    requires |ws| == |vs| && forall t | 0 <= t < |ws| :: Rank(vs[t]) <= Rank(ws[t])
    ensures TotalRank(vs) <= TotalRank(ws)
  {
    if ws != [] {
      RankLower(ws[1..], vs[1..]);
    }
  }

  lemma StepLowers(s: State, step: Step)
    requires Inv(s) && Enabled(s, step)
    ensures Measure(Next(s, step)) < Measure(s)
  {
    var s' := Next(s, step);
    match step
    case Create => assert WorkerOk(s, s.created); RankUpdate(s.workers, s.created, Ready);
    case Broadcast => RankLower(s.workers, s'.workers);
    case Go(t) => RankUpdate(s.workers, t, s'.workers[t]);
  }

  lemma {:induction false} RankAtStart(n: nat)
    ensures TotalRank(Initial(n).workers) == 6 * n
  {
    if n > 0 {
      RankAtStart(n - 1);
      assert Initial(n).workers[1..] == Initial(n - 1).workers;
    }
  }

  lemma {:induction false} RunLowers(s: State, steps: seq<Step>)
    requires Inv(s) && Legal(s, steps)
    ensures |steps| <= Measure(s) - Measure(After(s, steps))
    decreases |steps|
  {
    if steps != [] {
      RunLowers(s, steps[..|steps| - 1]);
      RunInv(s, steps[..|steps| - 1]);
      StepLowers(After(s, steps[..|steps| - 1]), steps[|steps| - 1]);
    }
  }

  /** No run is longer than this, whatever the scheduler does. */
  lemma RunsAreShort(n: nat, steps: seq<Step>)
    requires Legal(Initial(n), steps)
    ensures |steps| <= 6 * n + 1
  {
    InitialInv(n);
    RunLowers(Initial(n), steps);
    RankAtStart(n);
  }

  ghost predicate AtRest(s: State) {
    forall step :: !Enabled(s, step)
  }

  /** When nothing can move any more, the workers called are past the gate and all the others
      wait for a broadcast that will not come. */
  lemma RestMeans(s: State)
    requires Inv(s) && AtRest(s)
    ensures s.broadcast
    ensures forall t | 0 <= t < |s.workers| :: s.workers[t] == if t in s.called then Passed else Waiting
  {
    assert !Enabled(s, Create) && !Enabled(s, Broadcast);
    assert s.mutex.HeldBy? ==> WorkerOk(s, s.mutex.t) && Enabled(s, Go(s.mutex.t));
    forall t | 0 <= t < |s.workers| ensures s.workers[t] == if t in s.called then Passed else Waiting {
      assert WorkerOk(s, t) && !Enabled(s, Go(t));
    }
  }

  /** Over every maximal schedule: the broadcast came, and the workers that were waiting then are
      past the gate, while all the others wait for good. */
  lemma GateOpensForAll(n: nat, steps: seq<Step>) returns (k: nat)
    requires Legal(Initial(n), steps) && AtRest(After(Initial(n), steps))
    ensures var s := After(Initial(n), steps);
            && s.broadcast
            && (forall t | 0 <= t < n :: s.workers[t] == Passed <==> t in s.called)
    ensures k < |steps| && steps[k] == Broadcast && Legal(Initial(n), steps[..k])
    ensures forall t | 0 <= t < n :: After(Initial(n), steps).workers[t] ==
              if After(Initial(n), steps[..k]).workers[t] == Waiting then Passed else Waiting
  {
    InitialInv(n);
    RunInv(Initial(n), steps);
    RestMeans(After(Initial(n), steps));
    k := CalledWaited(n, steps);
  }

  /** What a worker has done: its own steps, and coming to life. */
  ghost function Taken(w: Worker): nat {
    match w
    case Unborn => 0
    case Ready => 1
    case Locked => 2
    case Waiting => 3
    case Woken => 3
    case Relocked => 4
    case Passed => 5
  }

  ghost function TotalTaken(ws: seq<Worker>): nat {
    if ws == [] then 0 else Taken(ws[0]) + TotalTaken(ws[1..])
  }

  lemma {:induction false} TakenUpdate(ws: seq<Worker>, t: nat, w: Worker)
    requires t < |ws|
    ensures TotalTaken(ws[t := w]) == TotalTaken(ws) - Taken(ws[t]) + Taken(w)
  {
    if t == 0 {
      assert ws[0 := w][1..] == ws[1..];
    } else {
      assert ws[t := w][1..] == ws[1..][t - 1 := w];
      TakenUpdate(ws[1..], t - 1, w);
    }
  }

  lemma {:induction false} TakenSame(ws: seq<Worker>, vs: seq<Worker>)
    requires |ws| == |vs| && forall t | 0 <= t < |ws| :: Taken(vs[t]) == Taken(ws[t])
    ensures TotalTaken(vs) == TotalTaken(ws)
  {
    if ws != [] {
      TakenSame(ws[1..], vs[1..]);
    }
  }

  lemma {:induction false} TakenUnborn(n: nat)
    ensures TotalTaken(Initial(n).workers) == 0
  {
    if n > 0 {
      TakenUnborn(n - 1);
      assert Initial(n).workers[1..] == Initial(n - 1).workers;
    }
  }

  /** Every step of a run is accounted for: each worker has come to life and then taken the mutex,
      let go of it to wait, taken it back and let go of it again, in single steps; being woken is
      none of them. */
  lemma {:induction false} StepsCounted(n: nat, steps: seq<Step>)
    requires Legal(Initial(n), steps)
    ensures var s := After(Initial(n), steps); |steps| == TotalTaken(s.workers) + if s.broadcast then 1 else 0
    decreases |steps|
  {
    if steps == [] {
      TakenUnborn(n);
    } else {
      var m := |steps| - 1;
      StepsCounted(n, steps[..m]);
      InitialInv(n);
      RunInv(Initial(n), steps[..m]);
      StepCounts(After(Initial(n), steps[..m]), steps[m]);
    }
  }

  lemma StepCounts(s: State, step: Step)
    requires Inv(s) && Enabled(s, step)
    ensures TotalTaken(Next(s, step).workers) == TotalTaken(s.workers) + if step.Broadcast? then 0 else 1
  {
    match step
    case Create => assert WorkerOk(s, s.created); TakenUpdate(s.workers, s.created, Ready);
    case Broadcast => TakenSame(s.workers, Next(s, Broadcast).workers);
    case Go(t) => TakenUpdate(s.workers, t, Next(s, Go(t)).workers[t]);
  }

  lemma {:induction false} NextFirst(s: State, step: Step, steps: seq<Step>)
    requires Enabled(s, step) && Legal(Next(s, step), steps)
    ensures Legal(s, [step] + steps) && After(s, [step] + steps) == After(Next(s, step), steps)
    decreases |steps|
  {
    var n := |steps|;
    if n == 0 {
      assert [step] + steps == [step] && [step][..0] == [];
      assert After(s, []) == s;
    } else {
      NextFirst(s, step, steps[..n - 1]);
      assert ([step] + steps)[..n] == [step] + steps[..n - 1];
      assert ([step] + steps)[n] == steps[n - 1];
    }
  }

  lemma {:induction false} Settle(s: State) returns (steps: seq<Step>)
    requires Inv(s)
    ensures Legal(s, steps) && AtRest(After(s, steps))
    decreases Measure(s)
  {
    if AtRest(s) {
      steps := [];
    } else {
      var step :| Enabled(s, step);
      StepInv(s, step);
      StepLowers(s, step);
      var rest := Settle(Next(s, step));
      NextFirst(s, step, rest);
      steps := [step] + rest;
    }
  }

  /** Some schedule from s gets worker t past the gate. */
  ghost predicate CanPass(s: State, t: nat)
    requires t < |s.workers|
  {
    exists steps :: Legal(s, steps) && After(s, steps).workers[t] == Passed
  }

  /** After the broadcast a worker can still get past the gate exactly if it was waiting then. */
  lemma CanPassExactly(s: State, t: nat)
    requires Inv(s) && s.broadcast && t < |s.workers|
    ensures CanPass(s, t) <==> t in s.called
  {
    if t in s.called {
      var steps := Settle(s);
      RunInv(s, steps);
      RestMeans(After(s, steps));
      assert Legal(s, steps) && After(s, steps).workers[t] == Passed;
    }
    if steps :| Legal(s, steps) && After(s, steps).workers[t] == Passed {
      RunInv(s, steps);
      assert WorkerOk(After(s, steps), t);
    }
  }

  /** At every point of every run after the broadcast, the workers that can still get past the gate
      or are past it are those that were waiting in the state in which the broadcast came. */
  lemma CanPassOverRuns(n: nat, steps: seq<Step>) returns (k: nat)
    requires Legal(Initial(n), steps) && After(Initial(n), steps).broadcast
    ensures k < |steps| && steps[k] == Broadcast && Legal(Initial(n), steps[..k])
    ensures forall t: nat | t < n ::
              CanPass(After(Initial(n), steps), t) <==> After(Initial(n), steps[..k]).workers[t] == Waiting
  {
    k := CalledWaited(n, steps);
    InitialInv(n);
    RunInv(Initial(n), steps);
    forall t: nat | t < n ensures CanPass(After(Initial(n), steps), t) <==> t in After(Initial(n), steps).called {
      CanPassExactly(After(Initial(n), steps), t);
    }
  }

  // ---- anyone may be late ----

  lemma OneMoreStep(s: State, steps: seq<Step>, step: Step)
    requires Legal(s, steps) && Enabled(After(s, steps), step)
    ensures Legal(s, steps + [step]) && After(s, steps + [step]) == Next(After(s, steps), step)
  {
    assert (steps + [step])[..|steps + [step]| - 1] == steps;
  }

  /** Once all workers are created the broadcast can come at any time, whoever holds the mutex; it
      wakes the workers that are waiting and no others, and those are the ones that can pass. */
  lemma BroadcastWakes(n: nat, steps: seq<Step>)
    requires Legal(Initial(n), steps)
    requires var b := After(Initial(n), steps); !b.broadcast && b.created >= n
    ensures Legal(Initial(n), steps + [Broadcast])
    ensures var b, a := After(Initial(n), steps), After(Initial(n), steps + [Broadcast]);
            && a.broadcast && a.mutex == b.mutex
            && forall t: nat | t < n ::
                 && a.workers[t] == (if b.workers[t] == Waiting then Woken else b.workers[t])
                 && (CanPass(a, t) <==> b.workers[t] == Waiting)
  {
    var b := After(Initial(n), steps);
    OneMoreStep(Initial(n), steps, Broadcast);
    InitialInv(n);
    RunInv(Initial(n), steps + [Broadcast]);
    forall t: nat | t < n ensures CanPass(Next(b, Broadcast), t) <==> b.workers[t] == Waiting {
      CanPassExactly(Next(b, Broadcast), t);
    }
  }

  /** k workers created, and those of the first j that are not late waiting already. */
  ghost function Lineup(n: nat, k: nat, j: nat, late: set<nat>): State {
    State(Free, k, false, {},
          seq(n, t => if t >= k then Unborn else if t < j && t !in late then Waiting else Ready))
  }

  lemma {:induction false} CreateUpTo(n: nat, k: nat, late: set<nat>) returns (steps: seq<Step>)
    requires k <= n
    ensures Legal(Initial(n), steps) && After(Initial(n), steps) == Lineup(n, k, 0, late)
  {
    if k == 0 {
      steps := [];
      assert Initial(n) == Lineup(n, 0, 0, late);
    } else {
      steps := CreateUpTo(n, k - 1, late);
      OneMoreStep(Initial(n), steps, Create);
      assert Next(Lineup(n, k - 1, 0, late), Create) == Lineup(n, k, 0, late);
      steps := steps + [Create];
    }
  }

  /** A worker that is ready locks the mutex and waits. */
  lemma GetsToWait(n: nat, j: nat, late: set<nat>)
    requires j < n && j !in late
    ensures var s := Lineup(n, n, j, late);
            Enabled(s, Go(j)) && Enabled(Next(s, Go(j)), Go(j)) && Next(Next(s, Go(j)), Go(j)) == Lineup(n, n, j + 1, late)
  {
    var s := Lineup(n, n, j, late);
    assert s.workers[j := Locked][j := Waiting] == Lineup(n, n, j + 1, late).workers;
  }

  lemma {:induction false} WaitUpTo(n: nat, j: nat, late: set<nat>) returns (steps: seq<Step>)
    requires j <= n
    ensures Legal(Initial(n), steps) && After(Initial(n), steps) == Lineup(n, n, j, late)
  {
    if j == 0 {
      steps := CreateUpTo(n, n, late);
    } else {
      steps := WaitUpTo(n, j - 1, late);
      if j - 1 in late {
        assert Lineup(n, n, j - 1, late) == Lineup(n, n, j, late);
      } else {
        GetsToWait(n, j - 1, late);
        OneMoreStep(Initial(n), steps, Go(j - 1));
        OneMoreStep(Initial(n), steps + [Go(j - 1)], Go(j - 1));
        steps := steps + [Go(j - 1)] + [Go(j - 1)];
      }
    }
  }

  /** Any set of workers can be the ones that are late: some run from the start ends with a
      broadcast after which the others can get past the gate and these cannot. */
  lemma AnyCanBeLate(n: nat, late: set<nat>) returns (steps: seq<Step>)
    ensures Legal(Initial(n), steps) && After(Initial(n), steps).broadcast
    ensures forall t: nat | t < n :: CanPass(After(Initial(n), steps), t) <==> t !in late
  {
    steps := WaitUpTo(n, n, late);
    OneMoreStep(Initial(n), steps, Broadcast);
    steps := steps + [Broadcast];
    InitialInv(n);
    RunInv(Initial(n), steps);
    var s := After(Initial(n), steps);
    assert forall t | 0 <= t < n :: Lineup(n, n, n, late).workers[t] == if t in late then Ready else Waiting;
    forall t: nat | t < n ensures CanPass(s, t) <==> t !in late {
      CanPassExactly(s, t);
    }
  }

  // ---- the threads ----

  /** The mutex, the condition's waiters and the place each thread has reached. */
  class Startup {
    var mutex: Mutex
    var created: nat
    var broadcast: bool
    ghost var called: set<nat>
    const workers: array<Worker>

    constructor (n: nat)
      ensures Abs() == Initial(n) && fresh(workers)
    {
      mutex, created, broadcast, called := Free, 0, false, {};
      workers := new Worker[n](_ => Unborn);
    }

    ghost function Abs(): State
      reads this, workers
    {
      State(mutex, created, broadcast, called, workers[..])
    }

    /** One turn of the loops of gt_create_pthread and gt_create_datanet_pthread. */
    method CreateWorker()
      requires Enabled(Abs(), Create)
      modifies this`created, workers
      ensures Abs() == Next(old(Abs()), Create)
      ensures created == old(created) + 1 && workers[old(created)] == Ready
      ensures forall t | 0 <= t < workers.Length && t != old(created) :: workers[t] == old(workers[t])
    {
      workers[created] := Ready;
      created := created + 1;
    }

    /** gt_wakeup_pthread: every waiter has to take the mutex again. */
    method WakeUp()
      requires Enabled(Abs(), Broadcast)
      modifies this`broadcast, this`called, workers
      ensures Abs() == Next(old(Abs()), Broadcast)
      ensures broadcast && forall t | 0 <= t < workers.Length ::
                workers[t] == if old(workers[t]) == Waiting then Woken else old(workers[t])
    {
      ghost var waiting := set t | 0 <= t < workers.Length && workers[t] == Waiting;
      for t := 0 to workers.Length
        invariant forall u | 0 <= u < t :: workers[u] == if old(workers[u]) == Waiting then Woken else old(workers[u])
        invariant forall u | t <= u < workers.Length :: workers[u] == old(workers[u])
      {
        if workers[t] == Waiting {
          workers[t] := Woken;
        }
      }
      called, broadcast := waiting, true;
      assert called == WaitingSet(old(Abs()));
      assert workers[..] == Next(old(Abs()), Broadcast).workers;
    }

    /** The next thing worker t does: lock, wait, take the mutex back, unlock. */
    method Advance(t: nat)
      requires Enabled(Abs(), Go(t))
      modifies this`mutex, workers
      ensures Abs() == Next(old(Abs()), Go(t))
      ensures match old(workers[t]) {
                case Ready => old(mutex) == Free && mutex == HeldBy(t) && workers[t] == Locked
                case Locked => old(mutex) == HeldBy(t) && mutex == Free && workers[t] == Waiting
                case Woken => old(mutex) == Free && mutex == HeldBy(t) && workers[t] == Relocked
                case Relocked => old(mutex) == HeldBy(t) && mutex == Free && workers[t] == Passed
                case _ => false
              }
      ensures forall u | 0 <= u < workers.Length && u != t :: workers[u] == old(workers[u])
    {
      if workers[t] == Ready {
        mutex, workers[t] := HeldBy(t), Locked;
      } else if workers[t] == Locked {
        mutex, workers[t] := Free, Waiting;
      } else if workers[t] == Woken {
        mutex, workers[t] := HeldBy(t), Relocked;
      } else {
        mutex, workers[t] := Free, Passed;
      }
    }

    method Execute(steps: seq<Step>)
      requires Legal(Abs(), steps)
      modifies this, workers
      ensures Abs() == After(old(Abs()), steps)
    {
      ghost var s := Abs();
      for k := 0 to |steps|
        invariant Legal(s, steps[..k]) && Abs() == After(s, steps[..k])
      {
        LegalPrefix(s, steps, k + 1);
        assert steps[..k + 1][..k] == steps[..k];
        match steps[k]
        case Create => CreateWorker();
        case Broadcast => WakeUp();
        case Go(t) => Advance(t);
      }
      assert steps[..|steps|] == steps;
    }
  }

  lemma {:induction false} LegalPrefix(s: State, steps: seq<Step>, k: nat)
    requires Legal(s, steps) && k <= |steps|
    ensures Legal(s, steps[..k])
    decreases |steps|
  {
    if k < |steps| {
      assert steps[..|steps| - 1][..k] == steps[..k];
      LegalPrefix(s, steps[..|steps| - 1], k);
    } else {
      assert steps[..k] == steps;
    }
  }
}
