/** The spinlock: one word, changed by compare-and-swap.  The methods are the atomic steps; the
    lemmas are about any number of threads taking such steps in any order. */
module Spinlock {

  /** holders and net are what the two kinds of client have done to the word so far. */
  class Lock {
    var locked: int
    ghost var holders: set<nat>
    ghost var net: seq<int>

    ghost function Plain(): PlainState
      reads this
    {
      PlainState(locked, holders)
    }

    ghost function Tagged(): TagState
      reads this
    {
      TagState(locked, net)
    }

    /** gt_spinlock_init; n is the number of threads that will use values. */
    constructor (ghost n: nat := 0)
      ensures locked == 0 && Plain() == PlainRun([])
      ensures forall vals | |vals| == n :: Tagged() == TagRun(vals, [])
    {
      locked := 0;
      holders := {};
      net := seq(n, _ => 0);
    }

    /** __sync_bool_compare_and_swap on the word. */
    method CompareAndSwap(expected: int, val: int) returns (ok: bool)
      modifies this`locked
      ensures ok <==> old(locked) == expected
      ensures locked == if ok then val else old(locked)
    {
      ok := locked == expected;
      if ok {
        locked := val;
      }
    }

    /** gt_spinlock_trylock, and one turn of the loop of gt_spinlock_lock. */
    method TryLock(ghost t: nat) returns (ok: bool)
      modifies this`locked, this`holders
      ensures Plain() == PlainNext(old(Plain()), Acquire(t))
      ensures ok <==> old(locked) == 0
      ensures locked == (if ok then 1 else old(locked)) && holders == if ok then old(holders) + {t} else old(holders)
    {
      ok := CompareAndSwap(0, 1);
      if ok {
        holders := holders + {t};
      }
    }

    /** gt_spinlock_unlock: the word is released whoever holds it. */
    method Unlock(ghost t: nat)
      modifies this`locked, this`holders
      ensures Plain() == PlainNext(old(Plain()), Release(t))
      ensures locked == 0 && holders == old(holders) - {t}
    {
      locked := 0;
      holders := holders - {t};
    }

    /** One turn of the loop of gt_spinlock_lock_with_val. */
    method TryLockWithVal(val: int, ghost vals: seq<int>, ghost t: nat) returns (ok: bool)
      requires t < |vals| == |net| && val == vals[t]
      modifies this`locked, this`net
      ensures |net| == |vals| && Tagged() == TagNext(vals, old(Tagged()), LockTry(t))
      ensures ok <==> old(locked) == 0
      ensures locked == (if ok then val else old(locked)) && net == if ok then old(net)[t := old(net)[t] + 1] else old(net)
    {
      ok := CompareAndSwap(0, val);
      if ok {
        net := net[t := net[t] + 1];
      }
    }

    /** One turn of the loop of gt_spinlock_unlock_with_val. */
    method TryUnlockWithVal(val: int, ghost vals: seq<int>, ghost t: nat) returns (ok: bool)
      requires t < |vals| == |net| && val == vals[t]
      modifies this`locked, this`net
      ensures |net| == |vals| && Tagged() == TagNext(vals, old(Tagged()), UnlockTry(t))
      ensures ok <==> old(locked) == val
      ensures locked == (if ok then 0 else old(locked)) && net == if ok then old(net)[t := old(net)[t] - 1] else old(net)
    {
      ok := CompareAndSwap(val, 0);
      if ok {
        net := net[t := net[t] - 1];
      }
    }
  }

  // ---- the plain lock ----

  /** The word, and the threads between a successful acquire and their release. */
  datatype PlainState = PlainState(word: int, holders: set<nat>)

  /** Acquire is a turn of lock or a trylock; both swap 0 for 1. */
  datatype PlainAct = Acquire(t: nat) | Release(t: nat)

  ghost function PlainNext(s: PlainState, a: PlainAct): PlainState {
    match a
    case Acquire(t) => if s.word == 0 then PlainState(1, s.holders + {t}) else s
    case Release(t) => PlainState(0, s.holders - {t})
  }

  /** The word is 1 with exactly one holder, or 0 with none. */
  ghost predicate Exclusive(s: PlainState) {
    if s.holders == {} then s.word == 0 else s.word == 1 && |s.holders| == 1
  }

  /** A release that does no harm: by the holder, or of a free lock. */
  ghost predicate Harmless(s: PlainState, a: PlainAct) {
    a.Release? ==> a.t in s.holders || s.holders == {}
  }

  /** One action keeps mutual exclusion exactly when it is not a release by someone else. */
  lemma ExclusiveStep(s: PlainState, a: PlainAct)
    requires Exclusive(s)
    ensures Exclusive(PlainNext(s, a)) <==> Harmless(s, a)
  {
    if a.Release? && a.t in s.holders {
      assert |s.holders - {a.t}| == 0;
    }
  }

  ghost function PlainRun(acts: seq<PlainAct>): PlainState {
    if acts == [] then PlainState(0, {}) else PlainNext(PlainRun(acts[..|acts| - 1]), acts[|acts| - 1])
  }

  lemma PlainRunMore(acts: seq<PlainAct>, a: PlainAct)
    ensures PlainRun(acts + [a]) == PlainNext(PlainRun(acts), a)
  {
    assert (acts + [a])[..|acts + [a]| - 1] == acts;
  }

  /** Exclusive in every state of the run. */
  ghost predicate AlwaysExclusive(acts: seq<PlainAct>) {
    Exclusive(PlainRun(acts)) && (acts == [] || AlwaysExclusive(acts[..|acts| - 1]))
  }

  /** Every release of the run is harmless when it happens. */
  ghost predicate AlwaysHarmless(acts: seq<PlainAct>) {
    acts == [] || (AlwaysHarmless(acts[..|acts| - 1]) && Harmless(PlainRun(acts[..|acts| - 1]), acts[|acts| - 1]))
  }

  /** Any number of threads mixing lock, trylock and unlock exclude each other throughout a run
      exactly when no thread releases the lock while another holds it. */
  lemma {:induction false} ExclusiveRuns(acts: seq<PlainAct>)
    ensures AlwaysExclusive(acts) <==> AlwaysHarmless(acts)
  {
    if acts != [] {
      var n := |acts| - 1;
      ExclusiveRuns(acts[..n]);
      if AlwaysExclusive(acts[..n]) {
        ExclusiveStep(PlainRun(acts[..n]), acts[n]);
      }
    }
  }

  // ---- the owner-tagged lock ----

  /** The word, and for each thread its successful locks less its successful unlocks. */
  datatype TagState = TagState(word: int, net: seq<int>)

  datatype TagAct = LockTry(t: nat) | UnlockTry(t: nat)

  ghost function TagNext(vals: seq<int>, s: TagState, a: TagAct): TagState
    requires |s.net| == |vals| && a.t < |vals|
  {
    match a
    case LockTry(t) => if s.word == 0 then TagState(vals[t], s.net[t := s.net[t] + 1]) else s
    case UnlockTry(t) => if s.word == vals[t] then TagState(0, s.net[t := s.net[t] - 1]) else s
  }

  ghost predicate GoodVals(vals: seq<int>) {
    && (forall t | 0 <= t < |vals| :: vals[t] != 0)
    && (forall t, u | 0 <= t < u < |vals| :: vals[t] != vals[u])
  }

  ghost predicate HeldBy(vals: seq<int>, s: TagState, t: int)
    requires |s.net| == |vals|
  {
    0 <= t < |vals| && s.word == vals[t] && s.net[t] == 1 && forall u | 0 <= u < |vals| && u != t :: s.net[u] == 0
  }

  /** The word is free and every lock was undone, or it is the value of the one thread that has
      locked once more than it has unlocked. */
  ghost predicate Owned(vals: seq<int>, s: TagState)
    requires |s.net| == |vals|
  {
    (s.word == 0 && forall t | 0 <= t < |vals| :: s.net[t] == 0) || exists t :: HeldBy(vals, s, t)
  }

  ghost predicate ActsBy(vals: seq<int>, acts: seq<TagAct>) {
    forall a | a in acts :: a.t < |vals|
  }

  ghost function TagRun(vals: seq<int>, acts: seq<TagAct>): (s: TagState)
    requires ActsBy(vals, acts)
    ensures |s.net| == |vals|
  {
    if acts == [] then TagState(0, seq(|vals|, _ => 0))
    else TagNext(vals, TagRun(vals, acts[..|acts| - 1]), acts[|acts| - 1])
  }

  lemma TagRunMore(vals: seq<int>, acts: seq<TagAct>, a: TagAct)
    requires ActsBy(vals, acts) && a.t < |vals|
    ensures ActsBy(vals, acts + [a]) && TagRun(vals, acts + [a]) == TagNext(vals, TagRun(vals, acts), a)
  {
    assert (acts + [a])[..|acts + [a]| - 1] == acts;
  }

  lemma TagStep(vals: seq<int>, s: TagState, a: TagAct)
    requires GoodVals(vals) && |s.net| == |vals| && a.t < |vals| && Owned(vals, s)
    ensures Owned(vals, TagNext(vals, s, a))
    ensures a.UnlockTry? && !HeldBy(vals, s, a.t) ==> TagNext(vals, s, a) == s
  {
    var s' := TagNext(vals, s, a);
    if t :| HeldBy(vals, s, t) {
      assert s' == s ==> HeldBy(vals, s', t);
    } else if a.LockTry? {
      assert HeldBy(vals, s', a.t);
    }
  }

  lemma {:induction false} TagRunOwned(vals: seq<int>, acts: seq<TagAct>)
    requires GoodVals(vals) && ActsBy(vals, acts)
    ensures Owned(vals, TagRun(vals, acts))
  {
    if acts != [] {
      TagRunOwned(vals, acts[..|acts| - 1]);
      TagStep(vals, TagRun(vals, acts[..|acts| - 1]), acts[|acts| - 1]);
    }
  }

  /** Without any discipline on who unlocks when, ownership holds over every run exactly when the
      threads' values are different and none of them is 0. */
  lemma TaggedExactly(vals: seq<int>)
    ensures GoodVals(vals) <==> forall acts | ActsBy(vals, acts) :: Owned(vals, TagRun(vals, acts))
  {
    if GoodVals(vals) {
      forall acts | ActsBy(vals, acts) ensures Owned(vals, TagRun(vals, acts)) {
        TagRunOwned(vals, acts);
      }
    } else {
      var acts := BadRun(vals);
    }
  }

  lemma BadRun(vals: seq<int>) returns (acts: seq<TagAct>)
    requires !GoodVals(vals)
    ensures ActsBy(vals, acts) && !Owned(vals, TagRun(vals, acts))
  {
    var s0 := TagState(0, seq(|vals|, _ => 0));
    var t, u;
    if i :| 0 <= i < |vals| && vals[i] == 0 {
      t, u := i, i;
      acts := [LockTry(t), LockTry(t)];
    } else {
      t, u :| 0 <= t < u < |vals| && vals[t] == vals[u];
      acts := [LockTry(t), UnlockTry(u)];
    }
    TwoActs(vals, acts[0], acts[1]);
    var s := TagRun(vals, acts);
    assert s.word == 0;
    assert t == u ==> s.net[t] == 2;
    assert t != u ==> s.net[t] == 1 && s.net[u] == -1;
  }

  lemma TwoActs(vals: seq<int>, a: TagAct, b: TagAct)
    requires a.t < |vals| && b.t < |vals|
    ensures ActsBy(vals, [a, b])
    ensures var s0 := TagState(0, seq(|vals|, _ => 0));
            TagRun(vals, [a, b]) == TagNext(vals, TagNext(vals, s0, a), b)
  {
    assert [a, b][..1] == [a] && [a][..0] == [];
    assert TagRun(vals, []) == TagState(0, seq(|vals|, _ => 0));
    assert TagRun(vals, [a]) == TagNext(vals, TagRun(vals, []), a);
    assert TagRun(vals, [a, b]) == TagNext(vals, TagRun(vals, [a]), b);
  }
}
