/** The phase table: modules register at most one function for each phase, and the phases are then
    run in order until a function fails. */
module Phases {
  import opened Common

  const GT_PHASE_MAX: nat := 4
  const GT_CMOD_MAX: nat := 6

  /** A registered function; None is the null pointer. */
  type Fn = nat
  type Slot = (nat, nat)
  type Table = map<Slot, Fn>

  datatype Reg = Reg(cmod: nat, phase: nat, fn: Option<Fn>) {
    ghost function Key(): Slot {
      (phase, cmod)
    }
  }

  ghost predicate InRange(k: Slot) {
    k.0 < GT_PHASE_MAX && k.1 < GT_CMOD_MAX
  }

  ghost function AllSlots(): (slots: set<Slot>)
    ensures forall k: Slot :: k in slots <==> InRange(k)
  {
    set p: nat, c: nat | p < GT_PHASE_MAX && c < GT_CMOD_MAX :: (p, c)
  }

  // ---- registration ----

  ghost function Registered(tbl: Table, r: Reg): (int, Table) {
    if r.Key() in tbl then (GT_ERROR, tbl)
    else if r.fn.Some? then (GT_OK, tbl[r.Key() := r.fn.value])
    else (GT_OK, tbl)
  }

  ghost function TableAfter(regs: seq<Reg>): Table {
    if regs == [] then map[] else Registered(TableAfter(regs[..|regs| - 1]), regs[|regs| - 1]).1
  }

  ghost function Lookup(tbl: Table, k: Slot): Option<Fn> {
    if k in tbl then Some(tbl[k]) else None
  }

  /** The first function anyone registers for slot k. */
  ghost function FirstFor(regs: seq<Reg>, k: Slot): Option<Fn> {
    if regs == [] then None
    else if regs[0].Key() == k && regs[0].fn.Some? then regs[0].fn
    else FirstFor(regs[1..], k)
  }

  lemma {:induction false} FirstForAppend(regs: seq<Reg>, r: Reg, k: Slot)
    ensures FirstFor(regs + [r], k) ==
            if FirstFor(regs, k).Some? then FirstFor(regs, k) else if r.Key() == k then r.fn else None
  {
    if regs == [] {
      assert regs + [r] == [r];
      assert [r][1..] == [];
    } else {
      assert (regs + [r])[1..] == regs[1..] + [r];
      FirstForAppend(regs[1..], r, k);
    }
  }

  /** A slot holds the first function registered for it; later ones are refused. */
  lemma {:induction false} FirstWins(regs: seq<Reg>, k: Slot)
    ensures Lookup(TableAfter(regs), k) == FirstFor(regs, k)
  {
    if regs != [] {
      var n := |regs| - 1;
      assert regs == regs[..n] + [regs[n]];
      FirstWins(regs[..n], k);
      FirstForAppend(regs[..n], regs[n], k);
    }
  }

  lemma {:induction false} FirstForMeans(regs: seq<Reg>, k: Slot)
    ensures FirstFor(regs, k).Some? ==> exists r :: r in regs && r.Key() == k && r.fn == FirstFor(regs, k)
    ensures FirstFor(regs, k).None? ==> forall r | r in regs && r.Key() == k :: r.fn.None?
  {
    if regs != [] {
      FirstForMeans(regs[1..], k);
      assert forall r | r in regs :: r == regs[0] || r in regs[1..];
    }
  }

  /** A registration is refused, with GT_ERROR, exactly if an earlier one has filled its slot. */
  lemma RefusedExactly(regs: seq<Reg>, r: Reg)
    ensures Registered(TableAfter(regs), r).0 in {0, -1}
    ensures Registered(TableAfter(regs), r).0 == -1 <==>
            exists i | 0 <= i < |regs| :: regs[i].Key() == r.Key() && regs[i].fn.Some?
  {
    FirstWins(regs, r.Key());
    FirstForMeans(regs, r.Key());
    assert forall q | q in regs :: exists i | 0 <= i < |regs| :: regs[i] == q;
  }

  /** No two registrations want different functions in one slot. */
  ghost predicate Agree(regs: seq<Reg>) {
    forall a, b | a in regs && b in regs && a.Key() == b.Key() && a.fn.Some? && b.fn.Some? :: a.fn == b.fn
  }

  lemma SameTable(regs: seq<Reg>, regs': seq<Reg>)
    requires Agree(regs) && multiset(regs') == multiset(regs)
    ensures TableAfter(regs') == TableAfter(regs)
  {
    forall r ensures r in regs <==> r in regs' {
      assert r in multiset(regs) <==> r in multiset(regs');
    }
    var t, t' := TableAfter(regs), TableAfter(regs');
    forall k ensures Lookup(t', k) == Lookup(t, k) {
      FirstWins(regs, k);
      FirstWins(regs', k);
      FirstForMeans(regs, k);
      FirstForMeans(regs', k);
    }
    assert forall k :: (k in t <==> Lookup(t, k).Some?) && (k in t' <==> Lookup(t', k).Some?);
  }

  /** Bringing one registration to the front. */
  lemma ToFront(regs: seq<Reg>, r: Reg) returns (regs': seq<Reg>)
    requires r in regs && r.fn.Some?
    ensures multiset(regs') == multiset(regs)
    ensures Lookup(TableAfter(regs'), r.Key()) == r.fn
  {
    var i :| 0 <= i < |regs| && regs[i] == r;
    regs' := [r] + (regs[..i] + regs[i + 1..]);
    assert regs == regs[..i] + [r] + regs[i + 1..];
    FirstWins(regs', r.Key());
  }

  /** The table does not depend on the order of registration, exactly when no two registrations
      want different functions in one slot. */
  lemma OrderIndependentExactly(regs: seq<Reg>)
    ensures (forall regs' | multiset(regs') == multiset(regs) :: TableAfter(regs') == TableAfter(regs)) <==> Agree(regs)
  {
    if Agree(regs) {
      forall regs' | multiset(regs') == multiset(regs) ensures TableAfter(regs') == TableAfter(regs) {
        SameTable(regs, regs');
      }
    } else {
      var a, b :| a in regs && b in regs && a.Key() == b.Key() && a.fn.Some? && b.fn.Some? && a.fn != b.fn;
      var ra := ToFront(regs, a);
      var rb := ToFront(regs, b);
      assert TableAfter(ra) != TableAfter(rb);
    }
  }

  // ---- the run ----

  /** What a function returns, given the functions called before it. */
  type Behaviour = (seq<Fn>, Fn) -> int

  ghost predicate Before(k: Slot, l: Slot) {
    k.0 < l.0 || (k.0 == l.0 && k.1 < l.1)
  }

  /** The s-th slot the nested loops of the run come to. */
  ghost function SlotAt(s: nat): Slot {
    (s / GT_CMOD_MAX, s % GT_CMOD_MAX)
  }

  lemma SlotOf(phase: nat, cmod: nat)
    requires cmod < GT_CMOD_MAX
    ensures SlotAt(phase * GT_CMOD_MAX + cmod) == (phase, cmod)
  {
  }

  /** The filled slots among the first s, in the order of the loops. */
  ghost function Visited(tbl: Table, s: nat): seq<Slot> {
    if s == 0 then [] else Visited(tbl, s - 1) + if SlotAt(s - 1) in tbl then [SlotAt(s - 1)] else []
  }

  /** The loops come to the filled slots phase by phase and, within a phase, module by module,
      and leave none out. */
  lemma {:induction false} VisitedInOrder(tbl: Table, s: nat)
    requires s <= GT_PHASE_MAX * GT_CMOD_MAX
    ensures forall i, j | 0 <= i < j < |Visited(tbl, s)| :: Before(Visited(tbl, s)[i], Visited(tbl, s)[j])
    ensures forall k: Slot | InRange(k) :: k in Visited(tbl, s) <==> k in tbl && k.0 * GT_CMOD_MAX + k.1 < s
    ensures forall k | k in Visited(tbl, s) :: InRange(k)
  {
    if s > 0 {
      VisitedInOrder(tbl, s - 1);
      Positions(s - 1);
      var before := Visited(tbl, s - 1);
      assert forall i | 0 <= i < |before| :: before[i] in before && Before(before[i], SlotAt(s - 1));
    }
  }

  /** Position s is that of its own slot and of no other, and the slots of earlier positions come
      before it. */
  lemma Positions(s: nat)
    requires s < GT_PHASE_MAX * GT_CMOD_MAX
    ensures InRange(SlotAt(s))
    ensures forall k: Slot | InRange(k) :: k.0 * GT_CMOD_MAX + k.1 < s ==> Before(k, SlotAt(s))
    ensures forall k: Slot | InRange(k) :: k.0 * GT_CMOD_MAX + k.1 == s <==> k == SlotAt(s)
  {
  }

  /** Calling the functions in these slots in turn until one fails: its code, and the calls made. */
  ghost function RunOf(tbl: Table, slots: seq<Slot>, ret: Behaviour): (int, seq<Fn>)
    requires forall k | k in slots :: k in tbl
  {
    if slots == [] then (GT_OK, [])
    else
      var (code, trace) := RunOf(tbl, slots[..|slots| - 1], ret);
      if code != GT_OK then (code, trace)
      else
        var f := tbl[slots[|slots| - 1]];
        (ret(trace, f), trace + [f])
  }

  /** The calls made are the functions in the slots in order, cut after the first that does not
      return GT_OK, whose code is the result. */
  ghost predicate CutAtFailure(tbl: Table, slots: seq<Slot>, ret: Behaviour, code: int, trace: seq<Fn>)
    requires forall k | k in slots :: k in tbl
  {
    && |trace| <= |slots| && (code == GT_OK ==> |trace| == |slots|)
    && (forall i | 0 <= i < |trace| :: trace[i] == tbl[slots[i]])
    && (forall i | 0 <= i < |trace| - 1 :: ret(trace[..i], trace[i]) == GT_OK)
    && code == if trace == [] then GT_OK else ret(trace[..|trace| - 1], trace[|trace| - 1])
  }

  /** One more call, while none has failed. */
  lemma OneMoreCall(tbl: Table, slots: seq<Slot>, ret: Behaviour, trace: seq<Fn>)
    requires slots != [] && forall k | k in slots :: k in tbl
    requires CutAtFailure(tbl, slots[..|slots| - 1], ret, GT_OK, trace)
    ensures var f := tbl[slots[|slots| - 1]]; CutAtFailure(tbl, slots, ret, ret(trace, f), trace + [f])
  {
    var f := tbl[slots[|slots| - 1]];
    var longer := trace + [f];
    assert longer[..|trace|] == trace;
    forall i | 0 <= i < |trace| ensures ret(longer[..i], longer[i]) == GT_OK {
      assert longer[..i] == trace[..i];
      assert i == |trace| - 1 ==> trace[..i] == trace[..|trace| - 1];
    }
  }

  /** That is what the run does. */
  lemma {:induction false} RunMeans(tbl: Table, slots: seq<Slot>, ret: Behaviour)
    requires forall k | k in slots :: k in tbl
    ensures var (code, trace) := RunOf(tbl, slots, ret); CutAtFailure(tbl, slots, ret, code, trace)
  {
    if slots != [] {
      var rest := slots[..|slots| - 1];
      RunMeans(tbl, rest, ret);
      var (code, trace) := RunOf(tbl, rest, ret);
      if code == GT_OK {
        OneMoreCall(tbl, slots, ret, trace);
      }
    }
  }

  lemma {:induction false} VisitedFilled(tbl: Table, s: nat)
    ensures forall k | k in Visited(tbl, s) :: k in tbl
  {
    if s > 0 {
      VisitedFilled(tbl, s - 1);
    }
  }

  ghost function PhaseRun(tbl: Table, s: nat, ret: Behaviour): (int, seq<Fn>) {
    VisitedFilled(tbl, s);
    RunOf(tbl, Visited(tbl, s), ret)
  }

  /** The filled slots of the table, phase by phase and module by module. */
  ghost predicate FilledInOrder(tbl: Table, slots: seq<Slot>) {
    && (forall i, j | 0 <= i < j < |slots| :: Before(slots[i], slots[j]))
    && (forall k: Slot :: k in slots <==> InRange(k) && k in tbl)
  }

  /** The whole run: the filled slots in order, cut after the first failure. */
  lemma PhaseRunMeans(tbl: Table, ret: Behaviour) returns (slots: seq<Slot>)
    ensures FilledInOrder(tbl, slots)
    ensures var (code, trace) := PhaseRun(tbl, GT_PHASE_MAX * GT_CMOD_MAX, ret);
            && CutAtFailure(tbl, slots, ret, code, trace)
            && (code == 0 <==> |trace| == |slots| && forall i | 0 <= i < |trace| :: ret(trace[..i], trace[i]) == 0)
  {
    slots := Visited(tbl, GT_PHASE_MAX * GT_CMOD_MAX);
    VisitedInOrder(tbl, GT_PHASE_MAX * GT_CMOD_MAX);
    VisitedFilled(tbl, GT_PHASE_MAX * GT_CMOD_MAX);
    RunMeans(tbl, slots, ret);
    CutMeans(tbl, slots, ret, PhaseRun(tbl, GT_PHASE_MAX * GT_CMOD_MAX, ret).0, PhaseRun(tbl, GT_PHASE_MAX * GT_CMOD_MAX, ret).1);
  }

  lemma CutMeans(tbl: Table, slots: seq<Slot>, ret: Behaviour, code: int, trace: seq<Fn>)
    requires (forall k | k in slots :: k in tbl) && CutAtFailure(tbl, slots, ret, code, trace)
    ensures code == 0 <==> |trace| == |slots| && forall i | 0 <= i < |trace| :: ret(trace[..i], trace[i]) == 0
  {
  }

  /** Once a function has failed, the later slots do not matter. */
  lemma {:induction false} RunStopped(tbl: Table, s: nat, e: nat, ret: Behaviour)
    requires s <= e && PhaseRun(tbl, s, ret).0 != GT_OK
    ensures PhaseRun(tbl, e, ret) == PhaseRun(tbl, s, ret)
    decreases e
  {
    if s < e {
      RunStopped(tbl, s, e - 1, ret);
      RunNext(tbl, e - 1, ret);
    }
  }

  lemma RunNext(tbl: Table, s: nat, ret: Behaviour)
    ensures PhaseRun(tbl, s + 1, ret) ==
            var (code, trace) := PhaseRun(tbl, s, ret);
            if code != GT_OK || SlotAt(s) !in tbl then (code, trace)
            else (ret(trace, tbl[SlotAt(s)]), trace + [tbl[SlotAt(s)]])
  {
    VisitedFilled(tbl, s);
    VisitedFilled(tbl, s + 1);
    if SlotAt(s) !in tbl {
      assert Visited(tbl, s) + [] == Visited(tbl, s);
    } else {
      var v := Visited(tbl, s + 1);
      assert v[..|v| - 1] == Visited(tbl, s);
    }
  }

  lemma RunCell(tbl: Table, phase: nat, cmod: nat, ret: Behaviour)
    requires cmod < GT_CMOD_MAX
    ensures PhaseRun(tbl, phase * GT_CMOD_MAX + cmod + 1, ret) ==
            var (code, trace) := PhaseRun(tbl, phase * GT_CMOD_MAX + cmod, ret);
            if code != GT_OK || (phase, cmod) !in tbl then (code, trace)
            else (ret(trace, tbl[(phase, cmod)]), trace + [tbl[(phase, cmod)]])
  {
    SlotOf(phase, cmod);
    RunNext(tbl, phase * GT_CMOD_MAX + cmod, ret);
  }

  /** Two orders of registration that do not disagree run the same functions in the same order
      and end with the same code, whatever the functions do. */
  lemma RunIndependent(regs: seq<Reg>, regs': seq<Reg>, ret: Behaviour)
    requires Agree(regs) && multiset(regs') == multiset(regs)
    ensures PhaseRun(TableAfter(regs'), GT_PHASE_MAX * GT_CMOD_MAX, ret)
            == PhaseRun(TableAfter(regs), GT_PHASE_MAX * GT_CMOD_MAX, ret)
  {
    SameTable(regs, regs');
  }

  // ---- the code ----

  /** g_gt_phase. */
  class PhaseTable {
    const fn: array2<Option<Fn>>

    ghost predicate Valid()
      reads this
    {
      fn.Length0 == GT_PHASE_MAX && fn.Length1 == GT_CMOD_MAX
    }

    ghost function Abs(): Table
      requires Valid()
      reads this, fn
    {
      map k | k in AllSlots() && fn[k.0, k.1].Some? :: fn[k.0, k.1].value
    }

    constructor ()
      ensures Valid() && fresh(fn) && Abs() == TableAfter([])
      ensures fn.Length0 == 4 && fn.Length1 == 6 && forall p, c | 0 <= p < 4 && 0 <= c < 6 :: fn[p, c] == None
    {
      fn := new Option<Fn>[GT_PHASE_MAX, GT_CMOD_MAX]((_, _) => None);
    }

    /** gt_phase_register. */
    method Register(cmod: nat, gphase: nat, f: Option<Fn>) returns (ret: int)
      requires Valid() && gphase < GT_PHASE_MAX && cmod < GT_CMOD_MAX
      modifies fn
      ensures (ret, Abs()) == Registered(old(Abs()), Reg(cmod, gphase, f))
      ensures ret == if old(fn[gphase, cmod]).Some? then -1 else 0
      ensures fn[gphase, cmod] == if old(fn[gphase, cmod]).Some? then old(fn[gphase, cmod]) else f
      ensures forall k: Slot | InRange(k) && k != (gphase, cmod) :: fn[k.0, k.1] == old(fn[k.0, k.1])
    {
      if fn[gphase, cmod].Some? {
        return GT_ERROR;
      }
      fn[gphase, cmod] := f;
      ghost var was, r := old(Abs()), Reg(cmod, gphase, f);
      assert forall k: Slot | InRange(k) :: fn[k.0, k.1] == if k == r.Key() then f else old(fn[k.0, k.1]);
      assert Abs() == Registered(was, r).1;
      return GT_OK;
    }

    /** One turn of the inner loop: the function in the slot is called, if there is one. */
    method CallSlot(phase: nat, cmod: nat, before: seq<Fn>, behaviour: Behaviour) returns (ret: int, calls: seq<Fn>)
      requires Valid() && phase < GT_PHASE_MAX && cmod < GT_CMOD_MAX
      requires (GT_OK, before) == PhaseRun(Abs(), phase * GT_CMOD_MAX + cmod, behaviour)
      ensures (ret, calls) == PhaseRun(Abs(), phase * GT_CMOD_MAX + cmod + 1, behaviour)
    {
      ret, calls := GT_OK, before;
      RunCell(Abs(), phase, cmod, behaviour);
      if fn[phase, cmod].Some? {
        ret := behaviour(before, fn[phase, cmod].value);
        calls := before + [fn[phase, cmod].value];
      }
    }

    /** gt_phase_run; calls is what it has called, in order, and slots are the filled slots. */
    method Run(behaviour: Behaviour) returns (ret: int, calls: seq<Fn>, ghost slots: seq<Slot>)
      requires Valid()
      ensures (ret, calls) == PhaseRun(Abs(), GT_PHASE_MAX * GT_CMOD_MAX, behaviour)
      ensures FilledInOrder(Abs(), slots) && CutAtFailure(Abs(), slots, behaviour, ret, calls)
      ensures ret == 0 <==> |calls| == |slots| && forall i | 0 <= i < |calls| :: behaviour(calls[..i], calls[i]) == 0
    {
      ret, calls := Loops(behaviour);
      slots := PhaseRunMeans(Abs(), behaviour);
    }

    /** The nested loops. */
    method Loops(behaviour: Behaviour) returns (ret: int, calls: seq<Fn>)
      requires Valid()
      ensures (ret, calls) == PhaseRun(Abs(), GT_PHASE_MAX * GT_CMOD_MAX, behaviour)
    {
      ret, calls := GT_OK, [];
      var phase := 0;
      while phase < GT_PHASE_MAX
        invariant phase <= GT_PHASE_MAX && ret == GT_OK
        invariant (ret, calls) == PhaseRun(Abs(), phase * GT_CMOD_MAX, behaviour)
      {
        var cmod := 0;
        while cmod < GT_CMOD_MAX
          invariant cmod <= GT_CMOD_MAX && ret == GT_OK
          invariant (ret, calls) == PhaseRun(Abs(), phase * GT_CMOD_MAX + cmod, behaviour)
        {
          ret, calls := CallSlot(phase, cmod, calls, behaviour);
          if GT_OK != ret {
            RunStopped(Abs(), phase * GT_CMOD_MAX + cmod + 1, GT_PHASE_MAX * GT_CMOD_MAX, behaviour);
            return;
          }
          cmod := cmod + 1;
        }
        phase := phase + 1;
      }
    }
  }
}
