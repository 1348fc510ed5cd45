/** Whole runs of list operations, and walks over a ring, as functions on families. */
module RingRuns {
  import opened Rings

  datatype Op<N> =
    | Init(x: N)
    | AddFirst(x: N, head: N)
    | AddLast(x: N, head: N)
    | Del(x: N)
    | DelInit(x: N)
    | ReplaceBy(old': N, new': N)
    | ReplaceInitBy(old': N, new': N)
    | Move(x: N, head: N)
    | MoveTail(x: N, head: N)
    | SpliceInit(src: N, head: N)
    | SpliceTailInit(src: N, head: N)

  /** What the operation's documentation asks of its caller. */
  ghost predicate Enabled<N>(f: Family<N>, op: Op<N>) {
    match op
    case Init(x) => x !in Nodes(f)
    case AddFirst(x, h) => Detached(f, x) && h in f && h != x
    case AddLast(x, h) => Detached(f, x) && h in f && h != x
    case Del(x) => Removable(f, x)
    case DelInit(x) => Removable(f, x)
    case ReplaceBy(o, n) => o in Nodes(f) && Detached(f, n) && o != n
    case ReplaceInitBy(o, n) => o in Nodes(f) && Detached(f, n) && o != n
    case Move(x, h) => Removable(f, x) && h in f && h != x
    case MoveTail(x, h) => Removable(f, x) && h in f && h != x
    case SpliceInit(s, h) => s in f && h in f && s != h
    case SpliceTailInit(s, h) => s in f && h in f && s != h
  }

  ghost function Apply<N>(f: Family<N>, op: Op<N>): Family<N>
    requires Enabled(f, op)
  {
    match op
    case Init(x) => f[x := []]
    case AddFirst(x, h) => Add(f, x, h)
    case AddLast(x, h) => AddTail(f, x, h)
    case Del(x) => Unlink(f, x)
    case DelInit(x) => Unlink(f, x)[x := []]
    case ReplaceBy(o, n) => Replace(f, o, n)
    case ReplaceInitBy(o, n) => Replace(f, o, n)[o := []]
    case Move(x, h) => Add(Unlink(f, x), x, h)
    case MoveTail(x, h) => AddTail(Unlink(f, x), x, h)
    case SpliceInit(s, h) => f[h := f[s] + f[h]][s := []]
    case SpliceTailInit(s, h) => f[h := f[h] + f[s]][s := []]
  }

  ghost function Mentioned<N>(op: Op<N>): set<N> {
    match op
    case Init(x) => {x}
    case AddFirst(x, h) => {x, h}
    case AddLast(x, h) => {x, h}
    case Del(x) => {x}
    case DelInit(x) => {x}
    case ReplaceBy(o, n) => {o, n}
    case ReplaceInitBy(o, n) => {o, n}
    case Move(x, h) => {x, h}
    case MoveTail(x, h) => {x, h}
    case SpliceInit(s, h) => {s, h}
    case SpliceTailInit(s, h) => {s, h}
  }

  /** The nodes an operation brings in. */
  ghost function Gained<N>(op: Op<N>): set<N> {
    match op
    case Init(x) => {x}
    case AddFirst(x, _) => {x}
    case AddLast(x, _) => {x}
    case ReplaceBy(_, n) => {n}
    case ReplaceInitBy(_, n) => {n}
    case _ => {}
  }

  /** The nodes an operation gives back to its caller, on no ring any more. */
  ghost function Lost<N>(op: Op<N>): set<N> {
    match op
    case Del(x) => {x}
    case ReplaceBy(o, _) => {o}
    case _ => {}
  }

  lemma AddSeparate<N>(f: Family<N>, x: N, h: N)
    requires Separate(f) && Detached(f, x) && h in f && h != x
    ensures Add(f, x, h) == InsertAt(f, h, 0, x) && AddTail(f, x, h) == InsertAt(f, h, |f[h]|, x)
    ensures Separate(Add(f, x, h)) && Nodes(Add(f, x, h)) == Nodes(f) + {x}
    ensures Separate(AddTail(f, x, h)) && Nodes(AddTail(f, x, h)) == Nodes(f) + {x}
  {
    var d := f[h];
    assert d[..0] + [x] + d[0..] == [x] + d;
    assert d[..|d|] + [x] + d[|d|..] == d + [x];
    InsertSeparate(f, h, 0, x);
    InsertSeparate(f, h, |d|, x);
  }

  /** A new lone ring. */
  lemma InitSeparate<N>(f: Family<N>, x: N)
    requires Separate(f) && Detached(f, x)
    ensures Separate(f[x := []]) && Nodes(f[x := []]) == Nodes(f) + {x}
  {
    var g := f[x := []];
    InNodes(f);
    InNodes(g);
    forall y ensures IsMember(g, y) <==> IsMember(f, y) {
      if IsMember(f, y) {
        var h :| h in f && y in f[h];
        assert h in g && y in g[h];
      }
    }
  }

  lemma DelInitKeeps<N>(f: Family<N>, x: N)
    requires Separate(f) && Removable(f, x)
    ensures Separate(Unlink(f, x)[x := []]) && Nodes(Unlink(f, x)[x := []]) == Nodes(f)
  {
    InNodes(f);
    UnlinkSeparate(f, x);
    InitSeparate(Unlink(f, x), x);
  }

  lemma ReplaceInitKeeps<N>(f: Family<N>, o: N, n: N)
    requires Separate(f) && o in Nodes(f) && Detached(f, n) && o != n
    ensures Separate(Replace(f, o, n)[o := []]) && Nodes(Replace(f, o, n)[o := []]) == Nodes(f) + {n}
  {
    ReplaceSeparate(f, o, n);
    InitSeparate(Replace(f, o, n), o);
  }

  lemma MoveKeeps<N>(f: Family<N>, x: N, h: N)
    requires Separate(f) && Removable(f, x) && h in f && h != x
    ensures Detached(Unlink(f, x), x) && h in Unlink(f, x)
    ensures Separate(Add(Unlink(f, x), x, h)) && Nodes(Add(Unlink(f, x), x, h)) == Nodes(f)
    ensures Separate(AddTail(Unlink(f, x), x, h)) && Nodes(AddTail(Unlink(f, x), x, h)) == Nodes(f)
  {
    InNodes(f);
    UnlinkSeparate(f, x);
    AddSeparate(Unlink(f, x), x, h);
  }

  /** No operation puts a node on two rings or twice on one, and none gains or loses a node
      other than the one it is about. */
  lemma ApplyKeeps<N>(f: Family<N>, op: Op<N>)
    requires Separate(f) && Enabled(f, op)
    ensures Separate(Apply(f, op))
    ensures Nodes(Apply(f, op)) == Nodes(f) - Lost(op) + Gained(op)
  {
    match op
    case Del(x) => UnlinkSeparate(f, x);
    case ReplaceBy(o, n) => ReplaceSeparate(f, o, n);
    case ReplaceInitBy(o, n) => ReplaceInitKeeps(f, o, n);
    case _ =>
      if Gained(op) == {} {
        RearrangeKeeps(f, op);
      } else {
        NewcomerKeeps(f, op);
      }
  }

  /** The operations that only bring a node in. */
  lemma NewcomerKeeps<N>(f: Family<N>, op: Op<N>)
    requires Separate(f) && Enabled(f, op) && (op.Init? || op.AddFirst? || op.AddLast?)
    ensures Separate(Apply(f, op)) && Nodes(Apply(f, op)) == Nodes(f) + {op.x}
  {
    match op
    case Init(x) => InNodes(f); InitSeparate(f, x);
    case AddFirst(x, h) => AddSeparate(f, x, h);
    case AddLast(x, h) => AddSeparate(f, x, h);
  }

  /** The operations after which all nodes are where nodes were. */
  lemma RearrangeKeeps<N>(f: Family<N>, op: Op<N>)
    requires Separate(f) && Enabled(f, op)
    requires op.DelInit? || op.Move? || op.MoveTail? || op.SpliceInit? || op.SpliceTailInit?
    ensures Separate(Apply(f, op)) && Nodes(Apply(f, op)) == Nodes(f)
  {
    match op
    case DelInit(x) => DelInitKeeps(f, x);
    case Move(x, h) => MoveKeeps(f, x, h);
    case MoveTail(x, h) => MoveKeeps(f, x, h);
    case SpliceInit(s, h) => SpliceInitKeeps(f, s, h, 0); SpliceEnds(f, s, h);
    case SpliceTailInit(s, h) => SpliceInitKeeps(f, s, h, |f[h]|); SpliceEnds(f, s, h);
  }

  lemma SpliceInitKeeps<N>(f: Family<N>, s: N, h: N, k: nat)
    requires Separate(f) && s in f && h in f && s != h && k <= |f[h]|
    ensures Separate(SpliceAt(f, s, h, k)[s := []])
    ensures Nodes(SpliceAt(f, s, h, k)[s := []]) == Nodes(f)
  {
    var g := SpliceAt(f, s, h, k);
    SpliceSeparate(f, s, h, k);
    InNodes(g);
    if f[s] == [] {
      assert g[s := []] == f;
    } else {
      InitSeparate(g, s);
    }
  }

  /** A ring none of whose nodes is mentioned is not affected. */
  lemma ApplyUntouched<N>(f: Family<N>, op: Op<N>, r: N)
    requires Separate(f) && Enabled(f, op) && r in f
    requires r !in Mentioned(op) && forall x | x in f[r] :: x !in Mentioned(op)
    ensures r in Apply(f, op) && Apply(f, op)[r] == f[r]
  {
    match op
    case Del(x) => ExceptAbsent(f[r], {x});
    case DelInit(x) => ExceptAbsent(f[r], {x});
    case Move(x, _) => ExceptAbsent(f[r], {x});
    case MoveTail(x, _) => ExceptAbsent(f[r], {x});
    case ReplaceBy(o, n) => assert SubstSeq(o, n, f[r]) == f[r];
    case ReplaceInitBy(o, n) => assert SubstSeq(o, n, f[r]) == f[r];
    case _ =>
  }

  // ---- runs ----

  ghost predicate Legal<N>(f: Family<N>, ops: seq<Op<N>>)
    decreases |ops|, 0
  {
    ops == [] ||
    (Legal(f, ops[..|ops| - 1]) && Enabled(Run(f, ops[..|ops| - 1]), ops[|ops| - 1]))
  }

  ghost function Run<N>(f: Family<N>, ops: seq<Op<N>>): Family<N>
    requires Legal(f, ops)
    decreases |ops|, 1
  {
    if ops == [] then f else Apply(Run(f, ops[..|ops| - 1]), ops[|ops| - 1])
  }

  lemma {:induction false} LegalPrefix<N>(f: Family<N>, ops: seq<Op<N>>, i: nat)
    requires Legal(f, ops) && i <= |ops|
    ensures Legal(f, ops[..i])
    decreases |ops|
  {
    if i < |ops| {
      var n := |ops| - 1;
      assert ops[..n][..i] == ops[..i];
      LegalPrefix(f, ops[..n], i);
    } else {
      assert ops[..i] == ops;
    }
  }

  lemma RunAppend<N>(f: Family<N>, ops: seq<Op<N>>, op: Op<N>)
    requires Legal(f, ops) && Enabled(Run(f, ops), op)
    ensures Legal(f, ops + [op]) && Run(f, ops + [op]) == Apply(Run(f, ops), op)
  {
    assert (ops + [op])[..|ops + [op]| - 1] == ops;
  }

  /** Node accounting over a run: what is on the rings is what was there and what came in, less
      what was given back. */
  ghost function NodesAfter<N>(nodes: set<N>, ops: seq<Op<N>>): set<N> {
    if ops == [] then nodes
    else NodesAfter(nodes, ops[..|ops| - 1]) - Lost(ops[|ops| - 1]) + Gained(ops[|ops| - 1])
  }

  lemma {:induction false} RunKeeps<N>(f: Family<N>, ops: seq<Op<N>>)
    requires Separate(f) && Legal(f, ops)
    ensures Separate(Run(f, ops))
    ensures Nodes(Run(f, ops)) == NodesAfter(Nodes(f), ops)
    decreases |ops|
  {
    if ops != [] {
      RunKeeps(f, ops[..|ops| - 1]);
      ApplyKeeps(Run(f, ops[..|ops| - 1]), ops[|ops| - 1]);
    }
  }

  lemma {:induction false} RunUntouched<N>(f: Family<N>, ops: seq<Op<N>>, r: N)
    requires Separate(f) && Legal(f, ops) && r in f
    requires forall op | op in ops :: r !in Mentioned(op) && forall x | x in f[r] :: x !in Mentioned(op)
    ensures r in Run(f, ops) && Run(f, ops)[r] == f[r]
    decreases |ops|
  {
    if ops != [] {
      RunUntouched(f, ops[..|ops| - 1], r);
      RunKeeps(f, ops[..|ops| - 1]);
      ApplyUntouched(Run(f, ops[..|ops| - 1]), ops[|ops| - 1], r);
    }
  }

  // ---- walks that take nodes away ----

  /** What the body of a safe walk does with the node it is at. */
  datatype Action<N> = Keep | Drop | DropInit | MoveTo(head: N) | MoveTailTo(head: N)

  ghost function OpFor<N>(x: N, a: Action<N>): Op<N>
    requires !a.Keep?
  {
    match a
    case Drop => Del(x)
    case DropInit => DelInit(x)
    case MoveTo(h) => Move(x, h)
    case MoveTailTo(h) => MoveTail(x, h)
  }

  ghost function OpsFor<N>(s: seq<N>, act: N -> Action<N>): seq<Op<N>> {
    if s == [] then []
    else
      var x := s[|s| - 1];
      OpsFor(s[..|s| - 1], act) + if act(x).Keep? then [] else [OpFor(x, act(x))]
  }

  ghost function Taken<N>(s: seq<N>, act: N -> Action<N>): set<N> {
    set x | x in s && !act(x).Keep?
  }

  /** Nodes are moved to rings of the family, and not behind the nodes still to be walked. */
  ghost predicate NotAhead<N>(f: Family<N>, h: N, a: Action<N>) {
    && (a.MoveTo? ==> a.head in f)
    && (a.MoveTailTo? ==> a.head in f && a.head != h)
  }

  ghost predicate Walkable<N>(f: Family<N>, h: N, act: N -> Action<N>)
    requires h in f
  {
    forall x | x in f[h] :: NotAhead(f, h, act(x))
  }

  lemma TakeAway<N>(f: Family<N>, h: N, m: nat, a: Action<N>)
    requires Separate(f) && h in f && m < |f[h]| && !a.Keep? && NotAhead(f, h, a)
    ensures Enabled(f, OpFor(f[h][m], a))
    ensures var g, rest := Apply(f, OpFor(f[h][m], a)), f[h][..m] + f[h][m + 1..];
            && Separate(g) && f.Keys <= g.Keys && Nodes(g) <= Nodes(f)
            && g[h] == if a == MoveTo(h) then [f[h][m]] + rest else rest
  {
    var x := f[h][m];
    Unlinked(f, h, m);
    TakeKeeps(f, x, a);
    RingAfter(f, h, x, a);
  }

  lemma TakeKeeps<N>(f: Family<N>, x: N, a: Action<N>)
    requires Separate(f) && !a.Keep? && Enabled(f, OpFor(x, a))
    ensures Separate(Apply(f, OpFor(x, a))) && Nodes(Apply(f, OpFor(x, a))) <= Nodes(f)
  {
    ApplyKeeps(f, OpFor(x, a));
    assert Gained(OpFor(x, a)) == {};
  }

  /** What taking x away, or putting it in front, makes of ring h. */
  lemma RingAfter<N>(f: Family<N>, h: N, x: N, a: Action<N>)
    requires h in f && x !in f && !a.Keep? && NotAhead(f, h, a) && Enabled(f, OpFor(x, a))
    ensures var g, rest := Apply(f, OpFor(x, a)), Unlink(f, x)[h];
            f.Keys <= g.Keys && g[h] == if a == MoveTo(h) then [x] + rest else rest
  {
  }

  lemma Unlinked<N>(f: Family<N>, h: N, m: nat)
    requires Separate(f) && h in f && m < |f[h]|
    ensures var x, g := f[h][m], Unlink(f, f[h][m]);
            IsMember(f, x) && x !in f && g.Keys == f.Keys && g[h] == f[h][..m] + f[h][m + 1..]
  {
    assert IsMember(f, f[h][m]);
    UnlinkMember(f, h, m);
  }

  lemma OpsForStep<N>(s: seq<N>, act: N -> Action<N>, k: nat)
    requires 0 < k <= |s|
    ensures var x := s[k - 1];
            OpsFor(s[..k], act) == if act(x).Keep? then OpsFor(s[..k - 1], act) else OpsFor(s[..k - 1], act) + [OpFor(x, act(x))]
  {
    assert s[..k][..k - 1] == s[..k - 1];
  }

  lemma ExceptStep<N>(s: seq<N>, gone: set<N>, k: nat)
    requires 0 < k <= |s|
    ensures Except(s[..k], gone) ==
            if s[k - 1] in gone then Except(s[..k - 1], gone) else Except(s[..k - 1], gone) + [s[k - 1]]
  {
    assert s[..k] == s[..k - 1] + [s[k - 1]];
    ExceptConcat(s[..k - 1], [s[k - 1]], gone);
  }

  /** What is on ring h in place of the first k nodes of s, once they have been passed. */
  ghost function Passed<N>(s: seq<N>, h: N, act: N -> Action<N>, k: nat): seq<N>
    requires k <= |s|
  {
    if k == 0 then []
    else
      var before, x := Passed(s, h, act, k - 1), s[k - 1];
      if act(x).Keep? then before + [x] else if act(x) == MoveTo(h) then [x] + before else before
  }

  /** Those of s that do not go to the front of ring h. */
  ghost function NotFronted<N>(s: seq<N>, h: N, act: N -> Action<N>): set<N> {
    set x | x in s && act(x) != MoveTo(h)
  }

  lemma ReverseAppend<N>(s: seq<N>, x: N)
    ensures Reverse(s + [x]) == [x] + Reverse(s)
  {
  }

  lemma Regroup<N>(x: N, a: seq<N>, b: seq<N>)
    ensures [x] + (a + b) == ([x] + a) + b
    ensures (a + b) + [x] == a + (b + [x])
  {
  }

  /** The nodes moved to the front of the ring itself, in reverse, and then the nodes kept. */
  lemma {:induction false} PassedMeans<N>(s: seq<N>, h: N, act: N -> Action<N>, k: nat)
    requires k <= |s|
    ensures Passed(s, h, act, k) == Reverse(Except(s[..k], NotFronted(s, h, act))) + Except(s[..k], Taken(s, act))
  {
    if k > 0 {
      var x, front, kept := s[k - 1], Except(s[..k - 1], NotFronted(s, h, act)), Except(s[..k - 1], Taken(s, act));
      assert x in s;
      PassedMeans(s, h, act, k - 1);
      ExceptStep(s, NotFronted(s, h, act), k);
      ExceptStep(s, Taken(s, act), k);
      ReverseAppend(front, x);
      Regroup(x, Reverse(front), kept);
    }
  }

  lemma {:induction false} ExceptAll<N>(s: seq<N>, gone: set<N>)
    requires forall x | x in s :: x in gone
    ensures Except(s, gone) == []
  {
    if s != [] {
      ExceptAll(s[1..], gone);
    }
  }

  /** If nothing goes to the front of the ring itself, the nodes kept are all that is left; if
      everything does, the ring is reversed. */
  lemma PassedEnds<N>(s: seq<N>, h: N, act: N -> Action<N>)
    ensures (forall x | x in s :: act(x) != MoveTo(h)) ==> Passed(s, h, act, |s|) == Except(s, Taken(s, act))
    ensures (forall x | x in s :: act(x) == MoveTo(h)) ==> Passed(s, h, act, |s|) == Reverse(s)
  {
    assert s[..|s|] == s;
    PassedMeans(s, h, act, |s|);
    if forall x | x in s :: act(x) != MoveTo(h) {
      ExceptAll(s, NotFronted(s, h, act));
    }
    if forall x | x in s :: act(x) == MoveTo(h) {
      ExceptAbsent(s, NotFronted(s, h, act));
      ExceptAll(s, Taken(s, act));
    }
  }

  /** Half way through a safe walk from f: the operations so far were allowed and led to g; the
      nodes passed are where their actions put them, the nodes ahead are all still there. */
  ghost predicate Walked<N>(f: Family<N>, h: N, act: N -> Action<N>, k: nat, g: Family<N>)
    requires h in f && k <= |f[h]|
  {
    && Legal(f, OpsFor(f[h][..k], act)) && g == Run(f, OpsFor(f[h][..k], act))
    && Separate(g) && f.Keys <= g.Keys && Nodes(g) <= Nodes(f)
    && g[h] == Passed(f[h], h, act, k) + f[h][k..]
  }

  lemma Passing<N>(kept: seq<N>, s: seq<N>, k: nat)
    requires 0 < k <= |s|
    ensures var r := kept + s[k - 1..];
            && |kept| < |r| && r[|kept|] == s[k - 1]
            && r == kept + [s[k - 1]] + s[k..]
            && r[..|kept|] + r[|kept| + 1..] == kept + s[k..]
  {
  }

  lemma WalkKeeps<N>(f: Family<N>, h: N, act: N -> Action<N>, k: nat, g: Family<N>)
    requires h in f && k < |f[h]| && Walked(f, h, act, k, g) && act(f[h][k]).Keep?
    ensures Walked(f, h, act, k + 1, g)
  {
    var s := f[h];
    OpsForStep(s, act, k + 1);
    Passing(Passed(s, h, act, k), s, k + 1);
  }

  lemma WalkTakes<N>(f: Family<N>, h: N, act: N -> Action<N>, k: nat, g: Family<N>) returns (g': Family<N>)
    requires h in f && k < |f[h]| && Walked(f, h, act, k, g)
    requires Walkable(f, h, act) && !act(f[h][k]).Keep?
    ensures Enabled(g, OpFor(f[h][k], act(f[h][k]))) && g' == Apply(g, OpFor(f[h][k], act(f[h][k])))
    ensures Walked(f, h, act, k + 1, g')
  {
    var s, x := f[h], f[h][k];
    var passed := Passed(s, h, act, k);
    OpsForStep(s, act, k + 1);
    assert x in s;
    Passing(passed, s, k + 1);
    Regroup(x, passed, s[k + 1..]);
    TakeAway(g, h, |passed|, act(x));
    RunAppend(f, OpsFor(s[..k], act), OpFor(x, act(x)));
    g' := Apply(g, OpFor(x, act(x)));
  }

  lemma WalkStart<N>(f: Family<N>, h: N, act: N -> Action<N>)
    requires Separate(f) && h in f
    ensures Walked(f, h, act, 0, f)
  {
    assert f[h][..0] == [] && Passed(f[h], h, act, 0) + f[h][0..] == f[h];
  }

  lemma WalkStep<N>(f: Family<N>, h: N, act: N -> Action<N>, k: nat, g: Family<N>) returns (g': Family<N>)
    requires h in f && k < |f[h]| && Walked(f, h, act, k, g) && Walkable(f, h, act)
    ensures Walked(f, h, act, k + 1, g')
  {
    if act(f[h][k]).Keep? {
      WalkKeeps(f, h, act, k, g);
      g' := g;
    } else {
      g' := WalkTakes(f, h, act, k, g);
    }
  }

  lemma {:induction false} WalkReaches<N>(f: Family<N>, h: N, act: N -> Action<N>, k: nat) returns (g: Family<N>)
    requires Separate(f) && h in f && k <= |f[h]| && Walkable(f, h, act)
    ensures Walked(f, h, act, k, g)
  {
    if k == 0 {
      g := f;
      WalkStart(f, h, act);
    } else {
      g := WalkReaches(f, h, act, k - 1);
      g := WalkStep(f, h, act, k - 1, g);
    }
  }

  /** The family once the first k nodes of ring h went to dst. */
  ghost function Drained<N>(f: Family<N>, h: N, dst: N, tail: bool, k: nat): Family<N>
    requires h in f && dst in f && k <= |f[h]|
  {
    f[h := f[h][k..]][dst := if tail then f[dst] + f[h][..k] else Reverse(f[h][..k]) + f[dst]]
  }

  lemma DrainOne<N>(f: Family<N>, h: N, dst: N, tail: bool, k: nat)
    requires h in f && dst in f && dst != h && k < |f[h]|
    requires Separate(f) && Separate(Drained(f, h, dst, tail, k))
    ensures var g, x := Drained(f, h, dst, tail, k), f[h][k];
            && IsMember(g, x) && x !in f
            && Unlink(g, x) == g[h := f[h][k + 1..]]
  {
    var g, s, x := Drained(f, h, dst, tail, k), f[h], f[h][k];
    assert g[h][0] == x && g[h][..0] + g[h][1..] == s[k + 1..];
    UnlinkMember(g, h, 0);
    assert x in g[h];
  }

  /** Where the members of dst come from, one node further on. */
  lemma OneFurther<N>(s: seq<N>, d: seq<N>, k: nat)
    requires k < |s|
    ensures (d + s[..k]) + [s[k]] == d + s[..k + 1]
    ensures [s[k]] + (Reverse(s[..k]) + d) == Reverse(s[..k + 1]) + d
  {
    assert s[..k + 1] == s[..k] + [s[k]];
    assert Reverse(s[..k + 1]) == [s[k]] + Reverse(s[..k]);
  }

  lemma DrainedNext<N>(f: Family<N>, h: N, dst: N, k: nat, tail: bool)
    requires h in f && dst in f && dst != h && k < |f[h]|
    ensures var g, x := Drained(f, h, dst, tail, k), f[h][k];
            g[h := f[h][k + 1..]][dst := if tail then g[dst] + [x] else [x] + g[dst]] == Drained(f, h, dst, tail, k + 1)
  {
    OneFurther(f[h], f[dst], k);
    var g, x, want := Drained(f, h, dst, tail, k), f[h][k], Drained(f, h, dst, tail, k + 1);
    var got := g[h := f[h][k + 1..]][dst := if tail then g[dst] + [x] else [x] + g[dst]];
    forall r | r in f ensures r in got && got[r] == want[r] {
    }
  }

  lemma Moved<N>(g: Family<N>, h: N, x: N, dst: N, rest: seq<N>)
    requires h in g && dst in g && dst != h && x !in g && Unlink(g, x) == g[h := rest]
    ensures Add(Unlink(g, x), x, dst) == g[h := rest][dst := [x] + g[dst]]
    ensures AddTail(Unlink(g, x), x, dst) == g[h := rest][dst := g[dst] + [x]]
  {
    assert Unlink(g, x) - {x} == Unlink(g, x);
  }

  lemma DrainStep<N>(f: Family<N>, h: N, dst: N, a: Action<N>, k: nat, g: Family<N>)
    requires h in f && dst in f && dst != h && k < |f[h]| && a in {MoveTo(dst), MoveTailTo(dst)}
    requires g == Drained(f, h, dst, a.MoveTailTo?, k) && Separate(f) && Separate(g)
    ensures Enabled(g, OpFor(f[h][k], a)) && Apply(g, OpFor(f[h][k], a)) == Drained(f, h, dst, a.MoveTailTo?, k + 1)
  {
    DrainOne(f, h, dst, a.MoveTailTo?, k);
    MoveMeans(g, f[h][k], dst, a);
    Moved(g, h, f[h][k], dst, f[h][k + 1..]);
    DrainedNext(f, h, dst, k, a.MoveTailTo?);
  }

  lemma MoveMeans<N>(g: Family<N>, x: N, dst: N, a: Action<N>)
    requires IsMember(g, x) && x !in g && dst in g && a in {MoveTo(dst), MoveTailTo(dst)}
    ensures Enabled(g, OpFor(x, a)) && dst in Unlink(g, x)
    ensures Apply(g, OpFor(x, a)) == if a.MoveTailTo? then AddTail(Unlink(g, x), x, dst) else Add(Unlink(g, x), x, dst)
  {
  }

  lemma {:induction false} DrainRun<N>(f: Family<N>, h: N, dst: N, act: N -> Action<N>, a: Action<N>, k: nat)
    requires Separate(f) && h in f && dst in f && dst != h && k <= |f[h]|
    requires a in {MoveTo(dst), MoveTailTo(dst)} && forall x | x in f[h] :: act(x) == a
    requires Legal(f, OpsFor(f[h][..k], act))
    ensures Run(f, OpsFor(f[h][..k], act)) == Drained(f, h, dst, a.MoveTailTo?, k)
  {
    if k == 0 {
      DrainedNone(f, h, dst, a.MoveTailTo?, k);
    } else {
      var x, before := f[h][k - 1], OpsFor(f[h][..k - 1], act);
      OpsForStep(f[h], act, k);
      assert x in f[h];
      RunLast(f, before, OpFor(x, a));
      DrainRun(f, h, dst, act, a, k - 1);
      RunKeeps(f, before);
      DrainStep(f, h, dst, a, k - 1, Run(f, before));
    }
  }

  lemma RunLast<N>(f: Family<N>, ops: seq<Op<N>>, op: Op<N>)
    requires Legal(f, ops + [op])
    ensures Legal(f, ops) && Enabled(Run(f, ops), op) && Run(f, ops + [op]) == Apply(Run(f, ops), op)
  {
    assert (ops + [op])[..|ops + [op]| - 1] == ops;
  }

  lemma DrainedNone<N>(f: Family<N>, h: N, dst: N, tail: bool, k: nat)
    requires h in f && dst in f && dst != h && k == 0
    ensures Drained(f, h, dst, tail, k) == f
  {
    var s := f[h];
    assert s[0..] == s && f[dst] + s[..0] == f[dst] && Reverse(s[..0]) + f[dst] == f[dst];
  }

  /** Draining a ring into dst: through list_move it arrives in front and reversed, through
      list_move_tail behind and in order.  No other ring changes. */
  lemma Drain<N>(f: Family<N>, h: N, dst: N, act: N -> Action<N>, a: Action<N>, k: nat) returns (g: Family<N>)
    requires Separate(f) && h in f && dst in f && dst != h && k <= |f[h]|
    requires a in {MoveTo(dst), MoveTailTo(dst)} && forall x | x in f[h] :: act(x) == a
    ensures Walked(f, h, act, k, g) && g == Drained(f, h, dst, a.MoveTailTo?, k)
  {
    g := WalkReaches(f, h, act, k);
    DrainRun(f, h, dst, act, a, k);
  }
}
