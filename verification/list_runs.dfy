/** Runs and walks of the pointer code, proved against the functions of RingRuns. */
module ListRuns {
  import opened Rings
  import opened RingRuns
  import opened RingLaws
  import opened ListHeads

  ghost predicate LeadsTo(a: ListHead?, b: ListHead?)
    reads a
  {
    a != null && a.next == b
  }

  method Perform(op: Op<ListHead>, ghost f: Family<ListHead>)
    requires Wf(f) && Enabled(f, op)
    modifies Nodes(f), Mentioned(op)
    ensures Wf(Apply(f, op)) && Places(f, op, Apply(f, op))
    ensures op.SpliceInit? && f[op.src] != [] ==>
              op.head.next == old(op.src.next) && LeadsTo(old(op.src.prev), old(op.head.next))
    ensures op.SpliceTailInit? && f[op.src] != [] ==>
              op.head.prev == old(op.src.prev) && LeadsTo(old(op.head.prev), old(op.src.next))
  {
    InNodes(f);
    ApplyPlaces(f, op);
    match op
    case Init(x) =>
      InitListHead(x, f);
    case AddFirst(x, h) =>
      Neighbours(f, h);
      ListAdd(x, h, f);
    case AddLast(x, h) =>
      Neighbours(f, h);
      ListAddTail(x, h, f);
    case Del(x) =>
      Neighbours(f, x);
      ListDel(x, f);
    case DelInit(x) =>
      Neighbours(f, x);
      ListDelInit(x, f);
    case ReplaceBy(o, n) =>
      Neighbours(f, o);
      ListReplace(o, n, f);
    case ReplaceInitBy(o, n) =>
      ListReplaceInit(o, n, f);
    case Move(x, h) =>
      ListMove(x, h, f);
    case MoveTail(x, h) =>
      ListMoveTail(x, h, f);
    case SpliceInit(s, h) =>
      SpliceFront(s, h, f);
    case SpliceTailInit(s, h) =>
      SpliceBack(s, h, f);
  }

  /** The first and the last node of a ring, in the links of its head. */
  lemma RingEnds(f: Family<ListHead>, h: ListHead)
    requires Wf(f) && h in f
    ensures h.next == At(h, f[h], 0) && h.prev == At(h, f[h], |f[h]| - 1)
  {
    assert At(h, f[h], -1).next == At(h, f[h], 0);
    assert At(h, f[h], |f[h]|).prev == At(h, f[h], |f[h]| - 1);
  }

  /** The link that joins two parts of a ring. */
  lemma Seam(f: Family<ListHead>, h: ListHead, s: seq<ListHead>, t: seq<ListHead>)
    requires Wf(f) && h in f && f[h] == s + t
    ensures At(h, s, |s| - 1).next == At(h, t, 0)
  {
    assert At(h, f[h], |s| - 1).next == At(h, f[h], |s|);
  }

  method SpliceFront(s: ListHead, h: ListHead, ghost f: Family<ListHead>)
    requires Wf(f) && s in f && h in f && s != h
    modifies Nodes(f)
    ensures Wf(f[h := f[s] + f[h]][s := []])
    ensures f[s] != [] ==> h.next == old(s.next) && LeadsTo(old(s.prev), old(h.next))
  {
    RingEnds(f, s);
    RingEnds(f, h);
    ListSpliceInit(s, h, f);
    ghost var g := f[h := f[s] + f[h]][s := []];
    RingEnds(g, h);
    Seam(g, h, f[s], f[h]);
  }

  method SpliceBack(s: ListHead, h: ListHead, ghost f: Family<ListHead>)
    requires Wf(f) && s in f && h in f && s != h
    modifies Nodes(f)
    ensures Wf(f[h := f[h] + f[s]][s := []])
    ensures f[s] != [] ==> h.prev == old(s.prev) && LeadsTo(old(h.prev), old(s.next))
  {
    RingEnds(f, s);
    RingEnds(f, h);
    ListSpliceTailInit(s, h, f);
    ghost var g := f[h := f[h] + f[s]][s := []];
    RingEnds(g, h);
    Seam(g, h, f[h], f[s]);
  }

  /** Any run of list operations over any family of rings leaves the heap holding exactly the
      family that the same run on plain sequences computes. */
  method Execute(ops: seq<Op<ListHead>>, ghost f: Family<ListHead>)
    requires Wf(f) && Legal(f, ops)
    modifies Nodes(f), set op, x | op in ops && x in Mentioned(op) :: x
    ensures Wf(Run(f, ops))
  {
    ghost var frame := Nodes(f) + set op, x | op in ops && x in Mentioned(op) :: x;
    for i := 0 to |ops|
      invariant Legal(f, ops[..i]) && Wf(Run(f, ops[..i])) && Nodes(Run(f, ops[..i])) <= frame
    {
      LegalPrefix(f, ops, i + 1);
      assert ops[..i + 1][..i] == ops[..i];
      RunKeeps(f, ops[..i]);
      ApplyKeeps(Run(f, ops[..i]), ops[i]);
      assert Gained(ops[i]) <= Mentioned(ops[i]) <= frame by {
        assert ops[i] in ops;
      }
      assert Run(f, ops[..i + 1]) == Apply(Run(f, ops[..i]), ops[i]);
      Perform(ops[i], Run(f, ops[..i]));
    }
    assert ops[..|ops|] == ops;
  }

  // ---- walks ----

  /** list_for_each. */
  method ForEach(head: ListHead, ghost f: Family<ListHead>) returns (visited: seq<ListHead>)
    requires Wf(f) && head in f
    ensures visited == f[head]
  {
    ghost var s := f[head];
    assert At(head, s, -1).next == At(head, s, 0);
    visited := [];
    var pos := head.next;
    CycleInjective(f, head, if s == [] then -1 else 0, -1);
    while pos != head
      invariant |visited| <= |s| && visited == s[..|visited|]
      invariant pos == At(head, s, |visited|)
      invariant pos == head <==> |visited| == |s|
      decreases |s| - |visited|
    {
      ghost var k := |visited|;
      visited := visited + [pos];
      assert At(head, s, k).next == At(head, s, k + 1);
      CycleInjective(f, head, if k + 1 == |s| then -1 else k + 1, -1);
      pos := pos.next;
    }
  }

  /** list_for_each_prev: the same nodes, in the opposite order. */
  method ForEachPrev(head: ListHead, ghost f: Family<ListHead>) returns (visited: seq<ListHead>)
    requires Wf(f) && head in f
    ensures visited == Reverse(f[head])
  {
    ghost var s := f[head];
    assert At(head, s, |s|).prev == At(head, s, |s| - 1);
    visited := [];
    var pos := head.prev;
    CycleInjective(f, head, |s| - 1, -1);
    while pos != head
      invariant |visited| <= |s| && visited == Reverse(s)[..|visited|]
      invariant pos == At(head, s, |s| - 1 - |visited|)
      invariant pos == head <==> |visited| == |s|
      decreases |s| - |visited|
    {
      ghost var k := |s| - 1 - |visited|;
      visited := visited + [pos];
      assert At(head, s, k).prev == At(head, s, k - 1);
      CycleInjective(f, head, k - 1, -1);
      pos := pos.prev;
    }
  }

  method Act(x: ListHead, a: Action<ListHead>, ghost f: Family<ListHead>)
    requires Wf(f) && !a.Keep? && Enabled(f, OpFor(x, a))
    modifies Nodes(f)
    ensures Wf(Apply(f, OpFor(x, a)))
  {
    InNodes(f);
    match a
    case Drop =>
      Neighbours(f, x);
      ListDel(x, f);
    case DropInit =>
      Neighbours(f, x);
      ListDelInit(x, f);
    case MoveTo(h) =>
      ListMove(x, h, f);
    case MoveTailTo(h) =>
      ListMoveTail(x, h, f);
  }

  /** Where the cursor is at step k of a safe walk, and where it leads. */
  lemma Cursor(f: Family<ListHead>, head: ListHead, act: ListHead -> Action<ListHead>, k: nat, g: Family<ListHead>)
    requires head in f && Separate(f) && k <= |f[head]| && Walked(f, head, act, k, g) && Wf(g)
    ensures var pos := At(head, f[head], k);
            && (pos == head <==> k == |f[head]|)
            && pos.next != null
            && (k < |f[head]| ==> pos.next == At(head, f[head], k + 1))
  {
    var s := f[head];
    var passed := Passed(s, head, act, k);
    CycleInjective(f, head, if k == |s| then -1 else k, -1);
    if k < |s| {
      assert g[head][|passed|] == s[k];
      assert At(head, g[head], |passed|).next == At(head, g[head], |passed| + 1);
    } else {
      InNodes(g);
      Neighbours(g, head);
    }
  }

  /** The body of the loop at its k-th node. */
  method Visit(pos: ListHead, act: ListHead -> Action<ListHead>,
               ghost f: Family<ListHead>, ghost head: ListHead, ghost k: nat, ghost g: Family<ListHead>)
    returns (ghost g': Family<ListHead>)
    requires head in f && Walkable(f, head, act) && k < |f[head]| && pos == f[head][k]
    requires Walked(f, head, act, k, g) && Wf(g)
    modifies Nodes(f)
    ensures Walked(f, head, act, k + 1, g') && Wf(g')
  {
    if act(pos).Keep? {
      WalkKeeps(f, head, act, k, g);
      g' := g;
    } else {
      g' := WalkTakes(f, head, act, k, g);
      Act(pos, act(pos), g);
    }
  }

  /** The first node of the loop and the one after it. */
  method Enter(head: ListHead, ghost act: ListHead -> Action<ListHead>, ghost f: Family<ListHead>)
    returns (pos: ListHead, n: ListHead)
    requires Wf(f) && head in f && Walked(f, head, act, 0, f)
    ensures pos == At(head, f[head], 0) && (pos == head <==> f[head] == [])
    ensures f[head] != [] ==> n == At(head, f[head], 1)
  {
    assert At(head, f[head], -1).next == At(head, f[head], 0);
    Cursor(f, head, act, 0, f);
    pos := head.next;
    n := pos.next;
  }

  /** One turn of the loop: the body at pos, and then on to the node that was saved. */
  method Turn(pos: ListHead, n: ListHead, act: ListHead -> Action<ListHead>,
              ghost f: Family<ListHead>, ghost head: ListHead, ghost k: nat, ghost g: Family<ListHead>)
    returns (pos': ListHead, n': ListHead, ghost g': Family<ListHead>)
    requires Separate(f) && head in f && Walkable(f, head, act) && k < |f[head]|
    requires pos == f[head][k] && n == At(head, f[head], k + 1)
    requires Walked(f, head, act, k, g) && Wf(g)
    modifies Nodes(f)
    ensures Walked(f, head, act, k + 1, g') && Wf(g')
    ensures pos' == n && (pos' == head <==> k + 1 == |f[head]|)
    ensures k + 1 < |f[head]| ==> n' == At(head, f[head], k + 2)
  {
    g' := Visit(pos, act, f, head, k, g);
    pos' := n;
    Cursor(f, head, act, k + 1, g');
    n' := pos'.next;
  }

  /** list_for_each_safe with a body that may delete the node it is at, move it to another ring, or
      move it to the front of the ring walked: every node is visited once, in order.  On the ring
      are then the nodes moved to its front, in reverse, and behind them the nodes kept. */
  method ForEachSafe(head: ListHead, act: ListHead -> Action<ListHead>, ghost f: Family<ListHead>)
    returns (visited: seq<ListHead>, ghost g: Family<ListHead>)
    requires Wf(f) && head in f && Walkable(f, head, act)
    modifies Nodes(f)
    ensures visited == f[head]
    ensures Wf(g) && Walked(f, head, act, |f[head]|, g)
    ensures g[head] == Reverse(Except(f[head], NotFronted(f[head], head, act))) + Except(f[head], Taken(f[head], act))
    ensures (forall x | x in f[head] :: act(x) != MoveTo(head)) ==> g[head] == Except(f[head], Taken(f[head], act))
    ensures (forall x | x in f[head] :: act(x) == MoveTo(head)) ==> g[head] == Reverse(f[head])
    ensures Delivered(f, head, act, |f[head]|, g)
  {
    ghost var s, k := f[head], 0;
    g, visited := f, [];
    WalkStart(f, head, act);
    var pos, n := Enter(head, act, f);
    while pos != head
      invariant k <= |s| && visited == s[..k] && pos == At(head, s, k)
      invariant pos == head <==> k == |s|
      invariant Walked(f, head, act, k, g) && Wf(g)
      invariant k < |s| ==> n == At(head, s, k + 1)
      decreases |s| - k
    {
      visited := visited + [pos];
      OneMore(s, k);
      pos, n, g := Turn(pos, n, act, f, head, k, g);
      k := k + 1;
    }
    WalkEnds(f, head, act, g);
    WalkDelivers(f, head, act, |s|, g);
    assert s[..|s|] == s;
  }

  lemma OneMore<T>(s: seq<T>, k: nat)
    requires k < |s|
    ensures s[..k] + [s[k]] == s[..k + 1]
  {
  }

  lemma WalkEnds(f: Family<ListHead>, head: ListHead, act: ListHead -> Action<ListHead>, g: Family<ListHead>)
    requires head in f && Walked(f, head, act, |f[head]|, g)
    ensures g[head] == Reverse(Except(f[head], NotFronted(f[head], head, act))) + Except(f[head], Taken(f[head], act))
    ensures (forall x | x in f[head] :: act(x) != MoveTo(head)) ==> g[head] == Except(f[head], Taken(f[head], act))
    ensures (forall x | x in f[head] :: act(x) == MoveTo(head)) ==> g[head] == Reverse(f[head])
  {
    var s := f[head];
    assert s[..|s|] == s && s[|s|..] == [];
    assert g[head] == Passed(s, head, act, |s|);
    PassedMeans(s, head, act, |s|);
    PassedEnds(s, head, act);
  }
}
