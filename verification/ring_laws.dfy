/** Where every node is after an operation, a run or a walk, position by position. */
module RingLaws {
  import opened Common
  import opened Rings
  import opened RingRuns

  // ---- one operation ----

  /** t is s with x gone from its place and the gap closed, or s itself if x was not in it. */
  ghost predicate Closed<N>(s: seq<N>, x: N, t: seq<N>) {
    && (x !in s ==> t == s)
    && (forall k | 0 <= k < |s| && s[k] == x :: t == s[..k] + s[k + 1..])
  }

  /** Rings other than that of `except` have x gone from its place. */
  ghost predicate ClosedBut<N>(f: Family<N>, x: N, g: Family<N>, except: set<N>) {
    forall r | r in f && r != x && r !in except :: r in g && Closed(f[r], x, g[r])
  }

  /** t has s first and then u. */
  ghost predicate Joined<N>(s: seq<N>, u: seq<N>, t: seq<N>) {
    && |t| == |s| + |u|
    && (forall i | 0 <= i < |s| :: t[i] == s[i])
    && (forall i | 0 <= i < |u| :: t[|s| + i] == u[i])
  }

  /** t is s with n wherever o was. */
  ghost predicate Exchanged<N>(s: seq<N>, o: N, n: N, t: seq<N>) {
    |t| == |s| && forall i | 0 <= i < |s| :: t[i] == if s[i] == o then n else s[i]
  }

  ghost predicate AllExchanged<N>(f: Family<N>, o: N, n: N, g: Family<N>) {
    && (forall r | r in f && r != o && r != n :: r in g && Exchanged(f[r], o, n, g[r]))
    && (o in f ==> n in g && g[n] == f[o])
  }

  ghost predicate Alone<N>(g: Family<N>, x: N) {
    x in g && g[x] == []
  }

  /** Where the nodes are after an operation that puts x first (last) on ring h. */
  ghost predicate FirstOn<N>(f: Family<N>, x: N, h: N, g: Family<N>) {
    h in f && h in g && |g[h]| > 0 && g[h][0] == x && Closed(f[h], x, g[h][1..]) && ClosedBut(f, x, g, {h})
  }

  ghost predicate LastOn<N>(f: Family<N>, x: N, h: N, g: Family<N>) {
    h in f && h in g && |g[h]| > 0 && g[h][|g[h]| - 1] == x && Closed(f[h], x, g[h][..|g[h]| - 1]) && ClosedBut(f, x, g, {h})
  }

  /** What each operation does to the places of nodes. */
  ghost predicate Places<N>(f: Family<N>, op: Op<N>, g: Family<N>)
    requires Enabled(f, op)
  {
    match op
    case Init(x) => Alone(g, x) && ClosedBut(f, x, g, {})
    case AddFirst(x, h) => FirstOn(f, x, h, g)
    case AddLast(x, h) => LastOn(f, x, h, g)
    case Del(x) => x !in Nodes(g) && ClosedBut(f, x, g, {})
    case DelInit(x) => Alone(g, x) && ClosedBut(f, x, g, {})
    case ReplaceBy(o, n) => o !in Nodes(g) && AllExchanged(f, o, n, g)
    case ReplaceInitBy(o, n) => Alone(g, o) && AllExchanged(f, o, n, g)
    case Move(x, h) => FirstOn(f, x, h, g)
    case MoveTail(x, h) => LastOn(f, x, h, g)
    case SpliceInit(s, h) => h in g && Joined(f[s], f[h], g[h]) && Alone(g, s) && forall r | r in f && r !in {s, h} :: r in g && g[r] == f[r]
    case SpliceTailInit(s, h) => h in g && Joined(f[h], f[s], g[h]) && Alone(g, s) && forall r | r in f && r !in {s, h} :: r in g && g[r] == f[r]
  }

  lemma ClosedExcept<N>(s: seq<N>, x: N)
    requires Distinct(s)
    ensures Closed(s, x, Except(s, {x}))
  {
    if x in s {
      var k :| 0 <= k < |s| && s[k] == x;
      ExceptOne(s, k);
    } else {
      ExceptAbsent(s, {x});
    }
  }

  lemma UnlinkPlaces<N>(f: Family<N>, x: N)
    requires Separate(f)
    ensures ClosedBut(f, x, Unlink(f, x), {})
  {
    forall r | r in f && r != x ensures Closed(f[r], x, Unlink(f, x)[r]) {
      ClosedExcept(f[r], x);
    }
  }

  lemma AddPlaces<N>(f: Family<N>, x: N, h: N)
    requires Separate(f) && Detached(f, x) && h in f && h != x
    ensures FirstOn(f, x, h, Add(f, x, h)) && LastOn(f, x, h, AddTail(f, x, h))
  {
    var g, t := Add(f, x, h), AddTail(f, x, h);
    InNodes(f);
    assert g[h][1..] == f[h] && t[h][..|t[h]| - 1] == f[h];
  }

  lemma MovePlaces<N>(f: Family<N>, x: N, h: N)
    requires Separate(f) && Removable(f, x) && h in f && h != x
    ensures FirstOn(f, x, h, Add(Unlink(f, x), x, h)) && LastOn(f, x, h, AddTail(Unlink(f, x), x, h))
  {
    var u := Unlink(f, x);
    var g, t := Add(u, x, h), AddTail(u, x, h);
    UnlinkPlaces(f, x);
    assert g[h][1..] == u[h] && t[h][..|t[h]| - 1] == u[h];
  }

  lemma ReplacePlaces<N>(f: Family<N>, o: N, n: N)
    requires Separate(f) && o in Nodes(f) && Detached(f, n) && o != n
    ensures AllExchanged(f, o, n, Replace(f, o, n)) && AllExchanged(f, o, n, Replace(f, o, n)[o := []])
  {
  }

  /** After every operation each node is where the operation's documentation says. */
  lemma ApplyPlaces<N>(f: Family<N>, op: Op<N>)
    requires Separate(f) && Enabled(f, op)
    ensures Places(f, op, Apply(f, op))
  {
    InNodes(f);
    match op
    case Init(x) =>
    case AddFirst(x, h) => AddPlaces(f, x, h);
    case AddLast(x, h) => AddPlaces(f, x, h);
    case Del(x) => UnlinkPlaces(f, x); UnlinkSeparate(f, x);
    case DelInit(x) => UnlinkPlaces(f, x);
    case ReplaceBy(o, n) => ReplacePlaces(f, o, n); ReplaceSeparate(f, o, n);
    case ReplaceInitBy(o, n) => ReplacePlaces(f, o, n);
    case Move(x, h) => MovePlaces(f, x, h);
    case MoveTail(x, h) => MovePlaces(f, x, h);
    case SpliceInit(_, _) =>
    case SpliceTailInit(_, _) =>
  }

  /** At every point of a run the next operation puts the nodes where its documentation says. */
  lemma RunPlaces<N>(f: Family<N>, ops: seq<Op<N>>, i: nat)
    requires Separate(f) && Legal(f, ops) && i < |ops|
    ensures Legal(f, ops[..i]) && Legal(f, ops[..i + 1]) && Enabled(Run(f, ops[..i]), ops[i])
    ensures Places(Run(f, ops[..i]), ops[i], Run(f, ops[..i + 1]))
  {
    LegalPrefix(f, ops, i);
    LegalPrefix(f, ops, i + 1);
    assert ops[..i + 1][..i] == ops[..i];
    RunKeeps(f, ops[..i]);
    ApplyPlaces(Run(f, ops[..i]), ops[i]);
  }

  // ---- a splice is a run of moves ----

  /** list_move of the last j members to the front of h, the last one first. */
  ghost function FrontMoves<N>(members: seq<N>, h: N, j: nat): seq<Op<N>>
    requires j <= |members|
  {
    if j == 0 then [] else FrontMoves(members, h, j - 1) + [Move(members[|members| - j], h)]
  }

  /** The family once the last j members of ring s went to the front of h. */
  ghost function Fronted<N>(f: Family<N>, s: N, h: N, j: nat): Family<N>
    requires s in f && h in f && j <= |f[s]|
  {
    f[s := f[s][..|f[s]| - j]][h := f[s][|f[s]| - j..] + f[h]]
  }

  lemma OneMoreFront<T>(s: seq<T>, d: seq<T>, m: nat)
    requires m < |s|
    ensures [s[m]] + (s[m + 1..] + d) == s[m..] + d
    ensures s[..m + 1][..m] + s[..m + 1][m + 1..] == s[..m] && s[..m + 1][m] == s[m]
  {
  }

  lemma FrontedNext<N>(f: Family<N>, s: N, h: N, j: nat)
    requires s in f && h in f && s != h && j < |f[s]|
    ensures var g, m := Fronted(f, s, h, j), |f[s]| - j - 1;
            g[s := f[s][..m]][h := [f[s][m]] + g[h]] == Fronted(f, s, h, j + 1)
  {
    var g, m, want := Fronted(f, s, h, j), |f[s]| - j - 1, Fronted(f, s, h, j + 1);
    var got := g[s := f[s][..m]][h := [f[s][m]] + g[h]];
    OneMoreFront(f[s], f[h], m);
    forall r | r in f ensures r in got && got[r] == want[r] {
    }
  }

  lemma FrontOne<N>(f: Family<N>, s: N, h: N, j: nat, g: Family<N>)
    requires s in f && h in f && s != h && j < |f[s]| && g == Fronted(f, s, h, j) && Separate(f) && Separate(g)
    ensures var m := |f[s]| - j - 1;
            IsMember(g, f[s][m]) && f[s][m] !in f && Unlink(g, f[s][m]) == g[s := f[s][..m]]
  {
    var m := |f[s]| - j - 1;
    OneMoreFront(f[s], f[h], m);
    UnlinkMember(g, s, m);
    assert f[s][m] in g[s];
    assert f[s][m] in f[s];
  }

  lemma FrontStep<N>(f: Family<N>, s: N, h: N, j: nat, g: Family<N>)
    requires s in f && h in f && s != h && j < |f[s]| && g == Fronted(f, s, h, j) && Separate(f) && Separate(g)
    ensures var op := Move(f[s][|f[s]| - j - 1], h); Enabled(g, op) && Apply(g, op) == Fronted(f, s, h, j + 1)
  {
    var m := |f[s]| - j - 1;
    FrontOne(f, s, h, j, g);
    MoveMeans(g, f[s][m], h, MoveTo(h));
    Moved(g, s, f[s][m], h, f[s][..m]);
    FrontedNext(f, s, h, j);
  }

  lemma FrontedNone<N>(f: Family<N>, s: N, h: N, j: nat)
    requires s in f && h in f && s != h && j == 0
    ensures Fronted(f, s, h, j) == f
  {
    assert f[s][..|f[s]|] == f[s] && f[s][|f[s]|..] + f[h] == f[h];
  }

  lemma {:induction false} FrontMovesRun<N>(f: Family<N>, s: N, h: N, j: nat)
    requires Separate(f) && s in f && h in f && s != h && j <= |f[s]|
    ensures Legal(f, FrontMoves(f[s], h, j)) && Run(f, FrontMoves(f[s], h, j)) == Fronted(f, s, h, j)
  {
    if j == 0 {
      FrontedNone(f, s, h, j);
    } else {
      FrontMovesRun(f, s, h, j - 1);
      FrontMovesNext(f, s, h, j, FrontMoves(f[s], h, j - 1));
    }
  }

  lemma FrontMovesNext<N>(f: Family<N>, s: N, h: N, j: nat, before: seq<Op<N>>)
    requires Separate(f) && s in f && h in f && s != h && 0 < j <= |f[s]|
    requires Legal(f, before) && Run(f, before) == Fronted(f, s, h, j - 1)
    ensures var ops := before + [Move(f[s][|f[s]| - j], h)]; Legal(f, ops) && Run(f, ops) == Fronted(f, s, h, j)
  {
    RunKeeps(f, before);
    FrontStep(f, s, h, j - 1, Run(f, before));
    RunAppend(f, before, Move(f[s][|f[s]| - j], h));
  }

  /** list_splice_init does what moving the members by list_move does, the last one first. */
  lemma SpliceIsMoves<N>(f: Family<N>, s: N, h: N)
    requires Separate(f) && s in f && h in f && s != h
    ensures Legal(f, FrontMoves(f[s], h, |f[s]|)) && Legal(f, [SpliceInit(s, h)])
    ensures Run(f, FrontMoves(f[s], h, |f[s]|)) == Run(f, [SpliceInit(s, h)])
  {
    var n := |f[s]|;
    FrontMovesRun(f, s, h, n);
    RunAppend(f, [], SpliceInit(s, h));
    assert [] + [SpliceInit(s, h)] == [SpliceInit(s, h)];
    assert f[s][..n - n] == [] && f[s][n - n..] == f[s];
  }

  /** list_splice_tail_init does what moving the members by list_move_tail does, the first one first. */
  lemma SpliceTailIsMoves<N>(f: Family<N>, s: N, h: N, act: N -> Action<N>)
    requires Separate(f) && s in f && h in f && s != h && forall x | x in f[s] :: act(x) == MoveTailTo(h)
    ensures Legal(f, OpsFor(f[s], act)) && Legal(f, [SpliceTailInit(s, h)])
    ensures Run(f, OpsFor(f[s], act)) == Run(f, [SpliceTailInit(s, h)])
  {
    var g := Drain(f, s, h, act, MoveTailTo(h), |f[s]|);
    assert f[s][..|f[s]|] == f[s];
    RunAppend(f, [], SpliceTailInit(s, h));
    assert [] + [SpliceTailInit(s, h)] == [SpliceTailInit(s, h)];
    DrainedAll(f, s, h);
  }

  lemma DrainedAll<N>(f: Family<N>, s: N, h: N)
    requires s in f && h in f && s != h
    ensures Drained(f, s, h, true, |f[s]|) == f[h := f[h] + f[s]][s := []]
  {
    assert f[s][..|f[s]|] == f[s] && f[s][|f[s]|..] == [];
  }

  // ---- walks ----

  /** Those of s that do not go to the end of ring d. */
  ghost function NotTailed<N>(s: seq<N>, d: N, act: N -> Action<N>): set<N> {
    set x | x in s && act(x) != MoveTailTo(d)
  }

  /** Ring d, not the one walked, once the first k nodes of s have been passed. */
  ghost function Received<N>(s: seq<N>, k: nat, d: N, act: N -> Action<N>, was: seq<N>): seq<N>
    requires k <= |s|
  {
    Reverse(Except(s[..k], NotFronted(s, d, act))) + was + Except(s[..k], NotTailed(s, d, act))
  }

  /** Where the nodes of the first k turns have gone: to the ring they were moved to, in front of it
      in reverse or behind it in order, onto a ring of their own, or nowhere. */
  ghost predicate Delivered<N>(f: Family<N>, h: N, act: N -> Action<N>, k: nat, g: Family<N>)
    requires h in f && k <= |f[h]|
  {
    && (forall d | d in f && d != h :: d in g && g[d] == Received(f[h], k, d, act, f[d]))
    && (forall j | 0 <= j < k && act(f[h][j]).DropInit? :: Alone(g, f[h][j]))
    && (forall j | 0 <= j < k && act(f[h][j]).Drop? :: f[h][j] !in Nodes(g))
  }

  lemma Extend<T>(front: seq<T>, was: seq<T>, back: seq<T>, x: T)
    ensures [x] + (front + was + back) == [x] + front + was + back
    ensures (front + was + back) + [x] == front + was + (back + [x])
  {
  }

  lemma ReceivedNext<N>(s: seq<N>, k: nat, d: N, act: N -> Action<N>, was: seq<N>)
    requires k < |s|
    ensures var now, x := Received(s, k, d, act, was), s[k];
            Received(s, k + 1, d, act, was) ==
            if act(x) == MoveTo(d) then [x] + now else if act(x) == MoveTailTo(d) then now + [x] else now
  {
    var x := s[k];
    var front, back := Except(s[..k], NotFronted(s, d, act)), Except(s[..k], NotTailed(s, d, act));
    assert x in s;
    ExceptStep(s, NotFronted(s, d, act), k + 1);
    ExceptStep(s, NotTailed(s, d, act), k + 1);
    ReverseAppend(front, x);
    Extend(Reverse(front), was, back, x);
  }

  /** What one turn does to a ring other than the one walked. */
  lemma OtherRing<N>(g: Family<N>, h: N, x: N, a: Action<N>, d: N)
    requires Separate(g) && h in g && x in g[h] && d in g && d != h && !a.Keep? && Enabled(g, OpFor(x, a))
    ensures var t := Apply(g, OpFor(x, a));
            d in t && t[d] == if a == MoveTo(d) then [x] + g[d] else if a == MoveTailTo(d) then g[d] + [x] else g[d]
  {
    ExceptAbsent(g[d], {x});
  }

  lemma DeliveredNext<N>(f: Family<N>, h: N, act: N -> Action<N>, k: nat, g: Family<N>, g': Family<N>)
    requires h in f && k < |f[h]| && Separate(f) && Separate(g) && Delivered(f, h, act, k, g)
    requires h in g && f[h][k] in g[h] && Walkable(f, h, act)
    requires var a := act(f[h][k]); if a.Keep? then g' == g else Enabled(g, OpFor(f[h][k], a)) && g' == Apply(g, OpFor(f[h][k], a))
    ensures Delivered(f, h, act, k + 1, g')
  {
    var s, x, a := f[h], f[h][k], act(f[h][k]);
    assert x in s;
    forall d | d in f && d != h ensures d in g' && g'[d] == Received(s, k + 1, d, act, f[d]) {
      ReceivedNext(s, k, d, act, f[d]);
      if !a.Keep? {
        OtherRing(g, h, x, a, d);
      }
    }
    if !a.Keep? {
      TurnGone(f, h, act, k, g);
    }
  }

  lemma NotMentioned<N>(f: Family<N>, h: N, act: N -> Action<N>, j: nat, k: nat)
    requires Separate(f) && h in f && j < k < |f[h]| && Walkable(f, h, act) && !act(f[h][k]).Keep?
    ensures f[h][j] !in Mentioned(OpFor(f[h][k], act(f[h][k])))
  {
    assert f[h][j] in f[h] && f[h][k] in f[h];
  }

  lemma GoneNow<N>(g: Family<N>, x: N, a: Action<N>)
    requires Separate(g) && !a.Keep? && Enabled(g, OpFor(x, a))
    ensures a.DropInit? ==> Alone(Apply(g, OpFor(x, a)), x)
    ensures a.Drop? ==> x !in Nodes(Apply(g, OpFor(x, a)))
    ensures Nodes(Apply(g, OpFor(x, a))) <= Nodes(g)
  {
    ApplyPlaces(g, OpFor(x, a));
    TakeKeeps(g, x, a);
  }

  lemma TurnGone<N>(f: Family<N>, h: N, act: N -> Action<N>, k: nat, g: Family<N>)
    requires h in f && k < |f[h]| && Separate(f) && Separate(g) && Walkable(f, h, act)
    requires forall j | 0 <= j < k && act(f[h][j]).DropInit? :: Alone(g, f[h][j])
    requires forall j | 0 <= j < k && act(f[h][j]).Drop? :: f[h][j] !in Nodes(g)
    requires !act(f[h][k]).Keep? && Enabled(g, OpFor(f[h][k], act(f[h][k])))
    ensures var t := Apply(g, OpFor(f[h][k], act(f[h][k])));
            && (forall j | 0 <= j < k + 1 && act(f[h][j]).DropInit? :: Alone(t, f[h][j]))
            && (forall j | 0 <= j < k + 1 && act(f[h][j]).Drop? :: f[h][j] !in Nodes(t))
  {
    var op := OpFor(f[h][k], act(f[h][k]));
    GoneNow(g, f[h][k], act(f[h][k]));
    forall j | 0 <= j < k && act(f[h][j]).DropInit? ensures Alone(Apply(g, op), f[h][j]) {
      NotMentioned(f, h, act, j, k);
      ApplyUntouched(g, op, f[h][j]);
    }
  }

  /** Over a safe walk: every node has gone where its action sent it, and rings nobody was sent to
      are as they were. */
  lemma {:induction false} WalkDelivers<N>(f: Family<N>, h: N, act: N -> Action<N>, k: nat, g: Family<N>)
    requires Separate(f) && h in f && k <= |f[h]| && Walkable(f, h, act) && Walked(f, h, act, k, g)
    ensures Delivered(f, h, act, k, g)
  {
    if k == 0 {
      DeliveredNone(f, h, act, k);
    } else {
      var g0 := WalkReaches(f, h, act, k - 1);
      WalkDelivers(f, h, act, k - 1, g0);
      WalkLast(f, h, act, k, g0, g);
      DeliveredNext(f, h, act, k - 1, g0, g);
    }
  }

  lemma DeliveredNone<N>(f: Family<N>, h: N, act: N -> Action<N>, k: nat)
    requires h in f && k == 0
    ensures Delivered(f, h, act, k, f) && Run(f, OpsFor(f[h][..k], act)) == f
  {
    forall d | d in f ensures Received(f[h], k, d, act, f[d]) == f[d] {
      assert Reverse<N>([]) + f[d] + [] == f[d];
    }
  }

  /** The last turn of a walk. */
  lemma WalkLast<N>(f: Family<N>, h: N, act: N -> Action<N>, k: nat, g0: Family<N>, g: Family<N>)
    requires h in f && 0 < k <= |f[h]| && Walkable(f, h, act) && Walked(f, h, act, k - 1, g0) && Walked(f, h, act, k, g)
    ensures f[h][k - 1] in g0[h]
    ensures var x, a := f[h][k - 1], act(f[h][k - 1]);
            if a.Keep? then g == g0 else Enabled(g0, OpFor(x, a)) && g == Apply(g0, OpFor(x, a))
  {
    var x, a := f[h][k - 1], act(f[h][k - 1]);
    OpsForStep(f[h], act, k);
    Passing(Passed(f[h], h, act, k - 1), f[h], k);
    if !a.Keep? {
      RunLast(f, OpsFor(f[h][..k - 1], act), OpFor(x, a));
    }
  }
}
