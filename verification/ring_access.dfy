/** A ring used through its two ends: with list_add it is a stack, with list_add_tail a queue. */
module RingAccess {
  import opened Rings
  import opened RingRuns

  /** Put links a node in at one end; Take deletes the first node. */
  datatype Access<N> = Put(x: N) | Take

  ghost function OpOf<N>(f: Family<N>, h: N, tail: bool, a: Access<N>): Op<N>
    requires h in f && (a.Take? ==> f[h] != [])
  {
    match a
    case Put(x) => if tail then AddLast(x, h) else AddFirst(x, h)
    case Take => Del(f[h][0])
  }

  ghost predicate CanServe<N>(f: Family<N>, h: N, a: Access<N>) {
    h in f && if a.Put? then Detached(f, a.x) && a.x != h else f[h] != []
  }

  lemma ServeStep<N>(f: Family<N>, h: N, tail: bool, a: Access<N>)
    requires Separate(f) && CanServe(f, h, a)
    ensures Enabled(f, OpOf(f, h, tail, a))
    ensures var g := Apply(f, OpOf(f, h, tail, a));
            && Separate(g) && h in g
            && g[h] == if a.Take? then f[h][1..] else if tail then f[h] + [a.x] else [a.x] + f[h]
  {
    if a.Take? {
      assert IsMember(f, f[h][0]);
      UnlinkMember(f, h, 0);
      assert f[h][..0] + f[h][1..] == f[h][1..];
    }
    ApplyKeeps(f, OpOf(f, h, tail, a));
  }

  /** The run: whether every access was possible, the family it leads to, and the nodes taken. */
  datatype Outcome<!N> = Outcome(ok: bool, f: Family<N>, taken: seq<N>)

  ghost function Serve<N>(f: Family<N>, h: N, tail: bool, acts: seq<Access<N>>): (r: Outcome<N>)
    requires Separate(f) && h in f
    ensures Separate(r.f) && h in r.f
  {
    if acts == [] then Outcome(true, f, [])
    else
      var r, a := Serve(f, h, tail, acts[..|acts| - 1]), acts[|acts| - 1];
      if !r.ok || !CanServe(r.f, h, a) then r.(ok := false)
      else
        ServeStep(r.f, h, tail, a);
        Outcome(true, Apply(r.f, OpOf(r.f, h, tail, a)), if a.Take? then r.taken + [r.f[h][0]] else r.taken)
  }

  ghost function Puts<N>(acts: seq<Access<N>>): seq<N> {
    if acts == [] then []
    else
      var p := Puts(acts[..|acts| - 1]);
      if acts[|acts| - 1].Put? then p + [acts[|acts| - 1].x] else p
  }

  /** One more access succeeds exactly if it is possible then: a node to be put is on no ring, and a
      node is taken only from a ring that has one. */
  lemma ServesExactly<N>(f: Family<N>, h: N, tail: bool, acts: seq<Access<N>>, a: Access<N>)
    requires Separate(f) && h in f
    ensures Serve(f, h, tail, []).ok
    ensures Serve(f, h, tail, acts + [a]).ok <==>
            Serve(f, h, tail, acts).ok
            && if a.Put? then !IsMember(Serve(f, h, tail, acts).f, a.x) && a.x != h
                              && (a.x in Serve(f, h, tail, acts).f ==> Serve(f, h, tail, acts).f[a.x] == [])
               else Serve(f, h, tail, acts).f[h] != []
  {
    assert (acts + [a])[..|acts + [a]| - 1] == acts;
  }

  /** The last access of a successful run. */
  lemma ServeLast<N>(f: Family<N>, h: N, tail: bool, acts: seq<Access<N>>)
    requires Separate(f) && h in f && acts != [] && Serve(f, h, tail, acts).ok
    ensures var a, was, now := acts[|acts| - 1], Serve(f, h, tail, acts[..|acts| - 1]), Serve(f, h, tail, acts);
            && was.ok && CanServe(was.f, h, a)
            && now.taken == (if a.Take? then was.taken + [was.f[h][0]] else was.taken)
            && now.f[h] == if a.Take? then was.f[h][1..] else if tail then was.f[h] + [a.x] else [a.x] + was.f[h]
  {
    var was := Serve(f, h, tail, acts[..|acts| - 1]);
    ServeStep(was.f, h, tail, acts[|acts| - 1]);
  }

  lemma TakeOver<T>(a: seq<T>, b: seq<T>)
    requires b != []
    ensures a + [b[0]] + b[1..] == a + b
  {
  }

  lemma Associate<T>(a: seq<T>, b: seq<T>, c: seq<T>)
    ensures a + (b + c) == (a + b) + c
  {
  }

  /** A queue: what was taken, followed by what is left, is what was there followed by what was put. */
  lemma {:induction false} FirstInFirstOut<N>(f: Family<N>, h: N, acts: seq<Access<N>>)
    requires Separate(f) && h in f && Serve(f, h, true, acts).ok
    ensures var r := Serve(f, h, true, acts); r.taken + r.f[h] == f[h] + Puts(acts)
  {
    if acts != [] {
      var a, before := acts[|acts| - 1], acts[..|acts| - 1];
      var r := Serve(f, h, true, before);
      FirstInFirstOut(f, h, before);
      ServeLast(f, h, true, acts);
      if a.Take? {
        TakeOver(r.taken, r.f[h]);
      } else {
        Associate(r.taken, r.f[h], [a.x]);
        Associate(f[h], Puts(before), [a.x]);
      }
    }
  }

  /** Nodes put and not yet taken, if the run never takes more than it has put; -1 otherwise. */
  ghost function Depth<N>(acts: seq<Access<N>>): int {
    if acts == [] then 0
    else
      var d := Depth(acts[..|acts| - 1]);
      if d < 0 then -1 else d + if acts[|acts| - 1].Put? then 1 else -1
  }

  /** A stack: a run that never takes more than it has put leaves what was there underneath. */
  lemma {:induction false} StackBottom<N>(f: Family<N>, h: N, acts: seq<Access<N>>)
    requires Separate(f) && h in f && Serve(f, h, false, acts).ok && Depth(acts) >= 0
    ensures var t := Serve(f, h, false, acts).f[h];
            |t| == Depth(acts) + |f[h]| && t[Depth(acts)..] == f[h]
  {
    if acts != [] {
      StackBottom(f, h, acts[..|acts| - 1]);
      ServeLast(f, h, false, acts);
    }
  }

  /** The node put last is the next one taken, however the stack was used in between. */
  lemma LastInFirstOut<N>(f: Family<N>, h: N, x: N, between: seq<Access<N>>)
    requires Separate(f) && CanServe(f, h, Put(x)) && Depth(between) == 0
    requires Serve(Add(f, x, h), h, false, between).ok
    ensures var t := Serve(Add(f, x, h), h, false, between).f[h]; t == [x] + f[h]
  {
    ServeStep(f, h, false, Put(x));
    StackBottom(Add(f, x, h), h, between);
  }
}
