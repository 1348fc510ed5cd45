/** What a family of circular lists means, as plain values.

    A ring is named by its head and holds a sequence of members; a family maps every head
    to its members.  Each list operation is a function on families.  The node type is a
    parameter, so nothing here knows about pointers: list_head.dfy proves that the pointer
    code does to the heap exactly what these functions do to the family. */
module Rings {
  import opened Common

  type Family<!N> = map<N, seq<N>>

  /** Position i on the cycle head, s[0], ..., s[|s|-1], head. */
  ghost function At<N>(h: N, s: seq<N>, i: int): N {
    if 0 <= i < |s| then s[i] else h
  }

  ghost predicate IsMember<N>(f: Family<N>, x: N) {
    exists h | h in f :: x in f[h]
  }

  /** Heads and members together. */
  ghost function Nodes<N>(f: Family<N>): (nodes: set<N>)
    ensures f.Keys <= nodes
    ensures forall h, x | h in f && x in f[h] :: x in nodes
  {
    f.Keys + set h, x | h in f && x in f[h] :: x
  }

  /** No node occurs twice anywhere in the family. */
  ghost predicate Separate<N>(f: Family<N>) {
    && (forall h | h in f :: Distinct(f[h]))
    && (forall h, g, x | h in f && g in f && x in f[h] && x in f[g] :: h == g)
    && (forall h, x | h in f && x in f[h] :: x !in f)
  }

  /** x may be linked into a ring: it is on no ring but, possibly, its own empty one. */
  ghost predicate Detached<N>(f: Family<N>, x: N) {
    !IsMember(f, x) && (x in f ==> f[x] == [])
  }

  /** x may be taken out of its ring: it is a member, or the head of an empty ring. */
  ghost predicate Removable<N>(f: Family<N>, x: N) {
    IsMember(f, x) || (x in f && f[x] == [])
  }

  /** s without the elements of gone, in order. */
  ghost function Except<N>(s: seq<N>, gone: set<N>): seq<N> {
    if s == [] then [] else (if s[0] in gone then [] else [s[0]]) + Except(s[1..], gone)
  }

  ghost function Reverse<N>(s: seq<N>): (r: seq<N>)
    ensures |r| == |s|
    ensures forall i | 0 <= i < |s| :: r[i] == s[|s| - 1 - i]
  {
    if s == [] then [] else Reverse(s[1..]) + [s[0]]
  }

  ghost function Subst<N>(old': N, new': N, x: N): N {
    if x == old' then new' else x
  }

  ghost function SubstSeq<N>(old': N, new': N, s: seq<N>): seq<N> {
    seq(|s|, i requires 0 <= i < |s| => Subst(old', new', s[i]))
  }

  // ---- the operations ----

  ghost function InsertAt<N>(f: Family<N>, h: N, k: nat, x: N): Family<N>
    requires h in f && k <= |f[h]| && h != x
  {
    (f - {x})[h := f[h][..k] + [x] + f[h][k..]]
  }

  ghost function Add<N>(f: Family<N>, x: N, h: N): Family<N>
    requires h in f && h != x
  {
    (f - {x})[h := [x] + f[h]]
  }

  ghost function AddTail<N>(f: Family<N>, x: N, h: N): Family<N>
    requires h in f && h != x
  {
    (f - {x})[h := f[h] + [x]]
  }

  ghost function Unlink<N>(f: Family<N>, x: N): Family<N> {
    map h | h in f && h != x :: Except(f[h], {x})
  }

  /** new' takes the place of old', whether old' is a member or a head. */
  ghost function Replace<N>(f: Family<N>, old': N, new': N): Family<N> {
    var rest := map h | h in f && h != old' && h != new' :: SubstSeq(old', new', f[h]);
    if old' in f then rest[new' := f[old']] else rest
  }

  ghost function SpliceAt<N>(f: Family<N>, src: N, dst: N, k: nat): Family<N>
    requires src in f && dst in f && k <= |f[dst]|
  {
    if f[src] == [] then f else (f - {src})[dst := f[dst][..k] + f[src] + f[dst][k..]]
  }

  // ---- facts about the operations ----

  lemma {:induction false} ExceptConcat<N>(s: seq<N>, t: seq<N>, gone: set<N>)
    ensures Except(s + t, gone) == Except(s, gone) + Except(t, gone)
  {
    if s == [] {
      assert s + t == t;
    } else {
      assert (s + t)[1..] == s[1..] + t;
      ExceptConcat(s[1..], t, gone);
    }
  }

  lemma {:induction false} ExceptAbsent<N>(s: seq<N>, gone: set<N>)
    requires forall x | x in s :: x !in gone
    ensures Except(s, gone) == s
  {
    if s != [] {
      ExceptAbsent(s[1..], gone);
    }
  }

  lemma ExceptFirst<N>(x: N, t: seq<N>, gone: set<N>)
    requires x in gone
    ensures Except([x] + t, gone) == Except(t, gone)
  {
    assert ([x] + t)[1..] == t;
    assert [] + Except(t, gone) == Except(t, gone);
  }

  lemma ExceptMiddle<N>(before: seq<N>, x: N, after: seq<N>)
    requires x !in before && x !in after
    ensures Except(before + ([x] + after), {x}) == before + after
  {
    ExceptConcat(before, [x] + after, {x});
    ExceptFirst(x, after, {x});
    ExceptAbsent(before, {x});
    ExceptAbsent(after, {x});
  }

  lemma SplitAt<N>(s: seq<N>, k: nat)
    requires k < |s|
    ensures s == s[..k] + ([s[k]] + s[k + 1..])
    ensures Distinct(s) ==> s[k] !in s[..k] && s[k] !in s[k + 1..]
  {
  }

  /** Taking one element out of a sequence without repeats closes the gap and nothing else. */
  lemma ExceptOne<N>(s: seq<N>, k: nat)
    requires Distinct(s) && k < |s|
    ensures Except(s, {s[k]}) == s[..k] + s[k + 1..]
  {
    SplitAt(s, k);
    ExceptMiddle(s[..k], s[k], s[k + 1..]);
  }

  lemma {:induction false} ExceptMembers<N>(s: seq<N>, gone: set<N>)
    ensures forall x | x in Except(s, gone) :: x in s && x !in gone
    ensures forall x | x in s && x !in gone :: x in Except(s, gone)
    ensures Distinct(s) ==> Distinct(Except(s, gone))
  {
    if s != [] {
      ExceptMembers(s[1..], gone);
    }
  }

  /** Positions on one cycle are different nodes. */
  lemma CycleInjective<N>(f: Family<N>, h: N, i: int, j: int)
    requires Separate(f) && h in f
    requires -1 <= i < |f[h]| && -1 <= j < |f[h]|
    ensures At(h, f[h], i) == At(h, f[h], j) ==> i == j
  {
    assert forall k | 0 <= k < |f[h]| :: f[h][k] in f[h];
  }

  lemma InNodes<N>(f: Family<N>)
    ensures forall x :: x in Nodes(f) <==> x in f || IsMember(f, x)
    ensures forall h, x | h in f && x in f[h] :: IsMember(f, x)
  {
  }

  lemma InsertSeparate<N>(f: Family<N>, h: N, k: nat, x: N)
    requires Separate(f) && Detached(f, x) && h in f && h != x && k <= |f[h]|
    ensures Separate(InsertAt(f, h, k, x))
    ensures Nodes(InsertAt(f, h, k, x)) == Nodes(f) + {x}
  {
    var g := InsertAt(f, h, k, x);
    InMiddle(f[h], k, [x]);
    InNodes(f);
    InNodes(g);
    forall y ensures IsMember(g, y) <==> IsMember(f, y) || y == x {
      if y == x {
        assert x in g[h];
      } else if IsMember(f, y) {
        var i :| i in f && y in f[i];
        assert i in g && y in g[i];
      }
    }
  }

  /** Putting t into s adds the elements of t and loses none. */
  lemma InMiddle<N>(s: seq<N>, k: nat, t: seq<N>)
    requires k <= |s|
    ensures forall y :: y in s[..k] + t + s[k..] <==> y in s || y in t
    ensures Distinct(s) && Distinct(t) && (forall y | y in t :: y !in s) ==> Distinct(s[..k] + t + s[k..])
  {
    var r := s[..k] + t + s[k..];
    assert s == s[..k] + s[k..];
    if Distinct(s) && Distinct(t) && (forall y | y in t :: y !in s) {
      forall i, j | 0 <= i < j < |r| ensures r[i] != r[j] {
        if i < k <= j < k + |t| {
          assert r[i] in s && r[j] in t;
        } else if k <= i < k + |t| <= j {
          assert r[i] in t && r[j] in s;
        }
      }
    }
  }

  lemma UnlinkSeparate<N>(f: Family<N>, x: N)
    requires Separate(f) && Removable(f, x)
    ensures Separate(Unlink(f, x))
    ensures Nodes(Unlink(f, x)) == Nodes(f) - {x}
    ensures x !in Unlink(f, x) && Detached(Unlink(f, x), x)
  {
    var g := Unlink(f, x);
    forall h | h in g ensures Distinct(g[h]) {
      ExceptMembers(f[h], {x});
    }
    InNodes(f);
    InNodes(g);
    forall h, y | h in g && y in g[h] ensures h in f && y in f[h] && y != x {
      ExceptMembers(f[h], {x});
    }
    forall y ensures IsMember(g, y) <==> IsMember(f, y) && y != x {
      if IsMember(f, y) && y != x {
        var h :| h in f && y in f[h];
        ExceptMembers(f[h], {x});
        assert h in g && y in g[h];
      }
    }
  }

  /** A member is taken out of its own ring, in place; every other ring is as it was. */
  lemma UnlinkMember<N>(f: Family<N>, h: N, k: nat)
    requires Separate(f) && h in f && k < |f[h]|
    ensures Unlink(f, f[h][k]) == f[h := f[h][..k] + f[h][k + 1..]]
  {
    var x := f[h][k];
    ExceptOne(f[h], k);
    forall g | g in f && g != h ensures Except(f[g], {x}) == f[g] {
      ExceptAbsent(f[g], {x});
    }
  }

  /** Taking out a lone ring just drops it. */
  lemma UnlinkLone<N>(f: Family<N>, x: N)
    requires Separate(f) && x in f && f[x] == []
    ensures Unlink(f, x) == f - {x}
  {
    forall g | g in f && g != x ensures Except(f[g], {x}) == f[g] {
      ExceptAbsent(f[g], {x});
    }
  }

  lemma SubstMembers<N>(f: Family<N>, old': N, new': N, h: N)
    requires Separate(f) && h in f && Detached(f, new')
    ensures Distinct(SubstSeq(old', new', f[h]))
    ensures forall y :: y in SubstSeq(old', new', f[h]) <==> (y in f[h] && y != old') || (y == new' && old' in f[h])
  {
    var s, t := f[h], SubstSeq(old', new', f[h]);
    forall y | y in s && y != old' ensures y in t {
      var i :| 0 <= i < |s| && s[i] == y;
      assert t[i] == y;
    }
    if old' in s {
      var i :| 0 <= i < |s| && s[i] == old';
      assert t[i] == new';
    }
  }

  /** Where the members of a ring come from once new' has replaced old'. */
  lemma ReplaceSource<N>(f: Family<N>, old': N, new': N, h: N, x: N)
    requires Separate(f) && old' in Nodes(f) && Detached(f, new') && old' != new'
    requires h in Replace(f, old', new') && x in Replace(f, old', new')[h]
    ensures var h0 := Subst(new', old', h); h0 in f && Subst(new', old', x) in f[h0]
  {
    InNodes(f);
    var h0 := Subst(new', old', h);
    if h0 in f {
      SubstMembers(f, old', new', h0);
    }
  }

  lemma ReplaceMember<N>(f: Family<N>, old': N, new': N, y: N)
    requires Separate(f) && old' in Nodes(f) && Detached(f, new') && old' != new'
    ensures IsMember(Replace(f, old', new'), y) <==> (IsMember(f, y) && y != old') || (y == new' && IsMember(f, old'))
  {
    var g := Replace(f, old', new');
    var y0 := Subst(new', old', y);
    if IsMember(g, y) {
      var h :| h in g && y in g[h];
      ReplaceSource(f, old', new', h, y);
    }
    if (IsMember(f, y) && y != old') || (y == new' && IsMember(f, old')) {
      var h :| h in f && y0 in f[h];
      SubstMembers(f, old', new', h);
      var h' := Subst(old', new', h);
      assert h' in g && y in g[h'];
    }
  }

  lemma ReplaceSeparate<N>(f: Family<N>, old': N, new': N)
    requires Separate(f) && old' in Nodes(f) && Detached(f, new') && old' != new'
    ensures Separate(Replace(f, old', new'))
    ensures Nodes(Replace(f, old', new')) == Nodes(f) - {old'} + {new'}
    ensures Detached(Replace(f, old', new'), old') && old' !in Replace(f, old', new')
  {
    var g := Replace(f, old', new');
    forall h | h in f
      ensures Distinct(SubstSeq(old', new', f[h]))
      ensures forall y :: y in SubstSeq(old', new', f[h]) <==> (y in f[h] && y != old') || (y == new' && old' in f[h])
    {
      SubstMembers(f, old', new', h);
    }
    InNodes(f);
    InNodes(g);
    forall y ensures IsMember(g, y) <==> (IsMember(f, y) && y != old') || (y == new' && IsMember(f, old')) {
      ReplaceMember(f, old', new', y);
    }
    forall h, i, x | h in g && i in g && x in g[h] && x in g[i] ensures h == i {
      ReplaceSource(f, old', new', h, x);
      ReplaceSource(f, old', new', i, x);
    }
  }

  lemma SpliceSeparate<N>(f: Family<N>, src: N, dst: N, k: nat)
    requires Separate(f) && src in f && dst in f && src != dst && k <= |f[dst]|
    ensures Separate(SpliceAt(f, src, dst, k))
    ensures f[src] != [] ==> Nodes(SpliceAt(f, src, dst, k)) == Nodes(f) - {src}
  {
    if f[src] != [] {
      var g := SpliceAt(f, src, dst, k);
      InMiddle(f[dst], k, f[src]);
      InNodes(f);
      InNodes(g);
      forall y ensures IsMember(g, y) <==> IsMember(f, y) {
        if IsMember(f, y) {
          var h :| h in f && y in f[h];
          assert y in g[if h == src then dst else h];
        }
      }
    }
  }

  /** The two splices at an end of dst, once src is an empty ring again. */
  lemma SpliceEnds<N>(f: Family<N>, src: N, dst: N)
    requires Separate(f) && src in f && dst in f && src != dst
    ensures SpliceAt(f, src, dst, 0)[src := []] == f[dst := f[src] + f[dst]][src := []]
    ensures SpliceAt(f, src, dst, |f[dst]|)[src := []] == f[dst := f[dst] + f[src]][src := []]
  {
    var s, d := f[src], f[dst];
    assert d[..0] + s + d[0..] == s + d;
    assert d[..|d|] + s + d[|d|..] == d + s;
    if s == [] {
      assert s + d == d == d + s;
    }
  }
}
