/** Safe walks whose body moves nodes to the end of the very ring that is walked. */
module TailWalks {
  import opened Rings
  import opened RingRuns
  import opened ListHeads

  /** Where a walk is: the ring as it is now, and the position in it of the node the walk is at,
      which at the end is that of the head. */
  datatype Place<N> = Place(ring: seq<N>, i: nat)

  ghost predicate Ended<N>(c: Place<N>) {
    c.i >= |c.ring|
  }

  /** One turn: the node is moved behind the last, or kept, and the next one is the node that came
      after it when the turn began. */
  ghost function Turned<N>(c: Place<N>, moves: N -> bool): Place<N>
    requires !Ended(c)
  {
    var r, i := c.ring, c.i;
    if moves(r[i]) && i + 1 < |r| then Place(r[..i] + r[i + 1..] + [r[i]], i) else Place(r, i + 1)
  }

  /** After n turns, or fewer if the walk has ended. */
  ghost function PlaceAfter<N>(s: seq<N>, moves: N -> bool, n: nat): Place<N> {
    if n == 0 then Place(s, 0)
    else
      var c := PlaceAfter(s, moves, n - 1);
      if Ended(c) then c else Turned(c, moves)
  }

  /** Two of the nodes ahead are to be moved. */
  ghost predicate TwoAhead<N>(c: Place<N>, moves: N -> bool) {
    exists j, k | c.i <= j < k < |c.ring| :: moves(c.ring[j]) && moves(c.ring[k])
  }

  /** One of the nodes ahead, but not the last of the ring, is to be moved. */
  ghost predicate OneAhead<N>(c: Place<N>, moves: N -> bool) {
    exists j | c.i <= j < |c.ring| - 1 :: moves(c.ring[j])
  }

  lemma TwoStayAhead<N>(c: Place<N>, moves: N -> bool)
    requires !Ended(c) && TwoAhead(c, moves)
    ensures !Ended(Turned(c, moves)) && TwoAhead(Turned(c, moves), moves)
  {
    var r, i, t := c.ring, c.i, Turned(c, moves).ring;
    var j, k :| i <= j < k < |r| && moves(r[j]) && moves(r[k]);
    if moves(r[i]) {
      assert t[k - 1] == r[k];
      if j == i {
        assert t[|t| - 1] == r[i];
      } else {
        assert t[j - 1] == r[j];
      }
    }
  }

  /** The turns left when no two nodes ahead are to be moved. */
  ghost function Left<N>(c: Place<N>, moves: N -> bool): nat {
    if Ended(c) then 0 else |c.ring| - c.i + if OneAhead(c, moves) then 1 else 0
  }

  lemma OneTurnLess<N>(c: Place<N>, moves: N -> bool)
    requires !Ended(c) && !TwoAhead(c, moves)
    ensures !TwoAhead(Turned(c, moves), moves) && Left(Turned(c, moves), moves) == Left(c, moves) - 1
  {
    var r, i, t := c.ring, c.i, Turned(c, moves).ring;
    if moves(r[i]) && i + 1 < |r| {
      assert forall j | i <= j < |r| - 1 :: t[j] == r[j + 1];
      assert forall j | i < j < |r| :: !moves(r[j]);
    }
  }

  /** A safe walk that moves chosen nodes to the end of its own ring comes to the end exactly if at
      most one node is chosen: then it takes one turn for each node, and one more if the chosen
      node is not the last.  With two or more it goes on for ever. */
  lemma {:induction false} EndsExactly<N>(s: seq<N>, moves: N -> bool, n: nat)
    ensures Ended(PlaceAfter(s, moves, n)) <==> !TwoAhead(Place(s, 0), moves) && Left(Place(s, 0), moves) <= n
    ensures TwoAhead(PlaceAfter(s, moves, n), moves) <==> TwoAhead(Place(s, 0), moves)
    ensures !TwoAhead(Place(s, 0), moves) && n <= Left(Place(s, 0), moves) ==>
              Left(PlaceAfter(s, moves, n), moves) == Left(Place(s, 0), moves) - n
  {
    if n > 0 {
      EndsExactly(s, moves, n - 1);
      var c := PlaceAfter(s, moves, n - 1);
      if !Ended(c) {
        if TwoAhead(c, moves) {
          TwoStayAhead(c, moves);
        } else {
          OneTurnLess(c, moves);
        }
      }
    }
  }

  /** s with the node at p moved to the end. */
  ghost function AtEnd<N>(s: seq<N>, p: nat): seq<N>
    requires p < |s|
  {
    s[..p] + s[p + 1..] + [s[p]]
  }

  /** The ring is as it was, with no chosen node but the last passed so far, or the chosen node has
      gone to the end. */
  ghost predicate RingSoFar<N>(s: seq<N>, moves: N -> bool, c: Place<N>) {
    || (c.ring == s && forall j | 0 <= j < c.i && j < |s| - 1 :: !moves(s[j]))
    || (!OneAhead(c, moves) && exists p | 0 <= p < |s| - 1 :: moves(s[p]) && c.ring == AtEnd(s, p))
  }

  lemma RingTurn<N>(s: seq<N>, moves: N -> bool, c: Place<N>)
    requires !Ended(c) && !TwoAhead(c, moves) && RingSoFar(s, moves, c)
    ensures RingSoFar(s, moves, Turned(c, moves))
  {
    OneTurnLess(c, moves);
    if moves(c.ring[c.i]) && c.i + 1 < |c.ring| {
      assert OneAhead(c, moves);
      assert Turned(c, moves).ring == AtEnd(s, c.i);
    }
  }

  /** At the end of a walk that ends, the chosen node has gone to the end of the ring, and all the
      others are as they were. */
  lemma {:induction false} EndsWith<N>(s: seq<N>, moves: N -> bool, n: nat)
    requires !TwoAhead(Place(s, 0), moves)
    ensures RingSoFar(s, moves, PlaceAfter(s, moves, n))
    ensures Ended(PlaceAfter(s, moves, n)) ==>
              if exists p | 0 <= p < |s| - 1 :: moves(s[p])
              then exists p | 0 <= p < |s| - 1 :: moves(s[p]) && PlaceAfter(s, moves, n).ring == AtEnd(s, p)
              else PlaceAfter(s, moves, n).ring == s
  {
    if n > 0 {
      EndsWith(s, moves, n - 1);
      EndsExactly(s, moves, n - 1);
      if !Ended(PlaceAfter(s, moves, n - 1)) {
        RingTurn(s, moves, PlaceAfter(s, moves, n - 1));
      }
    }
  }

  lemma {:induction false} StaysEnded<N>(s: seq<N>, moves: N -> bool, n: nat, m: nat)
    requires n <= m && Ended(PlaceAfter(s, moves, n))
    ensures PlaceAfter(s, moves, m) == PlaceAfter(s, moves, n)
    decreases m
  {
    if n < m {
      StaysEnded(s, moves, n, m - 1);
    }
  }

  // ---- the code ----

  lemma LastToLast<T>(s: seq<T>, i: nat)
    requires i + 1 == |s|
    ensures s[..i] + s[i + 1..] + [s[i]] == s
  {
  }

  lemma SetTwice<K, V>(m: map<K, V>, k: K, v: V, w: V)
    ensures m[k := v][k := w] == m[k := w]
  {
  }

  lemma BackOn<N>(f: Family<N>, h: N, x: N, rest: seq<N>)
    requires h in f && x !in f && Unlink(f, x) == f[h := rest]
    ensures AddTail(Unlink(f, x), x, h) == f[h := rest + [x]]
  {
    assert Unlink(f, x) - {x} == Unlink(f, x);
    SetTwice(f, h, rest, rest + [x]);
  }

  lemma MovedLast<N>(f: Family<N>, h: N, i: nat)
    requires Separate(f) && h in f && i < |f[h]|
    ensures var x := f[h][i];
            && Removable(f, x) && x != h
            && AddTail(Unlink(f, x), x, h) == f[h := f[h][..i] + f[h][i + 1..] + [x]]
            && Nodes(AddTail(Unlink(f, x), x, h)) == Nodes(f)
  {
    var x := f[h][i];
    assert IsMember(f, x);
    UnlinkMember(f, h, i);
    MoveKeeps(f, x, h);
    BackOn(f, h, x, f[h][..i] + f[h][i + 1..]);
  }

  lemma TurnedRing<N>(c: Place<N>, moves: N -> bool)
    requires !Ended(c) && moves(c.ring[c.i])
    ensures Turned(c, moves).ring == c.ring[..c.i] + c.ring[c.i + 1..] + [c.ring[c.i]]
  {
    if c.i + 1 == |c.ring| {
      LastToLast(c.ring, c.i);
    }
  }

  /** The family f, but for the ring walked. */
  ghost function With<N>(f: Family<N>, head: N, c: Place<N>): Family<N> {
    f[head := c.ring]
  }

  /** The turn that moves its node, on the family. */
  lemma MovedBack<N>(f: Family<N>, h: N, c: Place<N>, moves: N -> bool)
    requires Separate(With(f, h, c)) && !Ended(c) && moves(c.ring[c.i])
    ensures var g, x := With(f, h, c), c.ring[c.i];
            && Removable(g, x) && h in g && x != h
            && AddTail(Unlink(g, x), x, h) == With(f, h, Turned(c, moves))
            && Nodes(With(f, h, Turned(c, moves))) == Nodes(g)
  {
    MovedLast(With(f, h, c), h, c.i);
    TurnedRing(c, moves);
    SetTwice(f, h, c.ring, Turned(c, moves).ring);
  }

  method TailBody(pos: ListHead, moves: ListHead -> bool, head: ListHead, ghost f: Family<ListHead>, ghost c: Place<ListHead>)
    requires Wf(With(f, head, c)) && !Ended(c) && pos == c.ring[c.i]
    modifies Nodes(With(f, head, c))
    ensures Wf(With(f, head, Turned(c, moves))) && Nodes(With(f, head, Turned(c, moves))) == Nodes(With(f, head, c))
  {
    if moves(pos) {
      MovedBack(f, head, c, moves);
      ListMoveTail(pos, head, With(f, head, c));
    } else {
      assert With(f, head, Turned(c, moves)) == With(f, head, c);
    }
  }

  /** The node after the one at position i. */
  method Following(head: ListHead, pos: ListHead, ghost f: Family<ListHead>, ghost i: nat) returns (n: ListHead)
    requires Wf(f) && head in f && i <= |f[head]| && pos == At(head, f[head], i)
    ensures pos == head <==> i == |f[head]|
    ensures i < |f[head]| ==> n == At(head, f[head], i + 1)
  {
    CycleInjective(f, head, if i == |f[head]| then -1 else i, -1);
    assert At(head, f[head], if i == |f[head]| then -1 else i).next != null;
    assert i < |f[head]| ==> At(head, f[head], i).next == At(head, f[head], i + 1);
    n := pos.next;
  }

  /** The walk is at pos and has saved n. */
  ghost predicate WalkAt(f: Family<ListHead>, head: ListHead, c: Place<ListHead>, pos: ListHead, n: ListHead)
    reads Nodes(With(f, head, c))
  {
    && Wf(With(f, head, c)) && Nodes(With(f, head, c)) == Nodes(f)
    && c.i <= |c.ring| && pos == At(head, c.ring, c.i)
    && (pos == head <==> Ended(c)) && (!Ended(c) ==> n == At(head, c.ring, c.i + 1))
  }

  method TailEnter(head: ListHead, ghost f: Family<ListHead>) returns (pos: ListHead, n: ListHead)
    requires Wf(f) && head in f
    ensures WalkAt(f, head, Place(f[head], 0), pos, n)
  {
    assert With(f, head, Place(f[head], 0)) == f;
    assert At(head, f[head], -1).next == At(head, f[head], 0);
    pos := head.next;
    n := Following(head, pos, f, 0);
  }

  method TailTurn(head: ListHead, pos: ListHead, n: ListHead, moves: ListHead -> bool,
                  ghost f: Family<ListHead>, ghost c: Place<ListHead>)
    returns (pos': ListHead, n': ListHead)
    requires WalkAt(f, head, c, pos, n) && !Ended(c)
    modifies Nodes(f)
    ensures WalkAt(f, head, Turned(c, moves), pos', n')
  {
    TailBody(pos, moves, head, f, c);
    pos' := n;
    n' := Following(head, pos', With(f, head, Turned(c, moves)), Turned(c, moves).i);
  }

  /** list_for_each_safe whose body moves the chosen nodes by list_move_tail to the end of the ring
      walked, stopped after some number of turns if it has not ended by then. */
  method TailWalk(head: ListHead, moves: ListHead -> bool, turns: nat, ghost f: Family<ListHead>) returns (pos: ListHead)
    requires Wf(f) && head in f
    modifies Nodes(f)
    ensures var c := PlaceAfter(f[head], moves, turns);
            Wf(With(f, head, c)) && pos == At(head, c.ring, c.i) && (pos == head <==> Ended(c))
  {
    ghost var c := Place(f[head], 0);
    var n;
    pos, n := TailEnter(head, f);
    var t := 0;
    while pos != head && t < turns
      invariant t <= turns && c == PlaceAfter(f[head], moves, t) && WalkAt(f, head, c, pos, n)
    {
      pos, n := TailTurn(head, pos, n, moves, f, c);
      c := Turned(c, moves);
      t := t + 1;
    }
    if pos == head {
      StaysEnded(f[head], moves, t, turns);
    }
  }
}
