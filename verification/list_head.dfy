/** The intrusive circular list: nodes with two links, changed in place.

    The operations that assign links (InitListHead, InsertBetween, ListAdd, ListAddTail,
    JoinNeighbours, ListDel, ListDelInit, ListReplace, SpliceBetween) have two contracts.  The first
    says what the links are afterwards, for any nodes whatever, however they alias.  The second says
    that if the nodes form a family f of disjoint rings before, they form the family given by the
    matching function of module Rings afterwards: all rings of the family at once, touched or not.
    f and the ring position are ghost arguments; a caller with no rings to speak of leaves them out.
    The operations composed of these have the second contract only. */
module ListHeads {
  import opened Rings

  /** A null link stands for "not pointing at any node": zeroed memory and both poison values. */
  class ListHead {
    var next: ListHead?
    var prev: ListHead?

    constructor ()
      ensures next == null && prev == null
    {
      next, prev := null, null;
    }
  }

  /** Going round from h visits exactly s, in both directions. */
  ghost predicate Linked(h: ListHead, s: seq<ListHead>)
    reads h, s
  {
    && (forall i {:trigger At(h, s, i).next} | -1 <= i < |s| :: At(h, s, i).next == At(h, s, i + 1))
    && (forall i {:trigger At(h, s, i).prev} | 0 <= i <= |s| :: At(h, s, i).prev == At(h, s, i - 1))
  }

  /** The heap holds exactly the rings of f. */
  ghost predicate Wf(f: Family<ListHead>)
    reads Nodes(f)
  {
    Separate(f) && forall h | h in f :: Linked(h, f[h])
  }

  /** The ring h, s as it is after some links were redirected: every position but skip still
      leads to its neighbours, except that p leads on to pn and n leads back to np. */
  ghost predicate RingRewired(h: ListHead, s: seq<ListHead>, skip: ListHead,
                              p: ListHead, pn: ListHead, n: ListHead, np: ListHead)
    reads h, s
  {
    && (forall i {:trigger At(h, s, i).next} | -1 <= i < |s| && At(h, s, i) != skip ::
          At(h, s, i).next == if At(h, s, i) == p then pn else At(h, s, i + 1))
    && (forall i {:trigger At(h, s, i).prev} | 0 <= i <= |s| && At(h, s, i) != skip ::
          At(h, s, i).prev == if At(h, s, i) == n then np else At(h, s, i - 1))
  }

  ghost predicate Rewired(f: Family<ListHead>, skip: ListHead,
                          p: ListHead, pn: ListHead, n: ListHead, np: ListHead)
    reads Nodes(f)
  {
    forall h | h in f :: RingRewired(h, f[h], skip, p, pn, n, np)
  }

  /** A ring that holds none of the redirected nodes is intact. */
  lemma RingUntouched(f: Family<ListHead>, h: ListHead, skip: ListHead,
                      p: ListHead, pn: ListHead, n: ListHead, np: ListHead)
    requires h in f && RingRewired(h, f[h], skip, p, pn, n, np)
    requires forall y | y in [skip, p, n] :: y != h && y !in f[h]
    ensures Linked(h, f[h])
  {
    assert [skip, p, n] == [skip] + [p] + [n];
    assert skip in [skip, p, n] && p in [skip, p, n] && n in [skip, p, n];
  }

  // ---- insertion ----

  lemma InsertLinked(f: Family<ListHead>, h: ListHead, k: nat, x: ListHead)
    requires Separate(f) && Detached(f, x) && h in f && h != x && k <= |f[h]|
    requires Rewired(f, x, At(h, f[h], k - 1), x, At(h, f[h], k), x)
    requires x.next == At(h, f[h], k) && x.prev == At(h, f[h], k - 1)
    ensures Wf(InsertAt(f, h, k, x))
  {
    var g := InsertAt(f, h, k, x);
    InsertSeparate(f, h, k, x);
    InsertHere(f, h, k, x);
    forall r | r in g && r != h ensures Linked(r, g[r]) {
      RingUntouched(f, r, x, At(h, f[h], k - 1), x, At(h, f[h], k), x);
    }
  }

  lemma InsertHere(f: Family<ListHead>, h: ListHead, k: nat, x: ListHead)
    requires Separate(f) && Detached(f, x) && h in f && h != x && k <= |f[h]|
    requires RingRewired(h, f[h], x, At(h, f[h], k - 1), x, At(h, f[h], k), x)
    requires x.next == At(h, f[h], k) && x.prev == At(h, f[h], k - 1)
    ensures Linked(h, f[h][..k] + [x] + f[h][k..])
  {
    var s := f[h];
    var t := s[..k] + [x] + s[k..];
    assert x !in s;
    forall i | -1 <= i < |t| ensures At(h, t, i).next == At(h, t, i + 1) {
      if i != k {
        var j := if i < k then i else i - 1;
        assert At(h, t, i) == At(h, s, j) && At(h, s, j) != x;
        CycleInjective(f, h, j, k - 1);
      }
    }
    forall i | 0 <= i <= |t| ensures At(h, t, i).prev == At(h, t, i - 1) {
      if i != k {
        var j := if i < k then i else i - 1;
        assert At(h, t, i) == At(h, s, j) && At(h, s, j) != x;
        CycleInjective(f, h, if j == |s| then -1 else j, if k == |s| then -1 else k);
      }
    }
  }

  /** prev and next are the neighbours at position k of ring h, and x may go between them. */
  ghost predicate IsGap(f: Family<ListHead>, h: ListHead, k: nat, x: ListHead, prev: ListHead, next: ListHead) {
    && Detached(f, x) && h in f && h != x && k <= |f[h]|
    && prev == At(h, f[h], k - 1) && next == At(h, f[h], k)
  }

  /** __list_add: link xnew in between prev and next. */
  method InsertBetween(xnew: ListHead, prev: ListHead, next: ListHead,
                       ghost f: Family<ListHead> := map[], ghost h: ListHead := xnew, ghost k: nat := 0)
    modifies xnew, prev`next, next`prev
    ensures prev.next == xnew && xnew.prev == prev
    ensures xnew.next == if prev == xnew then xnew else next
    ensures next.prev == if next == xnew then prev else xnew
    ensures old(Wf(f)) && IsGap(f, h, k, xnew, prev, next) ==> Wf(InsertAt(f, h, k, xnew))
  {
    next.prev := xnew;
    xnew.next := next;
    xnew.prev := prev;
    prev.next := xnew;
    if old(Wf(f)) && IsGap(f, h, k, xnew, prev, next) {
      assert forall r | r in f :: old(Linked(r, f[r]));
      assert Rewired(f, xnew, prev, xnew, next, xnew);
      InsertLinked(f, h, k, xnew);
    }
  }

  /** INIT_LIST_HEAD. */
  method InitListHead(list: ListHead, ghost f: Family<ListHead> := map[])
    modifies list
    ensures list.next == list == list.prev
    ensures old(Wf(f)) && list !in Nodes(f) ==> Wf(f[list := []])
  {
    list.next := list;
    list.prev := list;
    if old(Wf(f)) && list !in Nodes(f) {
      assert forall r | r in f :: old(Linked(r, f[r])) && Linked(r, f[r]);
    }
  }

  method ListAdd(xnew: ListHead, head: ListHead, ghost f: Family<ListHead> := map[])
    requires head.next != null
    modifies xnew, head`next, head.next`prev
    ensures head.next == xnew && xnew.prev == head
    ensures xnew.next == if head == xnew then xnew else old(head.next)
    ensures old(head.next).prev == if old(head.next) == xnew then head else xnew
    ensures old(Wf(f)) && Detached(f, xnew) && head in f && head != xnew ==> Wf(Add(f, xnew, head))
  {
    if head in f && head != xnew {
      assert f[head][..0] + [xnew] + f[head][0..] == [xnew] + f[head];
      assert old(Wf(f)) ==> Linked(head, f[head]);
      assert At(head, f[head], -1).next == head.next;
    }
    InsertBetween(xnew, head, head.next, f, head, 0);
  }

  method ListAddTail(xnew: ListHead, head: ListHead, ghost f: Family<ListHead> := map[])
    requires head.prev != null
    modifies xnew, head`prev, head.prev`next
    ensures old(head.prev).next == xnew && xnew.prev == old(head.prev)
    ensures xnew.next == if old(head.prev) == xnew then xnew else head
    ensures head.prev == if head == xnew then old(head.prev) else xnew
    ensures old(Wf(f)) && Detached(f, xnew) && head in f && head != xnew ==> Wf(AddTail(f, xnew, head))
  {
    ghost var k := if head in f then |f[head]| else 0;
    if head in f && head != xnew {
      assert f[head][..k] + [xnew] + f[head][k..] == f[head] + [xnew];
      assert old(Wf(f)) ==> Linked(head, f[head]);
      assert At(head, f[head], k).prev == head.prev;
    }
    InsertBetween(xnew, head.prev, head, f, head, k);
  }

  // ---- removal ----

  lemma UnlinkLinked(f: Family<ListHead>, x: ListHead, h: ListHead, k: int, p: ListHead, n: ListHead)
    requires Separate(f) && Removable(f, x)
    requires h in f && -1 <= k < |f[h]| && x == At(h, f[h], k)
    requires p == At(h, f[h], k - 1) && n == At(h, f[h], k + 1) && Rewired(f, x, p, n, n, p)
    ensures Wf(Unlink(f, x))
  {
    UnlinkSeparate(f, x);
    if k == -1 {
      assert x in f && !IsMember(f, x);
      UnlinkLone(f, x);
      forall r | r in f && r != x ensures Linked(r, f[r]) {
        RingUntouched(f, r, x, p, n, n, p);
      }
    } else {
      UnlinkMember(f, h, k);
      UnlinkHere(f, h, k);
      forall r | r in f && r != h ensures Linked(r, f[r]) {
        RingUntouched(f, r, x, p, n, n, p);
      }
    }
  }

  lemma UnlinkHere(f: Family<ListHead>, h: ListHead, k: nat)
    requires Separate(f) && h in f && k < |f[h]|
    requires RingRewired(h, f[h], f[h][k], At(h, f[h], k - 1), At(h, f[h], k + 1), At(h, f[h], k + 1), At(h, f[h], k - 1))
    ensures Linked(h, f[h][..k] + f[h][k + 1..])
  {
    var s := f[h];
    var t := s[..k] + s[k + 1..];
    forall i | -1 <= i < |t| ensures At(h, t, i).next == At(h, t, i + 1) {
      var j := if i < k then i else i + 1;
      assert At(h, t, i) == At(h, s, j);
      CycleInjective(f, h, j, k - 1);
      CycleInjective(f, h, j, k);
    }
    forall i | 0 <= i <= |t| ensures At(h, t, i).prev == At(h, t, i - 1) {
      var j := if i < k then i else i + 1;
      assert At(h, t, i) == At(h, s, j);
      CycleInjective(f, h, if j == |s| then -1 else j, if k + 1 == |s| then -1 else k + 1);
      CycleInjective(f, h, if j == |s| then -1 else j, k);
    }
  }

  /** Where x sits: the ring, and its position, -1 for a head. */
  lemma Locate(f: Family<ListHead>, x: ListHead) returns (h: ListHead, k: int)
    requires x in Nodes(f) || Removable(f, x)
    ensures h in f && -1 <= k < |f[h]| && x == At(h, f[h], k)
    ensures x in f ==> h == x && k == -1
  {
    InNodes(f);
    if x in f {
      h, k := x, -1;
    } else {
      h :| h in f && x in f[h];
      k :| 0 <= k < |f[h]| && f[h][k] == x;
    }
  }

  lemma Between(f: Family<ListHead>, x: ListHead, h: ListHead, k: int)
    requires Wf(f) && Removable(f, x) && h in f && -1 <= k < |f[h]| && x == At(h, f[h], k)
    ensures x.next == At(h, f[h], k + 1) && x.prev == At(h, f[h], k - 1)
  {
    assert At(h, f[h], k).next == At(h, f[h], k + 1);
    assert At(h, f[h], if k < 0 then |f[h]| else k).prev == At(h, f[h], k - 1);
  }

  /** __list_del: make prev and next each other's neighbours. */
  method JoinNeighbours(prev: ListHead, next: ListHead, ghost f: Family<ListHead> := map[], ghost x: ListHead := prev)
    modifies prev`next, next`prev
    ensures prev.next == next && next.prev == prev
    ensures old(Wf(f)) && Removable(f, x) && old(x.prev) == prev && old(x.next) == next ==> Wf(Unlink(f, x))
  {
    ghost var here, h, k := Wf(f) && Removable(f, x) && x.prev == prev && x.next == next, x, 0;
    if here {
      h, k := Locate(f, x);
      Between(f, x, h, k);
    }
    next.prev := prev;
    prev.next := next;
    if here {
      forall r | r in f ensures RingRewired(r, f[r], x, prev, next, next, prev) {
        assert old(Linked(r, f[r]));
      }
      UnlinkLinked(f, x, h, k, prev, next);
    }
  }

  /** The entry is left with poisoned links: list_empty of it no longer holds. */
  method ListDel(entry: ListHead, ghost f: Family<ListHead> := map[])
    requires entry.prev != null && entry.next != null
    modifies entry, entry.prev`next, entry.next`prev
    ensures entry.next == null == entry.prev
    ensures old(entry.prev) != entry ==> old(entry.prev).next == old(entry.next)
    ensures old(entry.next) != entry ==> old(entry.next).prev == old(entry.prev)
    ensures old(Wf(f)) && Removable(f, entry) ==> Wf(Unlink(f, entry))
  {
    JoinNeighbours(entry.prev, entry.next, f, entry);
    if old(Wf(f)) && Removable(f, entry) {
      UnlinkSeparate(f, entry);
    }
    entry.next := null;
    entry.prev := null;
  }

  method ListDelInit(entry: ListHead, ghost f: Family<ListHead> := map[])
    requires entry.prev != null && entry.next != null
    modifies entry, entry.prev`next, entry.next`prev
    ensures entry.next == entry == entry.prev
    ensures old(entry.prev) != entry ==> old(entry.prev).next == old(entry.next)
    ensures old(entry.next) != entry ==> old(entry.next).prev == old(entry.prev)
    ensures old(Wf(f)) && Removable(f, entry) ==> Wf(Unlink(f, entry)[entry := []])
  {
    JoinNeighbours(entry.prev, entry.next, f, entry);
    if old(Wf(f)) && Removable(f, entry) {
      UnlinkSeparate(f, entry);
    }
    InitListHead(entry, Unlink(f, entry));
  }

  method ListMove(list: ListHead, head: ListHead, ghost f: Family<ListHead>)
    requires Wf(f) && Removable(f, list) && head in f && head != list
    modifies Nodes(f)
    ensures Wf(Add(Unlink(f, list), list, head))
  {
    Neighbours(f, list);
    JoinNeighbours(list.prev, list.next, f, list);
    UnlinkSeparate(f, list);
    Neighbours(Unlink(f, list), head);
    ListAdd(list, head, Unlink(f, list));
  }

  method ListMoveTail(list: ListHead, head: ListHead, ghost f: Family<ListHead>)
    requires Wf(f) && Removable(f, list) && head in f && head != list
    modifies Nodes(f)
    ensures Wf(AddTail(Unlink(f, list), list, head))
  {
    Neighbours(f, list);
    JoinNeighbours(list.prev, list.next, f, list);
    UnlinkSeparate(f, list);
    Neighbours(Unlink(f, list), head);
    ListAddTail(list, head, Unlink(f, list));
  }

  /** Both links of a node on a ring lead to nodes of the family, and back again. */
  lemma Neighbours(f: Family<ListHead>, x: ListHead)
    requires Wf(f) && x in Nodes(f)
    ensures x.next != null && x.next in Nodes(f) && x.next.prev == x
    ensures x.prev != null && x.prev in Nodes(f) && x.prev.next == x
  {
    var h, k := Locate(f, x);
    var s := f[h];
    assert Linked(h, s);
    assert At(h, s, k).next == At(h, s, k + 1);
    assert At(h, s, k + 1).prev == At(h, s, k);
    var j := if k < 0 then |s| else k;
    assert At(h, s, j).prev == At(h, s, j - 1);
    assert At(h, s, j - 1).next == At(h, s, j);
    assert forall i | 0 <= i < |s| :: s[i] in s;
  }

  // ---- replacement ----

  /** The position before k, going round. */
  ghost function Before(s: seq<ListHead>, k: int): int {
    if k < 0 then |s| - 1 else k - 1
  }

  lemma ReplaceHere(f: Family<ListHead>, old': ListHead, new': ListHead, h: ListHead, k: int)
    requires Separate(f) && Detached(f, new') && old' != new' && h != new'
    requires h in f && -1 <= k < |f[h]| && old' == At(h, f[h], k) && f[h] != []
    requires RingRewired(h, f[h], old', At(h, f[h], Before(f[h], k)), new', At(h, f[h], k + 1), new')
    requires new'.next == At(h, f[h], k + 1) && new'.prev == At(h, f[h], Before(f[h], k))
    ensures Linked(Subst(old', new', h), SubstSeq(old', new', f[h]))
  {
    var s, h', t := f[h], Subst(old', new', h), SubstSeq(old', new', f[h]);
    assert forall i | -1 <= i <= |s| :: At(h', t, i) == Subst(old', new', At(h, s, i));
    forall i | -1 <= i < |s| ensures At(h', t, i).next == At(h', t, i + 1) {
      CycleInjective(f, h, i, k);
      CycleInjective(f, h, i, Before(s, k));
      CycleInjective(f, h, if i + 1 == |s| then -1 else i + 1, k);
    }
    forall i | 0 <= i <= |s| ensures At(h', t, i).prev == At(h', t, i - 1) {
      var j := if i == |s| then -1 else i;
      CycleInjective(f, h, j, k);
      CycleInjective(f, h, j, if k + 1 == |s| then -1 else k + 1);
      CycleInjective(f, h, i - 1, k);
    }
  }

  lemma ReplaceLinked(f: Family<ListHead>, old': ListHead, new': ListHead, h: ListHead, k: int)
    requires Separate(f) && Detached(f, new') && old' != new' && h != new'
    requires h in f && -1 <= k < |f[h]| && old' == At(h, f[h], k) && f[h] != []
    requires forall r | r in f && r != new' ::
               RingRewired(r, f[r], old', At(h, f[h], Before(f[h], k)), new', At(h, f[h], k + 1), new')
    requires new'.next == At(h, f[h], k + 1) && new'.prev == At(h, f[h], Before(f[h], k))
    ensures Wf(Replace(f, old', new'))
  {
    var g := Replace(f, old', new');
    ReplaceSeparate(f, old', new');
    ReplaceHere(f, old', new', h, k);
    forall r | r in f && r != h && r != new' ensures r in g && g[r] == f[r] && Linked(r, f[r]) {
      RingUntouched(f, r, old', At(h, f[h], Before(f[h], k)), new', At(h, f[h], k + 1), new');
      assert SubstSeq(old', new', f[r]) == f[r];
    }
    assert k == -1 ==> SubstSeq(old', new', f[h]) == f[h];
  }

  /** old' may be a member, the head of a ring, or alone: in the last case the third and fourth
      assignments read what the second one wrote, and leave xnew linked to itself. */
  method ListReplace(old': ListHead, xnew: ListHead, ghost f: Family<ListHead> := map[])
    requires old'.next != null && old'.prev != null
    modifies xnew, old'.next`prev, old'.prev`next
    ensures xnew.prev == if old(old'.next) == old' then xnew else old(old'.prev)
    ensures xnew.prev.next == xnew
    ensures xnew.next == if xnew.prev == xnew then xnew else old(old'.next)
    ensures old(old'.next) != xnew ==> old(old'.next).prev == xnew
    ensures old(Wf(f)) && old' in Nodes(f) && Detached(f, xnew) && old' != xnew ==> Wf(Replace(f, old', xnew))
  {
    xnew.next := old'.next;
    xnew.next.prev := xnew;
    xnew.prev := old'.prev;
    xnew.prev.next := xnew;
    if old(Wf(f)) && old' in Nodes(f) && Detached(f, xnew) && old' != xnew {
      InNodes(f);
      var h, k := Locate(f, old');
      assert forall r | r in f :: old(Linked(r, f[r]));
      if f[h] == [] {
        ReplaceLone(f, old', xnew);
      } else {
        var b := Before(f[h], k);
        assert old(At(h, f[h], k).next) == At(h, f[h], k + 1);
        assert old(At(h, f[h], b + 1).prev) == At(h, f[h], b);
        assert h != xnew;
        forall r | r in f && r != xnew
          ensures RingRewired(r, f[r], old', At(h, f[h], b), xnew, At(h, f[h], k + 1), xnew)
        {
          assert old(Linked(r, f[r]));
          assert xnew !in f[r];
        }
        ReplaceLinked(f, old', xnew, h, k);
      }
    }
  }

  lemma ReplaceLone(f: Family<ListHead>, old': ListHead, new': ListHead)
    requires Separate(f) && Detached(f, new') && old' != new'
    requires old' in f && f[old'] == []
    requires forall r | r in f && r != old' && r != new' :: Linked(r, f[r])
    requires new'.next == new' == new'.prev
    ensures Wf(Replace(f, old', new'))
  {
    ReplaceSeparate(f, old', new');
    forall r | r in f && r != old' && r != new' ensures SubstSeq(old', new', f[r]) == f[r] {
      assert old' !in f[r];
    }
  }

  method ListReplaceInit(old': ListHead, xnew: ListHead, ghost f: Family<ListHead>)
    requires Wf(f) && old' in Nodes(f) && Detached(f, xnew) && old' != xnew
    modifies Nodes(f), xnew
    ensures Wf(Replace(f, old', xnew)[old' := []])
  {
    Neighbours(f, old');
    ListReplace(old', xnew, f);
    ReplaceSeparate(f, old', xnew);
    InitListHead(old', Replace(f, old', xnew));
  }

  // ---- tests ----

  method ListIsLast(list: ListHead, head: ListHead, ghost f: Family<ListHead> := map[]) returns (last: bool)
    ensures last == (list.next == head)
    ensures Wf(f) && head in f && list in f[head] ==> (last <==> list == f[head][|f[head]| - 1])
  {
    last := list.next == head;
    if Wf(f) && head in f && list in f[head] {
      var s := f[head];
      var k :| 0 <= k < |s| && s[k] == list;
      assert At(head, s, k).next == At(head, s, k + 1);
      CycleInjective(f, head, if k + 1 == |s| then -1 else k + 1, -1);
    }
  }

  method ListEmpty(head: ListHead, ghost f: Family<ListHead> := map[]) returns (empty: bool)
    ensures empty == (head.next == head)
    ensures Wf(f) && head in f ==> (empty <==> f[head] == [])
  {
    empty := head.next == head;
    if Wf(f) && head in f {
      assert At(head, f[head], -1).next == At(head, f[head], 0);
      CycleInjective(f, head, if f[head] == [] then -1 else 0, -1);
    }
  }

  method ListEmptyCareful(head: ListHead, ghost f: Family<ListHead> := map[]) returns (empty: bool)
    ensures empty == (head.next == head == head.prev)
    ensures Wf(f) && head in f ==> (empty <==> f[head] == [])
  {
    var next := head.next;
    empty := next == head && next == head.prev;
    if Wf(f) && head in f {
      assert At(head, f[head], -1).next == At(head, f[head], 0);
      assert At(head, f[head], |f[head]|).prev == At(head, f[head], |f[head]| - 1);
      CycleInjective(f, head, if f[head] == [] then -1 else 0, -1);
    }
  }

  // ---- splicing ----

  /** The ring of dst after the nodes of src went in at position k, src itself being skipped. */
  lemma SpliceHere(f: Family<ListHead>, src: ListHead, dst: ListHead, k: nat)
    requires Separate(f) && src in f && dst in f && src != dst && k <= |f[dst]| && f[src] != []
    requires var s, d := f[src], f[dst];
             && RingRewired(dst, d, src, At(dst, d, k - 1), s[0], At(dst, d, k), s[|s| - 1])
             && RingRewired(src, s, src, s[|s| - 1], At(dst, d, k), s[0], At(dst, d, k - 1))
    ensures Linked(dst, f[dst][..k] + f[src] + f[dst][k..])
  {
    var s, d := f[src], f[dst];
    var t := d[..k] + s + d[k..];
    assert src !in d && src !in s && dst !in s;
    forall i | -1 <= i < |t| ensures At(dst, t, i).next == At(dst, t, i + 1) {
      if k <= i < k + |s| {
        assert At(dst, t, i) == At(src, s, i - k);
        CycleInjective(f, src, i - k, |s| - 1);
      } else {
        var j := if i < k then i else i - |s|;
        assert At(dst, t, i) == At(dst, d, j);
        CycleInjective(f, dst, j, k - 1);
      }
    }
    forall i | 0 <= i <= |t| ensures At(dst, t, i).prev == At(dst, t, i - 1) {
      if k <= i < k + |s| {
        assert At(dst, t, i) == At(src, s, i - k);
        CycleInjective(f, src, i - k, 0);
      } else {
        var j := if i < k then i else i - |s|;
        assert At(dst, t, i) == At(dst, d, j);
        CycleInjective(f, dst, if j == |d| then -1 else j, if k == |d| then -1 else k);
      }
    }
  }

  /** dst has a gap at position k, between prev and next, for the members of src. */
  ghost predicate IsSpliceGap(f: Family<ListHead>, src: ListHead, dst: ListHead, k: nat, prev: ListHead, next: ListHead) {
    && src in f && dst in f && src != dst && k <= |f[dst]| && f[src] != []
    && prev == At(dst, f[dst], k - 1) && next == At(dst, f[dst], k)
  }

  lemma SpliceLinked(f: Family<ListHead>, src: ListHead, dst: ListHead, k: nat,
                     first: ListHead, last: ListHead, prev: ListHead, next: ListHead)
    requires Separate(f) && IsSpliceGap(f, src, dst, k, prev, next)
    requires first == f[src][0] && last == f[src][|f[src]| - 1]
    requires RingRewired(dst, f[dst], src, prev, first, next, last) && RingRewired(src, f[src], src, last, next, first, prev)
    requires forall r | r in f && r != src && r != dst :: Linked(r, f[r])
    ensures Wf(SpliceAt(f, src, dst, k))
  {
    SpliceHere(f, src, dst, k);
    SpliceSeparate(f, src, dst, k);
  }

  /** __list_splice: the stretch list.next ... list.prev goes between prev and next.  list keeps
      its own two links, and so drops out of the family. */
  method SpliceBetween(list: ListHead, prev: ListHead, next: ListHead,
                       ghost f: Family<ListHead> := map[], ghost dst: ListHead := list, ghost k: nat := 0)
    requires list.next != null && list.prev != null
    modifies list.next`prev, prev`next, list.prev`next, next`prev
    ensures old(list.prev).next == next && next.prev == old(list.prev)
    ensures old(list.next).prev == if old(list.next) == next then old(list.prev) else prev
    ensures prev.next == if prev == old(list.prev) then next else old(list.next)
    ensures old(Wf(f)) && IsSpliceGap(f, list, dst, k, prev, next) ==> Wf(SpliceAt(f, list, dst, k))
  {
    var first := list.next;
    var last := list.prev;
    first.prev := prev;
    prev.next := first;
    last.next := next;
    next.prev := last;
    if old(Wf(f)) && IsSpliceGap(f, list, dst, k, prev, next) {
      var s, d := f[list], f[dst];
      assert old(Linked(list, s)) && old(Linked(dst, d));
      assert first == s[0] && last == s[|s| - 1] by {
        assert old(At(list, s, -1).next) == At(list, s, 0);
        assert old(At(list, s, |s|).prev) == At(list, s, |s| - 1);
      }
      assert first in s && last in s && first !in d && last !in d && prev !in s && next !in s;
      forall r | r in f && r != list && r != dst ensures Linked(r, f[r]) {
        assert old(Linked(r, f[r]));
        assert first !in f[r] && last !in f[r] && prev !in f[r] && next !in f[r];
      }
      SpliceLinked(f, list, dst, k, first, last, prev, next);
    }
  }

  method ListSplice(list: ListHead, head: ListHead, ghost f: Family<ListHead>)
    requires Wf(f) && list in f && head in f && list != head
    modifies Nodes(f)
    ensures Wf(SpliceAt(f, list, head, 0))
  {
    var empty := ListEmpty(list, f);
    if !empty {
      Neighbours(f, list);
      Neighbours(f, head);
      assert At(head, f[head], -1).next == At(head, f[head], 0);
      SpliceBetween(list, head, head.next, f, head, 0);
    }
  }

  method ListSpliceTail(list: ListHead, head: ListHead, ghost f: Family<ListHead>)
    requires Wf(f) && list in f && head in f && list != head
    modifies Nodes(f)
    ensures Wf(SpliceAt(f, list, head, |f[head]|))
  {
    var empty := ListEmpty(list, f);
    if !empty {
      Neighbours(f, list);
      Neighbours(f, head);
      assert At(head, f[head], |f[head]|).prev == At(head, f[head], |f[head]| - 1);
      SpliceBetween(list, head.prev, head, f, head, |f[head]|);
    }
  }

  method ListSpliceInit(list: ListHead, head: ListHead, ghost f: Family<ListHead>)
    requires Wf(f) && list in f && head in f && list != head
    modifies Nodes(f)
    ensures Wf(f[head := f[list] + f[head]][list := []])
  {
    var empty := ListEmpty(list, f);
    if !empty {
      Neighbours(f, list);
      Neighbours(f, head);
      assert At(head, f[head], -1).next == At(head, f[head], 0);
      SpliceBetween(list, head, head.next, f, head, 0);
      SpliceSeparate(f, list, head, 0);
      InitListHead(list, SpliceAt(f, list, head, 0));
    }
    SpliceEnds(f, list, head);
  }

  method ListSpliceTailInit(list: ListHead, head: ListHead, ghost f: Family<ListHead>)
    requires Wf(f) && list in f && head in f && list != head
    modifies Nodes(f)
    ensures Wf(f[head := f[head] + f[list]][list := []])
  {
    var empty := ListEmpty(list, f);
    if !empty {
      Neighbours(f, list);
      Neighbours(f, head);
      assert At(head, f[head], |f[head]|).prev == At(head, f[head], |f[head]| - 1);
      SpliceBetween(list, head.prev, head, f, head, |f[head]|);
      SpliceSeparate(f, list, head, |f[head]|);
      InitListHead(list, SpliceAt(f, list, head, |f[head]|));
    }
    SpliceEnds(f, list, head);
  }
}
