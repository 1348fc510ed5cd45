/** The poller's own code on its own structures: events and pollers are objects whose fields the
    operations assign, linked through the intrusive list.  A process owns the live events and the
    kernel's interest sets.  Every operation is proved to compute the function of PollerState on
    the values, and to keep the exact shape of the pollers' event lists. */
module Pollers {
  import opened Common
  import opened PollerState
  import opened Rings
  import opened ListHeads

  class Event {
    var efd: int
    var read: Callback
    var write: Callback
    var events: Mask
    var ptr: Option<Event>
    var gpoller: Poller
    const list: ListHead

    /** malloc, memset and the assignments of creation. */
    constructor (fd: int, p: Poller)
      ensures Rec() == EventRec(fd, p, {}, None, Unset, Unset)
      ensures fresh(list)
    {
      efd, read, write, events, ptr, gpoller := fd, Unset, Unset, {}, None, p;
      list := new ListHead();
    }

    ghost function Rec(): EventRec<Event, Poller>
      reads this
    {
      EventRec(efd, gpoller, events, ptr, read, write)
    }
  }

  class Poller {
    var maxe: int
    var timeout: int
    const elist: ListHead

    /** The event whose creation was the last thing that happened to the list, if it was one. */
    ghost var last: Event?

    constructor ()
      ensures last == null && fresh(elist)
    {
      maxe, timeout, last := 0, 0, null;
      elist := new ListHead();
    }

    /** Lines 91 and 92 of creation.  The head and the entry are passed to ListAdd in the order
        the source passes them: the head is inserted after the entry, whatever it was linked to. */
    method LinkEntry(entry: ListHead)
      requires entry != elist
      modifies elist, entry
      ensures elist.next == elist.prev == entry && entry.next == entry.prev == elist
    {
      InitListHead(entry);
      ListAdd(elist, entry);
    }

    /** Line 102 of destruction, for an entry both of whose links lead to the head. */
    method UnlinkEntry(entry: ListHead)
      requires entry != elist && entry.next == entry.prev == elist
      modifies elist, entry
      ensures elist.next == elist.prev == elist && entry.next == entry.prev == null
    {
      ListDel(entry);
    }
  }

  /** A call that changes the kernel's interest sets; read is the read callback the event has at
      that moment. */
  datatype KernelCall =
    | EpollCtlCall(p: Poller, op: CtlOp, fd: int, mask: Mask, read: Callback)
    | CloseCall(fd: int)

  class Process {
    var interest: Interest<Event, Poller>
    ghost var live: set<Event>
    ghost var pollers: set<Poller>

    /** The calls made so far, in order. */
    ghost var calls: seq<KernelCall>

    constructor ()
      ensures Valid() && live == {} && pollers == {} && interest == map[] && calls == []
    {
      interest, live, pollers, calls := map[], {}, {}, [];
    }

    ghost function Abs(): State<Event, Poller>
      reads this, live
    {
      State(interest, map e | e in live :: e.Rec())
    }

    lemma AbsIs(m: map<Event, EventRec<Event, Poller>>)
      requires m.Keys == live && forall e | e in live :: m[e] == e.Rec()
      ensures Abs() == State(interest, m)
    {
    }

    ghost function ListNodes(): set<ListHead>
      reads this
    {
      (set e | e in live :: e.list) + (set p | p in pollers :: p.elist)
    }

    /** The list heads embedded in different structures are different. */
    ghost predicate Apart()
      reads this
    {
      && (forall e, d | e in live && d in live && e.list == d.list :: e == d)
      && (forall p, q | p in pollers && q in pollers && p.elist == q.elist :: p == q)
      && (forall e, p | e in live && p in pollers :: e.list != p.elist)
    }

    /** The list of p is [the last created event] or empty; every live event's two links lead to
        its poller's head, whether or not the head leads back. */
    ghost predicate Registry(p: Poller)
      reads this, live, p, p.elist, set e | e in live :: e.list
    {
      && (p.last != null ==> p.last in live && p.last.gpoller == p)
      && p.elist.next == p.elist.prev == (if p.last == null then p.elist else p.last.list)
      && forall e | e in live && e.gpoller == p :: e.list.next == e.list.prev == p.elist
    }

    ghost predicate Valid()
      reads this, live, pollers, ListNodes()
    {
      && Apart()
      && (forall e | e in live :: e.gpoller in pollers)
      && (forall p | p in pollers :: Registry(p))
    }

    /** epoll_ctl for an event, with what it has recorded about itself. */
    method AskKernel(op: CtlOp, gevent: Event, refuse: bool) returns (ret: int)
      modifies this`interest, this`calls
      ensures (ret, interest) ==
              EpollCtl(old(interest), gevent.gpoller, op, gevent.efd, Entry(gevent.events, gevent.ptr), refuse)
      ensures calls == old(calls) + [EpollCtlCall(gevent.gpoller, op, gevent.efd, gevent.events, gevent.read)]
    {
      calls := calls + [EpollCtlCall(gevent.gpoller, op, gevent.efd, gevent.events, gevent.read)];
      var r := EpollCtl(interest, gevent.gpoller, op, gevent.efd, Entry(gevent.events, gevent.ptr), refuse);
      ret, interest := r.0, r.1;
    }

    /** gt_poller_event_start. */
    method EventStart(eflag: Mask, gevent: Event, refuse: bool) returns (ret: int)
      requires Valid() && gevent in live
      modifies this`interest, this`calls, gevent`events, gevent`ptr
      ensures Valid()
      ensures (ret, Abs()) == Start(old(Abs()), eflag, gevent, refuse)
      ensures old(gevent.events) * eflag != {} ==>
                ret == 0 && gevent.events == old(gevent.events) && gevent.ptr == old(gevent.ptr) && interest == old(interest)
      ensures old(gevent.events) * eflag == {} ==>
                && gevent.events == old(gevent.events) + eflag && gevent.ptr == Some(gevent)
                && var w := (gevent.gpoller, gevent.efd);
                   var done := if old(gevent.events) == {} then w !in old(interest) && !refuse else w in old(interest);
                   && ret == (if done then 0 else -1)
                   && interest == if done then old(interest)[w := Entry(gevent.events, Some(gevent))] else old(interest)
      ensures calls == old(calls) + if old(gevent.events) * eflag != {} then [] else
                [EpollCtlCall(gevent.gpoller, if old(gevent.events) == {} then CtlAdd else CtlMod, gevent.efd, gevent.events, gevent.read)]
    {
      var op := CtlAdd;
      if gevent.events != {} {
        op := CtlMod;
      }
      if gevent.events * eflag != {} {
        return GT_OK;
      }
      gevent.events := gevent.events + eflag;
      gevent.ptr := Some(gevent);
      ret := AskKernel(op, gevent, refuse);
      forall p | p in pollers ensures Registry(p) {
        assert old(Registry(p));
      }
      assert Abs() == State(interest, old(Abs()).events[gevent := gevent.Rec()]) by {
        AbsIs(old(Abs()).events[gevent := gevent.Rec()]);
      }
      if ret != GT_OK {
        return;
      }
      return GT_OK;
    }

    /** What a stop of flag asks of the kernel: a MOD to the bits that are left. */
    ghost function StopCalls(e: Event, mask: Mask, flag: Mask): seq<KernelCall>
      reads e
    {
      if mask * flag == {} then [] else [EpollCtlCall(e.gpoller, CtlMod, e.efd, mask - flag, e.read)]
    }

    /** gt_poller_event_stop. */
    method EventStop(eflag: Mask, gevent: Event) returns (ret: int)
      requires Valid() && gevent in live
      modifies this`interest, this`calls, gevent`events
      ensures Valid()
      ensures (ret, Abs()) == Stop(old(Abs()), eflag, gevent)
      ensures old(gevent.events) * eflag == {} ==>
                ret == 0 && gevent.events == old(gevent.events) && interest == old(interest)
      ensures old(gevent.events) * eflag != {} ==>
                && gevent.events == old(gevent.events) - eflag
                && var w := (gevent.gpoller, gevent.efd);
                   && ret == (if w in old(interest) then 0 else -1)
                   && interest == if w in old(interest) then old(interest)[w := Entry(gevent.events, gevent.ptr)] else old(interest)
      ensures calls == old(calls) + StopCalls(gevent, old(gevent.events), eflag)
    {
      var op := CtlDel;
      if gevent.events != {} {
        op := CtlMod;
      }
      if gevent.events * eflag == {} {
        return GT_OK;
      }
      gevent.events := gevent.events - eflag;
      ret := AskKernel(op, gevent, false);
      forall p | p in pollers ensures Registry(p) {
        assert old(Registry(p));
      }
      assert Abs() == State(interest, old(Abs()).events[gevent := gevent.Rec()]) by {
        AbsIs(old(Abs()).events[gevent := gevent.Rec()]);
      }
      if ret != GT_OK {
        return;
      }
      return GT_OK;
    }

    /** ge->ops.read = cb, as every creator of an event does next. */
    method AssignRead(ge: Event, cb: Callback)
      requires Valid() && ge in live
      modifies ge`read
      ensures Valid() && Abs() == SetRead(old(Abs()), ge, cb) && ge.read == cb
    {
      ghost var was := Abs().events;
      ge.read := cb;
      forall p | p in pollers ensures Registry(p) {
        assert old(Registry(p));
      }
      AbsIs(was[ge := ge.Rec()]);
    }

    /** gt_poller_gevent_create. */
    method GeventCreate(efd: int, gpoller: Poller, malloc: bool) returns (ge: Event?)
      requires Valid() && gpoller in pollers
      modifies this`live, gpoller`last, gpoller.elist
      ensures Valid() && pollers == old(pollers)
      ensures old(live) <= live && forall e | e in live && e !in old(live) :: e == ge
      ensures !malloc ==> ge == null && live == old(live) && gpoller.last == old(gpoller.last) && Abs() == old(Abs())
      ensures malloc ==> ge != null && fresh(ge) && fresh(ge.list) && ge in live && gpoller.last == ge
                         && Abs() == Create(old(Abs()), ge, efd, gpoller)
      ensures malloc ==> ge.efd == efd && ge.gpoller == gpoller && ge.events == {} && ge.ptr == None && ge.read == ge.write == Unset
      ensures malloc ==> live == old(live) + {ge} && Linked(gpoller.elist, [ge.list])
    {
      if !malloc {
        return null;
      }
      ge := new Event(efd, gpoller);
      Enlist(ge, gpoller);
      OneLinked(gpoller, ge);
    }

    method Enlist(ge: Event, gpoller: Poller)
      requires Valid() && gpoller in pollers && ge.gpoller == gpoller
      requires ge !in live
      requires (forall e | e in live :: e.list != ge.list) && (forall p | p in pollers :: p.elist != ge.list)
      modifies this`live, gpoller`last, gpoller.elist, ge.list
      ensures Valid() && live == old(live) + {ge} && gpoller.last == ge
      ensures Abs() == State(interest, old(Abs()).events[ge := ge.Rec()])
    {
      ghost var was := Abs().events;
      gpoller.LinkEntry(ge.list);
      live := live + {ge};
      gpoller.last := ge;
      forall p | p in pollers ensures Registry(p) {
        assert old(Registry(p));
        assert p != gpoller ==> p.elist != gpoller.elist && p.elist != ge.list;
      }
      AbsIs(was[ge := ge.Rec()]);
    }

    /** gt_poller_gevent_destroy. */
    method GeventDestroy(ge: Event)
      requires Valid() && ge in live
      modifies this`interest, this`calls, this`live, ge, ge.list, ge.gpoller`last, ge.gpoller.elist
      ensures Valid() && pollers == old(pollers)
      ensures live == old(live) - {ge} && old(ge.gpoller).last == null
      ensures Abs() == Destroy(old(Abs()), ge)
      ensures interest == Closed(old(interest), old(ge.efd)) && Linked(old(ge.gpoller).elist, [])
      ensures calls == old(calls + StopCalls(ge, ge.events, ge.events)) + [CloseCall(old(ge.efd))]
    {
      ClosedAnyway(interest, (ge.gpoller, ge.efd), Entry(ge.events - ge.events, ge.ptr));
      var ret := EventStop(ge.events, ge);
      Release(ge);
      NoneLinked(old(ge.gpoller));
    }

    /** What an entry holds does not matter once its descriptor is closed. */
    lemma ClosedAnyway(k: Interest<Event, Poller>, w: (Poller, int), entry: Entry<Event>)
      ensures Closed(k[w := entry], w.1) == Closed(k, w.1)
    {
    }

    lemma OneLinked(p: Poller, e: Event)
      requires Valid() && p in pollers && p.last == e
      ensures Linked(p.elist, [e.list])
    {
      assert Registry(p);
    }

    lemma NoneLinked(p: Poller)
      requires Valid() && p in pollers && p.last == null
      ensures Linked(p.elist, [])
    {
      assert Registry(p);
    }

    /** Lines 102 to 106 of destruction: off the list, close, free. */
    method Release(ge: Event)
      requires Valid() && ge in live
      modifies this`interest, this`calls, this`live, ge.list, ge.gpoller`last, ge.gpoller.elist
      ensures Valid() && live == old(live) - {ge} && ge.gpoller.last == null
      ensures Abs() == State(Closed(old(interest), ge.efd), old(Abs()).events - {ge})
      ensures calls == old(calls) + [CloseCall(ge.efd)]
    {
      ghost var was := Abs().events;
      assert Registry(ge.gpoller);
      ge.gpoller.UnlinkEntry(ge.list);
      interest := Closed(interest, ge.efd);
      calls := calls + [CloseCall(ge.efd)];
      live := live - {ge};
      ge.gpoller.last := null;
      forall p | p in pollers ensures Registry(p) {
        assert old(Registry(p));
        assert p != ge.gpoller ==> p.elist != ge.gpoller.elist && p.elist != ge.list;
      }
      AbsIs(was - {ge});
    }
  }

  // ---- what the event list is good for ----

  /** Two descriptions of one ring agree. */
  lemma RingUnique(h: ListHead, s: seq<ListHead>, t: seq<ListHead>)
    requires Linked(h, s) && Linked(h, t) && h !in s && h !in t
    ensures s == t
  {
    var n := if |s| < |t| then |s| else |t|;
    RingAgrees(h, s, t, n);
    assert At(h, s, n) == At(h, t, n);
    assert |s| == |t|;
    forall i | 0 <= i < n ensures s[i] == t[i] {
      RingAgrees(h, s, t, i);
    }
  }

  lemma {:induction false} RingAgrees(h: ListHead, s: seq<ListHead>, t: seq<ListHead>, i: int)
    requires Linked(h, s) && Linked(h, t) && -1 <= i <= |s| && i <= |t|
    ensures At(h, s, i) == At(h, t, i)
    decreases i + 1
  {
    if i >= 0 {
      RingAgrees(h, s, t, i - 1);
      assert At(h, s, i - 1).next == At(h, s, i);
      assert At(h, t, i - 1).next == At(h, t, i);
    }
  }

  /** The event list of p holds the event just created, if the last thing to happen was a
      creation, and nothing otherwise. */
  lemma RegistryRing(pr: Process, p: Poller)
    requires pr.Valid() && p in pr.pollers
    ensures Linked(p.elist, if p.last == null then [] else [p.last.list])
  {
    assert pr.Registry(p);
  }

  ghost predicate ListsLive(pr: Process, p: Poller, s: seq<ListHead>)
    reads pr, pr.live, p.elist, s
  {
    && Linked(p.elist, s) && p.elist !in s
    && (forall e | e in pr.live && e.gpoller == p :: e.list in s)
    && (forall n | n in s :: exists e | e in pr.live && e.gpoller == p :: e.list == n)
  }

  /** The list is the registry of live events it looks like in two cases only: nothing is live, or
      the one live event is the one just created.  After two creations it is not. */
  lemma ListsLiveExactly(pr: Process, p: Poller)
    requires pr.Valid() && p in pr.pollers
    ensures (exists s :: ListsLive(pr, p, s)) <==>
            (forall e | e in pr.live && e.gpoller == p :: e == p.last)
  {
    assert pr.Registry(p);
    RegistryRing(pr, p);
    var r := if p.last == null then [] else [p.last.list];
    assert p.elist !in r;
    if forall e | e in pr.live && e.gpoller == p :: e == p.last {
      assert ListsLive(pr, p, r);
    }
    if s :| ListsLive(pr, p, s) {
      RingUnique(p.elist, s, r);
    }
  }

  /** gt_poller_init, on what epoll_create(2) and malloc answered. */
  method PollerInit(maxe: int, timeout: int, gpoller: Poller, pr: Process, epfd: int, malloc: bool) returns (ret: int)
    requires pr.Valid() && gpoller !in pr.pollers && gpoller.last == null && gpoller.elist !in pr.ListNodes()
    requires forall e | e in pr.live :: e.gpoller != gpoller
    modifies gpoller`maxe, gpoller`timeout, gpoller.elist, pr`pollers
    ensures gpoller.maxe == maxe && gpoller.timeout == timeout
    ensures pr.Valid() && pr.Abs() == old(pr.Abs())
    ensures ret == GT_OK <==> 0 <= epfd && malloc
    ensures pr.pollers == old(pr.pollers) + if ret == GT_OK then {gpoller} else {}
    ensures ret == GT_OK ==> Linked(gpoller.elist, [])
  {
    ghost var was := pr.Abs().events;
    gpoller.maxe := maxe;
    gpoller.timeout := timeout;
    if 0 > epfd {
      return GT_ERROR;
    }
    if !malloc {
      return GT_ERROR;
    }
    InitListHead(gpoller.elist);
    pr.pollers := pr.pollers + {gpoller};
    forall p | p in pr.pollers ensures pr.Registry(p) {
      assert p != gpoller ==> old(pr.Registry(p));
    }
    pr.AbsIs(was);
    return GT_OK;
  }

  /** gt_poller_clean: the warning means a live event, but a live event does not mean a warning. */
  method PollerClean(gpoller: Poller, pr: Process) returns (warned: bool)
    requires pr.Valid() && gpoller in pr.pollers
    ensures warned <==> gpoller.last != null
    ensures warned ==> exists e | e in pr.live :: e.gpoller == gpoller
  {
    assert pr.Registry(gpoller);
    var empty := ListEmpty(gpoller.elist);
    warned := !empty;
  }

  // ---- every history of one poller ----

  datatype Change = Opened(fd: int) | Gone(i: nat)

  /** How many events are live after a history; Gone(i) is about the i-th of them. */
  ghost function LiveCount(history: seq<Change>): int {
    if history == [] then 0 else LiveCount(history[..|history| - 1]) + if history[|history| - 1].Opened? then 1 else -1
  }

  ghost predicate History(history: seq<Change>) {
    forall k | 0 <= k < |history| && history[k].Gone? :: history[k].i < LiveCount(history[..k])
  }

  ghost predicate AllOf(pr: Process, p: Poller, events: seq<Event>)
    reads pr, pr.live
  {
    && Distinct(events)
    && (forall e | e in events :: e in pr.live && e.gpoller == p)
    && (forall e | e in pr.live && e.gpoller == p :: e in events)
  }

  method Opening(pr: Process, p: Poller, fd: int, events: seq<Event>) returns (events': seq<Event>)
    requires pr.Valid() && p in pr.pollers && AllOf(pr, p, events)
    modifies pr`live, p`last, p.elist
    ensures pr.Valid() && pr.pollers == old(pr.pollers)
    ensures |events'| == |events| + 1 && events'[..|events|] == events && p.last == events'[|events|]
    ensures fresh(p.last) && fresh(p.last.list) && AllOf(pr, p, events')
  {
    var e := pr.GeventCreate(fd, p, true);
    events' := events + [e];
  }

  method Going(pr: Process, p: Poller, i: nat, events: seq<Event>) returns (events': seq<Event>)
    requires pr.Valid() && p in pr.pollers && AllOf(pr, p, events) && i < |events|
    modifies pr`interest, pr`calls, pr`live, p`last, p.elist, events[i], events[i].list
    ensures pr.Valid() && pr.pollers == old(pr.pollers)
    ensures events' == events[..i] + events[i + 1..] && p.last == null && AllOf(pr, p, events')
  {
    assert events[i] in events;
    pr.GeventDestroy(events[i]);
    events' := events[..i] + events[i + 1..];
    WithoutOne(events, i);
  }

  lemma WithoutOne<T>(s: seq<T>, i: nat)
    requires Distinct(s) && i < |s|
    ensures var t := s[..i] + s[i + 1..];
            && Distinct(t)
            && (forall e | e in s && e != s[i] :: e in t)
            && (forall e | e in t :: e in s && e != s[i])
  {
  }

  /** Creations and destructions in any order on an initialised poller leave its list holding the
      last created event if the history ends with a creation, and nothing if it does not. */
  method Replay(pr: Process, p: Poller, history: seq<Change>) returns (events: seq<Event>)
    requires pr.Valid() && p in pr.pollers && p.last == null && AllOf(pr, p, []) && History(history)
    modifies pr`interest, pr`calls, pr`live, p`last, p.elist
    ensures pr.Valid() && AllOf(pr, p, events) && |events| == LiveCount(history)
    ensures history == [] || history[|history| - 1].Gone? ==> Linked(p.elist, [])
    ensures history != [] && history[|history| - 1].Opened? ==>
              events != [] && Linked(p.elist, [events[|events| - 1].list])
  {
    events := [];
    for k := 0 to |history|
      invariant pr.Valid() && p in pr.pollers && AllOf(pr, p, events) && |events| == LiveCount(history[..k])
      invariant forall e | e in events :: fresh(e) && fresh(e.list)
      invariant k == 0 || history[k - 1].Gone? ==> p.last == null
      invariant 0 < k && history[k - 1].Opened? ==> events != [] && p.last == events[|events| - 1]
    {
      assert history[..k + 1][..k] == history[..k];
      if history[k].Opened? {
        events := Opening(pr, p, history[k].fd, events);
      } else {
        assert events[history[k].i] in events;
        events := Going(pr, p, history[k].i, events);
      }
    }
    assert history[..|history|] == history;
    RegistryRing(pr, p);
  }

  /** With two live events on a poller, its list is not the registry of them. */
  lemma TwoAreNotListed(pr: Process, p: Poller, e: Event, d: Event)
    requires pr.Valid() && p in pr.pollers && e in pr.live && d in pr.live && e != d && e.gpoller == d.gpoller == p
    ensures !exists s :: ListsLive(pr, p, s)
  {
    ListsLiveExactly(pr, p);
  }

  method CreateTwo(pr: Process, p: Poller, fd1: int, fd2: int) returns (first: Event, second: Event)
    requires pr.Valid() && p in pr.pollers
    modifies pr`interest, pr`calls, pr`live, p`last, p.elist
    ensures pr.Valid() && p in pr.pollers && p.last == second && fresh(second) && fresh(second.list)
    ensures first in pr.live && second in pr.live && first != second && first.gpoller == second.gpoller == p
    ensures !exists s :: ListsLive(pr, p, s)
  {
    first := pr.GeventCreate(fd1, p, true);
    second := pr.GeventCreate(fd2, p, true);
    TwoAreNotListed(pr, p, first, second);
  }

  /** Two creations and the destruction of the second: the list is empty while the first is live,
      and cleaning up does not warn. */
  method Misled(pr: Process, p: Poller, fd1: int, fd2: int) returns (first: Event, warned: bool)
    requires pr.Valid() && p in pr.pollers
    modifies pr`interest, pr`calls, pr`live, p`last, p.elist
    ensures pr.Valid() && first in pr.live && first.gpoller == p && !warned
    ensures Linked(p.elist, []) && !exists s :: ListsLive(pr, p, s)
  {
    var second;
    first, second := CreateTwo(pr, p, fd1, fd2);
    pr.GeventDestroy(second);
    warned := PollerClean(p, pr);
    RegistryRing(pr, p);
    ListsLiveExactly(pr, p);
  }
}
