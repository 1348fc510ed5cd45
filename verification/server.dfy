/** The running server: a network thread that accepts connections and hands each to one of N data
    pollers, and one thread per data poller that dispatches its events.  The steps of all threads
    interleave; between an accept and the event's first registration with the kernel there are
    three steps of the network thread, and any other thread may act in between. */
module Server {
  import opened Common
  import opened PollerState
  import opened DivisionFacts

  datatype Config<!P(==)> = Config(net: P, data: seq<P>)

  ghost predicate GoodConfig<P>(cfg: Config<P>) {
    cfg.data != [] && cfg.net !in cfg.data && Distinct(cfg.data)
  }

  /** One slot of the array epoll_wait fills. */
  datatype Ready<+E> = Ready(revents: Mask, ptr: Option<E>)

  /** An event the network thread has created and not yet started; its callback is to be cb. */
  datatype Pending<+E> = Pending(e: E, cb: Callback, hasCb: bool)

  /** batch holds what is left of each poller's array of ready events, served the events already
      dispatched from it. */
  datatype Server<!E(==), !P(==)> = Server(s: State<E, P>, open: set<int>, batch: map<P, seq<Ready<E>>>,
                                           served: map<P, seq<E>>, pending: Option<Pending<E>>)

  datatype Step<E, P> =
    | Listen(lfd: int, e: E)
    | Wait(p: P, reports: seq<(int, Mask)>)
    | Read(p: P, ret: int, errno: int)
    | AcceptNothing(p: P)
    | AcceptLeak(p: P, cfd: int)
    | Accept(p: P, cfd: int, e: E)
    | Assign
    | Arm(refuse: bool)
    | Ignore(p: P)

  ghost function Pollers<P>(cfg: Config<P>): set<P> {
    {cfg.net} + set p | p in cfg.data
  }

  ghost function Initial<E, P>(cfg: Config<P>): Server<E, P> {
    Server(State(map[], map[]), {}, map p | p in Pollers(cfg) :: [], map p | p in Pollers(cfg) :: [], None)
  }

  /** gt_network_round_dispatch: sockfd % DIM(g_gt_datanet_pthread). */
  ghost function Shard<P>(cfg: Config<P>, fd: int): P
    requires cfg.data != []
  {
    cfg.data[fd % |cfg.data|]
  }

  /** epoll_wait(2): distinct watched descriptors of p, each with bits it is watched for, EPOLLERR
      and EPOLLHUP being reported unasked. */
  ghost predicate KernelReports<E, P>(k: Interest<E, P>, p: P, reports: seq<(int, Mask)>) {
    && (forall i | 0 <= i < |reports| :: (p, reports[i].0) in k && reports[i].1 <= k[(p, reports[i].0)].mask + {EpollErr, EpollHup})
    && (forall i, j | 0 <= i < j < |reports| :: reports[i].0 != reports[j].0)
  }

  ghost function Batch<E, P>(k: Interest<E, P>, p: P, reports: seq<(int, Mask)>): seq<Ready<E>>
    requires KernelReports(k, p, reports)
  {
    seq(|reports|, i requires 0 <= i < |reports| => Ready(reports[i].1, k[(p, reports[i].0)].ptr))
  }

  /** The network thread is in the middle of a callback. */
  ghost predicate Busy<E, P>(cfg: Config<P>, sv: Server<E, P>, p: P) {
    sv.pending.Some? && p == cfg.net
  }

  /** The next call of p's thread is the read callback cb. */
  ghost predicate Calls<E, P>(cfg: Config<P>, sv: Server<E, P>, p: P, cb: Callback) {
    && p in sv.batch && sv.batch[p] != [] && p in sv.served && !Busy(cfg, sv, p)
    && EpollIn in sv.batch[p][0].revents
    && sv.batch[p][0].ptr.Some? && sv.batch[p][0].ptr.value in sv.s.events
    && sv.s.events[sv.batch[p][0].ptr.value].read == cb
  }

  /** The next slot of p's array makes the dispatch loop follow a pointer to no live event, or call
      a callback nobody set. */
  ghost predicate Faults<E, P>(sv: Server<E, P>, p: P)
    requires p in sv.batch && sv.batch[p] != []
  {
    var r := sv.batch[p][0];
    if EpollIn in r.revents then r.ptr.None? || r.ptr.value !in sv.s.events || sv.s.events[r.ptr.value].read == Unset
    else EpollOut in r.revents && (r.ptr.None? || r.ptr.value !in sv.s.events || sv.s.events[r.ptr.value].write == Unset)
  }

  /** What the environment guarantees: new descriptors are not open, new events are not live,
      epoll_wait reports what is watched. */
  ghost predicate Enabled<E, P>(cfg: Config<P>, sv: Server<E, P>, step: Step<E, P>) {
    match step
    case Listen(lfd, e) => sv.pending.None? && lfd !in sv.open && e !in sv.s.events
    case Wait(p, reports) => p in sv.batch && sv.batch[p] == [] && !Busy(cfg, sv, p) && KernelReports(sv.s.interest, p, reports)
    case Read(p, _, _) => Calls(cfg, sv, p, DatanetRead)
    case AcceptNothing(p) => sv.pending.None? && Calls(cfg, sv, p, NetworkRead)
    case AcceptLeak(p, cfd) => sv.pending.None? && 0 <= cfd && cfd !in sv.open && Calls(cfg, sv, p, NetworkRead)
    case Accept(p, cfd, e) => sv.pending.None? && 0 <= cfd && cfd !in sv.open && e !in sv.s.events && Calls(cfg, sv, p, NetworkRead)
    case Assign => sv.pending.Some? && !sv.pending.value.hasCb && sv.pending.value.e in sv.s.events
    case Arm(_) => sv.pending.Some? && sv.pending.value.hasCb && sv.pending.value.e in sv.s.events
    case Ignore(p) =>
      && p in sv.batch && sv.batch[p] != [] && p in sv.served && !Busy(cfg, sv, p)
      && EpollIn !in sv.batch[p][0].revents && EpollOut !in sv.batch[p][0].revents
  }

  ghost function Popped<E, P>(sv: Server<E, P>, p: P): Server<E, P>
    requires p in sv.batch && sv.batch[p] != [] && p in sv.served
  {
    var r := sv.batch[p][0];
    sv.(batch := sv.batch[p := sv.batch[p][1..]],
        served := if r.ptr.Some? then sv.served[p := sv.served[p] + [r.ptr.value]] else sv.served)
  }

  /** gt_datanet_ops_read, on what read(2) returned and left in errno. */
  ghost function AfterRead<E, P>(s: State<E, P>, e: E, ret: int, errno: int): State<E, P>
    requires e in s.events
  {
    if ret > 0 || errno == EAGAIN then s else Destroy(Stop(s, {EpollIn}, e).1, e)
  }

  ghost function Next<E, P>(cfg: Config<P>, sv: Server<E, P>, step: Step<E, P>): Server<E, P>
    requires cfg.data != [] && Enabled(cfg, sv, step)
  {
    match step
    case Listen(lfd, e) =>
      sv.(s := Create(sv.s, e, lfd, cfg.net), open := sv.open + {lfd}, pending := Some(Pending(e, NetworkRead, false)))
    case Wait(p, reports) =>
      sv.(batch := sv.batch[p := Batch(sv.s.interest, p, reports)], served := sv.served[p := []])
    case Read(p, ret, errno) =>
      var e := sv.batch[p][0].ptr.value;
      var s' := AfterRead(sv.s, e, ret, errno);
      Popped(sv, p).(s := s', open := if e in s'.events then sv.open else sv.open - {sv.s.events[e].efd})
    case AcceptNothing(p) => Popped(sv, p)
    case AcceptLeak(p, cfd) => Popped(sv, p).(open := sv.open + {cfd})
    case Accept(p, cfd, e) =>
      Popped(sv, p).(s := Create(sv.s, e, cfd, Shard(cfg, cfd)), open := sv.open + {cfd},
                     pending := Some(Pending(e, DatanetRead, false)))
    case Assign =>
      sv.(s := SetRead(sv.s, sv.pending.value.e, sv.pending.value.cb), pending := Some(sv.pending.value.(hasCb := true)))
    case Arm(refuse) =>
      sv.(s := Start(sv.s, {EpollIn}, sv.pending.value.e, refuse).1, pending := None)
    case Ignore(p) => Popped(sv, p)
  }

  // ---- the invariant ----

  ghost predicate EventOk<E, P>(cfg: Config<P>, sv: Server<E, P>, e: E)
    requires e in sv.s.events && cfg.data != []
  {
    var v := sv.s.events[e];
    && v.efd in sv.open
    && v.mask <= {EpollIn}
    && (v.mask != {} ==> v.ptr == Some(e) && v.read != Unset)
    && (v.poller == cfg.net ==> v.read != DatanetRead)
    && (v.poller != cfg.net ==> v.poller == Shard(cfg, v.efd) && v.read != NetworkRead)
  }

  /** What the kernel holds for a watched descriptor belongs to a live event with its callback set. */
  ghost predicate WatchOk<E, P>(s: State<E, P>, w: (P, int))
    requires w in s.interest
  {
    var n := s.interest[w];
    && n.ptr.Some? && n.ptr.value in s.events
    && var v := s.events[n.ptr.value];
       && v.poller == w.0 && v.efd == w.1 && v.read != Unset && n.mask <= {EpollIn} && (n.mask == v.mask || n.mask == {})
  }

  ghost predicate ReadyOk<E, P>(s: State<E, P>, p: P, r: Ready<E>) {
    && r.revents <= {EpollIn, EpollErr, EpollHup}
    && r.ptr.Some? && r.ptr.value in s.events
    && var v := s.events[r.ptr.value]; v.poller == p && v.read != Unset && (p, v.efd) in s.interest
  }

  ghost function Ptrs<E>(b: seq<Ready<E>>): seq<Option<E>> {
    seq(|b|, i requires 0 <= i < |b| => b[i].ptr)
  }

  ghost function Somes<E>(s: seq<E>): seq<Option<E>> {
    seq(|s|, i requires 0 <= i < |s| => Some(s[i]))
  }

  ghost predicate BatchOk<E, P>(sv: Server<E, P>, p: P)
    requires p in sv.batch && p in sv.served
  {
    && (forall i | 0 <= i < |sv.batch[p]| :: ReadyOk(sv.s, p, sv.batch[p][i]))
    && Distinct(Somes(sv.served[p]) + Ptrs(sv.batch[p]))
  }

  ghost predicate PendingOk<E, P>(cfg: Config<P>, sv: Server<E, P>) {
    sv.pending.Some? ==>
      var n := sv.pending.value;
      && n.e in sv.s.events
      && var v := sv.s.events[n.e];
         && v.mask == {} && v.read == (if n.hasCb then n.cb else Unset) && n.cb != Unset
         && (v.poller, v.efd) !in sv.s.interest
         && (n.cb == NetworkRead <==> v.poller == cfg.net)
  }

  ghost predicate Inv<E, P>(cfg: Config<P>, sv: Server<E, P>)
    requires cfg.data != []
  {
    && sv.batch.Keys == sv.served.Keys == Pollers(cfg)
    && (forall e | e in sv.s.events :: EventOk(cfg, sv, e))
    && (forall e, d | e in sv.s.events && d in sv.s.events && sv.s.events[e].efd == sv.s.events[d].efd :: e == d)
    && (forall w | w in sv.s.interest :: WatchOk(sv.s, w))
    && (forall p | p in sv.batch :: BatchOk(sv, p))
    && PendingOk(cfg, sv)
  }

  // ---- every step keeps it ----

  lemma InitialInv<E, P>(cfg: Config<P>)
    requires cfg.data != []
    ensures Inv(cfg, Initial<E, P>(cfg))
  {
  }

  /** Arrays stay good while their events stay live, on their pollers, watched and with callbacks. */
  lemma BatchKept<E, P>(sv: Server<E, P>, t: Server<E, P>, p: P)
    requires p in sv.batch && p in sv.served && BatchOk(sv, p)
    requires p in t.batch && p in t.served && t.batch[p] == sv.batch[p] && t.served[p] == sv.served[p]
    requires sv.s.interest.Keys <= t.s.interest.Keys
    requires forall e | e in sv.s.events ::
               && e in t.s.events && t.s.events[e].poller == sv.s.events[e].poller && t.s.events[e].efd == sv.s.events[e].efd
               && (sv.s.events[e].read != Unset ==> t.s.events[e].read != Unset)
    ensures BatchOk(t, p)
  {
    forall i | 0 <= i < |t.batch[p]| ensures ReadyOk(t.s, p, t.batch[p][i]) {
      assert ReadyOk(sv.s, p, sv.batch[p][i]);
    }
  }

  lemma ServedNext<E>(served: seq<E>, b: seq<Ready<E>>)
    requires b != [] && b[0].ptr.Some?
    ensures Somes(served + [b[0].ptr.value]) + Ptrs(b[1..]) == Somes(served) + Ptrs(b)
  {
  }

  lemma PoppedInv<E, P>(cfg: Config<P>, sv: Server<E, P>, p: P)
    requires cfg.data != [] && Inv(cfg, sv) && p in sv.batch && sv.batch[p] != []
    ensures Inv(cfg, Popped(sv, p))
  {
    var t := Popped(sv, p);
    assert BatchOk(sv, p) && ReadyOk(sv.s, p, sv.batch[p][0]);
    ServedNext(sv.served[p], sv.batch[p]);
    forall i | 0 <= i < |t.batch[p]| ensures ReadyOk(t.s, p, t.batch[p][i]) {
      assert t.batch[p][i] == sv.batch[p][i + 1];
    }
  }

  lemma CreateInv<E, P>(cfg: Config<P>, sv: Server<E, P>, e: E, fd: int, p: P, cb: Callback)
    requires cfg.data != [] && Inv(cfg, sv) && sv.pending.None?
    requires e !in sv.s.events && fd !in sv.open
    requires cb != Unset && (cb == NetworkRead <==> p == cfg.net) && (p != cfg.net ==> p == Shard(cfg, fd))
    ensures Inv(cfg, sv.(s := Create(sv.s, e, fd, p), open := sv.open + {fd}, pending := Some(Pending(e, cb, false))))
  {
    var t := sv.(s := Create(sv.s, e, fd, p), open := sv.open + {fd}, pending := Some(Pending(e, cb, false)));
    forall d | d in t.s.events ensures EventOk(cfg, t, d) {
      assert d != e ==> EventOk(cfg, sv, d);
    }
    forall w | w in t.s.interest ensures WatchOk(t.s, w) && w.1 != fd {
      assert WatchOk(sv.s, w);
      assert EventOk(cfg, sv, sv.s.interest[w].ptr.value);
    }
    forall q | q in t.batch ensures BatchOk(t, q) {
      BatchKept(sv, t, q);
    }
  }

  lemma AssignInv<E, P>(cfg: Config<P>, sv: Server<E, P>)
    requires cfg.data != [] && Inv(cfg, sv) && Enabled(cfg, sv, Step<E, P>.Assign)
    ensures Inv(cfg, Next(cfg, sv, Step<E, P>.Assign))
  {
    var t, e := Next(cfg, sv, Step<E, P>.Assign), sv.pending.value.e;
    forall d | d in t.s.events ensures EventOk(cfg, t, d) {
      assert EventOk(cfg, sv, d);
    }
    forall w | w in t.s.interest ensures WatchOk(t.s, w) {
      assert WatchOk(sv.s, w);
    }
    forall q | q in t.batch ensures BatchOk(t, q) {
      BatchKept(sv, t, q);
    }
  }

  /** A first start records one bit, and the kernel records it too unless it refuses. */
  lemma Armed<E, P>(s: State<E, P>, e: E, refuse: bool)
    requires e in s.events && s.events[e].mask == {} && (s.events[e].poller, s.events[e].efd) !in s.interest
    ensures var v, s' := s.events[e], Start(s, {EpollIn}, e, refuse).1;
            && s'.events == s.events[e := v.(mask := {EpollIn}, ptr := Some(e))]
            && s'.interest == if refuse then s.interest else s.interest[(v.poller, v.efd) := Entry({EpollIn}, Some(e))]
  {
    assert s.events[e].mask + {EpollIn} == {EpollIn};
  }

  lemma ArmInv<E, P>(cfg: Config<P>, sv: Server<E, P>, refuse: bool)
    requires cfg.data != [] && Inv(cfg, sv) && Enabled(cfg, sv, Step<E, P>.Arm(refuse))
    ensures Inv(cfg, Next(cfg, sv, Step<E, P>.Arm(refuse)))
  {
    var e := sv.pending.value.e;
    var s' := Start(sv.s, {EpollIn}, e, refuse).1;
    Armed(sv.s, e, refuse);
    WatchedInv(cfg, sv, e, s', refuse);
  }

  lemma WatchedInv<E, P>(cfg: Config<P>, sv: Server<E, P>, e: E, s': State<E, P>, refuse: bool)
    requires cfg.data != [] && Inv(cfg, sv) && sv.pending.Some? && sv.pending.value.hasCb && e == sv.pending.value.e
    requires var v := sv.s.events[e];
             && s'.events == sv.s.events[e := v.(mask := {EpollIn}, ptr := Some(e))]
             && s'.interest == if refuse then sv.s.interest else sv.s.interest[(v.poller, v.efd) := Entry({EpollIn}, Some(e))]
    ensures Inv(cfg, sv.(s := s', pending := None))
  {
    var t := sv.(s := s', pending := None);
    forall d | d in t.s.events ensures EventOk(cfg, t, d) {
      assert EventOk(cfg, sv, d);
    }
    forall w | w in t.s.interest ensures WatchOk(t.s, w) {
      assert w in sv.s.interest ==> WatchOk(sv.s, w);
    }
    forall q | q in t.batch ensures BatchOk(t, q) {
      BatchKept(sv, t, q);
    }
  }

  lemma WaitInv<E, P>(cfg: Config<P>, sv: Server<E, P>, p: P, reports: seq<(int, Mask)>)
    requires cfg.data != [] && Inv(cfg, sv) && Enabled(cfg, sv, Step<E, P>.Wait(p, reports))
    ensures Inv(cfg, Next(cfg, sv, Step<E, P>.Wait(p, reports)))
  {
    var t := Next(cfg, sv, Step<E, P>.Wait(p, reports));
    var b := t.batch[p];
    forall i | 0 <= i < |b| ensures ReadyOk(t.s, p, b[i]) && t.s.events[b[i].ptr.value].efd == reports[i].0 {
      assert WatchOk(sv.s, (p, reports[i].0));
    }
    assert Somes(t.served[p]) + Ptrs(b) == Ptrs(b);
    forall q | q in t.batch ensures BatchOk(t, q) {
      assert BatchOk(sv, q);
    }
  }

  ghost function Dropped<E, P>(sv: Server<E, P>, e: E): Server<E, P>
    requires e in sv.s.events
  {
    var v := sv.s.events[e];
    sv.(s := State(sv.s.interest - {(v.poller, v.efd)}, sv.s.events - {e}), open := sv.open - {v.efd})
  }

  /** An event no array slot and no unfinished accept refers to can go. */
  lemma DroppedInv<E, P>(cfg: Config<P>, sv: Server<E, P>, e: E)
    requires cfg.data != [] && Inv(cfg, sv) && e in sv.s.events
    requires forall p, i | p in sv.batch && 0 <= i < |sv.batch[p]| :: sv.batch[p][i].ptr != Some(e)
    requires sv.pending.Some? ==> sv.pending.value.e != e
    ensures Inv(cfg, Dropped(sv, e))
  {
    var t, v := Dropped(sv, e), sv.s.events[e];
    forall d | d in t.s.events ensures EventOk(cfg, t, d) {
      assert EventOk(cfg, sv, d);
    }
    forall w | w in t.s.interest ensures WatchOk(t.s, w) {
      assert WatchOk(sv.s, w);
    }
    forall q | q in t.batch ensures BatchOk(t, q) {
      assert BatchOk(sv, q);
      forall i | 0 <= i < |t.batch[q]| ensures ReadyOk(t.s, q, t.batch[q][i]) {
        assert ReadyOk(sv.s, q, sv.batch[q][i]);
      }
    }
  }

  lemma ReadDestroys<E, P>(cfg: Config<P>, sv: Server<E, P>, e: E)
    requires cfg.data != [] && Inv(cfg, sv) && e in sv.s.events
    ensures var v, s' := sv.s.events[e], Destroy(Stop(sv.s, {EpollIn}, e).1, e);
            && s'.events == sv.s.events - {e}
            && s'.interest == sv.s.interest - {(v.poller, v.efd)}
  {
    forall w | w in sv.s.interest && w.1 == sv.s.events[e].efd ensures w.0 == sv.s.events[e].poller {
      assert WatchOk(sv.s, w);
    }
    DestroyDrops(sv.s, e);
  }

  /** Stopping, destroying and closing, where one poller at most watches the descriptor. */
  lemma DestroyDrops<E, P>(s: State<E, P>, e: E)
    requires e in s.events && forall w | w in s.interest && w.1 == s.events[e].efd :: w.0 == s.events[e].poller
    ensures var v, s' := s.events[e], Destroy(Stop(s, {EpollIn}, e).1, e);
            && s'.events == s.events - {e}
            && s'.interest == s.interest - {(v.poller, v.efd)}
  {
  }

  /** The read callback ends an event if and only if read returned 0 or less and errno was not
      EAGAIN; otherwise it changes nothing. */
  lemma ReadEndsExactly<E, P>(cfg: Config<P>, sv: Server<E, P>, e: E, ret: int, errno: int)
    requires cfg.data != [] && Inv(cfg, sv) && e in sv.s.events
    ensures e !in AfterRead(sv.s, e, ret, errno).events <==> ret <= 0 && errno != EAGAIN
    ensures e in AfterRead(sv.s, e, ret, errno).events <==> AfterRead(sv.s, e, ret, errno) == sv.s
  {
    ReadDestroys(cfg, sv, e);
  }

  /** A dispatched event is not in any array any more, and is not the one being accepted. */
  lemma PoppedForgets<E, P>(cfg: Config<P>, sv: Server<E, P>, p: P)
    requires cfg.data != [] && Inv(cfg, sv) && p in sv.batch && sv.batch[p] != []
    ensures var t, e := Popped(sv, p), sv.batch[p][0].ptr;
            && (forall q, i | q in t.batch && 0 <= i < |t.batch[q]| :: t.batch[q][i].ptr != e)
            && (t.pending.Some? ==> Some(t.pending.value.e) != e)
  {
    var t, e := Popped(sv, p), sv.batch[p][0].ptr;
    assert BatchOk(sv, p) && ReadyOk(sv.s, p, sv.batch[p][0]);
    forall q, i | q in t.batch && 0 <= i < |t.batch[q]| ensures t.batch[q][i].ptr != e {
      if q == p {
        var all, n := Somes(sv.served[p]) + Ptrs(sv.batch[p]), |sv.served[p]|;
        assert all[n] == e && all[n + 1 + i] == t.batch[q][i].ptr;
      } else {
        assert BatchOk(sv, q) && ReadyOk(sv.s, q, sv.batch[q][i]);
      }
    }
  }

  lemma ReadDrops<E, P>(cfg: Config<P>, sv: Server<E, P>, p: P, ret: int, errno: int)
    requires cfg.data != [] && Inv(cfg, sv) && Enabled(cfg, sv, Step<E, P>.Read(p, ret, errno))
    ensures Next(cfg, sv, Step<E, P>.Read(p, ret, errno)) ==
            if ret <= 0 && errno != EAGAIN then Dropped(Popped(sv, p), sv.batch[p][0].ptr.value) else Popped(sv, p)
  {
    ReadDestroys(cfg, sv, sv.batch[p][0].ptr.value);
  }

  /** Dispatching a data event: it may go away, and nothing refers to it any more. */
  lemma ReadInv<E, P>(cfg: Config<P>, sv: Server<E, P>, p: P, ret: int, errno: int)
    requires cfg.data != [] && Inv(cfg, sv) && Enabled(cfg, sv, Step<E, P>.Read(p, ret, errno))
    ensures Inv(cfg, Next(cfg, sv, Step<E, P>.Read(p, ret, errno)))
  {
    PoppedInv(cfg, sv, p);
    ReadDrops(cfg, sv, p, ret, errno);
    if ret <= 0 && errno != EAGAIN {
      PoppedForgets(cfg, sv, p);
      DroppedInv(cfg, Popped(sv, p), sv.batch[p][0].ptr.value);
    }
  }

  lemma LeakInv<E, P>(cfg: Config<P>, sv: Server<E, P>, fd: int)
    requires cfg.data != [] && Inv(cfg, sv)
    ensures Inv(cfg, sv.(open := sv.open + {fd}))
  {
    var t := sv.(open := sv.open + {fd});
    forall d | d in t.s.events ensures EventOk(cfg, t, d) {
      assert EventOk(cfg, sv, d);
    }
    forall q | q in t.batch ensures BatchOk(t, q) {
      assert BatchOk(sv, q);
    }
  }

  lemma StepInv<E, P>(cfg: Config<P>, sv: Server<E, P>, step: Step<E, P>)
    requires GoodConfig(cfg) && Inv(cfg, sv) && Enabled(cfg, sv, step)
    ensures Inv(cfg, Next(cfg, sv, step))
  {
    match step
    case Listen(lfd, e) => CreateInv(cfg, sv, e, lfd, cfg.net, NetworkRead);
    case Wait(p, reports) => WaitInv(cfg, sv, p, reports);
    case Read(p, ret, errno) => ReadInv(cfg, sv, p, ret, errno);
    case AcceptNothing(p) => PoppedInv(cfg, sv, p);
    case AcceptLeak(p, cfd) => PoppedInv(cfg, sv, p); LeakInv(cfg, Popped(sv, p), cfd);
    case Accept(p, cfd, e) =>
      PoppedInv(cfg, sv, p);
      assert Shard(cfg, cfd) in cfg.data;
      CreateInv(cfg, Popped(sv, p), e, cfd, Shard(cfg, cfd), DatanetRead);
    case Assign => AssignInv(cfg, sv);
    case Arm(refuse) => ArmInv(cfg, sv, refuse);
    case Ignore(p) => PoppedInv(cfg, sv, p);
  }

  // ---- what it means ----

  ghost predicate Safe<E, P>(sv: Server<E, P>) {
    forall p | p in sv.batch && sv.batch[p] != [] :: !Faults(sv, p)
  }

  /** Data poller k watches only descriptors congruent to k, and no descriptor is watched twice. */
  ghost predicate Sharded<E, P>(cfg: Config<P>, sv: Server<E, P>)
    requires cfg.data != []
  {
    && (forall k, fd | 0 <= k < |cfg.data| && (cfg.data[k], fd) in sv.s.interest :: fd % |cfg.data| == k)
    && (forall w, w' | w in sv.s.interest && w' in sv.s.interest && w.1 == w'.1 :: w == w')
  }

  /** Nothing is watched before its callback is set, and nothing is watched for EPOLLOUT. */
  ghost predicate CallbacksReady<E, P>(sv: Server<E, P>) {
    forall w | w in sv.s.interest ::
      var n := sv.s.interest[w];
      n.mask <= {EpollIn} && n.ptr.Some? && n.ptr.value in sv.s.events && sv.s.events[n.ptr.value].read != Unset
  }

  /** Live events have different descriptors, and no event is dispatched twice from one array. */
  ghost predicate ServedOnce<E, P>(sv: Server<E, P>) {
    && (forall e, d | e in sv.s.events && d in sv.s.events && sv.s.events[e].efd == sv.s.events[d].efd :: e == d)
    && (forall p | p in sv.batch && p in sv.served :: Distinct(Somes(sv.served[p]) + Ptrs(sv.batch[p])))
  }

  lemma InvMeans<E, P>(cfg: Config<P>, sv: Server<E, P>)
    requires GoodConfig(cfg) && Inv(cfg, sv)
    ensures Safe(sv) && Sharded(cfg, sv) && CallbacksReady(sv) && ServedOnce(sv)
  {
    forall p | p in sv.batch && sv.batch[p] != [] ensures !Faults(sv, p) {
      assert BatchOk(sv, p) && ReadyOk(sv.s, p, sv.batch[p][0]);
    }
    forall w | w in sv.s.interest ensures WatchOk(sv.s, w) && EventOk(cfg, sv, sv.s.interest[w].ptr.value) {
    }
    forall w, w' | w in sv.s.interest && w' in sv.s.interest && w.1 == w'.1 ensures w == w' {
      assert WatchOk(sv.s, w) && WatchOk(sv.s, w');
    }
    forall p | p in sv.batch ensures BatchOk(sv, p) {
    }
  }

  /** What the next slot of an array can be. */
  lemma NextSlot<E, P>(cfg: Config<P>, sv: Server<E, P>, p: P)
    requires GoodConfig(cfg) && Inv(cfg, sv) && p in sv.batch && sv.batch[p] != []
    ensures var r := sv.batch[p][0];
            && EpollOut !in r.revents && r.ptr.Some? && r.ptr.value in sv.s.events
            && sv.s.events[r.ptr.value].read == if p == cfg.net then NetworkRead else DatanetRead
  {
    assert BatchOk(sv, p) && ReadyOk(sv.s, p, sv.batch[p][0]) && EventOk(cfg, sv, sv.batch[p][0].ptr.value);
  }

  /** The dispatch loop never gets stuck: the next slot of an array is one of the three kinds of
      work the steps describe, whatever read, accept and the kernel answer. */
  lemma AlwaysDispatches<E, P>(cfg: Config<P>, sv: Server<E, P>, p: P)
    requires GoodConfig(cfg) && Inv(cfg, sv) && p in sv.batch && sv.batch[p] != [] && !Busy(cfg, sv, p)
    ensures Enabled(cfg, sv, Step<E, P>.Ignore(p)) || Calls(cfg, sv, p, NetworkRead)
            || forall ret, errno :: Enabled(cfg, sv, Step<E, P>.Read(p, ret, errno))
    ensures Calls(cfg, sv, p, NetworkRead) ==> p == cfg.net && sv.pending.None?
  {
    assert BatchOk(sv, p) && ReadyOk(sv.s, p, sv.batch[p][0]) && EventOk(cfg, sv, sv.batch[p][0].ptr.value);
  }

  /** run is the states steps lead through. */
  ghost predicate IsPath<E, P>(cfg: Config<P>, run: seq<Server<E, P>>, steps: seq<Step<E, P>>)
    requires cfg.data != []
  {
    && |run| == |steps| + 1
    && forall i | 0 <= i < |steps| :: Enabled(cfg, run[i], steps[i]) && run[i + 1] == Next(cfg, run[i], steps[i])
  }

  ghost predicate IsRun<E, P>(cfg: Config<P>, run: seq<Server<E, P>>, steps: seq<Step<E, P>>)
    requires cfg.data != []
  {
    IsPath(cfg, run, steps) && run[0] == Initial(cfg)
  }

  lemma PathJoin<E, P>(cfg: Config<P>, run: seq<Server<E, P>>, steps: seq<Step<E, P>>, run': seq<Server<E, P>>, steps': seq<Step<E, P>>)
    requires cfg.data != [] && IsPath(cfg, run, steps) && IsPath(cfg, run', steps') && run[|steps|] == run'[0]
    ensures IsPath(cfg, run + run'[1..], steps + steps')
    ensures (run + run'[1..])[|steps| + |steps'|] == run'[|steps'|]
  {
    var r, t := run + run'[1..], steps + steps';
    forall i | 0 <= i < |t| ensures Enabled(cfg, r[i], t[i]) && r[i + 1] == Next(cfg, r[i], t[i]) {
      if i >= |steps| {
        assert r[i] == run'[i - |steps|] && t[i] == steps'[i - |steps|];
      }
    }
  }

  lemma {:induction false} PathInv<E, P>(cfg: Config<P>, run: seq<Server<E, P>>, steps: seq<Step<E, P>>, i: nat)
    requires GoodConfig(cfg) && IsPath(cfg, run, steps) && i < |run| && Inv(cfg, run[0])
    ensures Inv(cfg, run[i])
  {
    if i > 0 {
      PathInv(cfg, run, steps, i - 1);
      StepInv(cfg, run[i - 1], steps[i - 1]);
    }
  }

  /** What the two steps after a creation come to. */
  lemma Finish<E, P>(cfg: Config<P>, sv: Server<E, P>, e: E, fd: int, p: P, cb: Callback, refuse: bool)
    requires cfg.data != []
    ensures var s1 := sv.(s := Create(sv.s, e, fd, p), pending := Some(Pending(e, cb, false)));
            && Enabled(cfg, s1, Step<E, P>.Assign)
            && var s2 := Next(cfg, s1, Step<E, P>.Assign);
               && Enabled(cfg, s2, Step<E, P>.Arm(refuse))
               && Next(cfg, s2, Step<E, P>.Arm(refuse)) == sv.(s := Started(sv.s, e, fd, p, cb, refuse).1, pending := None)
  {
  }

  lemma ThreeSteps<E, P>(cfg: Config<P>, sv: Server<E, P>, a: Step<E, P>, b: Step<E, P>, c: Step<E, P>)
    requires cfg.data != []
    requires Enabled(cfg, sv, a) && Enabled(cfg, Next(cfg, sv, a), b) && Enabled(cfg, Next(cfg, Next(cfg, sv, a), b), c)
    ensures var s1 := Next(cfg, sv, a); var s2 := Next(cfg, s1, b); var s3 := Next(cfg, s2, c);
            IsPath(cfg, [sv, s1, s2, s3], [a, b, c])
  {
  }

  /** The three steps that take in a connection. */
  lemma AcceptPath<E, P>(cfg: Config<P>, sv: Server<E, P>, p: P, cfd: int, e: E, refuse: bool)
    returns (run: seq<Server<E, P>>, steps: seq<Step<E, P>>)
    requires GoodConfig(cfg) && Inv(cfg, sv) && Enabled(cfg, sv, Step<E, P>.Accept(p, cfd, e))
    ensures IsPath(cfg, run, steps) && run[0] == sv && Inv(cfg, run[|steps|])
    ensures run[|steps|] == Popped(sv, p).(s := Started(sv.s, e, cfd, Shard(cfg, cfd), DatanetRead, refuse).1, open := sv.open + {cfd})
  {
    var s1 := Next(cfg, sv, Step<E, P>.Accept(p, cfd, e));
    Finish(cfg, Popped(sv, p).(open := sv.open + {cfd}), e, cfd, Shard(cfg, cfd), DatanetRead, refuse);
    var s2 := Next(cfg, s1, Step<E, P>.Assign);
    var s3 := Next(cfg, s2, Step<E, P>.Arm(refuse));
    steps := [Step.Accept(p, cfd, e), Step.Assign, Step.Arm(refuse)];
    run := [sv, s1, s2, s3];
    ThreeSteps(cfg, sv, steps[0], steps[1], steps[2]);
    PathInv(cfg, run, steps, 3);
  }

  /** The three steps that set up the listening event. */
  lemma ListenPath<E, P>(cfg: Config<P>, sv: Server<E, P>, lfd: int, e: E, refuse: bool)
    returns (run: seq<Server<E, P>>, steps: seq<Step<E, P>>)
    requires GoodConfig(cfg) && Inv(cfg, sv) && Enabled(cfg, sv, Step<E, P>.Listen(lfd, e))
    ensures IsPath(cfg, run, steps) && run[0] == sv && Inv(cfg, run[|steps|])
    ensures run[|steps|] == sv.(s := Started(sv.s, e, lfd, cfg.net, NetworkRead, refuse).1, open := sv.open + {lfd})
  {
    var s1 := Next(cfg, sv, Step<E, P>.Listen(lfd, e));
    Finish(cfg, sv.(open := sv.open + {lfd}), e, lfd, cfg.net, NetworkRead, refuse);
    var s2 := Next(cfg, s1, Step<E, P>.Assign);
    var s3 := Next(cfg, s2, Step<E, P>.Arm(refuse));
    steps := [Step.Listen(lfd, e), Step.Assign, Step.Arm(refuse)];
    run := [sv, s1, s2, s3];
    ThreeSteps(cfg, sv, steps[0], steps[1], steps[2]);
    PathInv(cfg, run, steps, 3);
  }

  /** A callback that is one step of the model. */
  lemma StepPath<E, P>(cfg: Config<P>, sv: Server<E, P>, step: Step<E, P>)
    returns (run: seq<Server<E, P>>, steps: seq<Step<E, P>>)
    requires GoodConfig(cfg) && Inv(cfg, sv) && Enabled(cfg, sv, step)
    ensures IsPath(cfg, run, steps) && steps == [step] && run == [sv, Next(cfg, sv, step)] && Inv(cfg, run[1])
  {
    steps, run := [step], [sv, Next(cfg, sv, step)];
    StepInv(cfg, sv, step);
  }

  lemma WatchedAreOpen<E, P>(cfg: Config<P>, sv: Server<E, P>)
    requires cfg.data != [] && Inv(cfg, sv)
    ensures forall w | w in sv.s.interest :: w.1 in sv.open
  {
    forall w | w in sv.s.interest ensures w.1 in sv.open {
      assert WatchOk(sv.s, w) && EventOk(cfg, sv, sv.s.interest[w].ptr.value);
    }
  }

  /** Over every interleaving of every thread: each pointer dispatched is live and its callback is
      set, no event is dispatched twice from one array, the data pollers' interest sets are
      disjoint shards, and nothing is watched before its callback is in place. */
  lemma RunsAreSafe<E, P>(cfg: Config<P>, run: seq<Server<E, P>>, steps: seq<Step<E, P>>, i: nat)
    requires GoodConfig(cfg) && IsRun(cfg, run, steps) && i < |run|
    ensures Safe(run[i]) && Sharded(cfg, run[i]) && CallbacksReady(run[i]) && ServedOnce(run[i])
  {
    InitialInv<E, P>(cfg);
    PathInv(cfg, run, steps, i);
    InvMeans(cfg, run[i]);
  }

  /** A connection the peer has closed, on a thread whose errno still says EAGAIN: read answers 0
      and leaves errno alone, the event survives, and the thread is back where it was, with the
      descriptor to be reported again, for as long as errno stays. */
  lemma EndOfFileMissed<E, P>(cfg: Config<P>, sv: Server<E, P>, p: P, fd: int)
    requires GoodConfig(cfg) && Inv(cfg, sv) && p in cfg.data && sv.batch[p] == []
    requires (p, fd) in sv.s.interest && EpollIn in sv.s.interest[(p, fd)].mask
    ensures var wait, read := Step<E, P>.Wait(p, [(fd, {EpollIn})]), Step<E, P>.Read(p, 0, EAGAIN);
            && Enabled(cfg, sv, wait) && Enabled(cfg, Next(cfg, sv, wait), read)
            && var t := Next(cfg, Next(cfg, sv, wait), read);
               Inv(cfg, t) && t == sv.(served := t.served)
  {
    var wait, read := Step<E, P>.Wait(p, [(fd, {EpollIn})]), Step<E, P>.Read(p, 0, EAGAIN);
    StepInv(cfg, sv, wait);
    var t := Next(cfg, sv, wait);
    NextSlot(cfg, t, p);
    TakenOut(sv.batch, p, t.batch[p]);
    StepInv(cfg, t, read);
  }

  lemma TakenOut<P, R>(batch: map<P, seq<R>>, p: P, b: seq<R>)
    requires p in batch && batch[p] == [] && |b| == 1
    ensures batch[p := b][p := b[1..]] == batch
  {
    assert b[1..] == [];
  }

  /** A watched descriptor stays watched until it is closed. */
  lemma WatchedUntilClosed<E, P>(cfg: Config<P>, sv: Server<E, P>, step: Step<E, P>, w: (P, int))
    requires GoodConfig(cfg) && Inv(cfg, sv) && Enabled(cfg, sv, step)
    requires w in sv.s.interest && w.1 in Next(cfg, sv, step).open
    ensures w in Next(cfg, sv, step).s.interest
  {
    if step.Read? {
      ReadDestroys(cfg, sv, sv.batch[step.p][0].ptr.value);
    }
  }

  /** An event whose start was refused: live, its descriptor open, but not watched. */
  ghost predicate Stranded<E, P>(sv: Server<E, P>, e: E) {
    && e in sv.s.events && sv.s.events[e].efd in sv.open
    && (sv.s.events[e].poller, sv.s.events[e].efd) !in sv.s.interest
    && (sv.pending.Some? ==> sv.pending.value.e != e)
  }

  lemma RefusedStrands<E, P>(cfg: Config<P>, sv: Server<E, P>, refuse: bool)
    requires GoodConfig(cfg) && Inv(cfg, sv) && Enabled(cfg, sv, Step<E, P>.Arm(refuse))
    ensures Stranded(Next(cfg, sv, Step<E, P>.Arm(refuse)), sv.pending.value.e) <==> refuse
  {
    assert EventOk(cfg, sv, sv.pending.value.e);
  }

  /** No step of any thread ever releases a stranded event or its descriptor. */
  lemma StrandedForGood<E, P>(cfg: Config<P>, sv: Server<E, P>, step: Step<E, P>, e: E)
    requires GoodConfig(cfg) && Inv(cfg, sv) && Enabled(cfg, sv, step) && Stranded(sv, e)
    ensures Stranded(Next(cfg, sv, step), e)
  {
    if step.Read? {
      var d := sv.batch[step.p][0].ptr.value;
      ReadDestroys(cfg, sv, d);
      assert BatchOk(sv, step.p) && ReadyOk(sv.s, step.p, sv.batch[step.p][0]);
    }
  }

  /** An open descriptor no event has. */
  ghost predicate Leaked<E, P>(sv: Server<E, P>, fd: int) {
    fd in sv.open && forall e | e in sv.s.events :: sv.s.events[e].efd != fd
  }

  ghost predicate LeakedBy<E, P>(step: Step<E, P>, fd: int) {
    step.AcceptLeak? && step.cfd == fd
  }

  /** The same descriptors open, and live events with the same descriptors: the same leaks. */
  lemma SameLeaks<E, P>(sv: Server<E, P>, t: Server<E, P>, fd: int)
    requires t.open == sv.open && t.s.events.Keys == sv.s.events.Keys
    requires forall e | e in sv.s.events :: t.s.events[e].efd == sv.s.events[e].efd
    ensures Leaked(t, fd) <==> Leaked(sv, fd)
  {
  }

  lemma CreateLeaks<E, P>(sv: Server<E, P>, t: Server<E, P>, e: E, new': int, p: P, fd: int)
    requires e !in sv.s.events && new' !in sv.open
    requires t.s.events == Create(sv.s, e, new', p).events && t.open == sv.open + {new'}
    ensures Leaked(t, fd) <==> Leaked(sv, fd)
  {
    assert forall d | d in sv.s.events :: d in t.s.events && t.s.events[d].efd == sv.s.events[d].efd;
    assert e in t.s.events && t.s.events[e].efd == new';
  }

  lemma DropLeaks<E, P>(sv: Server<E, P>, e: E, fd: int)
    requires e in sv.s.events
    ensures Leaked(Dropped(sv, e), fd) <==> Leaked(sv, fd)
  {
    var t := Dropped(sv, e);
    assert forall d | d in sv.s.events && d != e :: d in t.s.events && t.s.events[d] == sv.s.events[d];
  }

  /** A step leaks a descriptor in one way only: a connection is accepted and there is no memory
      for its event.  What is leaked once is so for good. */
  lemma LeaksExactly<E, P>(cfg: Config<P>, sv: Server<E, P>, step: Step<E, P>, fd: int)
    requires GoodConfig(cfg) && Inv(cfg, sv) && Enabled(cfg, sv, step)
    ensures Leaked(Next(cfg, sv, step), fd) <==> Leaked(sv, fd) || LeakedBy(step, fd)
  {
    var t := Next(cfg, sv, step);
    match step
    case Listen(lfd, e) => CreateLeaks(sv, t, e, lfd, cfg.net, fd);
    case Accept(p, cfd, e) => CreateLeaks(sv, t, e, cfd, Shard(cfg, cfd), fd);
    case Read(p, ret, errno) =>
      ReadDrops(cfg, sv, p, ret, errno);
      DropLeaks(Popped(sv, p), sv.batch[p][0].ptr.value, fd);
    case AcceptLeak(p, cfd) => assert forall e | e in sv.s.events :: EventOk(cfg, sv, e);
    case _ => SameLeaks(sv, t, fd);
  }

  /** One of the first n steps leaked fd. */
  ghost predicate LeakedBefore<E, P>(steps: seq<Step<E, P>>, n: nat, fd: int)
    requires n <= |steps|
  {
    n > 0 && (LeakedBefore(steps, n - 1, fd) || LeakedBy(steps[n - 1], fd))
  }

  lemma {:induction false} LeakedBeforeMeans<E, P>(steps: seq<Step<E, P>>, n: nat, fd: int)
    requires n <= |steps|
    ensures LeakedBefore(steps, n, fd) <==> exists k | 0 <= k < n :: LeakedBy(steps[k], fd)
  {
    if n > 0 {
      LeakedBeforeMeans(steps, n - 1, fd);
    }
  }

  lemma LeaksAt<E, P>(cfg: Config<P>, run: seq<Server<E, P>>, steps: seq<Step<E, P>>, i: nat, fd: int)
    requires GoodConfig(cfg) && IsPath(cfg, run, steps) && Inv(cfg, run[0]) && i < |steps|
    ensures Leaked(run[i + 1], fd) <==> Leaked(run[i], fd) || LeakedBy(steps[i], fd)
  {
    PathInv(cfg, run, steps, i);
    LeaksExactly(cfg, run[i], steps[i], fd);
  }

  /** Over every interleaving from the start: a descriptor is leaked at some point exactly if it was
      accepted, some time before, when there was no memory for its event. */
  lemma LeakedExactly<E, P>(cfg: Config<P>, run: seq<Server<E, P>>, steps: seq<Step<E, P>>, i: nat, fd: int)
    requires GoodConfig(cfg) && IsRun(cfg, run, steps) && i < |run|
    ensures Leaked(run[i], fd) <==> exists k | 0 <= k < i :: LeakedBy(steps[k], fd)
  {
    InitialInv<E, P>(cfg);
    LeakedSoFar(cfg, run, steps, i, fd);
    LeakedBeforeMeans(steps, i, fd);
  }

  lemma {:induction false} LeakedSoFar<E, P>(cfg: Config<P>, run: seq<Server<E, P>>, steps: seq<Step<E, P>>, i: nat, fd: int)
    requires GoodConfig(cfg) && IsPath(cfg, run, steps) && Inv(cfg, run[0]) && !Leaked(run[0], fd) && i < |run|
    ensures Leaked(run[i], fd) <==> LeakedBefore(steps, i, fd)
  {
    if i > 0 {
      LeakedSoFar(cfg, run, steps, i - 1, fd);
      LeaksAt(cfg, run, steps, i - 1, fd);
    }
  }

  // ---- how evenly descriptors are spread ----

  /** How many of the n descriptors from a on go to shard k of m. */
  ghost function OnShard(a: nat, n: nat, m: nat, k: nat): nat
    requires k < m
  {
    if n == 0 then 0 else OnShard(a, n - 1, m, k) + if (a + n - 1) % m == k then 1 else 0
  }

  lemma CountStep(x: nat, m: nat, k: nat)
    requires k < m
    ensures (x + m - k) / m == (x + m - 1 - k) / m + if x % m == k then 1 else 0
  {
    QuotientAndRemainder(x, m);
    CountAt(x, m, x / m, x % m, k);
  }

  lemma CountAt(x: nat, m: nat, q: int, r: int, k: nat)
    requires k < m && 0 <= r < m && x == q * m + r
    ensures (x + m - k) / m == (x + m - 1 - k) / m + if r == k then 1 else 0
  {
    NextMultiple(x + m - k, m, q, r - k);
    NextMultiple(x + m - 1 - k, m, q, r - k - 1);
  }

  lemma {:induction false} OnShardCount(a: nat, n: nat, m: nat, k: nat)
    requires k < m
    ensures OnShard(a, n, m, k) == (a + n + m - 1 - k) / m - (a + m - 1 - k) / m
  {
    if n > 0 {
      OnShardCount(a, n - 1, m, k);
      CountStep(a + n - 1, m, k);
    }
  }

  /** Any n consecutive descriptors put floor(n / m) or ceil(n / m) on each of m data pollers. */
  lemma EvenlySpread(a: nat, n: nat, m: nat, k: nat)
    requires k < m
    ensures n / m <= OnShard(a, n, m, k) <= (n + m - 1) / m
  {
    OnShardCount(a, n, m, k);
    var c := a + m - 1 - k;
    SumDiv(c, n, m);
    CeilDiv(n, m);
  }
}
