/** The event registry as values: which events are live, what each has recorded about itself,
    and what the kernel's interest sets hold.  E names events and P names pollers; an epoll
    instance is identified with the poller that owns it.  poller.dfy proves that the code
    computes these functions. */
module PollerState {
  import opened Common

  /** EWOULDBLOCK has the same value. */
  const EAGAIN: int := 11

  /** A bit of an epoll event mask; a mask is the set of its bits, so that | & and ~ are union,
      intersection and difference. */
  datatype Bit = EpollIn | EpollOut | EpollErr | EpollHup | OtherBit(n: nat)
  type Mask = set<Bit>

  /** The function an event's ops.read or ops.write points at. */
  datatype Callback = Unset | DatanetRead | NetworkRead

  /** What the kernel keeps for a descriptor it watches. */
  datatype Entry<E> = Entry(mask: Mask, ptr: Option<E>)

  /** struct gt_event; mask and ptr are the fields of its struct epoll_event. */
  datatype EventRec<E, P> = EventRec(efd: int, poller: P, mask: Mask, ptr: Option<E>, read: Callback, write: Callback)

  type Interest<!E, !P(==)> = map<(P, int), Entry<E>>

  datatype State<!E(==), !P(==)> = State(interest: Interest<E, P>, events: map<E, EventRec<E, P>>)

  datatype CtlOp = CtlAdd | CtlMod | CtlDel

  /** epoll_ctl(2): ADD of a watched descriptor and MOD or DEL of an unwatched one fail; ADD may
      also be refused for want of memory or of watches. */
  function EpollCtl<E, P(==)>(k: Interest<E, P>, p: P, op: CtlOp, fd: int, entry: Entry<E>, refuse: bool): (int, Interest<E, P>) {
    match op
    case CtlAdd => if (p, fd) in k || refuse then (-1, k) else (0, k[(p, fd) := entry])
    case CtlMod => if (p, fd) in k then (0, k[(p, fd) := entry]) else (-1, k)
    case CtlDel => if (p, fd) in k then (0, k - {(p, fd)}) else (-1, k)
  }

  /** close(2) takes the descriptor out of every interest set. */
  function Closed<E, P(==)>(k: Interest<E, P>, fd: int): Interest<E, P> {
    map w | w in k && w.1 != fd :: k[w]
  }

  // ---- what the registry operations compute ----

  ghost function Start<E, P>(s: State<E, P>, flag: Mask, e: E, refuse: bool): (int, State<E, P>)
    requires e in s.events
  {
    var v := s.events[e];
    if v.mask * flag != {} then (GT_OK, s)
    else
      var v' := v.(mask := v.mask + flag, ptr := Some(e));
      var op := if v.mask != {} then CtlMod else CtlAdd;
      var (ret, k) := EpollCtl(s.interest, v.poller, op, v.efd, Entry(v'.mask, v'.ptr), refuse);
      (ret, State(k, s.events[e := v']))
  }

  ghost function Stop<E, P>(s: State<E, P>, flag: Mask, e: E): (int, State<E, P>)
    requires e in s.events
  {
    var v := s.events[e];
    if v.mask * flag == {} then (GT_OK, s)
    else
      var v' := v.(mask := v.mask - flag);
      var op := if v.mask != {} then CtlMod else CtlDel;
      var (ret, k) := EpollCtl(s.interest, v.poller, op, v.efd, Entry(v'.mask, v'.ptr), false);
      (ret, State(k, s.events[e := v']))
  }

  ghost function Create<E, P>(s: State<E, P>, e: E, fd: int, p: P): State<E, P> {
    s.(events := s.events[e := EventRec(fd, p, {}, None, Unset, Unset)])
  }

  ghost function SetRead<E, P>(s: State<E, P>, e: E, cb: Callback): State<E, P>
    requires e in s.events
  {
    s.(events := s.events[e := s.events[e].(read := cb)])
  }

  ghost function Destroy<E, P>(s: State<E, P>, e: E): State<E, P>
    requires e in s.events
  {
    var s1 := Stop(s, s.events[e].mask, e).1;
    State(Closed(s1.interest, s1.events[e].efd), s1.events - {e})
  }

  /** What creating, giving a callback to, and starting an event leaves behind. */
  ghost function Started<E, P>(s: State<E, P>, e: E, fd: int, p: P, cb: Callback, refuse: bool): (int, State<E, P>) {
    Start(SetRead(Create(s, e, fd, p), e, cb), {EpollIn}, e, refuse)
  }

  // ---- one event's view of its mask against the kernel's ----

  /** Fresh: not watched, nothing recorded.  Orphan: not watched though bits are recorded.
      Agreeing: watched with the recorded mask.  Diverged: watched with an empty mask though
      bits are recorded. */
  datatype Phase = Fresh | Orphan | Agreeing | Diverged | Other

  ghost function PhaseOf<E, P>(s: State<E, P>, e: E): Phase
    requires e in s.events
  {
    var v := s.events[e];
    if (v.poller, v.efd) !in s.interest then if v.mask == {} then Fresh else Orphan
    else
      var m := s.interest[(v.poller, v.efd)].mask;
      if m == v.mask then Agreeing else if m == {} then Diverged else Other
  }

  /** The bits the kernel reports for e. */
  ghost function KernelMask<E, P>(s: State<E, P>, e: E): Mask
    requires e in s.events
  {
    var w := (s.events[e].poller, s.events[e].efd);
    if w in s.interest then s.interest[w].mask else {}
  }

  /** e is watched, for all of flag. */
  ghost predicate Delivered<E, P>(s: State<E, P>, e: E, flag: Mask)
    requires e in s.events
  {
    (s.events[e].poller, s.events[e].efd) in s.interest && flag <= KernelMask(s, e)
  }

  /** Every way a start can go, also with no flag at all, when the recorded mask is handed to the
      kernel as it is. */
  lemma StartPhases<E, P>(s: State<E, P>, flag: Mask, e: E, refuse: bool)
    requires e in s.events && PhaseOf(s, e) != Other
    ensures var (ret, s') := Start(s, flag, e, refuse);
            var was, mask := PhaseOf(s, e), s.events[e].mask;
            if mask * flag != {} then ret == GT_OK && s' == s
            else
              && s'.events[e].mask == mask + flag
              && match was {
                case Fresh => if refuse then ret != GT_OK && PhaseOf(s', e) == (if flag == {} then Fresh else Orphan)
                              else ret == GT_OK && PhaseOf(s', e) == Agreeing
                case Orphan => ret != GT_OK && PhaseOf(s', e) == Orphan
                case Agreeing => if mask == {} then ret != GT_OK && PhaseOf(s', e) == (if flag == {} then Agreeing else Diverged)
                                 else ret == GT_OK && PhaseOf(s', e) == Agreeing
                case Diverged => ret == GT_OK && PhaseOf(s', e) == Agreeing
                case Other => true
              }
  {
  }

  /** Every way a stop can go.  In no case does a watched descriptor stop being watched: by the
      time the mask is empty, the operation was already chosen to be MOD. */
  lemma StopPhases<E, P>(s: State<E, P>, flag: Mask, e: E)
    requires e in s.events && PhaseOf(s, e) != Other
    ensures var (ret, s') := Stop(s, flag, e);
            var was, mask := PhaseOf(s, e), s.events[e].mask;
            && s'.interest.Keys == s.interest.Keys
            && if mask * flag == {} then ret == GT_OK && s' == s
               else
                 && s'.events[e].mask == mask - flag
                 && if was == Orphan then ret != GT_OK && PhaseOf(s', e) == (if mask - flag == {} then Fresh else Orphan)
                    else ret == GT_OK && PhaseOf(s', e) == Agreeing
  {
  }

  /** When a start that reports success has the kernel watch for all of the flag: exactly if none
      of it was recorded, or all of it was and the kernel had the recorded mask.  And when for any
      of it: exactly if there is a flag, and what of it was recorded the kernel had. */
  lemma StartDelivers<E, P>(s: State<E, P>, flag: Mask, e: E, refuse: bool)
    requires e in s.events && PhaseOf(s, e) != Other
    requires Start(s, flag, e, refuse).0 == GT_OK
    ensures var s', mask := Start(s, flag, e, refuse).1, s.events[e].mask;
            && (Delivered(s', e, flag) <==> mask * flag == {} || (flag <= mask && PhaseOf(s, e) == Agreeing))
            && (KernelMask(s', e) * flag != {} <==> flag != {} && (mask * flag == {} || PhaseOf(s, e) == Agreeing))
  {
    StartPhases(s, flag, e, refuse);
  }

  /** One recorded bit of the flag is enough for a start to report success and do nothing, though
      the kernel watches for no other bit of it. */
  lemma PartialStart<E, P>(e: E, fd: int, p: P, cb: Callback)
    ensures var s := Started(State<E, P>.State(map[], map[]), e, fd, p, cb, false).1;
            && Consistent(s) && PhaseOf(s, e) == Agreeing && KernelMask(s, e) == {EpollIn}
            && Start(s, {EpollIn, EpollOut}, e, false) == (GT_OK, s)
            && !Delivered(s, e, {EpollIn, EpollOut})
  {
    var s := Started(State<E, P>.State(map[], map[]), e, fd, p, cb, false).1;
    assert {} + {EpollIn} == {EpollIn};
    assert EpollIn in {EpollIn} * {EpollIn, EpollOut};
    assert EpollOut !in {EpollIn};
  }

  /** After a stop, whatever it reports, the kernel watches for nothing of the flag. */
  lemma StopDelivers<E, P>(s: State<E, P>, flag: Mask, e: E)
    requires e in s.events && PhaseOf(s, e) != Other
    ensures KernelMask(Stop(s, flag, e).1, e) * flag == {}
  {
    StopPhases(s, flag, e);
  }

  /** Stopping the only flag and starting it twice: the first start fails, the second reports
      success, and the kernel watches for nothing. */
  lemma RestartIsLost<E, P>(s: State<E, P>, flag: Mask, e: E)
    requires e in s.events && flag != {} && PhaseOf(s, e) == Agreeing && s.events[e].mask == flag
    ensures var s1 := Stop(s, flag, e).1;
            var (r2, s2) := Start(s1, flag, e, false);
            var (r3, s3) := Start(s2, flag, e, false);
            r2 != GT_OK && r3 == GT_OK && PhaseOf(s3, e) == Diverged && KernelMask(s3, e) == {}
  {
    StopPhases(s, flag, e);
    var s1 := Stop(s, flag, e).1;
    StartPhases(s1, flag, e, false);
    var s2 := Start(s1, flag, e, false).1;
    StartPhases(s2, flag, e, false);
  }

  // ---- every run of calls on all the events ----

  datatype Call<E, P> =
    | CreateCall(e: E, fd: int, p: P)
    | StartCall(e: E, flag: Mask, refuse: bool)
    | StopCall(e: E, flag: Mask)
    | DestroyCall(e: E)

  ghost predicate Allowed<E, P>(s: State<E, P>, c: Call<E, P>) {
    match c
    case CreateCall(e, fd, p) =>
      e !in s.events && (forall w | w in s.interest :: w.1 != fd) && forall d | d in s.events :: s.events[d].efd != fd
    case StartCall(e, _, _) => e in s.events
    case StopCall(e, _) => e in s.events
    case DestroyCall(e) => e in s.events
  }

  ghost function Do<E, P>(s: State<E, P>, c: Call<E, P>): State<E, P>
    requires Allowed(s, c)
  {
    match c
    case CreateCall(e, fd, p) => Create(s, e, fd, p)
    case StartCall(e, flag, refuse) => Start(s, flag, e, refuse).1
    case StopCall(e, flag) => Stop(s, flag, e).1
    case DestroyCall(e) => Destroy(s, e)
  }

  ghost predicate Consistent<E, P>(s: State<E, P>) {
    && (forall e, d | e in s.events && d in s.events && s.events[e].efd == s.events[d].efd :: e == d)
    && (forall e | e in s.events :: PhaseOf(s, e) != Other)
  }

  /** The call closes descriptor fd. */
  ghost predicate Closes<E, P>(s: State<E, P>, c: Call<E, P>, fd: int) {
    c.DestroyCall? && c.e in s.events && s.events[c.e].efd == fd
  }

  /** A watch ends with the destruction of an event that has its descriptor, and with nothing else. */
  lemma WatchStep<E, P>(s: State<E, P>, c: Call<E, P>, w: (P, int))
    requires Allowed(s, c) && w in s.interest
    ensures w in Do(s, c).interest <==> !Closes(s, c, w.1)
  {
  }

  lemma OtherEvent<E, P>(s: State<E, P>, c: Call<E, P>, d: E)
    requires Consistent(s) && Allowed(s, c) && d in s.events && d != c.e
    ensures var t := Do(s, c); d in t.events && t.events[d] == s.events[d] && PhaseOf(t, d) == PhaseOf(s, d)
  {
    assert c.e in s.events ==> s.events[d].efd != s.events[c.e].efd;
  }

  /** One call leaves the other events in the phases they were in. */
  lemma DoKeeps<E, P>(s: State<E, P>, c: Call<E, P>)
    requires Consistent(s) && Allowed(s, c)
    ensures Consistent(Do(s, c))
    ensures forall d | d in s.events && d != c.e :: d in Do(s, c).events && PhaseOf(Do(s, c), d) == PhaseOf(s, d)
    ensures c.CreateCall? ==> PhaseOf(Do(s, c), c.e) == Fresh
    ensures forall w | w in s.interest :: w in Do(s, c).interest <==> !Closes(s, c, w.1)
  {
    forall w | w in s.interest ensures w in Do(s, c).interest <==> !Closes(s, c, w.1) {
      WatchStep(s, c, w);
    }
    var t := Do(s, c);
    match c {
      case CreateCall(_, _, _) =>
      case StartCall(e, flag, refuse) => StartPhases(s, flag, e, refuse);
      case StopCall(e, flag) => StopPhases(s, flag, e);
      case DestroyCall(e) => StopPhases(s, s.events[e].mask, e);
    }
    forall d | d in s.events && d != c.e ensures d in t.events && t.events[d] == s.events[d] && PhaseOf(t, d) == PhaseOf(s, d) {
      OtherEvent(s, c, d);
    }
  }

  ghost predicate AllAllowed<E, P>(s: State<E, P>, calls: seq<Call<E, P>>)
    decreases |calls|, 0
  {
    calls == [] || (AllAllowed(s, calls[..|calls| - 1]) && Allowed(DoAll(s, calls[..|calls| - 1]), calls[|calls| - 1]))
  }

  ghost function DoAll<E, P>(s: State<E, P>, calls: seq<Call<E, P>>): State<E, P>
    requires AllAllowed(s, calls)
    decreases |calls|, 1
  {
    if calls == [] then s else Do(DoAll(s, calls[..|calls| - 1]), calls[|calls| - 1])
  }

  /** Over every run of creations, starts, stops and destructions, with any flags and whatever
      ADD answers, each event stays within its four phases; an event nobody calls stays in the
      phase it was in. */
  lemma {:induction false} PhasesOverRuns<E, P>(s: State<E, P>, calls: seq<Call<E, P>>)
    requires Consistent(s) && AllAllowed(s, calls)
    ensures Consistent(DoAll(s, calls))
    ensures forall d | d in s.events && (forall c | c in calls :: c.e != d) ::
              d in DoAll(s, calls).events && PhaseOf(DoAll(s, calls), d) == PhaseOf(s, d)
    decreases |calls|
  {
    if calls != [] {
      PhasesOverRuns(s, calls[..|calls| - 1]);
      DoKeeps(DoAll(s, calls[..|calls| - 1]), calls[|calls| - 1]);
    }
  }

  lemma {:induction false} AllAllowedPrefix<E, P>(s: State<E, P>, calls: seq<Call<E, P>>, k: nat)
    requires AllAllowed(s, calls) && k <= |calls|
    ensures AllAllowed(s, calls[..k])
    decreases |calls|
  {
    var n := |calls| - 1;
    if k == |calls| {
      assert calls[..k] == calls;
    } else {
      assert calls[..n][..k] == calls[..k];
      AllAllowedPrefix(s, calls[..n], k);
    }
  }

  /** The state when the first k calls have been made. */
  ghost function After<E, P>(s: State<E, P>, calls: seq<Call<E, P>>, k: nat): State<E, P>
    requires AllAllowed(s, calls) && k <= |calls|
  {
    AllAllowedPrefix(s, calls, k);
    DoAll(s, calls[..k])
  }

  lemma AfterStep<E, P>(s: State<E, P>, calls: seq<Call<E, P>>, k: nat)
    requires AllAllowed(s, calls) && k < |calls|
    ensures Allowed(After(s, calls, k), calls[k])
    ensures After(s, calls, k + 1) == Do(After(s, calls, k), calls[k])
  {
    AllAllowedPrefix(s, calls, k + 1);
    assert calls[..k + 1][..k] == calls[..k];
  }

  /** Over every run: a descriptor watched at the start is watched all along, if and only if no
      event that has it is destroyed. */
  lemma {:induction false} WatchedUnlessClosed<E, P>(s: State<E, P>, calls: seq<Call<E, P>>, w: (P, int), n: nat)
    requires AllAllowed(s, calls) && w in s.interest && n <= |calls|
    ensures (forall k | 0 <= k <= n :: w in After(s, calls, k).interest)
            <==> (forall k | 0 <= k < n :: !Closes(After(s, calls, k), calls[k], w.1))
  {
    if n > 0 {
      WatchedUnlessClosed(s, calls, w, n - 1);
      WatchAt(s, calls, w, n - 1);
    }
  }

  lemma WatchAt<E, P>(s: State<E, P>, calls: seq<Call<E, P>>, w: (P, int), k: nat)
    requires AllAllowed(s, calls) && k < |calls|
    ensures w in After(s, calls, k).interest ==>
              (w in After(s, calls, k + 1).interest <==> !Closes(After(s, calls, k), calls[k], w.1))
  {
    AfterStep(s, calls, k);
    if w in After(s, calls, k).interest {
      WatchStep(After(s, calls, k), calls[k], w);
    }
  }

  /** What the kernel hands back for w is the live event that has it. */
  ghost predicate LeadsBack<E, P>(s: State<E, P>, w: (P, int))
    requires w in s.interest
  {
    var ptr := s.interest[w].ptr;
    ptr.Some? && ptr.value in s.events && s.events[ptr.value].poller == w.0 && s.events[ptr.value].efd == w.1
  }

  /** A watched event carries the pointer it hands to the kernel. */
  ghost predicate KnowsItself<E, P>(s: State<E, P>, e: E)
    requires e in s.events
  {
    (s.events[e].poller, s.events[e].efd) in s.interest ==> s.events[e].ptr == Some(e)
  }

  ghost predicate PointersOk<E, P>(s: State<E, P>) {
    (forall w | w in s.interest :: LeadsBack(s, w)) && (forall e | e in s.events :: KnowsItself(s, e))
  }

  lemma StillLeadsBack<E, P>(s: State<E, P>, c: Call<E, P>, w: (P, int))
    requires Consistent(s) && PointersOk(s) && Allowed(s, c) && w in Do(s, c).interest
    ensures LeadsBack(Do(s, c), w)
  {
    if w in s.interest {
      assert LeadsBack(s, w);
    }
    assert c.e in s.events ==> KnowsItself(s, c.e);
  }

  lemma StillKnowsItself<E, P>(s: State<E, P>, c: Call<E, P>, e: E)
    requires Consistent(s) && PointersOk(s) && Allowed(s, c) && e in Do(s, c).events
    ensures KnowsItself(Do(s, c), e)
  {
    if e in s.events {
      assert KnowsItself(s, e);
    }
  }

  lemma PointersStep<E, P>(s: State<E, P>, c: Call<E, P>)
    requires Consistent(s) && PointersOk(s) && Allowed(s, c)
    ensures PointersOk(Do(s, c))
  {
    forall w | w in Do(s, c).interest ensures LeadsBack(Do(s, c), w) {
      StillLeadsBack(s, c, w);
    }
    forall e | e in Do(s, c).events ensures KnowsItself(Do(s, c), e) {
      StillKnowsItself(s, c, e);
    }
  }

  /** Over every run of calls: a watched descriptor's entry points to the live event that has it. */
  lemma {:induction false} PointersOverRuns<E, P>(s: State<E, P>, calls: seq<Call<E, P>>)
    requires Consistent(s) && PointersOk(s) && AllAllowed(s, calls)
    ensures PointersOk(DoAll(s, calls))
    decreases |calls|
  {
    if calls != [] {
      PointersOverRuns(s, calls[..|calls| - 1]);
      PhasesOverRuns(s, calls[..|calls| - 1]);
      PointersStep(DoAll(s, calls[..|calls| - 1]), calls[|calls| - 1]);
    }
  }

  ghost predicate In<E, P>(s: State<E, P>, e: E, phase: Phase) {
    e in s.events && PhaseOf(s, e) == phase
  }

  /** e is watched, but for nothing, as is recorded. */
  ghost predicate Idle<E, P>(s: State<E, P>, e: E) {
    In(s, e, Agreeing) && s.events[e].mask == {}
  }

  /** The two calls that leave an event idle: a stop of the last of its bits, and a start of an
      unwatched event with no flag. */
  ghost predicate Idles<E, P>(s: State<E, P>, c: Call<E, P>, e: E) {
    c.e == e && e in s.events
    && ((c.StopCall? && s.events[e].mask != {} && s.events[e].mask - c.flag == {})
        || (c.StartCall? && c.flag == {} && PhaseOf(s, e) == Fresh))
  }

  /** How one call gets an event to be idle, and how one gets it to diverge. */
  lemma Entering<E, P>(s: State<E, P>, c: Call<E, P>, e: E)
    requires Consistent(s) && Allowed(s, c)
    ensures Idle(Do(s, c), e) && !Idle(s, e) ==> Idles(s, c, e)
    ensures In(Do(s, c), e, Diverged) && !In(s, e, Diverged) ==> Idle(s, e) && c.StartCall? && c.e == e && c.flag != {}
  {
    DoKeeps(s, c);
    match c {
      case CreateCall(_, _, _) =>
      case StartCall(d, flag, refuse) => StartPhases(s, flag, d, refuse);
      case StopCall(d, flag) => StopPhases(s, flag, d);
      case DestroyCall(_) =>
    }
  }

  lemma EnteringAt<E, P>(s: State<E, P>, calls: seq<Call<E, P>>, e: E, k: nat)
    requires Consistent(s) && AllAllowed(s, calls) && k < |calls|
    ensures var t, t', c := After(s, calls, k), After(s, calls, k + 1), calls[k];
            && (Idle(t', e) && !Idle(t, e) ==> Idles(t, c, e))
            && (In(t', e, Diverged) && !In(t, e, Diverged) ==> Idle(t, e) && c.StartCall? && c.e == e && c.flag != {})
  {
    AllAllowedPrefix(s, calls, k);
    PhasesOverRuns(s, calls[..k]);
    AfterStep(s, calls, k);
    Entering(After(s, calls, k), calls[k], e);
  }

  /** The last time something became true that still is after n calls. */
  lemma {:induction false} LastEntered<E, P>(s: State<E, P>, calls: seq<Call<E, P>>, n: nat, p: State<E, P> -> bool) returns (j: nat)
    requires AllAllowed(s, calls) && n <= |calls| && !p(s) && p(After(s, calls, n))
    ensures j < n && !p(After(s, calls, j)) && forall k | j < k <= n :: p(After(s, calls, k))
  {
    if p(After(s, calls, n - 1)) {
      j := LastEntered(s, calls, n - 1, p);
    } else {
      j := n - 1;
    }
  }

  /** Over every run, how an event comes to be watched for less than it has recorded: call i left
      it idle, it stayed so up to call j, call j started it, and it has been like that since. */
  lemma DivergedHistory<E, P>(s: State<E, P>, calls: seq<Call<E, P>>, e: E) returns (i: nat, j: nat)
    requires Consistent(s) && AllAllowed(s, calls) && !Idle(s, e) && !In(s, e, Diverged)
    requires In(DoAll(s, calls), e, Diverged)
    ensures i < j < |calls|
    ensures Idles(After(s, calls, i), calls[i], e) && forall k | i < k <= j :: Idle(After(s, calls, k), e)
    ensures calls[j].StartCall? && calls[j].e == e && calls[j].flag != {}
    ensures forall k | j < k <= |calls| :: In(After(s, calls, k), e, Diverged)
  {
    assert calls[..|calls|] == calls;
    j := LastEntered(s, calls, |calls|, t => In(t, e, Diverged));
    EnteringAt(s, calls, e, j);
    i := LastEntered(s, calls, j, t => Idle(t, e));
    EnteringAt(s, calls, e, i);
  }
}
