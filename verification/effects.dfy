/** What the callbacks do to the registry and to the kernel's interest sets, said once more without
    the functions the code is proved to compute: for one answer of the operating system, and for a
    whole round of epoll_wait. */
module Effects {
  import opened Common
  import opened PollerState
  import Sv = Server

  /** What the operating system answers to the calls one callback makes: read or accept with its
      errno, setsockopt, fcntl, malloc and epoll_ctl. */
  datatype Answer = Answer(ret: int, errno: int, sockopt: bool, fcntl: bool, malloc: bool, refuse: bool)

  // ---- one callback ----

  /** The connection is accepted and stays open. */
  ghost predicate Kept(ans: Answer) {
    0 <= ans.ret && ans.sockopt && ans.fcntl
  }

  /** The event whose read callback got this answer is kept. */
  ghost predicate Survives(ans: Answer) {
    ans.ret > 0 || ans.errno == EAGAIN
  }

  /** The watches whose entries lead to none of these events. */
  ghost function Without<E, P>(k: Interest<E, P>, gone: set<E>): Interest<E, P> {
    map w | w in k && !(k[w].ptr.Some? && k[w].ptr.value in gone) :: k[w]
  }

  ghost function Less<E, P>(s: State<E, P>, gone: set<E>): State<E, P> {
    State(Without(s.interest, gone), s.events - gone)
  }

  ghost predicate ReadEffect<E, P>(s: State<E, P>, s': State<E, P>, e: E, ans: Answer) {
    s' == if Survives(ans) then s else Less(s, {e})
  }

  /** e has been created for descriptor fd on poller p, given callback cb, and started. */
  ghost predicate Arrived<E, P>(s: State<E, P>, s': State<E, P>, e: E, fd: int, p: P, cb: Callback, refuse: bool) {
    && e !in s.events
    && s'.events == s.events[e := EventRec(fd, p, {EpollIn}, Some(e), cb, Unset)]
    && s'.interest == if (p, fd) in s.interest || refuse then s.interest else s.interest[(p, fd) := Entry({EpollIn}, Some(e))]
  }

  ghost function Home<P>(threads: seq<P>, ans: Answer): P
    requires threads != []
  {
    threads[ans.ret % |threads|]
  }

  ghost predicate AcceptEffect<E, P>(s: State<E, P>, s': State<E, P>, threads: seq<P>, ans: Answer)
    requires threads != []
  {
    if Kept(ans) && ans.malloc then exists e | e in s'.events :: Arrived(s, s', e, ans.ret, Home(threads, ans), DatanetRead, ans.refuse)
    else s' == s
  }

  ghost predicate SlotEffect<E, P>(s: State<E, P>, s': State<E, P>, r: Sv.Ready<E>, listening: bool, threads: seq<P>, ans: Answer)
    requires threads != []
  {
    if EpollIn !in r.revents then s' == s
    else if listening then AcceptEffect(s, s', threads, ans)
    else r.ptr.Some? && ReadEffect(s, s', r.ptr.value, ans)
  }

  /** Creating, giving a callback to and starting an event, together. */
  lemma StartedMeans<E, P>(s: State<E, P>, e: E, fd: int, p: P, cb: Callback, refuse: bool)
    requires e !in s.events
    ensures var (ret, s') := Started(s, e, fd, p, cb, refuse);
            Arrived(s, s', e, fd, p, cb, refuse) && ret == if (p, fd) in s.interest || refuse then -1 else 0
  {
    assert {} + {EpollIn} == {EpollIn};
  }

  /** In every state of the server the read callback has the effect it should. */
  lemma AfterReadMeans<E, P>(cfg: Sv.Config<P>, sv: Sv.Server<E, P>, e: E, ans: Answer)
    requires cfg.data != [] && Sv.Inv(cfg, sv) && e in sv.s.events
    ensures ReadEffect(sv.s, Sv.AfterRead(sv.s, e, ans.ret, ans.errno), e, ans)
  {
    if !Survives(ans) {
      Sv.ReadDestroys(cfg, sv, e);
      OwnWatch(cfg, sv, e);
      WithoutOne(sv.s.interest, e, (sv.s.events[e].poller, sv.s.events[e].efd));
    }
  }

  lemma WithoutOne<E, P>(k: Interest<E, P>, e: E, own: (P, int))
    requires forall w | w in k :: k[w].ptr.Some? && (k[w].ptr.value == e <==> w == own)
    ensures Without(k, {e}) == k - {own}
  {
  }

  /** The one entry that leads to an event is that of its own descriptor. */
  lemma OwnWatch<E, P>(cfg: Sv.Config<P>, sv: Sv.Server<E, P>, e: E)
    requires cfg.data != [] && Sv.Inv(cfg, sv) && e in sv.s.events
    ensures forall w | w in sv.s.interest ::
              && sv.s.interest[w].ptr.Some?
              && (sv.s.interest[w].ptr.value == e <==> w == (sv.s.events[e].poller, sv.s.events[e].efd))
  {
    forall w | w in sv.s.interest
      ensures sv.s.interest[w].ptr.Some?
      ensures sv.s.interest[w].ptr.value == e <==> w == (sv.s.events[e].poller, sv.s.events[e].efd)
    {
      assert Sv.WatchOk(sv.s, w);
    }
  }

  // ---- a round on a data poller ----

  /** The events ended by the first n slots of the array. */
  ghost function Ended<E>(ee: seq<Sv.Ready<E>>, answers: seq<Answer>, n: nat): set<E>
    requires n <= |ee| == |answers|
  {
    set i | 0 <= i < n && EpollIn in ee[i].revents && ee[i].ptr.Some? && !Survives(answers[i]) :: ee[i].ptr.value
  }

  lemma LessTwice<E, P>(s: State<E, P>, a: set<E>, b: set<E>)
    ensures Less(Less(s, a), b) == Less(s, a + b)
  {
    var k := Without(s.interest, a);
    assert Without(k, b) == Without(s.interest, a + b);
    assert s.events - a - b == s.events - (a + b);
  }

  lemma LessNone<E, P>(s: State<E, P>)
    ensures Less(s, {}) == s
  {
    assert Without(s.interest, {}) == s.interest;
    assert s.events - {} == s.events;
  }

  lemma EndedNext<E>(ee: seq<Sv.Ready<E>>, answers: seq<Answer>, n: nat)
    requires n < |ee| == |answers|
    ensures Ended(ee, answers, n + 1) == Ended(ee, answers, n)
              + if EpollIn in ee[n].revents && ee[n].ptr.Some? && !Survives(answers[n]) then {ee[n].ptr.value} else {}
  {
  }

  lemma DataRoundNext<E, P>(s: State<E, P>, s1: State<E, P>, s2: State<E, P>, ee: seq<Sv.Ready<E>>, answers: seq<Answer>, n: nat,
                            threads: seq<P>)
    requires n < |ee| == |answers| && threads != []
    requires s1 == Less(s, Ended(ee, answers, n)) && SlotEffect(s1, s2, ee[n], false, threads, answers[n])
    ensures s2 == Less(s, Ended(ee, answers, n + 1))
  {
    EndedNext(ee, answers, n);
    if EpollIn in ee[n].revents && !Survives(answers[n]) {
      LessTwice(s, Ended(ee, answers, n), {ee[n].ptr.value});
    } else {
      assert Ended(ee, answers, n + 1) == Ended(ee, answers, n);
    }
  }

  /** What epoll_wait has put into the array. */
  ghost predicate Filled<E, P>(ee: seq<Sv.Ready<E>>, k: Interest<E, P>, p: P, reports: seq<(int, Mask)>)
    requires Sv.KernelReports(k, p, reports)
  {
    |ee| == |reports| && forall i | 0 <= i < |ee| :: ee[i].revents == reports[i].1 && ee[i].ptr == k[(p, reports[i].0)].ptr
  }

  lemma FilledIsBatch<E, P>(ee: seq<Sv.Ready<E>>, k: Interest<E, P>, p: P, reports: seq<(int, Mask)>)
    requires Sv.KernelReports(k, p, reports) && Filled(ee, k, p, reports)
    ensures ee == Sv.Batch(k, p, reports)
  {
  }

  /** Slot by slot: an event is live after the round, and watched, exactly if its callback was not
      called or its answer lets it live. */
  lemma SlotFates<E, P>(cfg: Sv.Config<P>, sv: Sv.Server<E, P>, p: P, reports: seq<(int, Mask)>, ee: seq<Sv.Ready<E>>,
                        answers: seq<Answer>, i: nat)
    requires cfg.data != [] && Sv.Inv(cfg, sv) && Sv.KernelReports(sv.s.interest, p, reports) && Filled(ee, sv.s.interest, p, reports)
    requires i < |ee| == |answers|
    ensures ee[i].ptr.Some? && ee[i].ptr.value in sv.s.events
    ensures var s', alive := Less(sv.s, Ended(ee, answers, |ee|)), EpollIn !in ee[i].revents || Survives(answers[i]);
            && (ee[i].ptr.value in s'.events <==> alive)
            && ((p, reports[i].0) in s'.interest <==> alive)
  {
    assert Sv.WatchOk(sv.s, (p, reports[i].0));
    forall j | 0 <= j < |ee| && j != i ensures ee[j].ptr != ee[i].ptr {
      assert Sv.WatchOk(sv.s, (p, reports[j].0));
    }
  }

  // ---- a round on the listening poller ----

  ghost predicate Takes<E>(r: Sv.Ready<E>, ans: Answer) {
    EpollIn in r.revents && Kept(ans) && ans.malloc
  }

  /** e has come in between s and s', for the connection of this answer. */
  ghost predicate Newcomer<E, P>(s: State<E, P>, s': State<E, P>, e: E, threads: seq<P>, ans: Answer)
    requires threads != []
  {
    && e !in s.events && e in s'.events
    && s'.events[e] == EventRec(ans.ret, Home(threads, ans), {EpollIn}, Some(e), DatanetRead, Unset)
    && ((Home(threads, ans), ans.ret) in s'.interest <==> !ans.refuse)
    && (!ans.refuse ==> s'.interest[(Home(threads, ans), ans.ret)] == Entry({EpollIn}, Some(e)))
  }

  ghost predicate HasNewcomer<E, P>(s: State<E, P>, s': State<E, P>, threads: seq<P>, ans: Answer)
    requires threads != []
  {
    exists e | e in s'.events :: Newcomer(s, s', e, threads, ans)
  }

  /** fd is the descriptor of a connection the first n slots took in. */
  ghost predicate TakenIn<E>(ee: seq<Sv.Ready<E>>, answers: seq<Answer>, n: nat, fd: int)
    requires n <= |ee| == |answers|
  {
    exists i | 0 <= i < n :: Takes(ee[i], answers[i]) && answers[i].ret == fd
  }

  ghost predicate KeepsAll<E, P>(s: State<E, P>, s': State<E, P>) {
    && (forall e | e in s.events :: e in s'.events && s'.events[e] == s.events[e])
    && (forall w | w in s.interest :: w in s'.interest && s'.interest[w] == s.interest[w])
  }

  ghost predicate OnlyTaken<E, P>(s: State<E, P>, s': State<E, P>, ee: seq<Sv.Ready<E>>, answers: seq<Answer>, n: nat)
    requires n <= |ee| == |answers|
  {
    && (forall e | e in s'.events && e !in s.events :: TakenIn(ee, answers, n, s'.events[e].efd))
    && (forall w | w in s'.interest && w !in s.interest :: TakenIn(ee, answers, n, w.1))
  }

  /** The round so far took in one event for each connection kept with memory for it, and did
      nothing else. */
  ghost predicate AcceptRound<E, P>(s: State<E, P>, s': State<E, P>, ee: seq<Sv.Ready<E>>, threads: seq<P>, answers: seq<Answer>, n: nat)
    requires threads != [] && n <= |ee| == |answers|
  {
    && KeepsAll(s, s') && OnlyTaken(s, s', ee, answers, n)
    && forall i | 0 <= i < n && Takes(ee[i], answers[i]) :: HasNewcomer(s, s', threads, answers[i])
  }

  /** A newcomer is not disturbed by the next one, which has another descriptor. */
  lemma NewcomerStays<E, P>(s: State<E, P>, s1: State<E, P>, s2: State<E, P>, threads: seq<P>, ans: Answer, next: Answer)
    requires threads != [] && HasNewcomer(s, s1, threads, ans) && AcceptEffect(s1, s2, threads, next)
    requires next.ret != ans.ret
    ensures HasNewcomer(s, s2, threads, ans)
  {
    var e :| e in s1.events && Newcomer(s, s1, e, threads, ans);
    assert Newcomer(s, s2, e, threads, ans);
  }

  lemma TakenInNext<E>(ee: seq<Sv.Ready<E>>, answers: seq<Answer>, n: nat, fd: int)
    requires n < |ee| == |answers|
    ensures TakenIn(ee, answers, n + 1, fd) <==> TakenIn(ee, answers, n, fd) || (Takes(ee[n], answers[n]) && answers[n].ret == fd)
  {
  }

  lemma OnlyTakenNext<E, P>(s: State<E, P>, s1: State<E, P>, s2: State<E, P>, ee: seq<Sv.Ready<E>>, answers: seq<Answer>, n: nat,
                            e: E, p: P)
    requires n < |ee| == |answers| && OnlyTaken(s, s1, ee, answers, n) && Takes(ee[n], answers[n])
    requires Arrived(s1, s2, e, answers[n].ret, p, DatanetRead, answers[n].refuse)
    ensures OnlyTaken(s, s2, ee, answers, n + 1)
  {
    forall d | d in s2.events && d !in s.events ensures TakenIn(ee, answers, n + 1, s2.events[d].efd) {
      TakenInNext(ee, answers, n, s2.events[d].efd);
    }
    forall w | w in s2.interest && w !in s.interest ensures TakenIn(ee, answers, n + 1, w.1) {
      TakenInNext(ee, answers, n, w.1);
    }
  }

  lemma OneNewcomer<E, P>(s: State<E, P>, s1: State<E, P>, s2: State<E, P>, threads: seq<P>, ans: Answer, e: E)
    requires threads != [] && KeepsAll(s, s1) && Arrived(s1, s2, e, ans.ret, Home(threads, ans), DatanetRead, ans.refuse)
    requires forall w | w in s1.interest :: w.1 != ans.ret
    ensures KeepsAll(s, s2) && Newcomer(s, s2, e, threads, ans)
  {
  }

  lemma AcceptRoundNext<E, P>(s: State<E, P>, s1: State<E, P>, s2: State<E, P>, ee: seq<Sv.Ready<E>>, threads: seq<P>,
                              answers: seq<Answer>, n: nat)
    requires threads != [] && n < |ee| == |answers| && AcceptRound(s, s1, ee, threads, answers, n)
    requires SlotEffect(s1, s2, ee[n], true, threads, answers[n])
    requires Takes(ee[n], answers[n]) ==> (forall w | w in s1.interest :: w.1 != answers[n].ret)
    requires forall i | 0 <= i < n && Kept(answers[i]) :: answers[i].ret != answers[n].ret
    ensures AcceptRound(s, s2, ee, threads, answers, n + 1)
  {
    if Takes(ee[n], answers[n]) {
      var e :| e in s2.events && Arrived(s1, s2, e, answers[n].ret, Home(threads, answers[n]), DatanetRead, answers[n].refuse);
      OneNewcomer(s, s1, s2, threads, answers[n], e);
      OnlyTakenNext(s, s1, s2, ee, answers, n, e, Home(threads, answers[n]));
      forall i | 0 <= i < n && Takes(ee[i], answers[i]) ensures HasNewcomer(s, s2, threads, answers[i]) {
        NewcomerStays(s, s1, s2, threads, answers[i], answers[n]);
      }
    } else {
      forall fd | TakenIn(ee, answers, n, fd) ensures TakenIn(ee, answers, n + 1, fd) {
        TakenInNext(ee, answers, n, fd);
      }
    }
  }

  // ---- a round on either ----

  /** What the first n slots of a round have done. */
  ghost predicate RoundEffect<E, P>(s: State<E, P>, s': State<E, P>, listening: bool, ee: seq<Sv.Ready<E>>, threads: seq<P>,
                                    answers: seq<Answer>, n: nat)
    requires threads != [] && n <= |ee| == |answers|
  {
    if listening then AcceptRound(s, s', ee, threads, answers, n) else s' == Less(s, Ended(ee, answers, n))
  }

  lemma RoundStarts<E, P>(s: State<E, P>, listening: bool, ee: seq<Sv.Ready<E>>, threads: seq<P>, answers: seq<Answer>)
    requires threads != [] && |ee| == |answers|
    ensures RoundEffect(s, s, listening, ee, threads, answers, 0)
  {
    LessNone(s);
  }

  lemma RoundNext<E, P>(s: State<E, P>, s1: State<E, P>, s2: State<E, P>, listening: bool, ee: seq<Sv.Ready<E>>, threads: seq<P>,
                        answers: seq<Answer>, n: nat)
    requires threads != [] && n < |ee| == |answers| && RoundEffect(s, s1, listening, ee, threads, answers, n)
    requires SlotEffect(s1, s2, ee[n], listening, threads, answers[n])
    requires listening && Takes(ee[n], answers[n]) ==> (forall w | w in s1.interest :: w.1 != answers[n].ret)
    requires listening ==> forall i | 0 <= i < n && Kept(answers[i]) :: answers[i].ret != answers[n].ret
    ensures RoundEffect(s, s2, listening, ee, threads, answers, n + 1)
  {
    if listening {
      AcceptRoundNext(s, s1, s2, ee, threads, answers, n);
    } else {
      DataRoundNext(s, s1, s2, ee, answers, n, threads);
    }
  }
}
