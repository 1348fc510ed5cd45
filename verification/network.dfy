/** The network code on the poller's structures: the callbacks, the dispatch of a new connection to
    a data poller, and one round of epoll_wait.  A round is proved to be a run of steps of the
    server model, and to follow no pointer that is not to a live event with its callback set. */
module Network {
  import opened Common
  import opened PollerState
  import opened Pollers
  import opened Effects
  import Sv = Server

  /** gt_datanet_ops_read. */
  method DatanetOpsRead(pr: Process, ge: Event, ans: Answer) returns (ret: int)
    requires pr.Valid() && ge in pr.live
    modifies pr`interest, pr`calls, pr`live, ge, ge.list, ge.gpoller`last, ge.gpoller.elist
    ensures pr.Valid() && pr.pollers == old(pr.pollers) && pr.live <= old(pr.live)
    ensures pr.Abs() == Sv.AfterRead(old(pr.Abs()), ge, ans.ret, ans.errno)
    ensures ret == if ans.ret <= 0 && ans.errno == EAGAIN then GT_OK else ans.ret
    ensures pr.live == if Survives(ans) then old(pr.live) else old(pr.live) - {ge}
    ensures pr.interest == if Survives(ans) then old(pr.interest) else Closed(old(pr.interest), old(ge.efd))
    ensures pr.calls == if Survives(ans) then old(pr.calls) else
              old(pr.calls + pr.StopCalls(ge, ge.events, {EpollIn})
                  + pr.StopCalls(ge, ge.events - {EpollIn}, ge.events - {EpollIn}) + [CloseCall(ge.efd)])
  {
    ret := ans.ret;
    if ret <= 0 {
      if ans.errno == EAGAIN {
        return GT_OK;
      } else {
        NoneTaken(ge.events, {EpollIn});
        pr.ClosedAnyway(pr.interest, (ge.gpoller, ge.efd), Entry(ge.events - {EpollIn}, ge.ptr));
        var stopped := pr.EventStop({EpollIn}, ge);
        pr.GeventDestroy(ge);
      }
      return ret;
    }
    return ret;
  }

  lemma NoneTaken(mask: Mask, flag: Mask)
    ensures mask * flag == {} ==> mask - flag == mask
  {
    if mask * flag == {} {
      forall b | b in mask ensures b !in flag {
        assert b in flag ==> b in mask * flag;
      }
    }
  }

  /** The part gt_network_round_dispatch and gt_network_listenning share. */
  method Establish(pr: Process, fd: int, gpoller: Poller, cb: Callback, ans: Answer) returns (ret: int, ge: Event?)
    requires pr.Valid() && gpoller in pr.pollers
    modifies pr`interest, pr`calls, pr`live, gpoller`last, gpoller.elist
    ensures pr.Valid() && pr.pollers == old(pr.pollers)
    ensures forall e | e in pr.live && e !in old(pr.live) :: e == ge
    ensures !ans.malloc ==> ge == null && pr.live == old(pr.live) && pr.Abs() == old(pr.Abs())
    ensures ans.malloc ==> ge != null && fresh(ge) && fresh(ge.list)
                           && (ret, pr.Abs()) == Started(old(pr.Abs()), ge, fd, gpoller, cb, ans.refuse)
    ensures ans.malloc ==> Arrived(old(pr.Abs()), pr.Abs(), ge, fd, gpoller, cb, ans.refuse)
                           && ret == if (gpoller, fd) in old(pr.interest) || ans.refuse then -1 else 0
    ensures pr.calls == old(pr.calls) + if ans.malloc then [EpollCtlCall(gpoller, CtlAdd, fd, {EpollIn}, cb)] else []
  {
    ret := GT_OK;
    ge := pr.GeventCreate(fd, gpoller, ans.malloc);
    if ge == null {
      return;
    }
    ret := Prepare(pr, ge, cb, ans.refuse);
    StartedMeans(old(pr.Abs()), ge, fd, gpoller, cb, ans.refuse);
  }

  method Prepare(pr: Process, ge: Event, cb: Callback, refuse: bool) returns (ret: int)
    requires pr.Valid() && ge in pr.live
    modifies pr`interest, pr`calls, ge
    ensures pr.Valid() && pr.pollers == old(pr.pollers) && pr.live == old(pr.live)
    ensures (ret, pr.Abs()) == Start(SetRead(old(pr.Abs()), ge, cb), {EpollIn}, ge, refuse)
    ensures old(ge.events) == {} ==> pr.calls == old(pr.calls) + [EpollCtlCall(old(ge.gpoller), CtlAdd, old(ge.efd), {EpollIn}, cb)]
  {
    assert {} + {EpollIn} == {EpollIn} && {} * {EpollIn} == {};
    pr.AssignRead(ge, cb);
    ret := pr.EventStart({EpollIn}, ge, refuse);
  }

  /** gt_network_round_dispatch; threads are the pollers of g_gt_datanet_pthread. */
  method RoundDispatch(pr: Process, sockfd: int, threads: seq<Poller>, ans: Answer) returns (ret: int, ge: Event?)
    requires pr.Valid() && threads != [] && (forall p | p in threads :: p in pr.pollers) && 0 <= sockfd
    modifies pr, pr.pollers, pr.ListNodes()
    ensures pr.Valid() && pr.pollers == old(pr.pollers)
    ensures forall e | e in pr.live && e !in old(pr.live) :: e == ge
    ensures !ans.malloc ==> ret == GT_OK && ge == null && pr.live == old(pr.live) && pr.Abs() == old(pr.Abs())
    ensures ans.malloc ==>
              && ge != null && fresh(ge) && fresh(ge.list)
              && var (r, s) := Started(old(pr.Abs()), ge, sockfd, threads[sockfd % |threads|], DatanetRead, ans.refuse);
                 pr.Abs() == s && ret == if r == GT_OK then GT_OK else GT_ERROR
    ensures ans.malloc ==>
              && Arrived(old(pr.Abs()), pr.Abs(), ge, sockfd, threads[sockfd % |threads|], DatanetRead, ans.refuse)
              && ret == if (threads[sockfd % |threads|], sockfd) in old(pr.interest) || ans.refuse then -1 else 0
    ensures pr.calls == old(pr.calls)
              + if ans.malloc then [EpollCtlCall(threads[sockfd % |threads|], CtlAdd, sockfd, {EpollIn}, DatanetRead)] else []
  {
    var idx := sockfd % |threads|;
    var gpoller := threads[idx];
    assert gpoller in threads;
    ret, ge := Establish(pr, sockfd, gpoller, DatanetRead, ans);
    if ge == null {
      return GT_OK, null;
    }
    if GT_OK != ret {
      return GT_ERROR, ge;
    }
    return GT_OK, ge;
  }

  /** gt_network_listenning, from the point where the socket listens. */
  method Listenning(pr: Process, lfd: int, net: Poller, ans: Answer) returns (ret: int, ge: Event?)
    requires pr.Valid() && net in pr.pollers
    modifies pr`interest, pr`calls, pr`live, net`last, net.elist
    ensures pr.Valid() && pr.pollers == old(pr.pollers)
    ensures !ans.malloc ==> ret == GT_ERROR && ge == null && pr.Abs() == old(pr.Abs())
    ensures ans.malloc ==>
              && ge != null && fresh(ge)
              && var (r, s) := Started(old(pr.Abs()), ge, lfd, net, NetworkRead, ans.refuse);
                 pr.Abs() == s && ret == if r == GT_OK then GT_OK else GT_ERROR
    ensures ans.malloc ==> Arrived(old(pr.Abs()), pr.Abs(), ge, lfd, net, NetworkRead, ans.refuse)
                           && ret == if (net, lfd) in old(pr.interest) || ans.refuse then -1 else 0
    ensures pr.calls == old(pr.calls) + if ans.malloc then [EpollCtlCall(net, CtlAdd, lfd, {EpollIn}, NetworkRead)] else []
  {
    ret, ge := Establish(pr, lfd, net, NetworkRead, ans);
    if ge == null || GT_OK != ret {
      return GT_ERROR, ge;
    }
    return GT_OK, ge;
  }

  /** gt_network_ops_read.  A connection whose options cannot be set is closed again at once. */
  method NetworkOpsRead(pr: Process, threads: seq<Poller>, ans: Answer) returns (ret: int, ge: Event?)
    requires pr.Valid() && threads != [] && (forall p | p in threads :: p in pr.pollers)
    requires ans.ret == -1 || (0 <= ans.ret && forall w | w in pr.interest :: w.1 != ans.ret)
    modifies pr, pr.pollers, pr.ListNodes()
    ensures pr.Valid() && pr.pollers == old(pr.pollers)
    ensures forall e | e in pr.live && e !in old(pr.live) :: e == ge
    ensures ans.ret == -1 ==> ret == if ans.errno == EAGAIN then GT_OK else GT_ERROR
    ensures ans.ret != -1 && (!ans.sockopt || !ans.fcntl) ==> ret == -1
    ensures ans.ret != -1 && ans.sockopt && ans.fcntl && !ans.malloc ==> ret == GT_OK
    ensures ans.ret == -1 || !ans.sockopt || !ans.fcntl || !ans.malloc ==>
              ge == null && pr.live == old(pr.live) && pr.Abs() == old(pr.Abs())
    ensures ans.ret != -1 && ans.sockopt && ans.fcntl && ans.malloc ==>
              && ge != null && fresh(ge) && fresh(ge.list)
              && var (r, s) := Started(old(pr.Abs()), ge, ans.ret, threads[ans.ret % |threads|], DatanetRead, ans.refuse);
                 pr.Abs() == s && ret == if r == GT_OK then GT_OK else GT_ERROR
    ensures ans.ret != -1 && ans.sockopt && ans.fcntl && ans.malloc ==>
              && Arrived(old(pr.Abs()), pr.Abs(), ge, ans.ret, threads[ans.ret % |threads|], DatanetRead, ans.refuse)
              && ret == if ans.refuse then -1 else 0
    ensures pr.calls == old(pr.calls) +
              if ans.ret == -1 then []
              else if !ans.sockopt || !ans.fcntl then [CloseCall(ans.ret)]
              else if ans.malloc then [EpollCtlCall(threads[ans.ret % |threads|], CtlAdd, ans.ret, {EpollIn}, DatanetRead)]
              else []
  {
    ge := null;
    var cfd := ans.ret;
    if cfd == -1 {
      if ans.errno == EAGAIN {
        return GT_OK, null;
      } else {
        return GT_ERROR, null;
      }
    }
    if !ans.sockopt || !ans.fcntl {
      pr.interest := Closed(pr.interest, cfd);
      pr.calls := pr.calls + [CloseCall(cfd)];
      assert pr.interest == old(pr.interest);
      return -1, null;
    }
    ret, ge := RoundDispatch(pr, cfd, threads, ans);
    if GT_OK != ret {
      return GT_ERROR, ge;
    }
    return GT_OK, ge;
  }

  // ---- one round of epoll_wait ----

  ghost predicate AcceptAnswer(open: set<int>, ans: Answer) {
    ans.ret == -1 || (0 <= ans.ret && ans.ret !in open)
  }

  /** The model's state sv describes the process. */
  ghost predicate Describes(cfg: Sv.Config<Poller>, sv: Sv.Server<Event, Poller>, pr: Process)
    requires Sv.GoodConfig(cfg)
    reads pr, pr.live, pr.pollers, pr.ListNodes()
  {
    pr.Valid() && Sv.Pollers(cfg) <= pr.pollers && Sv.Inv(cfg, sv) && sv.s == pr.Abs()
  }

  /** Before anything is listened to, the process is described by the state every run starts in. */
  lemma InitiallyDescribed(cfg: Sv.Config<Poller>, pr: Process)
    requires Sv.GoodConfig(cfg) && pr.Valid() && Sv.Pollers(cfg) <= pr.pollers && pr.live == {} && pr.interest == map[]
    ensures Describes(cfg, Sv.Initial(cfg), pr)
  {
    pr.AbsIs(map[]);
    Sv.InitialInv<Event, Poller>(cfg);
  }

  /** Setting up the listening event is three steps of the model, and none if there is no memory. */
  method StartListening(pr: Process, lfd: int, net: Poller, ans: Answer,
                        ghost cfg: Sv.Config<Poller>, ghost sv: Sv.Server<Event, Poller>)
    returns (ret: int, ghost run: seq<Sv.Server<Event, Poller>>, ghost steps: seq<Sv.Step<Event, Poller>>)
    requires Sv.GoodConfig(cfg) && cfg.net == net && Describes(cfg, sv, pr) && sv.pending.None? && lfd !in sv.open
    modifies pr`interest, pr`calls, pr`live, net`last, net.elist
    ensures Sv.IsPath(cfg, run, steps) && run[0] == sv && Describes(cfg, run[|steps|], pr)
    ensures pr.pollers == old(pr.pollers)
    ensures run[|steps|].pending.None? && run[|steps|].batch == sv.batch
    ensures ret == if ans.malloc && !ans.refuse then 0 else -1
    ensures (net, lfd) in pr.interest <==> ret == 0
  {
    Sv.WatchedAreOpen(cfg, sv);
    var ge;
    ret, ge := Listenning(pr, lfd, net, ans);
    if ge == null {
      run, steps := [sv], [];
    } else {
      run, steps := Sv.ListenPath(cfg, sv, lfd, ge, ans.refuse);
    }
  }

  /** A data event's callback is one step of the model. */
  method DispatchRead(pr: Process, gpoller: Poller, ge: Event, ans: Answer,
                      ghost cfg: Sv.Config<Poller>, ghost sv: Sv.Server<Event, Poller>)
    returns (ghost run: seq<Sv.Server<Event, Poller>>, ghost steps: seq<Sv.Step<Event, Poller>>)
    requires Sv.GoodConfig(cfg) && Describes(cfg, sv, pr)
    requires Sv.Calls(cfg, sv, gpoller, DatanetRead) && ge == sv.batch[gpoller][0].ptr.value
    modifies pr, ge, ge.list, ge.gpoller, ge.gpoller.elist
    ensures Sv.IsPath(cfg, run, steps) && run[0] == sv && Describes(cfg, run[|steps|], pr)
    ensures pr.pollers == old(pr.pollers) && pr.live <= old(pr.live)
    ensures run[|steps|].batch == sv.batch[gpoller := sv.batch[gpoller][1..]] && run[|steps|].open <= sv.open
    ensures run[|steps|].pending == sv.pending
    ensures ReadEffect(sv.s, run[|steps|].s, ge, ans)
  {
    AfterReadMeans(cfg, sv, ge, ans);
    var ret := DatanetOpsRead(pr, ge, ans);
    var step: Sv.Step<Event, Poller> := Sv.Read(gpoller, ans.ret, ans.errno);
    run, steps := Sv.StepPath(cfg, sv, step);
  }

  /** A listening event's callback is one step of the model, or three.  A connection that is kept
      when there is no memory for its event is leaked. */
  method DispatchAccept(pr: Process, gpoller: Poller, threads: seq<Poller>, ans: Answer,
                        ghost cfg: Sv.Config<Poller>, ghost sv: Sv.Server<Event, Poller>)
    returns (ghost run: seq<Sv.Server<Event, Poller>>, ghost steps: seq<Sv.Step<Event, Poller>>)
    requires Sv.GoodConfig(cfg) && cfg.data == threads && Describes(cfg, sv, pr) && sv.pending.None?
    requires Sv.Calls(cfg, sv, gpoller, NetworkRead) && AcceptAnswer(sv.open, ans)
    modifies pr, pr.pollers, pr.ListNodes()
    ensures Sv.IsPath(cfg, run, steps) && run[0] == sv && Describes(cfg, run[|steps|], pr)
    ensures pr.pollers == old(pr.pollers)
    ensures forall e | e in pr.live && e !in old(pr.live) :: fresh(e) && fresh(e.list)
    ensures run[|steps|].batch == sv.batch[gpoller := sv.batch[gpoller][1..]] && run[|steps|].pending.None?
    ensures run[|steps|].open <= sv.open + if Kept(ans) then {ans.ret} else {}
    ensures Kept(ans) && !ans.malloc ==> Sv.Leaked(run[|steps|], ans.ret)
    ensures AcceptEffect(sv.s, run[|steps|].s, threads, ans)
  {
    Sv.WatchedAreOpen(cfg, sv);
    var ret, ne := NetworkOpsRead(pr, threads, ans);
    run, steps := AcceptSteps(gpoller, ans, ne, cfg, sv);
    assert Kept(ans) && ans.malloc ==> ne in run[|steps|].s.events;
  }

  lemma AcceptSteps(gpoller: Poller, ans: Answer, ne: Event?, cfg: Sv.Config<Poller>, sv: Sv.Server<Event, Poller>)
    returns (run: seq<Sv.Server<Event, Poller>>, steps: seq<Sv.Step<Event, Poller>>)
    requires Sv.GoodConfig(cfg) && Sv.Inv(cfg, sv) && sv.pending.None?
    requires Sv.Calls(cfg, sv, gpoller, NetworkRead) && AcceptAnswer(sv.open, ans)
    requires ne != null ==> Kept(ans) && ne !in sv.s.events
    ensures Sv.IsPath(cfg, run, steps) && run[0] == sv && Sv.Inv(cfg, run[|steps|]) && run[|steps|].pending.None?
    ensures run[|steps|].s == if ne == null then sv.s
                              else Started(sv.s, ne, ans.ret, cfg.data[ans.ret % |cfg.data|], DatanetRead, ans.refuse).1
    ensures run[|steps|].batch == sv.batch[gpoller := sv.batch[gpoller][1..]]
    ensures run[|steps|].open <= sv.open + if Kept(ans) then {ans.ret} else {}
    ensures ne == null && Kept(ans) ==> Sv.Leaked(run[|steps|], ans.ret)
  {
    if ne == null {
      var step: Sv.Step<Event, Poller> := if Kept(ans) then Sv.AcceptLeak(gpoller, ans.ret) else Sv.AcceptNothing(gpoller);
      run, steps := Sv.StepPath(cfg, sv, step);
      Sv.LeaksExactly(cfg, sv, step, ans.ret);
    } else {
      var e: Event := ne;
      run, steps := Sv.AcceptPath(cfg, sv, gpoller, ans.ret, e, ans.refuse);
    }
  }

  /** The body of the dispatch loop, on a poller whose thread is not inside a callback: for a data
      poller, also while the network thread is in the middle of an accept.  The two branches that
      would call an unset callback are never taken. */
  method DispatchSlot(pr: Process, gpoller: Poller, r: Sv.Ready<Event>, threads: seq<Poller>, ans: Answer,
                      ghost cfg: Sv.Config<Poller>, ghost sv: Sv.Server<Event, Poller>)
    returns (ghost run: seq<Sv.Server<Event, Poller>>, ghost steps: seq<Sv.Step<Event, Poller>>)
    requires Sv.GoodConfig(cfg) && cfg.data == threads && Describes(cfg, sv, pr)
    requires !Sv.Busy(cfg, sv, gpoller)
    requires gpoller in sv.batch && sv.batch[gpoller] != [] && r == sv.batch[gpoller][0]
    requires gpoller == cfg.net ==> AcceptAnswer(sv.open, ans)
    modifies pr, pr.live, pr.pollers, pr.ListNodes()
    ensures Sv.IsPath(cfg, run, steps) && run[0] == sv && Describes(cfg, run[|steps|], pr)
    ensures pr.pollers == old(pr.pollers)
    ensures forall e | e in pr.live && e !in old(pr.live) :: fresh(e) && fresh(e.list)
    ensures run[|steps|].batch == sv.batch[gpoller := sv.batch[gpoller][1..]] && run[|steps|].pending == sv.pending
    ensures run[|steps|].open <= sv.open + if gpoller == cfg.net && Kept(ans) then {ans.ret} else {}
    ensures SlotEffect(sv.s, run[|steps|].s, r, gpoller == cfg.net, threads, ans)
  {
    Sv.NextSlot(cfg, sv, gpoller);
    if EpollIn in r.revents {
      var ge := r.ptr.value;
      if ge.read == DatanetRead {
        run, steps := DispatchRead(pr, gpoller, ge, ans, cfg, sv);
      } else if ge.read == NetworkRead {
        run, steps := DispatchAccept(pr, gpoller, threads, ans, cfg, sv);
      } else {
        assert false;
      }
    } else if EpollOut in r.revents {
      assert false;
    } else {
      var step: Sv.Step<Event, Poller> := Sv.Ignore(gpoller);
      run, steps := Sv.StepPath(cfg, sv, step);
    }
  }

  /** accept answers with descriptors that are not open: not open when the round starts, and not
      handed out and kept earlier in the round. */
  ghost predicate AcceptAnswers(open: set<int>, answers: seq<Answer>) {
    && (forall i | 0 <= i < |answers| :: AcceptAnswer(open, answers[i]))
    && (forall i, j | 0 <= i < j < |answers| && Kept(answers[i]) :: answers[i].ret != answers[j].ret)
  }

  ghost function KeptFds(answers: seq<Answer>): set<int> {
    set i | 0 <= i < |answers| && Kept(answers[i]) :: answers[i].ret
  }

  /** A descriptor kept so far in the round is not answered again. */
  lemma StillFresh(open: set<int>, answers: seq<Answer>, i: nat, now: set<int>)
    requires AcceptAnswers(open, answers) && i < |answers| && now <= open + KeptFds(answers[..i])
    ensures AcceptAnswer(now, answers[i])
    ensures now + (if Kept(answers[i]) then {answers[i].ret} else {}) <= open + KeptFds(answers[..i + 1])
  {
    assert forall j | 0 <= j < i :: answers[..i][j] == answers[..i + 1][j] == answers[j];
    assert answers[..i + 1][i] == answers[i];
  }

  /** The model's path through a round that has reached slot i. */
  ghost predicate Underway(cfg: Sv.Config<Poller>, sv: Sv.Server<Event, Poller>, gpoller: Poller, ee: seq<Sv.Ready<Event>>,
                           reports: seq<(int, Mask)>, i: nat,
                           run: seq<Sv.Server<Event, Poller>>, steps: seq<Sv.Step<Event, Poller>>)
    requires Sv.GoodConfig(cfg) && i <= |ee|
  {
    && Sv.IsPath(cfg, run, steps) && run[0] == sv && steps != [] && steps[0] == Sv.Wait(gpoller, reports)
    && run[|steps|].batch == sv.batch[gpoller := ee[i..]] && run[|steps|].pending == sv.pending
  }

  lemma Continues(cfg: Sv.Config<Poller>, sv: Sv.Server<Event, Poller>, gpoller: Poller, ee: seq<Sv.Ready<Event>>,
                  reports: seq<(int, Mask)>, i: nat,
                  run: seq<Sv.Server<Event, Poller>>, steps: seq<Sv.Step<Event, Poller>>,
                  run': seq<Sv.Server<Event, Poller>>, steps': seq<Sv.Step<Event, Poller>>)
    requires Sv.GoodConfig(cfg) && i < |ee| && Underway(cfg, sv, gpoller, ee, reports, i, run, steps)
    requires Sv.IsPath(cfg, run', steps') && run'[0] == run[|steps|]
    requires run'[|steps'|].batch == run[|steps|].batch[gpoller := ee[i + 1..]] && run'[|steps'|].pending == sv.pending
    ensures Underway(cfg, sv, gpoller, ee, reports, i + 1, run + run'[1..], steps + steps')
    ensures (run + run'[1..])[|steps + steps'|] == run'[|steps'|]
  {
    Sv.PathJoin(cfg, run, steps, run', steps');
  }

  lemma Starts(cfg: Sv.Config<Poller>, sv: Sv.Server<Event, Poller>, gpoller: Poller, ee: seq<Sv.Ready<Event>>,
               reports: seq<(int, Mask)>)
    returns (run: seq<Sv.Server<Event, Poller>>, steps: seq<Sv.Step<Event, Poller>>)
    requires Sv.GoodConfig(cfg) && Sv.Inv(cfg, sv) && !Sv.Busy(cfg, sv, gpoller)
    requires gpoller in sv.batch && sv.batch[gpoller] == []
    requires Sv.KernelReports(sv.s.interest, gpoller, reports) && Filled(ee, sv.s.interest, gpoller, reports)
    ensures Underway(cfg, sv, gpoller, ee, reports, 0, run, steps)
    ensures var t := run[|steps|]; t.s == sv.s && t.open == sv.open && Sv.Inv(cfg, t)
  {
    run, steps := Sv.StepPath(cfg, sv, Sv.Step<Event, Poller>.Wait(gpoller, reports));
    FilledIsBatch(ee, sv.s.interest, gpoller, reports);
    assert ee[0..] == ee;
  }

  /** Slot i of a round: the call, and its steps appended to the path so far. */
  method RoundSlot(pr: Process, gpoller: Poller, ee: seq<Sv.Ready<Event>>, threads: seq<Poller>, answers: seq<Answer>, i: nat,
                   ghost reports: seq<(int, Mask)>, ghost cfg: Sv.Config<Poller>, ghost sv: Sv.Server<Event, Poller>,
                   ghost run: seq<Sv.Server<Event, Poller>>, ghost steps: seq<Sv.Step<Event, Poller>>)
    returns (ghost r: seq<Sv.Server<Event, Poller>>, ghost t: seq<Sv.Step<Event, Poller>>)
    requires Sv.GoodConfig(cfg) && cfg.data == threads && i < |ee| == |answers|
    requires Underway(cfg, sv, gpoller, ee, reports, i, run, steps) && Describes(cfg, run[|steps|], pr)
    requires gpoller in sv.batch && !Sv.Busy(cfg, sv, gpoller)
    requires gpoller == cfg.net ==> AcceptAnswers(sv.open, answers) && run[|steps|].open <= sv.open + KeptFds(answers[..i])
    requires RoundEffect(sv.s, run[|steps|].s, gpoller == cfg.net, ee, threads, answers, i)
    modifies pr, pr.live, pr.pollers, pr.ListNodes()
    ensures Underway(cfg, sv, gpoller, ee, reports, i + 1, r, t) && Describes(cfg, r[|t|], pr)
    ensures gpoller == cfg.net ==> r[|t|].open <= sv.open + KeptFds(answers[..i + 1])
    ensures RoundEffect(sv.s, r[|t|].s, gpoller == cfg.net, ee, threads, answers, i + 1)
    ensures pr.pollers == old(pr.pollers)
    ensures forall e | e in pr.live && e !in old(pr.live) :: fresh(e) && fresh(e.list)
  {
    if gpoller == cfg.net {
      StillFresh(sv.open, answers, i, run[|steps|].open);
      Sv.WatchedAreOpen(cfg, run[|steps|]);
    }
    assert ee[i..][1..] == ee[i + 1..];
    var run', steps' := DispatchSlot(pr, gpoller, ee[i], threads, answers[i], cfg, run[|steps|]);
    Continues(cfg, sv, gpoller, ee, reports, i, run, steps, run', steps');
    r, t := run + run'[1..], steps + steps';
    RoundNext(sv.s, run[|steps|].s, r[|t|].s, gpoller == cfg.net, ee, threads, answers, i);
  }

  /** The event of a slot on a data poller, if its callback was called, is live exactly if read
      answered more than 0 or left EAGAIN, which is 11, and it is watched exactly if it is live. */
  ghost predicate SlotRead(pr: Process, gpoller: Poller, r: Sv.Ready<Event>, fd: int, ans: Answer)
    reads pr
  {
    EpollIn in r.revents ==>
      && r.ptr.Some?
      && (r.ptr.value in pr.live <==> ans.ret > 0 || ans.errno == 11)
      && ((gpoller, fd) in pr.interest <==> r.ptr.value in pr.live)
  }

  /** A connection kept with memory for its event has a live event that was not among those of
      before, on the poller its descriptor selects, with its callback set, and watched exactly if
      the kernel did not refuse. */
  ghost predicate SlotAccepted(pr: Process, before: set<Event>, threads: seq<Poller>, r: Sv.Ready<Event>, ans: Answer)
    requires threads != []
    reads pr, pr.live
  {
    Takes(r, ans) ==>
      exists e | e in pr.live ::
        && e !in before && e.efd == ans.ret && e.gpoller == threads[ans.ret % |threads|] && e.read == DatanetRead
        && ((e.gpoller, e.efd) in pr.interest <==> !ans.refuse)
  }

  lemma SlotsRead(pr: Process, gpoller: Poller, ee: seq<Sv.Ready<Event>>, answers: seq<Answer>, reports: seq<(int, Mask)>,
                  cfg: Sv.Config<Poller>, sv: Sv.Server<Event, Poller>)
    requires Sv.GoodConfig(cfg) && Sv.Inv(cfg, sv) && |ee| == |answers|
    requires Sv.KernelReports(sv.s.interest, gpoller, reports) && Filled(ee, sv.s.interest, gpoller, reports)
    requires pr.Abs() == Less(sv.s, Ended(ee, answers, |ee|))
    ensures forall i | 0 <= i < |ee| :: SlotRead(pr, gpoller, ee[i], reports[i].0, answers[i])
  {
    forall i | 0 <= i < |ee| ensures SlotRead(pr, gpoller, ee[i], reports[i].0, answers[i]) {
      SlotFates(cfg, sv, gpoller, reports, ee, answers, i);
      assert pr.live == pr.Abs().events.Keys;
    }
  }

  lemma SlotsAccepted(pr: Process, s: State<Event, Poller>, ee: seq<Sv.Ready<Event>>, threads: seq<Poller>, answers: seq<Answer>)
    requires threads != [] && |ee| == |answers| && AcceptRound(s, pr.Abs(), ee, threads, answers, |ee|)
    ensures forall i | 0 <= i < |ee| :: SlotAccepted(pr, s.events.Keys, threads, ee[i], answers[i])
  {
    forall i | 0 <= i < |ee| && Takes(ee[i], answers[i]) ensures SlotAccepted(pr, s.events.Keys, threads, ee[i], answers[i]) {
      var e :| e in pr.Abs().events && Newcomer(s, pr.Abs(), e, threads, answers[i]);
      assert e in pr.live && pr.Abs().events[e] == e.Rec();
    }
  }

  /** The dispatch loop of a round. */
  method DispatchLoop(pr: Process, gpoller: Poller, ee: seq<Sv.Ready<Event>>, threads: seq<Poller>, answers: seq<Answer>,
                      ghost reports: seq<(int, Mask)>, ghost cfg: Sv.Config<Poller>, ghost sv: Sv.Server<Event, Poller>)
    returns (ghost run: seq<Sv.Server<Event, Poller>>, ghost steps: seq<Sv.Step<Event, Poller>>)
    requires Sv.GoodConfig(cfg) && cfg.data == threads && Describes(cfg, sv, pr)
    requires gpoller in sv.batch && sv.batch[gpoller] == [] && !Sv.Busy(cfg, sv, gpoller)
    requires Sv.KernelReports(pr.interest, gpoller, reports) && Filled(ee, pr.interest, gpoller, reports)
    requires |answers| == |ee| && (gpoller == cfg.net ==> AcceptAnswers(sv.open, answers))
    modifies pr, pr.live, pr.pollers, pr.ListNodes()
    ensures Sv.IsPath(cfg, run, steps) && run[0] == sv && steps != [] && steps[0] == Sv.Wait(gpoller, reports)
    ensures Describes(cfg, run[|steps|], pr) && run[|steps|].batch == sv.batch && run[|steps|].pending == sv.pending
    ensures RoundEffect(sv.s, pr.Abs(), gpoller == cfg.net, ee, threads, answers, |ee|)
  {
    run, steps := Starts(cfg, sv, gpoller, ee, reports);
    RoundStarts(sv.s, gpoller == cfg.net, ee, threads, answers);
    var eventsNum := |ee|;
    for i := 0 to eventsNum
      invariant Underway(cfg, sv, gpoller, ee, reports, i, run, steps)
      invariant Describes(cfg, run[|steps|], pr) && pr.pollers == old(pr.pollers)
      invariant gpoller == cfg.net ==> run[|steps|].open <= sv.open + KeptFds(answers[..i])
      invariant forall e | e in pr.live && e !in old(pr.live) :: fresh(e) && fresh(e.list)
      invariant RoundEffect(sv.s, run[|steps|].s, gpoller == cfg.net, ee, threads, answers, i)
    {
      run, steps := RoundSlot(pr, gpoller, ee, threads, answers, i, reports, cfg, sv, run, steps);
    }
    Emptied(sv.batch, gpoller, ee);
  }

  /** gt_poller_epoll_wait: ee is what the kernel put into the array.  The round is a run of the
      server model, from the state that describes the process before to one that describes it
      after, with nothing left in the array; a data poller's round also while the network thread
      is in the middle of an accept, which it leaves as it is. */
  method EpollWait(pr: Process, gpoller: Poller, ee: seq<Sv.Ready<Event>>, threads: seq<Poller>, answers: seq<Answer>,
                   ghost reports: seq<(int, Mask)>, ghost cfg: Sv.Config<Poller>, ghost sv: Sv.Server<Event, Poller>)
    returns (ghost run: seq<Sv.Server<Event, Poller>>, ghost steps: seq<Sv.Step<Event, Poller>>)
    requires Sv.GoodConfig(cfg) && cfg.data == threads && Describes(cfg, sv, pr)
    requires gpoller in sv.batch && sv.batch[gpoller] == [] && !Sv.Busy(cfg, sv, gpoller)
    requires Sv.KernelReports(pr.interest, gpoller, reports) && Filled(ee, pr.interest, gpoller, reports)
    requires |answers| == |ee| && (gpoller == cfg.net ==> AcceptAnswers(sv.open, answers))
    modifies pr, pr.live, pr.pollers, pr.ListNodes()
    ensures Sv.IsPath(cfg, run, steps) && run[0] == sv && steps != [] && steps[0] == Sv.Wait(gpoller, reports)
    ensures Describes(cfg, run[|steps|], pr) && run[|steps|].batch == sv.batch && run[|steps|].pending == sv.pending
    ensures RoundEffect(old(pr.Abs()), pr.Abs(), gpoller == cfg.net, ee, threads, answers, |ee|)
    ensures gpoller != cfg.net ==> forall i | 0 <= i < |ee| :: SlotRead(pr, gpoller, ee[i], reports[i].0, answers[i])
    ensures gpoller == cfg.net ==> forall i | 0 <= i < |ee| :: SlotAccepted(pr, old(pr.live), threads, ee[i], answers[i])
  {
    assert sv.s.events.Keys == pr.live;
    run, steps := DispatchLoop(pr, gpoller, ee, threads, answers, reports, cfg, sv);
    if gpoller == cfg.net {
      SlotsAccepted(pr, sv.s, ee, threads, answers);
    } else {
      SlotsRead(pr, gpoller, ee, answers, reports, cfg, sv);
    }
  }

  lemma Emptied<P, R>(batch: map<P, seq<R>>, p: P, ee: seq<R>)
    requires p in batch && batch[p] == []
    ensures batch[p := ee[|ee|..]] == batch
  {
    assert ee[|ee|..] == [];
    assert batch[p := []] == batch;
  }
}
