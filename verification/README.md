# A verified model of the guitar-tea server core

guitar-tea is a small C server framework. This project models its five pieces with real
behaviour and proves what they do, on all inputs and over all runs:

- **The intrusive list** (`user/comm/gt_list.h`). `list_head.dfy` has the pointer code on mutable
  nodes, with every aliasing case: empty rings, lone nodes, a node next to the head, splices. Each
  operation has this contract: if the heap holds a family of disjoint rings, it afterwards holds the
  family computed by a plain function on sequences (`rings.dfy`). Those that assign links themselves
  have a second one, on raw links, for nodes on no proper ring; moves, the splices of whole rings and
  replacement with re-initialisation are composed of them. `ring_runs.dfy`, `ring_access.dfy` and
  `list_runs.dfy` carry this to whole runs, to walks in both directions, and to safe walks that
  delete or move nodes; `ring_laws.dfy` says position by position where each operation, run and walk
  leaves the nodes; `tail_walks.dfy` has the safe walks that may not end.
- **The poller and its event registry** (`user/core/gt_poller.c`, `user/core/gt_network.c`).
  `poller_state.dfy` says what start, stop, create and destroy compute, with the kernel's interest
  sets beside the events' own masks; `poller.dfy` has the code on objects and proves that it computes
  just that, together with the exact content of the event lists; `network.dfy` has the callbacks and
  the `epoll_wait` loop, whose effect, answer by answer and over a round, `effects.dfy` says in terms
  of the registry and the interest sets alone; `server.dfy` is the interleaving of the network thread with the data
  threads, and a round of the loop is proved to be a run of that model.
- **The spinlock** (`user/core/gt_spinlock.h`) and **its test program** (`test/spinlock_test.c`):
  any number of threads, one atomic access a turn, the counter's load and store being two turns.
- **The start-up gate** (`user/core/gt_worker.c`): one broadcast, no flag, and who gets past.
- **The phase table** (`user/core/gt_core.c`): first registration wins, ordered run, early stop.

## Where the code and its intention differ

The model follows the code.

- `gt_poller_gevent_create` passes the list head and the new entry to `list_add` in the opposite
  order to the one `list_add` documents. So the event list is not the registry of live events: it
  holds the last created event or nothing. `ListsLiveExactly` says when it is what it looks like,
  and `Misled` is a concrete history on which it is not and on which cleaning up does not warn.
- `gt_poller_event_stop` chooses between MOD and DEL before it clears bits, so it never issues DEL.
  An event stopped down to no bits stays watched, its next start fails with ADD, and the start after
  that reports success without asking the kernel: `RestartIsLost`. `DivergedHistory` is the only way
  in which a watched event comes to have bits recorded that the kernel does not watch for.
- `gt_poller_event_start` takes one recorded bit of the flag for all of it: asked for EPOLLIN and
  EPOLLOUT when EPOLLIN is recorded, it reports success and EPOLLOUT is not watched: `PartialStart`.
  `StartDelivers` is the exact condition under which a successful start means that the kernel watches
  for the whole flag, and for some of it.
- `gt_datanet_ops_read` tests `errno` after a read of 0 bytes too, which sets none. If an earlier call
  on the thread left EAGAIN there, a connection its peer has closed is kept, stays watched, and is
  reported again, round after round: `EndOfFileMissed`. `ReadEndsExactly` says when an event ends.
- `gt_network_round_dispatch` returns an error when the start is refused and leaves the event and
  its descriptor behind: `RefusedStrands`, `StrandedForGood`. When there is no memory for the event it
  returns GT_OK and leaves the accepted descriptor open, with no event to it; no other step leaks one,
  and none closes it again: `LeaksExactly`, `LeakedExactly`.
- The gate has no predicate. A worker that is not yet waiting at the broadcast never gets past:
  `GateOpensForAll`, `CanPassOverRuns`. It happens: for any set of workers there is a run in which
  exactly these are late, `AnyCanBeLate`.

## Reading the model

A null link stands for zeroed memory and for both list poison values. An event mask is the set of
its bits, so `|`, `&` and `~` are union, intersection and difference. An epoll instance is identified
with the poller that owns it. What the operating system answers (read, accept, errno, setsockopt,
fcntl, malloc, a refused ADD, the clock) is an argument; logging is left out. Memory is sequentially
consistent. Operations on one poller are serial, except that the network thread creates events on
data pollers while their threads run, which `server.dfy` interleaves step by step. Pollers are
initialised before they are used.

## Model

| member | source | states |
|---|---|---|
| ListHeads.InitListHead | user/comm/gt_list.h:46-50 | a self-linked node; a new lone ring beside any family of rings |
| ListHeads.InsertBetween | user/comm/gt_list.h:59-67 | the four links for any nodes, aliased or not; on a family of rings, insertion at that gap of that ring and no other change |
| ListHeads.ListAdd | user/comm/gt_list.h:83-86 | the raw links, also when head and entry are swapped by the caller; on rings, the node becomes the first after the head |
| ListHeads.ListAddTail | user/comm/gt_list.h:100-103 | the raw links; on rings, the node becomes the last before the head |
| ListHeads.JoinNeighbours | user/comm/gt_list.h:112-116 | the two links; on rings, the node between them is off its ring and every ring closes |
| ListHeads.ListDel | user/comm/gt_list.h:125-130 | the neighbours are joined and the entry's links lead nowhere, also for a lone entry |
| ListHeads.ListDelInit | user/comm/gt_list.h:160-164 | as deletion, the entry then being a lone ring |
| ListHeads.ListReplace | user/comm/gt_list.h:141-148 | the new node takes the place of the old one as member, as head, or alone, where the aliasing leaves the new node a self-linked ring |
| ListHeads.ListReplaceInit | user/comm/gt_list.h:150-155 | replacement, the old node then being a lone ring |
| ListHeads.ListMove | user/comm/gt_list.h:171-175 | the node leaves its ring and comes first in the target, within one ring or between two |
| ListHeads.ListMoveTail | user/comm/gt_list.h:182-187 | the node leaves its ring and comes last in the target |
| ListHeads.ListIsLast | user/comm/gt_list.h:194-198 | true of exactly the last member of a ring |
| ListHeads.ListEmpty | user/comm/gt_list.h:204-207 | true of exactly the rings with no members |
| ListHeads.ListEmptyCareful | user/comm/gt_list.h:222-226 | agrees with list_empty on every proper ring |
| ListHeads.SpliceBetween | user/comm/gt_list.h:228-240 | the raw links for any nodes; on rings, the source's members go into the gap, also when both ends of the gap are the head |
| ListHeads.ListSplice | user/comm/gt_list.h:247-251 | source in front of destination; a non-empty source's head is left off the family |
| ListHeads.ListSpliceTail | user/comm/gt_list.h:258-263 | source behind destination; a non-empty source's head is left off the family |
| ListHeads.ListSpliceInit | user/comm/gt_list.h:272-279 | destination becomes source then destination, source an empty ring, for all lengths |
| ListHeads.ListSpliceTailInit | user/comm/gt_list.h:289-296 | destination becomes destination then source, source an empty ring, for all lengths |
| Rings.UnlinkMember | user/comm/gt_list.h:106-116 | taking a node out closes the gap in its ring and changes no other ring |
| Rings.ReplaceSeparate | user/comm/gt_list.h:135-148 | replacement keeps rings disjoint, gains the new node and frees the old one |
| RingRuns.ApplyKeeps | user/comm/gt_list.h:46-296 | every operation keeps the rings disjoint and without repeats, and conserves the nodes |
| RingRuns.ApplyUntouched | user/comm/gt_list.h:46-296 | an operation does not change a ring none of whose nodes it is about |
| RingRuns.RunKeeps | user/comm/gt_list.h:46-296 | disjointness and conservation of nodes over whole runs |
| RingRuns.RunUntouched | user/comm/gt_list.h:46-296 | rings a run does not mention are as they were |
| ListRuns.Execute | user/comm/gt_list.h:46-296 | any run of operations leaves the heap holding exactly the family the same run on sequences gives |
| ListRuns.Perform | user/comm/gt_list.h:46-296 | one operation leaves the heap holding the family of its sequence function, each node at the place its documentation says; a splice also link by link at the seams |
| RingLaws.ApplyPlaces | user/comm/gt_list.h:46-296 | position by position, where each of the eleven operations leaves every node of every ring |
| RingLaws.RunPlaces | user/comm/gt_list.h:46-296 | the same at every point of a run |
| RingLaws.SpliceIsMoves | user/comm/gt_list.h:171-279 | list_splice_init does what moving the members by list_move does, last one first |
| RingLaws.SpliceTailIsMoves | user/comm/gt_list.h:182-296 | list_splice_tail_init does what moving the members by list_move_tail does, first one first |
| RingLaws.WalkDelivers | user/comm/gt_list.h:359-367 | after any number of turns of a safe walk: each other ring with what was moved to its front, reversed, before it and what was moved to its end behind it; nodes deleted and re-initialised alone; nodes deleted nowhere |
| ListRuns.ForEach | user/comm/gt_list.h:333-335 | terminates and visits the members in order, each once |
| ListRuns.ForEachPrev | user/comm/gt_list.h:355-357 | terminates and visits the exact reverse |
| ListRuns.ForEachSafe | user/comm/gt_list.h:359-367 | a body that deletes chosen nodes, moves them to other rings, or moves them to the front of the ring walked still visits every original node once in order, and leaves the kept ones in order, behind those moved to the front in reverse; every other node is where its action sent it |
| RingRuns.PassedMeans | user/comm/gt_list.h:359-367 | what a safe walk leaves of the nodes passed: those moved to the front, reversed, then those kept |
| TailWalks.EndsExactly | user/comm/gt_list.h:359-367 | a body that moves chosen nodes to the end of the ring walked: the walk ends if and only if at most one is chosen, and after exactly how many turns |
| TailWalks.EndsWith | user/comm/gt_list.h:359-367 | where such a walk ends the chosen node is at the end of the ring and all others are as they were |
| TailWalks.TailWalk | user/comm/gt_list.h:171-367 | the pointer loop with list_move_tail, stopped after any number of turns, is at the place and has the ring that the turns on sequences give, and is at the head exactly if they have ended |
| RingRuns.WalkReaches | user/comm/gt_list.h:359-367 | at every point of a safe walk the operations so far were allowed and the nodes ahead are untouched |
| RingRuns.Drain | user/comm/gt_list.h:171-187 | draining by list_move reverses the source in front of the target, by list_move_tail appends it in order |
| RingAccess.ServesExactly | user/comm/gt_list.h:74-130 | one more access of a run succeeds if and only if the node to put is on no ring, or there is a node to take |
| RingAccess.FirstInFirstOut | user/comm/gt_list.h:92-103 | with list_add_tail: taken then left equals initial then put, over every run |
| RingAccess.StackBottom | user/comm/gt_list.h:74-86 | with list_add: a run that takes no more than it puts leaves the initial members underneath |
| RingAccess.LastInFirstOut | user/comm/gt_list.h:74-86 | the node put last is the next taken, whatever balanced use came between |
| PollerState.StartPhases | user/core/gt_poller.c:24-50 | every outcome of a start, with any flags or none: return code, recorded mask, and which of four phases the event is in |
| PollerState.StopPhases | user/core/gt_poller.c:52-77 | every outcome of a stop; no stop ever ends a watch, the DEL being computed but not reached |
| PollerState.StartDelivers | user/core/gt_poller.c:24-50 | a start that returns GT_OK has the kernel watching for the whole flag if and only if none of it was recorded, or all of it was and mask and kernel agreed; for some of it, if and only if there is a flag and none of it was recorded or mask and kernel agreed |
| PollerState.PartialStart | user/core/gt_poller.c:35-38 | from a first start for EPOLLIN, a start for EPOLLIN and EPOLLOUT succeeds, changes nothing, and EPOLLOUT is not watched |
| PollerState.StopDelivers | user/core/gt_poller.c:52-77 | after any stop the kernel watches for nothing of the flag |
| PollerState.RestartIsLost | user/core/gt_poller.c:30-76 | stop to nothing, start, start: an error, then a success that watches nothing |
| PollerState.DoKeeps | user/core/gt_poller.c:24-107 | a call on one event leaves every other event's phase alone, its own in one of the four phases, and ends a watch if and only if it destroys the event with that descriptor |
| PollerState.PhasesOverRuns | user/core/gt_poller.c:24-107 | over every run of create, start, stop and destroy each event stays within the four phases, and an event nobody calls in its own |
| PollerState.DivergedHistory | user/core/gt_poller.c:24-77 | over every run, an event diverges only by a start, while its watch was idle since the call that left it so: a stop of its last bits, or a start with no flag |
| PollerState.PointersOverRuns | user/core/gt_poller.c:41-42 | over every run, what the kernel holds for a watched descriptor leads to the live event that has it |
| PollerState.WatchedUnlessClosed | user/core/gt_poller.c:52-107 | over every run, a watched descriptor is watched throughout if and only if no event that has it is destroyed |
| Pollers.Process.EventStart | user/core/gt_poller.c:24-50 | the code computes the registry function and keeps the event lists; field by field: the recorded bits, the pointer, the kernel's entry and the return code |
| Pollers.Process.EventStop | user/core/gt_poller.c:52-77 | the code computes the registry function and keeps the event lists; field by field: the recorded bits, the kernel's entry, always by MOD, and the return code |
| Pollers.Process.GeventCreate | user/core/gt_poller.c:79-96 | a new event, or none if malloc fails; the list then holds that event only |
| Pollers.Process.GeventDestroy | user/core/gt_poller.c:98-107 | stop, unlink, close, free; the list is empty afterwards whatever else is live; the kernel is asked for a MOD to no bits, if any were recorded, and then for the close |
| Pollers.Poller.LinkEntry | user/core/gt_poller.c:91-92 | head and entry end up linked to each other alone, whatever the head was linked to |
| Pollers.ListsLiveExactly | user/core/gt_poller.c:79-107 | the list is the registry of live events if and only if every live event is the one just created |
| Pollers.RegistryRing | user/core/gt_poller.c:79-107 | the list's ring is the last created event if creation came last, else empty |
| Pollers.Replay | user/core/gt_poller.c:79-107 | over every history of creations and destructions the list ends as the last operation alone decides |
| Pollers.TwoAreNotListed | user/core/gt_poller.c:91-92 | with two live events on a poller its list is not the registry of them |
| Pollers.Misled | user/core/gt_poller.c:92-138 | two creations and one destruction: a live event, an empty list that is no registry, no warning |
| Pollers.PollerInit | user/core/gt_poller.c:109-131 | success exactly if epoll_create and malloc succeed, and then an empty list |
| Pollers.PollerClean | user/core/gt_poller.c:133-138 | the warning comes exactly if the last operation was a creation, so it implies a live event |
| Effects.StartedMeans | user/core/gt_network.c:108-122 | creating an event, giving it its callback and starting it leave one new record, and one new watch unless refused |
| Effects.AfterReadMeans | user/core/gt_network.c:83-97 | in every state of the server the read callback changes nothing, or takes away one event and the watch that leads to it, as read's answer decides |
| Effects.SlotFates | user/core/gt_poller.c:152-160 | over a round, slot by slot: an event is live and watched afterwards if and only if its callback was not called or its answer lets it live |
| Network.DatanetOpsRead | user/core/gt_network.c:79-100 | when read returns 0 or less and errno is not EAGAIN the event is stopped and destroyed, by these kernel calls in this order, else nothing changes and nothing is called; errno decides at end of file too |
| Network.RoundDispatch | user/core/gt_network.c:104-124 | the event goes to the poller numbered by the descriptor modulo the number of threads, and when the one ADD is made its callback is already set |
| Network.NetworkOpsRead | user/core/gt_network.c:126-174 | every way an accept can end: its return code, and the event it leaves or that it leaves none |
| Network.Listenning | user/core/gt_network.c:221-236 | the listening event with its callback, started |
| Network.InitiallyDescribed | user/core/gt_network.c:239-250 | a process with pollers and no events is described by the state all runs of the server model start in |
| Network.StartListening | user/core/gt_network.c:221-236 | setting up the listener is a path of the server model to a state that describes the process, with the listener watched if it succeeds |
| Network.DispatchRead | user/core/gt_network.c:79-100 | the read callback is a step of the server model and has exactly the effect its answer calls for |
| Network.DispatchAccept | user/core/gt_network.c:126-174 | the accept callback is a path of the server model and has exactly the effect its answers call for; a connection kept without memory for its event is leaked |
| Network.DispatchSlot | user/core/gt_poller.c:154-166 | the pointer followed is live, the callback called is set, the calls are steps of the server model, for a data poller also while an accept is unfinished, and have exactly the effect of that callback on that answer |
| Network.EpollWait | user/core/gt_poller.c:145-169 | one round of any poller is a path of the server model, also while the network thread is inside an accept, and does to the process what the slots and answers call for: each event whose read callback was called is live and watched afterwards if and only if read answered more than 0 or left EAGAIN; each connection kept has its event on the right poller, watched unless refused; nothing else changes |
| Server.StepInv | user/core/gt_network.c:79-124 | every step of every thread keeps the server invariant |
| Server.ReadDestroys | user/core/gt_network.c:93-94 | stopping and destroying removes exactly that event and its watch, in every reachable state |
| Server.ReadEndsExactly | user/core/gt_network.c:83-97 | the callback ends the event if and only if read returned 0 or less and errno was not EAGAIN, and otherwise changes nothing |
| Server.EndOfFileMissed | user/core/gt_network.c:83-90 | at end of file with EAGAIN left in errno, a round leaves the thread where it was, ready to be woken for the same descriptor again |
| Server.PoppedForgets | user/core/gt_poller.c:152-167 | once dispatched, an event is in no array and is not the one being accepted, so it may be destroyed |
| Server.RunsAreSafe | user/core/gt_poller.c:145-169 | over every interleaving: no dead pointer or unset callback is dispatched, no event twice from one array, disjoint shards, nothing watched before its callback is set or for EPOLLOUT |
| Server.AlwaysDispatches | user/core/gt_poller.c:152-167 | the next array slot can always be handled, whatever read and accept answer |
| Server.WatchedUntilClosed | user/core/gt_poller.c:52-77 | a descriptor once watched stays watched until it is closed |
| Server.RefusedStrands | user/core/gt_network.c:118-122 | a start leaves a live unwatched event exactly if the kernel refused it |
| Server.StrandedForGood | user/core/gt_network.c:118-122 | no later step of any thread releases such an event or its descriptor |
| Server.LeaksExactly | user/core/gt_network.c:109-113 | after a step a descriptor is open with no event to it if and only if it was before or the step accepted it without memory for an event |
| Server.LeakedExactly | user/core/gt_network.c:109-113 | over every interleaving from the start, a descriptor is leaked if and only if an earlier step accepted it without memory for an event |
| Server.EvenlySpread | user/core/gt_network.c:106-107 | any n consecutive descriptors put floor or ceiling of n over m on each of m pollers |
| Spinlock.Lock.CompareAndSwap | user/core/gt_spinlock.h:66 | the atomic compare-and-swap on the word |
| Spinlock.Lock.TryLock | user/core/gt_spinlock.h:63-83 | trylock, and a turn of the lock loop, as an action of the plain-lock model |
| Spinlock.Lock.Unlock | user/core/gt_spinlock.h:72-77 | the unconditional release as an action of the plain-lock model |
| Spinlock.Lock.TryLockWithVal | user/core/gt_spinlock.h:35-43 | a turn of the owner-tagged lock loop |
| Spinlock.Lock.TryUnlockWithVal | user/core/gt_spinlock.h:46-54 | a turn of the owner-tagged unlock loop |
| Spinlock.ExclusiveStep | user/core/gt_spinlock.h:63-83 | one action keeps mutual exclusion if and only if it is not a release while another thread holds the lock |
| Spinlock.ExclusiveRuns | user/core/gt_spinlock.h:63-83 | the word is 1 with one holder or 0 with none throughout a run, if and only if every release is by the holder or of a free lock |
| Spinlock.TagStep | user/core/gt_spinlock.h:35-54 | ownership is kept by every attempt, and an unlock attempt by a non-holder changes nothing |
| Spinlock.TaggedExactly | user/core/gt_spinlock.h:35-54 | with no discipline at all, ownership holds over every run if and only if the values are distinct and non-zero |
| SpinlockTest.TurnInv | test/spinlock_test.c:18-42 | no turn of any thread lets two in or loses an update, with load and store apart |
| SpinlockTest.RunInv | test/spinlock_test.c:32-42 | in every reachable state g_total_count is the number of stored increments modulo 2^32 |
| SpinlockTest.CastIsStoredTimes | test/spinlock_test.c:18-26 | in every reachable state g_spinlock_cast is, modulo 2^64, the sum over the stores so far of the clock at that thread's second reading less the clock at its first |
| SpinlockTest.ClockConserved | test/spinlock_test.c:18-26 | in every reachable state all second readings less all first readings are the sum stored and what threads still hold |
| SpinlockTest.NoLostUpdates | test/spinlock_test.c:32-73 | at the join g_total_count is threads times iterations modulo 2^32, and g_spinlock_cast, modulo 2^64, all second readings of the clock less all first ones |
| SpinlockTest.SomeoneWorks | user/core/gt_spinlock.h:64-70 | no unfinished state is stuck: some thread's next turn is not a failed swap |
| SpinlockTest.BoundedWork | test/spinlock_test.c:32-42 | turns other than failed swaps number at most n(8m+1), and exactly that when all threads are done |
| SpinlockTest.CanFinish | test/spinlock_test.c:32-71 | from every reachable state some schedule finishes |
| SpinlockTest.Program.TakeTurn | test/spinlock_test.c:32-42 | the code of one turn on the shared variables computes the model's turn |
| SpinlockTest.Program.Execute | test/spinlock_test.c:57-71 | a whole schedule computes the model's run |
| Gate.OnlyCalledPass | user/core/gt_worker.c:64-66 | a worker that is past was waiting at the point of the run at which the broadcast came |
| Gate.RunsAreShort | user/core/gt_worker.c:64-66 | no schedule takes more than 6n+1 steps |
| Gate.GateOpensForAll | user/core/gt_worker.c:138-148 | at the end of every maximal schedule exactly the workers that were waiting in the state in which the broadcast came are past, and all the others wait |
| Gate.BroadcastWakes | user/core/gt_worker.c:138-148 | once all workers are created the broadcast can come whoever holds the mutex; it wakes exactly the workers waiting, and exactly these can pass |
| Gate.StepsCounted | user/core/gt_worker.c:86-88 | every step of every run is one creation, the broadcast, or one of a worker's own lock, wait, relock and unlock |
| Gate.CanPassExactly | user/core/gt_worker.c:163-165 | after the broadcast a worker can still pass if and only if it is one of those called |
| Gate.CanPassOverRuns | user/core/gt_worker.c:163-165 | at every point of every run after the broadcast, exactly the workers that were waiting in the state in which it came can pass or are past |
| Gate.AnyCanBeLate | user/core/gt_worker.c:125-148 | for any number of workers and any set of them, some run from the start ends with a broadcast after which exactly these can never pass |
| Gate.StepInv | user/core/gt_worker.c:107-148 | the mutex has the holder it should and the called workers are those let through |
| Gate.Startup.CreateWorker | user/core/gt_worker.c:125-134 | one turn of the creation loop computes the model's step |
| Gate.Startup.WakeUp | user/core/gt_worker.c:138-148 | the broadcast wakes exactly the waiting workers, whoever holds the mutex |
| Gate.Startup.Advance | user/core/gt_worker.c:86-88 | lock, wait, relock and unlock compute the model's steps |
| Gate.Startup.Execute | user/main/main.c:141-159 | a whole schedule computes the model's run |
| Phases.FirstWins | user/core/gt_core.c:35-45 | a slot holds the first function registered for it |
| Phases.OrderIndependentExactly | user/core/gt_core.c:35-45 | the table is the same for all orders of registration if and only if no two registrations disagree about a slot |
| Phases.VisitedInOrder | user/core/gt_core.c:77-81 | the loops come to exactly the filled slots, phase first, then module |
| Phases.RefusedExactly | user/core/gt_core.c:38-44 | a registration returns GT_ERROR if and only if an earlier one has filled its slot, else GT_OK |
| Phases.PhaseRunMeans | user/core/gt_core.c:72-94 | the whole run calls the filled slots' functions, phase first and then module, cut after the first failure, and returns 0 if and only if all were called and all returned 0 |
| Phases.RunMeans | user/core/gt_core.c:72-94 | the calls are those functions in order, cut after the first that does not return GT_OK, whose code is returned |
| Phases.RunIndependent | user/core/gt_core.c:72-94 | agreeing registrations in any order give the same calls and the same code, whatever the functions return |
| Phases.PhaseTable.Register | user/core/gt_core.c:35-45 | the code computes the registration function; a filled slot is refused and kept, an empty one takes the function, no other slot changes |
| Phases.PhaseTable.Run | user/core/gt_core.c:72-94 | the nested loops with their early return call the filled slots' functions in strict order, cut after the first failure, whose code is returned |

## Left out

- list_entry, container_of and the typed iteration macros: address arithmetic of C structures.
- ListRuns.ForEachSafe: the body acts on the node it is at only; one that adds nodes, takes other nodes away, or moves nodes to the end of the ring walked while doing other things as well is not covered. TailWalks has the bodies that move nodes to the end and do nothing else.
- Network.StartListening: the listening descriptor, which is left open when there is no memory for its event, is not tracked then; start-up fails.
- Poison values: LIST_POISON1 and LIST_POISON2 are both the null link, so which of them a link holds is not modelled.
- Spinlock.Lock.TryLock: the spinning loops of gt_spinlock_lock and of the tagged lock and unlock are modelled turn by turn, since a loop ends only if another thread acts; weak memory is not modelled.
- Pollers.PollerClean: closing the epoll descriptor and freeing the array after the warning.
- Pollers.PollerInit: an epoll descriptor is not modelled as a number beyond its sign, and initialising a poller twice, or while the network thread already uses it, is excluded.
- Network.NetworkOpsRead: socket addresses and the descriptor arithmetic of fcntl; closing a refused connection only takes the descriptor out of the interest sets.
- Network.Listenning: socket, setsockopt, bind and listen before the event is created.
- The log line that prints the descriptor after a read callback has failed, when the event may be gone: logging is not modelled.
- Network.EpollWait: the array's length maxe is not a bound on the number of reports; the results hold for any number.
- SpinlockTest.Program.Execute: a failing pthread_create or malloc, on which the test program exits.
- Gate.Startup.CreateWorker: a failing pthread_create ends the process in the source and is not a step; spurious wake-ups, which POSIX allows, are assumed absent.
- gt_signal.c, gt_log.c, gt_memory.c, gt_ring_queue.c and main.c beyond the order of start-up: system calls, formatting, or stubs.
- The thread-identifier cache of gt_gettid: nothing in the repository calls the function, so no modelled behaviour depends on it.
- The average g_spinlock_cast / thread_num printed at the end of the test program.
