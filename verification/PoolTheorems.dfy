/** What the invariant of PoolSafety says about every run of the worker pool from its start. */
module PoolTheorems {
  import opened Wrappers
  import opened Workers
  import opened Pool
  import opened PoolSafety
  import WorkerHosts

  /** The slots of the workers' queues that hold request r. */
  ghost function QueueSlots(s: State, r: RequestId): set<(WorkerId, nat)> {
    set w, i | w in s.workers && 0 <= i < |s.workers[w].host.queue| && s.workers[w].host.queue[i] == r :: (w, i)
  }

  ghost predicate HeldByItsListener(s: State, r: RequestId)
    requires r in s.ledger.requests
  {
    Holds(s, Listening(s.ledger.requests[r].endpoint), r)
  }

  /** No thread is between the two halves of queueing r or of completing it. */
  ghost predicate Settled(s: State, r: RequestId) {
    forall h | Holds(s, h, r) :: h.Listening? || h.Waiting?
  }

  // ----- reference counts -----

  /** A request has at most one holder that is not its listener. */
  lemma OneHolderInPool(s: State, h: Holder, g: Holder, r: RequestId)
    requires ThreadsInv(s) && OnceInv(s)
    requires Holds(s, h, r) && Holds(s, g, r) && !h.Listening? && !g.Listening?
    ensures h == g
  {
    PlaceOfHolder(s, h, r);
    PlaceOfHolder(s, g, r);
    hide ThreadsInv;
  }

  /** The place a holder was given its request at. */
  ghost function PlaceOf(s: State, h: Holder): Holder {
    if h.Removing? && h.w in s.workers && s.workers[h.w].completed != []
    then Waiting(h.w, |s.workers[h.w].completed| - 1) else h
  }

  lemma PlaceOfHolder(s: State, h: Holder, r: RequestId)
    requires ThreadsInv(s) && Holds(s, h, r) && !h.Listening?
    ensures Placed(s, PlaceOf(s, h), r)
    ensures h.Removing? ==> s.workers[h.w].completed != []
  {
    if h.Removing? {
      assert ThreadInv(s.workers[h.w]);
    }
  }

  lemma SlotIsWaiting(s: State, w: WorkerId, i: nat, r: RequestId)
    requires ThreadsInv(s)
    ensures (w, i) in QueueSlots(s, r) <==> w in s.workers && Holds(s, Waiting(w, |s.workers[w].completed| + i), r)
  {
    if w in s.workers {
      assert ThreadInv(s.workers[w]);
    }
  }

  lemma SlotsAreWaitingHolders(s: State, r: RequestId)
    requires ThreadsInv(s) && OnceInv(s)
    ensures |QueueSlots(s, r)| == (if exists w, k: nat :: Holds(s, Waiting(w, k), r) then 1 else 0)
  {
    if w, k: nat :| Holds(s, Waiting(w, k), r) {
      var i := k - |s.workers[w].completed|;
      SlotIsWaiting(s, w, i, r);
      forall other | other in QueueSlots(s, r) ensures other == (w, i) {
        hide ThreadsInv, OnceInv, Holds, QueueSlots;
        assert (other.0, other.1) in QueueSlots(s, r);
        SlotIsWaiting(s, other.0, other.1, r);
        OneHolderInPool(s, Waiting(w, k), Waiting(other.0, |s.workers[other.0].completed| + other.1), r);
      }
      hide ThreadsInv, OnceInv, Holds, QueueSlots;
      assert QueueSlots(s, r) == {(w, i)};
    } else {
      forall w: WorkerId, i: nat ensures (w, i) !in QueueSlots(s, r) {
        SlotIsWaiting(s, w, i, r);
      }
      assert QueueSlots(s, r) == {};
    }
  }

  /** The holders of r other than the listener whose endpoint produced it. */
  ghost function PoolHolders(s: State, r: RequestId): set<Holder>
    requires r in s.ledger.requests
  {
    Holders(s, r) - {Listening(s.ledger.requests[r].endpoint)}
  }

  lemma PoolHoldersHold(s: State, h: Holder, r: RequestId)
    requires KnownInv(s) && r in s.ledger.requests
    ensures h in PoolHolders(s, r) <==> Holds(s, h, r) && !h.Listening?
  {
    HoldersAreThoseWhoHold(s, r);
    hide Holders;
  }

  lemma AtMostOnePoolHolder(s: State, r: RequestId)
    requires Inv(s) && r in s.ledger.requests
    ensures PoolHolders(s, r) == {} || exists h :: PoolHolders(s, r) == {h}
  {
    hide ThreadsInv, LockInv, KnownInv, CountInv, EndpointInv, OnceInv, PoolHolders, Holds, Holders;
    if h :| h in PoolHolders(s, r) {
      forall g | g in PoolHolders(s, r) ensures g == h {
        PoolHoldersHold(s, h, r);
        PoolHoldersHold(s, g, r);
        OneHolderInPool(s, h, g, r);
      }
      assert PoolHolders(s, r) == {h};
    }
  }

  lemma ListenerOrPool(s: State, r: RequestId)
    requires r in s.ledger.requests
    ensures |Holders(s, r)| == |PoolHolders(s, r)| + (if HeldByItsListener(s, r) then 1 else 0)
  {
    HoldersAreThoseWhoHold(s, r);
    hide Holders, Holds;
    WithoutOne(Holders(s, r), Listening(s.ledger.requests[r].endpoint));
  }

  lemma HoldersOfRequest(s: State, r: RequestId)
    requires Inv(s) && r in s.ledger.requests
    ensures |Holders(s, r)| <= 2
    ensures Settled(s, r) ==>
      |Holders(s, r)| == (if HeldByItsListener(s, r) then 1 else 0) + |QueueSlots(s, r)|
  {
    hide ThreadsInv, LockInv, KnownInv, CountInv, EndpointInv, OnceInv;
    hide Holders, Holds, Settled, QueueSlots, PoolHolders;
    AtMostOnePoolHolder(s, r);
    ListenerOrPool(s, r);
    SlotsAreWaitingHolders(s, r);
    if Settled(s, r) {
      SettledPoolHolders(s, r);
    }
  }

  lemma SettledPoolHolders(s: State, r: RequestId)
    requires KnownInv(s) && r in s.ledger.requests && Settled(s, r)
    ensures PoolHolders(s, r) != {} <==> exists w, k: nat :: Holds(s, Waiting(w, k), r)
  {
    forall h ensures h in PoolHolders(s, r) <==> Holds(s, h, r) && !h.Listening? {
      PoolHoldersHold(s, h, r);
    }
    hide KnownInv, PoolHolders, Holds;
    if h :| h in PoolHolders(s, r) {
      assert h == Waiting(h.w, h.k);
    }
  }

  /** In every run, at every point: the count of a request equals the number of its holders and
      never exceeds two; outside the regions that move r it is the listener's hold plus the number
      of queue slots holding r; and exactly the release that reaches zero frees r. */
  lemma CountsInEveryRun(steps: seq<Step>, r: RequestId)
    requires IsRun(INITIAL, steps) && r in Final(INITIAL, steps).ledger.requests
    ensures var s := Final(INITIAL, steps);
      && s.ledger.requests[r].refs == |Holders(s, r)| <= 2
      && (Settled(s, r) ==>
            s.ledger.requests[r].refs == (if HeldByItsListener(s, r) then 1 else 0) + |QueueSlots(s, r)|)
      && s.ledger.requests[r].finishes == (if s.ledger.requests[r].refs == 0 then 1 else 0)
  {
    ReachableInv(steps);
    HoldersOfRequest(Final(INITIAL, steps), r);
    hide IsRun, Final, Holders, Settled;
  }

  /** In every run, no thread uses a freed request, releases a count of zero or shifts an empty
      queue; and no freed request is in a queue, current, or in a listener's hands. */
  lemma NothingFreedInUse(steps: seq<Step>)
    requires IsRun(INITIAL, steps)
    ensures var s := Final(INITIAL, steps);
      && !s.ledger.fault
      && (forall w, i | w in s.workers && 0 <= i < |s.workers[w].host.queue| ::
            s.ledger.Live(s.workers[w].host.queue[i]))
      && (forall w | w in s.workers && s.workers[w].host.current.Some? ::
            s.ledger.Live(s.workers[w].host.current.value))
      && (forall l | l in s.listeners && HeldRequest(s.listeners[l]).Some? ::
            s.ledger.Live(HeldRequest(s.listeners[l]).value))
  {
    ReachableInv(steps);
    var s := Final(INITIAL, steps);
    hide IsRun, Final, CountInv, KnownInv, OnceInv, LockInv, EndpointInv;
    forall w, i | w in s.workers && 0 <= i < |s.workers[w].host.queue|
      ensures s.ledger.Live(s.workers[w].host.queue[i])
    {
      assert ThreadInv(s.workers[w]);
      HeldIsLive(s, Waiting(w, |s.workers[w].completed| + i), s.workers[w].host.queue[i]);
    }
    forall w | w in s.workers && s.workers[w].host.current.Some?
      ensures s.ledger.Live(s.workers[w].host.current.value)
    {
      CurrentIsLive(s, w);
    }
    forall l | l in s.listeners && HeldRequest(s.listeners[l]).Some?
      ensures s.ledger.Live(HeldRequest(s.listeners[l]).value)
    {
      HeldIsLive(s, Listening(l), HeldRequest(s.listeners[l]).value);
    }
  }

  lemma CurrentIsLive(s: State, w: WorkerId)
    requires ThreadsInv(s) && KnownInv(s) && CountInv(s)
    requires w in s.workers && s.workers[w].host.current.Some?
    ensures s.ledger.Live(s.workers[w].host.current.value)
  {
    var t := s.workers[w];
    assert ThreadInv(t);
    hide CountInv, KnownInv, ThreadsInv;
    if t.pc.Finishing? {
      HeldIsLive(s, Removing(w), t.host.current.value);
    } else {
      HeldIsLive(s, Waiting(w, |t.completed|), t.host.current.value);
    }
  }

  /** In every run, an endpoint's count is one for its listener plus one per live request of it. */
  lemma EndpointsOutliveTheirRequests(steps: seq<Step>, l: ListenerId)
    requires IsRun(INITIAL, steps) && l in Final(INITIAL, steps).listeners
    ensures var s := Final(INITIAL, steps);
      l in s.ledger.endpoints && s.ledger.endpoints[l] == 1 + |LiveOf(s.ledger, l)|
  {
    ReachableInv(steps);
  }

  lemma AcceptedOnce(s: State, w: WorkerId, k: nat, w': WorkerId, k': nat)
    requires OnceInv(s)
    requires w in s.workers && k < |s.workers[w].accepted|
    requires w' in s.workers && k' < |s.workers[w'].accepted|
    requires s.workers[w].accepted[k] == s.workers[w'].accepted[k']
    ensures w == w' && k == k'
  {
    var r := s.workers[w].accepted[k];
    assert Placed(s, Waiting(w, k), r) && Placed(s, Waiting(w', k'), r);
    hide Placed;
    assert Waiting(w, k) == Waiting(w', k');
  }

  /** In every run, a request is put on at most one queue, at one position, once. */
  lemma ProcessedAtMostOnce(steps: seq<Step>, w: WorkerId, k: nat, w': WorkerId, k': nat)
    requires IsRun(INITIAL, steps)
    requires var s := Final(INITIAL, steps);
      && w in s.workers && k < |s.workers[w].accepted|
      && w' in s.workers && k' < |s.workers[w'].accepted|
      && s.workers[w].accepted[k] == s.workers[w'].accepted[k']
    ensures w == w' && k == k'
  {
    ReachableInv(steps);
    hide IsRun, Final, ThreadsInv, LockInv, KnownInv, CountInv, EndpointInv, OnceInv;
    AcceptedOnce(Final(INITIAL, steps), w, k, w', k');
  }

  // ----- first in, first out -----

  /** The requests worker w's queue takes in, and the ones it finishes, in a step or a run. */
  function TakenIn(s: State, step: Step, w: WorkerId): seq<RequestId>
    requires Enabled(s, step)
  {
    if step.FinishQueue? && s.listeners[step.l].w == w then [s.listeners[step.l].r] else []
  }

  function Finished(s: State, step: Step, w: WorkerId): seq<RequestId>
    requires Enabled(s, step)
  {
    if step == BeginRequest(w) && Busy(s.workers[w].host) then [s.workers[w].host.current.value] else []
  }

  function AllTakenIn(s: State, steps: seq<Step>, w: WorkerId): seq<RequestId>
    requires IsRun(s, steps)
    decreases |steps|
  {
    if steps == [] then [] else TakenIn(s, steps[0], w) + AllTakenIn(Apply(s, steps[0]), steps[1..], w)
  }

  function AllFinished(s: State, steps: seq<Step>, w: WorkerId): seq<RequestId>
    requires IsRun(s, steps)
    decreases |steps|
  {
    if steps == [] then [] else Finished(s, steps[0], w) + AllFinished(Apply(s, steps[0]), steps[1..], w)
  }

  function AcceptedBy(s: State, w: WorkerId): seq<RequestId> {
    if w in s.workers then s.workers[w].accepted else []
  }

  function CompletedBy(s: State, w: WorkerId): seq<RequestId> {
    if w in s.workers then s.workers[w].completed else []
  }

  lemma AcceptedStep(s: State, step: Step, w: WorkerId)
    requires Enabled(s, step)
    ensures AcceptedBy(Apply(s, step), w) == AcceptedBy(s, w) + TakenIn(s, step, w)
  {
    hide LedgerAfter, ListenerAfter, Busy, Choose, Resume;
  }

  lemma CompletedStep(s: State, step: Step, w: WorkerId)
    requires Enabled(s, step)
    requires step == BeginRequest(w) && Busy(s.workers[w].host) ==> s.workers[w].host.queue != []
    ensures CompletedBy(Apply(s, step), w) == CompletedBy(s, w) + Finished(s, step, w)
  {
    hide LedgerAfter, ListenerAfter, Choose, Resume;
  }

  lemma HistoryStep(s: State, step: Step, w: WorkerId)
    requires Inv(s) && Enabled(s, step)
    ensures AcceptedBy(Apply(s, step), w) == AcceptedBy(s, w) + TakenIn(s, step, w)
    ensures CompletedBy(Apply(s, step), w) == CompletedBy(s, w) + Finished(s, step, w)
  {
    if step == BeginRequest(w) && Busy(s.workers[w].host) {
      hide Inv;
      BusyFacts(s, w);
    }
    hide Inv, Apply;
    AcceptedStep(s, step, w);
    CompletedStep(s, step, w);
  }

  lemma {:induction false} HistoryRun(s: State, steps: seq<Step>, w: WorkerId)
    requires Inv(s) && IsRun(s, steps)
    ensures AcceptedBy(Final(s, steps), w) == AcceptedBy(s, w) + AllTakenIn(s, steps, w)
    ensures CompletedBy(Final(s, steps), w) == CompletedBy(s, w) + AllFinished(s, steps, w)
    decreases |steps|
  {
    hide Inv, Enabled, Apply, AcceptedBy, CompletedBy, TakenIn, Finished;
    if steps != [] {
      HistoryStep(s, steps[0], w);
      InvPreserved(s, steps[0]);
      HistoryRun(Apply(s, steps[0]), steps[1..], w);
    }
  }

  /** In every run, what a worker's queue took in is what it finished followed by what it holds;
      the count stays within requestalloc; and whenever its mutex is free, a running worker works
      on the head of its queue. */
  lemma FirstInFirstOut(steps: seq<Step>, w: WorkerId)
    requires IsRun(INITIAL, steps) && w in Final(INITIAL, steps).workers
    ensures var t := Final(INITIAL, steps).workers[w];
      && AllTakenIn(INITIAL, steps, w) == AllFinished(INITIAL, steps, w) + t.host.queue
      && |t.host.queue| <= t.host.capacity == 32
      && (t.host.state.Running? && !t.lock.ByWorker? ==> t.host.queue != [] && t.host.current == Some(t.host.queue[0]))
  {
    ReachableInv(steps);
    InvInitial();
    HistoryRun(INITIAL, steps, w);
    var s := Final(INITIAL, steps);
    hide IsRun, Final, LockInv, KnownInv, CountInv, EndpointInv, OnceInv, AllTakenIn, AllFinished;
    QueueFacts(s.workers[w]);
    assert AcceptedBy(INITIAL, w) == [] && CompletedBy(INITIAL, w) == [];
    assert AcceptedBy(s, w) == AllTakenIn(INITIAL, steps, w) && CompletedBy(s, w) == AllFinished(INITIAL, steps, w);
  }

  lemma QueueFacts(t: Thread)
    requires ThreadInv(t)
    ensures t.accepted == t.completed + t.host.queue
    ensures |t.host.queue| <= t.host.capacity == REQUESTALLOC
    ensures t.host.state.Running? && !t.lock.ByWorker? ==> t.host.queue != [] && t.host.current == Some(t.host.queue[0])
  {
  }

  /** A request that no worker has been given yet has its listener as its only holder. */
  lemma OnlyItsListener(s: State, l: ListenerId)
    requires Inv(s) && l in s.listeners && s.listeners[l].Located?
    ensures Holders(s, s.listeners[l].r) == {Listening(l)}
  {
    var r := s.listeners[l].r;
    HoldersAreThoseWhoHold(s, r);
    hide Holders, ThreadsInv, LockInv, CountInv, EndpointInv, OnceInv, KnownInv;
    forall h | h in Holders(s, r) ensures h == Listening(l) {
      HolderIsListener(s, l, h);
    }
    assert Holds(s, Listening(l), r);
    assert Listening(l) in Holders(s, r);
  }

  lemma HolderIsListener(s: State, l: ListenerId, h: Holder)
    requires ThreadsInv(s) && KnownInv(s) && OnceInv(s) && l in s.listeners && s.listeners[l].Located?
    requires Holds(s, h, s.listeners[l].r)
    ensures h == Listening(l)
  {
    assert Holds(s, Listening(l), s.listeners[l].r);
    if !h.Listening? {
      PlaceOfHolder(s, h, s.listeners[l].r);
    }
    hide ThreadsInv;
  }

  lemma Refused(s: State, l: ListenerId)
    requires Enabled(s, BeginQueue(l)) && Full(s.workers[s.listeners[l].w].host)
    ensures Apply(s, BeginQueue(l)) == s.(listeners := s.listeners[l := Routed(s.listeners[l].r)])
  {
    var t := s.workers[s.listeners[l].w];
    assert s.workers[s.listeners[l].w := t] == s.workers;
  }

  lemma HoldReleased(s: State, l: ListenerId)
    requires l in s.listeners && s.listeners[l].Routed?
    ensures Enabled(s, ReleaseHold(l)) && Apply(s, ReleaseHold(l)).ledger == s.ledger.Release(s.listeners[l].r)
  {
  }

  lemma LastRelease(g: Ledger, r: RequestId, l: ListenerId)
    requires r in g.requests && g.requests[r] == Request(1, 0, l) && l in g.endpoints && g.endpoints[l] > 0
    ensures r in g.Release(r).requests && g.Release(r).requests[r] == Request(0, 1, l)
  {
  }

  /** A refusal changes nothing but the place of the listener, and what the listener does next frees
      the refused request, once: nobody else holds it. */
  lemma RefusedIsFreed(s: State, l: ListenerId)
    requires Inv(s) && Enabled(s, BeginQueue(l)) && Full(s.workers[s.listeners[l].w].host)
    ensures var r, s1 := s.listeners[l].r, Apply(s, BeginQueue(l));
      && s1 == s.(listeners := s.listeners[l := Routed(r)])
      && Enabled(s1, ReleaseHold(l))
      && r in Apply(s1, ReleaseHold(l)).ledger.requests
      && Apply(s1, ReleaseHold(l)).ledger.requests[r] == Request(0, 1, l)
  {
    hide Inv, Holders, Apply;
    OnlyItsListener(s, l);
    ListenerCounts(s, l);
    Refused(s, l);
    HoldReleased(Apply(s, BeginQueue(l)), l);
    LastRelease(s.ledger, s.listeners[l].r, l);
  }

  lemma ListenerCounts(s: State, l: ListenerId)
    requires Inv(s) && l in s.listeners && s.listeners[l].Located?
    ensures var r := s.listeners[l].r;
      && r in s.ledger.requests && s.ledger.requests[r].refs == |Holders(s, r)| && s.ledger.requests[r].endpoint == l
      && s.ledger.requests[r].finishes == (if |Holders(s, r)| == 0 then 1 else 0)
      && l in s.ledger.endpoints && s.ledger.endpoints[l] > 0
  {
    hide Holders, LockInv, ThreadsInv, OnceInv;
    assert Holds(s, Listening(l), s.listeners[l].r);
  }

  // ----- wakeups -----

  function SpuriousWakes(steps: seq<Step>, w: WorkerId): nat {
    if steps == [] then 0 else (if steps[0] == SpuriousWake(w) then 1 else 0) + SpuriousWakes(steps[1..], w)
  }

  function SpuriousOf(s: State, w: WorkerId): nat {
    if w in s.workers then s.workers[w].spurious else 0
  }

  lemma SpuriousStep(s: State, step: Step, w: WorkerId)
    requires Enabled(s, step)
    ensures SpuriousOf(Apply(s, step), w) == SpuriousOf(s, w) + (if step == SpuriousWake(w) then 1 else 0)
  {
    hide LedgerAfter, ListenerAfter;
  }

  lemma {:induction false} SpuriousRun(s: State, steps: seq<Step>, w: WorkerId)
    requires IsRun(s, steps)
    ensures SpuriousOf(Final(s, steps), w) == SpuriousOf(s, w) + SpuriousWakes(steps, w)
    decreases |steps|
  {
    if steps != [] {
      SpuriousStep(s, steps[0], w);
      hide Apply, SpuriousOf;
      SpuriousRun(Apply(s, steps[0]), steps[1..], w);
    }
  }

  /** No wakeup is lost: in every run, a worker waiting without a pending signal has an empty
      queue. If the condition variable never wakes it spuriously, a signalled worker finds a
      request, so the branch of worker_request_ that ends the thread is never taken. */
  lemma NoLostWakeup(steps: seq<Step>, w: WorkerId)
    requires IsRun(INITIAL, steps) && w in Final(INITIAL, steps).workers
    ensures var t := Final(INITIAL, steps).workers[w];
      && (t.pc == Blocked(false) ==> t.host.queue == [])
      && (SpuriousWakes(steps, w) == 0 ==> (t.pc == Blocked(true) ==> t.host.queue != []) && !t.selfStopped)
  {
    ReachableInv(steps);
    SpuriousRun(INITIAL, steps, w);
    assert ThreadInv(Final(INITIAL, steps).workers[w]);
  }

  lemma SelfStopStep(s: State, step: Step, w: WorkerId)
    requires Enabled(s, step)
    ensures w in Apply(s, step).workers && Apply(s, step).workers[w].selfStopped ==>
      w in s.workers && (s.workers[w].selfStopped || (step == Wake(w) && s.workers[w].host.queue == []))
  {
    hide LedgerAfter, ListenerAfter;
  }

  /** The steps from s reach a wakeup of w that finds its queue empty. */
  ghost predicate WokeEmpty(s: State, steps: seq<Step>, i: nat, w: WorkerId)
    requires IsRun(s, steps)
    decreases |steps|
  {
    && i < |steps|
    && if i == 0 then steps[0] == Wake(w) && w in s.workers && s.workers[w].host.queue == []
       else WokeEmpty(Apply(s, steps[0]), steps[1..], i - 1, w)
  }

  /** In every run, with spurious wakeups or without, a worker that has ended itself did so in a
      wakeup that found its queue empty. */
  lemma {:induction false} SelfStopNeedsEmptyQueue(s: State, steps: seq<Step>, w: WorkerId)
    requires IsRun(s, steps) && w in Final(s, steps).workers && Final(s, steps).workers[w].selfStopped
    requires w in s.workers ==> !s.workers[w].selfStopped
    ensures exists i: nat :: WokeEmpty(s, steps, i, w)
    decreases |steps|
  {
    hide Apply, Enabled;
    if steps != [] {
      var s' := Apply(s, steps[0]);
      SelfStopStep(s, steps[0], w);
      if w in s'.workers && s'.workers[w].selfStopped {
        assert WokeEmpty(s, steps, 0, w);
      } else {
        SelfStopNeedsEmptyQueue(s', steps[1..], w);
        var i: nat :| WokeEmpty(s', steps[1..], i, w);
        assert WokeEmpty(s, steps, i + 1, w);
      }
    }
  }

  lemma TwoSteps(s: State, a: Step, b: Step)
    requires Enabled(s, a) && Enabled(Apply(s, a), b)
    ensures IsRun(s, [a, b]) && Final(s, [a, b]) == Apply(Apply(s, a), b)
  {
    hide Apply, Enabled;
    var s1 := Apply(s, a);
    assert [a, b][1..] == [b] && [b][1..] == [];
    assert IsRun(Apply(s1, b), []) && Final(Apply(s1, b), []) == Apply(s1, b);
    assert IsRun(s1, [b]) && Final(s1, [b]) == Apply(s1, b);
  }

  lemma WokenSpuriously(s: State, w: WorkerId)
    requires w in s.workers && s.workers[w].pc == Blocked(false)
    ensures Enabled(s, SpuriousWake(w))
    ensures var s' := Apply(s, SpuriousWake(w));
      && w in s'.workers && s'.workers[w].pc == Blocked(true)
      && s'.workers[w].host == s.workers[w].host && s'.workers[w].lock == s.workers[w].lock
  {
  }

  lemma WokenEmpty(s: State, w: WorkerId)
    requires w in s.workers && s.workers[w].pc == Blocked(true) && s.workers[w].lock.Free?
    requires s.workers[w].host.queue == []
    ensures Enabled(s, Wake(w))
    ensures var t := Apply(s, Wake(w));
      w in t.workers && t.workers[w].selfStopped && t.workers[w].host.state.Zombie?
  {
  }

  /** The hypothesis is needed: wherever a worker waits without a signal, one spurious wakeup
      is enough to end it. */
  lemma SpuriousWakeupEndsAWorker(s: State, w: WorkerId)
    requires Inv(s) && w in s.workers && s.workers[w].pc == Blocked(false) && s.workers[w].lock.Free?
    ensures IsRun(s, [SpuriousWake(w), Wake(w)])
    ensures var t := Final(s, [SpuriousWake(w), Wake(w)]);
      w in t.workers && t.workers[w].selfStopped && t.workers[w].host.state.Zombie?
  {
    hide LockInv, KnownInv, CountInv, EndpointInv, OnceInv, Apply, Enabled;
    assert ThreadInv(s.workers[w]);
    WokenSpuriously(s, w);
    WokenEmpty(Apply(s, SpuriousWake(w)), w);
    TwoSteps(s, SpuriousWake(w), Wake(w));
  }

  lemma ZombieStep(s: State, step: Step, w: WorkerId)
    requires ThreadsInv(s) && Enabled(s, step) && w in s.workers && s.workers[w].host.state.Zombie?
    ensures w in Apply(s, step).workers
    ensures var h, h' := s.workers[w].host, Apply(s, step).workers[w].host;
      h'.state.Zombie? && h'.current == h.current && h.queue <= h'.queue
  {
    hide LedgerAfter, ListenerAfter;
    assert ThreadInv(s.workers[w]);
  }

  /** A stopped worker never runs again and its queue is never served: whatever is in it, or is
      still appended to it, stays there in every continuation. */
  lemma {:induction false} ZombieKeepsItsQueue(s: State, steps: seq<Step>, w: WorkerId)
    requires Inv(s) && IsRun(s, steps) && w in s.workers && s.workers[w].host.state.Zombie?
    ensures w in Final(s, steps).workers
    ensures var h, h' := s.workers[w].host, Final(s, steps).workers[w].host;
      h'.state.Zombie? && h.queue <= h'.queue
    decreases |steps|
  {
    if steps != [] {
      InvPreserved(s, steps[0]);
      ZombieStep(s, steps[0], w);
      hide Inv, Apply;
      ZombieKeepsItsQueue(Apply(s, steps[0]), steps[1..], w);
    }
  }

  // ----- the regions as the class performs them -----

  /** Uninterrupted, the steps of queueing are the region WorkerHost.QueueRequest performs: refused,
      or appended with one more reference and a signal to a worker that waits. */
  lemma QueueRegion(s: State, l: ListenerId)
    requires Enabled(s, BeginQueue(l))
    ensures var w, r, s1 := s.listeners[l].w, s.listeners[l].r, Apply(s, BeginQueue(l));
      if Full(s.workers[w].host) then s1.workers == s.workers && s1.ledger == s.ledger
      else
        && Enabled(s1, FinishQueue(l))
        && var s2 := Apply(s1, FinishQueue(l));
        && s2.workers == s.workers[w := ThreadQueued(s.workers[w], r)]
        && s2.ledger == s.ledger.AddRef(r)
  {
    var w, s1 := s.listeners[l].w, Apply(s, BeginQueue(l));
    if Full(s.workers[w].host) {
      assert s.workers[w := s.workers[w]] == s.workers;
    } else {
      assert s1.listeners[l] == Appending(s.listeners[l].r, w);
    }
  }

  lemma BusyFacts(s: State, w: WorkerId)
    requires Inv(s) && w in s.workers && s.workers[w].pc.InContainer? && Busy(s.workers[w].host)
    ensures s.workers[w].host.queue != [] && s.ledger.Live(s.workers[w].host.current.value)
  {
    hide LockInv, KnownInv, CountInv, EndpointInv, OnceInv;
    BusyHead(s.workers[w]);
    CurrentIsLive(s, w);
  }

  lemma BegunRequest(s: State, w: WorkerId)
    requires Inv(s) && Enabled(s, BeginRequest(w)) && Busy(s.workers[w].host)
    ensures var t, s1 := s.workers[w], Apply(s, BeginRequest(w));
      && t.host.queue != [] && w in s1.workers && s1.ledger == s.ledger
      && s1.workers[w].host == DropHead(t.host) && s1.workers[w].pc == Finishing(t.host.current.value)
      && Enabled(s1, DropCurrent(w))
  {
    hide Inv;
    BusyFacts(s, w);
  }

  lemma DroppedRequest(s: State, w: WorkerId)
    requires Enabled(s, DropCurrent(w))
    ensures var t, s1 := s.workers[w], Apply(s, DropCurrent(w));
      && w in s1.workers && s1.workers[w].host == ForgetCurrent(t.host) && s1.ledger == s.ledger.Release(t.pc.r)
      && Enabled(s1, ChooseNext(w))
  {
  }

  lemma ChosenRequest(s: State, w: WorkerId)
    requires Inv(s) && Enabled(s, ChooseNext(w))
    ensures var t, s1 := s.workers[w], Apply(s, ChooseNext(w));
      && w in s1.workers && s1.workers[w].host == Choose(t.host).0 && s1.ledger == s.ledger
      && s1.workers[w].lock.Free?
      && s1.workers[w].pc == (if Choose(t.host).1.Wait? then Blocked(false) else InContainer)
  {
    hide ThreadsInv, LockInv, KnownInv, CountInv, EndpointInv, OnceInv, Holds;
    var step := ChooseNext(w);
    if Subject(s, step).Some? {
      SubjectIsHeld(s, step);
      HeldIsLive(s, Subject(s, step).value.0, Subject(s, step).value.1);
    }
  }

  /** Uninterrupted, the three steps of completing a request and choosing the next one are the region
      WorkerHost.NextRequest performs: on the worker, on the count of the completed request, and in
      what it answers. */
  lemma RequestRegion(s: State, w: WorkerId)
    requires Inv(s) && Enabled(s, BeginRequest(w)) && Busy(s.workers[w].host)
    ensures var h, s1 := s.workers[w].host, Apply(s, BeginRequest(w));
      && h.queue != [] && Enabled(s1, DropCurrent(w))
      && var s2 := Apply(s1, DropCurrent(w));
      && Enabled(s2, ChooseNext(w))
      && var s3, answer := Apply(s2, ChooseNext(w)), Choose(WorkerHosts.Finish(h));
      && w in s3.workers && s3.workers[w].host == answer.0
      && s3.workers[w].pc == (if answer.1.Wait? then Blocked(false) else InContainer)
      && s3.ledger == s.ledger.Release(h.current.value)
  {
    BegunRequest(s, w);
    var s1 := Apply(s, BeginRequest(w));
    InvPreserved(s, BeginRequest(w));
    DroppedRequest(s1, w);
    InvPreserved(s1, DropCurrent(w));
    ChosenRequest(Apply(s1, DropCurrent(w)), w);
    hide Inv, Apply, Enabled, Choose;
  }
}
