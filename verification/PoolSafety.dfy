/** Safety of the worker pool over every run of Pool, by one inductive invariant. */
module PoolSafety {
  import opened Wrappers
  import opened Workers
  import opened Pool

  /** The places that own one reference to a request. Waiting names a queue slot by its position
      in the sequence of everything the worker ever accepted, so it survives the left shift. */
  datatype Holder =
    | Listening(l: ListenerId)
    | Adding(l: ListenerId)
    | Removing(w: WorkerId)
    | Waiting(w: WorkerId, k: nat)

  function HeldRequest(pc: ListenerPc): Option<RequestId> {
    match pc
    case Accepting => None
    case Stopped => None
    case _ => Some(pc.r)
  }

  ghost predicate Holds(s: State, h: Holder, r: RequestId) {
    match h
    case Listening(l) => l in s.listeners && HeldRequest(s.listeners[l]) == Some(r)
    case Adding(l) => l in s.listeners && s.listeners[l].Appending? && s.listeners[l].r == r
    case Removing(w) => w in s.workers && s.workers[w].pc == Finishing(r)
    case Waiting(w, k) =>
      && w in s.workers && |s.workers[w].completed| <= k < |s.workers[w].accepted|
      && s.workers[w].accepted[k] == r
  }

  ghost function Holders(s: State, r: RequestId): set<Holder> {
    (set l | l in s.listeners && Holds(s, Listening(l), r) :: Listening(l))
    + (set l | l in s.listeners && Holds(s, Adding(l), r) :: Adding(l))
    + (set w | w in s.workers && Holds(s, Removing(w), r) :: Removing(w))
    + (set w, k | w in s.workers && 0 <= k < |s.workers[w].accepted| && Holds(s, Waiting(w, k), r) :: Waiting(w, k))
  }

  lemma HoldersAreThoseWhoHold(s: State, r: RequestId)
    ensures forall h :: h in Holders(s, r) <==> Holds(s, h, r)
  {
    forall h ensures h in Holders(s, r) <==> Holds(s, h, r) {
      match h
      case Listening(_) =>
      case Adding(_) =>
      case Removing(_) =>
      case Waiting(_, _) =>
    }
  }

  // ----- the invariant -----

  /** What holds of one worker at every step. */
  ghost predicate ThreadInv(t: Thread) {
    && t.accepted == t.completed + t.host.queue
    && |t.host.queue| <= t.host.capacity == REQUESTALLOC
    && (t.lock.ByWorker? <==> t.pc.Finishing? || t.pc.Choosing?)
    && (t.selfStopped ==> t.spurious > 0)
    && (match t.pc
        case Unstarted => t.host.state.Empty? && t.host.current.None?
        case InContainer =>
          && WellFormed(t.host) && !t.host.state.Empty?
          && (t.host.state.Zombie? ==> t.host.current.None?)
        case Finishing(r) =>
          && t.host.state.Running? && t.host.current == Some(r)
          && t.completed != [] && t.completed[|t.completed| - 1] == r
        case Choosing => !t.host.state.Empty? && t.host.current.None?
        case Blocked(woken) =>
          && t.host.state.Idle? && t.host.current.None?
          && (if woken then t.host.queue != [] || t.spurious > 0 else t.host.queue == [])
        case Exited => WellFormed(t.host) && t.host.state.Zombie?)
  }

  ghost predicate AppendersLock(s: State) {
    forall l | l in s.listeners && s.listeners[l].Appending? ::
      && s.listeners[l].w in s.workers
      && s.workers[s.listeners[l].w].lock == ByListener(l)
      && !Full(s.workers[s.listeners[l].w].host)
  }

  ghost predicate LockerAppends(s: State, w: WorkerId) {
    w in s.workers && s.workers[w].lock.ByListener? ==>
      && s.workers[w].lock.l in s.listeners
      && s.listeners[s.workers[w].lock.l].Appending?
      && s.listeners[s.workers[w].lock.l].w == w
  }

  /** A listener holds a worker's mutex exactly while it appends to its queue, and there is room. */
  ghost predicate LockInv(s: State) {
    AppendersLock(s) && forall w :: LockerAppends(s, w)
  }

  /** Every holder's request exists, and a listener only holds requests of its own endpoint. */
  ghost predicate KnownInv(s: State) {
    && (forall h, r | Holds(s, h, r) :: r in s.ledger.requests)
    && (forall l, r | Holds(s, Listening(l), r) :: s.ledger.requests[r].endpoint == l)
  }

  /** The count is the number of holders; the request has been freed, once, iff there are none. */
  ghost predicate CountInv(s: State) {
    forall r | r in s.ledger.requests ::
      && s.ledger.requests[r].refs == |Holders(s, r)|
      && s.ledger.requests[r].finishes == (if s.ledger.requests[r].refs == 0 then 1 else 0)
  }

  ghost function LiveOf(g: Ledger, l: ListenerId): set<RequestId> {
    set r | r in g.requests && g.requests[r].endpoint == l && g.requests[r].finishes == 0
  }

  /** An endpoint is referenced by its listener and by each live request it produced. */
  ghost predicate EndpointsCounted(g: Ledger) {
    && (forall r | r in g.requests :: g.requests[r].endpoint in g.endpoints)
    && (forall l | l in g.endpoints :: g.endpoints[l] == 1 + |LiveOf(g, l)|)
  }

  ghost predicate EndpointInv(s: State) {
    s.ledger.endpoints.Keys == s.listeners.Keys && EndpointsCounted(s.ledger)
  }

  /** Where a request was handed to a worker, now or earlier: at most one place, ever. */
  ghost predicate Placed(s: State, h: Holder, r: RequestId) {
    match h
    case Adding(_) => Holds(s, h, r)
    case Waiting(w, k) => w in s.workers && k < |s.workers[w].accepted| && s.workers[w].accepted[k] == r
    case _ => false
  }

  ghost predicate OnceInv(s: State) {
    && (forall h, r | Placed(s, h, r) :: r in s.ledger.requests)
    && (forall h, g, r | Placed(s, h, r) && Placed(s, g, r) :: h == g)
    && (forall l, h | l in s.listeners && (s.listeners[l].Acquired? || s.listeners[l].Located?) ::
          !Placed(s, h, s.listeners[l].r))
  }

  ghost predicate ThreadsInv(s: State) {
    forall w | w in s.workers :: ThreadInv(s.workers[w])
  }

  ghost predicate Inv(s: State) {
    && ThreadsInv(s)
    && LockInv(s) && KnownInv(s) && CountInv(s) && EndpointInv(s) && OnceInv(s)
    && !s.ledger.fault
  }

  // ----- how a step moves references -----

  ghost function Lost(s: State, step: Step, r: RequestId): set<Holder>
    requires Enabled(s, step)
  {
    match step
    case FinishQueue(l) => if s.listeners[l].r == r then {Adding(l)} else {}
    case ReleaseHold(l) => if s.listeners[l].r == r then {Listening(l)} else {}
    case BeginRequest(w) =>
      var t := s.workers[w];
      if Busy(t.host) && t.host.current == Some(r) then {Waiting(w, |t.completed|)} else {}
    case DropCurrent(w) => if s.workers[w].pc.r == r then {Removing(w)} else {}
    case _ => {}
  }

  ghost function Gained(s: State, step: Step, r: RequestId): set<Holder>
    requires Enabled(s, step)
  {
    match step
    case Acquire(l, q) => if q == r then {Listening(l)} else {}
    case BeginQueue(l) =>
      if !Full(s.workers[s.listeners[l].w].host) && s.listeners[l].r == r then {Adding(l)} else {}
    case FinishQueue(l) =>
      if s.listeners[l].r == r then {Waiting(s.listeners[l].w, |s.workers[s.listeners[l].w].accepted|)} else {}
    case BeginRequest(w) =>
      if Busy(s.workers[w].host) && s.workers[w].host.current == Some(r) then {Removing(w)} else {}
    case _ => {}
  }

  ghost predicate HoldsMoves(s: State, step: Step, h: Holder, r: RequestId)
    requires Enabled(s, step)
  {
    && (Holds(Apply(s, step), h, r) <==> (Holds(s, h, r) && h !in Lost(s, step, r)) || h in Gained(s, step, r))
    && (h in Lost(s, step, r) ==> Holds(s, h, r))
    && (h in Gained(s, step, r) ==> !Holds(s, h, r))
  }

  /** A busy worker's queue holds its current request in front. */
  lemma BusyHead(t: Thread)
    requires ThreadInv(t) && t.pc.InContainer? && Busy(t.host)
    ensures t.host.queue != [] && t.host.queue[0] == t.host.current.value
    ensures |t.completed| < |t.accepted| && t.accepted[|t.completed|] == t.host.current.value
  {
  }

  lemma ListenerHoldsMoves(s: State, step: Step, h: Holder, r: RequestId)
    requires (h.Listening? || h.Adding?) && Enabled(s, step)
    ensures HoldsMoves(s, step, h, r)
  {
    hide LedgerAfter, ThreadAfter;
  }

  lemma RemovingMoves(s: State, step: Step, h: Holder, r: RequestId)
    requires h.Removing? && Enabled(s, step)
    requires WorkerOf(s, step).Some? && !step.CreateWorker? ==> ThreadInv(s.workers[WorkerOf(s, step).value])
    ensures HoldsMoves(s, step, h, r)
  {
    hide LedgerAfter, ListenerAfter;
    if step.BeginRequest? && Busy(s.workers[step.w].host) {
      BusyHead(s.workers[step.w]);
    }
  }

  lemma WaitingMoves(s: State, step: Step, h: Holder, r: RequestId)
    requires h.Waiting? && Enabled(s, step)
    requires WorkerOf(s, step).Some? && !step.CreateWorker? ==> ThreadInv(s.workers[WorkerOf(s, step).value])
    ensures HoldsMoves(s, step, h, r)
  {
    hide LedgerAfter, ListenerAfter;
    if step.BeginRequest? {
      hide ThreadQueued, Answered;
      if Busy(s.workers[step.w].host) {
        BusyHead(s.workers[step.w]);
      }
      hide ThreadInv;
    } else if step.FinishQueue? {
      WaitingAppended(s, step, h, r);
    } else {
      hide ThreadInv, ThreadBegun, ThreadQueued;
    }
  }

  lemma WaitingAppended(s: State, step: Step, h: Holder, r: RequestId)
    requires h.Waiting? && Enabled(s, step) && step.FinishQueue?
    requires ThreadInv(s.workers[s.listeners[step.l].w])
    ensures HoldsMoves(s, step, h, r)
  {
    hide LedgerAfter, ListenerAfter, ThreadBegun, Answered;
    var t := s.workers[s.listeners[step.l].w];
    assert |t.completed| <= |t.accepted|;
    hide ThreadInv;
  }

  lemma ExchangeCount<T>(before: set<T>, after: set<T>, lost: set<T>, gained: set<T>)
    requires forall h :: h in after <==> (h in before && h !in lost) || h in gained
    requires lost <= before && gained !! before
    ensures |after| == |before| - |lost| + |gained|
  {
    assert after == before - lost + gained;
    assert |before - lost| == |before| - |lost|;
    assert (before - lost) * gained == {};
  }

  lemma EveryHolderMoves(s: State, step: Step, h: Holder, r: RequestId)
    requires ThreadsInv(s) && Enabled(s, step)
    ensures HoldsMoves(s, step, h, r)
  {
    hide HoldsMoves, ThreadInv;
    if h.Listening? || h.Adding? {
      ListenerHoldsMoves(s, step, h, r);
    } else if h.Removing? {
      RemovingMoves(s, step, h, r);
    } else {
      WaitingMoves(s, step, h, r);
    }
  }

  lemma HolderCountAfter(s: State, step: Step, r: RequestId)
    requires ThreadsInv(s) && Enabled(s, step)
    ensures |Holders(Apply(s, step), r)| == |Holders(s, r)| - |Lost(s, step, r)| + |Gained(s, step, r)|
  {
    hide ThreadsInv, Enabled, Apply, Holds, Holders, Lost, Gained;
    var s' := Apply(s, step);
    HoldersAreThoseWhoHold(s, r);
    HoldersAreThoseWhoHold(s', r);
    forall h
      ensures Holds(s', h, r) <==> (Holds(s, h, r) && h !in Lost(s, step, r)) || h in Gained(s, step, r)
      ensures h in Lost(s, step, r) ==> Holds(s, h, r)
      ensures h in Gained(s, step, r) ==> !Holds(s, h, r)
    {
      EveryHolderMoves(s, step, h, r);
    }
    ExchangeCount(Holders(s, r), Holders(s', r), Lost(s, step, r), Gained(s, step, r));
  }

  // ----- workers and locks -----

  lemma ThreadsPreserved(s: State, step: Step)
    requires ThreadsInv(s) && LockInv(s) && Enabled(s, step)
    ensures ThreadsInv(Apply(s, step))
  {
    hide LedgerAfter, ListenerAfter;
    if WorkerOf(s, step).Some? {
      ThreadPreserved(s, step);
    }
  }

  lemma QueuedKeeps(t: Thread, l: ListenerId, r: RequestId)
    requires ThreadInv(t) && t.lock == ByListener(l) && !Full(t.host)
    ensures ThreadInv(ThreadQueued(t, r))
  {
    assert t.completed + t.host.queue + [r] == t.completed + (t.host.queue + [r]);
  }

  lemma BegunKeeps(t: Thread)
    requires ThreadInv(t) && t.pc.InContainer? && t.lock.Free?
    ensures ThreadInv(ThreadBegun(t))
  {
    if Busy(t.host) {
      BusyHead(t);
      var q, c := t.host.queue, t.host.current.value;
      assert t.completed + q == t.completed + [c] + q[1..];
    }
  }

  lemma ChosenKeeps(t: Thread)
    requires ThreadInv(t) && t.pc.Choosing?
    ensures ThreadInv(Answered(t, Choose(t.host)))
  {
  }

  lemma WokenKeeps(t: Thread)
    requires ThreadInv(t) && t.pc == Blocked(true) && t.lock.Free?
    ensures ThreadInv(Answered(t, Resume(t.host)))
  {
  }

  lemma SimpleStepKeeps(t: Thread, l: ListenerId)
    requires ThreadInv(t)
    ensures t.lock.Free? ==> ThreadInv(t.(lock := ByListener(l)))
    ensures t.pc.Unstarted? ==> ThreadInv(t.(host := t.host.(state := Idle), pc := InContainer))
    ensures t.pc.Finishing? ==> ThreadInv(t.(host := ForgetCurrent(t.host), pc := Choosing))
    ensures t.pc.Blocked? ==> ThreadInv(t.(pc := Blocked(true), spurious := t.spurious + 1))
    ensures t.pc.InContainer? ==> ThreadInv(t.(host := t.host.(state := Zombie), pc := Exited))
  {
  }

  lemma NewThreadInv()
    ensures ThreadInv(Thread(NewWorker(), Unstarted, Free, [], [], 0, false))
  {
  }

  lemma ThreadPreserved(s: State, step: Step)
    requires ThreadsInv(s) && LockInv(s) && Enabled(s, step) && WorkerOf(s, step).Some?
    ensures ThreadInv(ThreadAfter(s, step))
  {
    NewThreadInv();
    if !step.CreateWorker? {
      var t := s.workers[WorkerOf(s, step).value];
      assert ThreadInv(t);
      assert step.FinishQueue? ==> t.lock == ByListener(step.l) && !Full(t.host);
      hide ThreadInv, ThreadsInv, LockInv, ThreadQueued, ThreadBegun, Answered;
      SimpleStepKeeps(t, if step.BeginQueue? then step.l else 0);
      match step {
        case FinishQueue(l) => QueuedKeeps(t, l, s.listeners[l].r);
        case BeginRequest(_) => BegunKeeps(t);
        case ChooseNext(_) => ChosenKeeps(t);
        case Wake(_) => WokenKeeps(t);
        case _ =>
      }
    }
  }

  lemma AppendersPreserved(s: State, step: Step)
    requires ThreadsInv(s) && AppendersLock(s) && Enabled(s, step)
    ensures AppendersLock(Apply(s, step))
  {
    hide LedgerAfter;
    if WorkerOf(s, step).Some? && !step.CreateWorker? {
      assert ThreadInv(s.workers[WorkerOf(s, step).value]);
    }
    hide ThreadsInv;
  }

  lemma LockerPreserved(s: State, step: Step, w: WorkerId)
    requires LockerAppends(s, w) && AppendersLock(s) && Enabled(s, step)
    ensures LockerAppends(Apply(s, step), w)
  {
    hide LedgerAfter, Busy, Choose, Resume;
    if MovesListener(step) && !step.AddListener? && s.listeners[step.l].Appending? {
      assert step.FinishQueue? && s.workers[s.listeners[step.l].w].lock == ByListener(step.l);
    }
    hide AppendersLock;
  }

  lemma LocksPreserved(s: State, step: Step)
    requires ThreadsInv(s) && LockInv(s) && Enabled(s, step)
    ensures LockInv(Apply(s, step))
  {
    hide Apply, ThreadsInv, Enabled, AppendersLock, LockerAppends;
    AppendersPreserved(s, step);
    forall w ensures LockerAppends(Apply(s, step), w) {
      LockerPreserved(s, step, w);
    }
  }

  // ----- references -----

  lemma HeldIsLive(s: State, h: Holder, r: RequestId)
    requires KnownInv(s) && CountInv(s) && Holds(s, h, r)
    ensures s.ledger.Live(r) && s.ledger.requests[r].refs > 0
  {
    HoldersAreThoseWhoHold(s, r);
    assert h in Holders(s, r);
  }

  /** The request whose reference a step uses, and the holder on whose behalf it does so. */
  ghost function Subject(s: State, step: Step): Option<(Holder, RequestId)>
    requires Enabled(s, step)
  {
    match step
    case BeginQueue(l) => Some((Listening(l), s.listeners[l].r))
    case FinishQueue(l) => Some((Adding(l), s.listeners[l].r))
    case ReleaseHold(l) => Some((Listening(l), s.listeners[l].r))
    case BeginRequest(w) =>
      var t := s.workers[w];
      if Busy(t.host) then Some((Waiting(w, |t.completed|), t.host.current.value)) else None
    case DropCurrent(w) => Some((Removing(w), s.workers[w].pc.r))
    case ChooseNext(w) => NextSubject(w, s.workers[w], Choose(s.workers[w].host).1)
    case Wake(w) => NextSubject(w, s.workers[w], Resume(s.workers[w].host).1)
    case _ => None
  }

  ghost function NextSubject(w: WorkerId, t: Thread, reply: Reply<RequestId>): Option<(Holder, RequestId)> {
    if reply.Deliver? then Some((Waiting(w, |t.completed|), reply.request)) else None
  }

  lemma SubjectIsHeld(s: State, step: Step)
    requires ThreadsInv(s) && Enabled(s, step) && Subject(s, step).Some?
    ensures Holds(s, Subject(s, step).value.0, Subject(s, step).value.1)
    ensures step.BeginRequest? ==> s.workers[step.w].host.queue != []
  {
    match step {
      case BeginRequest(w) => BusyHead(s.workers[w]);
      case ChooseNext(w) =>
        assert ThreadInv(s.workers[w]);
      case Wake(w) =>
        assert ThreadInv(s.workers[w]);
      case _ =>
    }
  }

  /** What a step does to the count of request r. */
  ghost predicate RefsMove(s: State, step: Step, r: RequestId)
    requires Enabled(s, step)
  {
    var before, after := s.ledger.requests, LedgerAfter(s, step).requests;
    && (r in after <==> r in before || (step.Acquire? && step.r == r))
    && (r in before ==>
          && after[r].endpoint == before[r].endpoint
          && after[r].refs == before[r].refs - |Lost(s, step, r)| + |Gained(s, step, r)|
          && after[r].finishes == before[r].finishes + (if before[r].refs > 0 && after[r].refs == 0 then 1 else 0))
    && (r in after && r !in before ==> after[r] == Request(1, 0, step.l))
  }

  /** The step finds the request it uses live, and the endpoints it counts on registered. */
  ghost predicate Grounded(s: State, step: Step)
    requires Enabled(s, step)
  {
    && !s.ledger.fault
    && (Subject(s, step).Some? ==> var r := Subject(s, step).value.1;
          && s.ledger.Live(r) && s.ledger.requests[r].refs > 0
          && s.ledger.requests[r].endpoint in s.ledger.endpoints
          && s.ledger.endpoints[s.ledger.requests[r].endpoint] > 0)
    && (step.Acquire? ==> step.l in s.ledger.endpoints)
    && (step.BeginRequest? && Busy(s.workers[step.w].host) ==> s.workers[step.w].host.queue != [])
  }

  lemma InvGrounds(s: State, step: Step)
    requires Inv(s) && Enabled(s, step)
    ensures Grounded(s, step)
  {
    hide ThreadsInv, LockInv, CountInv, OnceInv, Holds;
    if Subject(s, step).Some? {
      SubjectIsHeld(s, step);
      HeldIsLive(s, Subject(s, step).value.0, Subject(s, step).value.1);
    }
  }

  lemma NoFault(s: State, step: Step)
    requires Enabled(s, step) && Grounded(s, step)
    ensures !LedgerAfter(s, step).fault
  {
  }

  lemma RefsMoves(s: State, step: Step, r: RequestId)
    requires Enabled(s, step) && Grounded(s, step)
    ensures RefsMove(s, step, r) && !LedgerAfter(s, step).fault
  {
    NoFault(s, step);
    if step.BeginQueue? || step.ReleaseHold? || step.DropCurrent? || step.Acquire? || step.AddListener? {
      hide ThreadAfter, ListenerAfter, Busy, Choose, Resume;
    } else {
      LedgerKept(s, step);
      hide LedgerAfter, Enabled;
    }
  }

  /** The other steps leave the references as they are; a request that begins to be completed passes
      from one holder to another. */
  lemma LedgerKept(s: State, step: Step)
    requires Enabled(s, step) && Grounded(s, step)
    requires !(step.BeginQueue? || step.ReleaseHold? || step.DropCurrent? || step.Acquire? || step.AddListener?)
    ensures LedgerAfter(s, step) == s.ledger
  {
  }

  lemma CountsPreserved(s: State, step: Step)
    requires ThreadsInv(s) && KnownInv(s) && CountInv(s) && Enabled(s, step) && Grounded(s, step)
    ensures CountInv(Apply(s, step))
  {
    var s' := Apply(s, step);
    forall r | r in s'.ledger.requests
      ensures s'.ledger.requests[r].refs == |Holders(s', r)|
      ensures s'.ledger.requests[r].finishes == (if s'.ledger.requests[r].refs == 0 then 1 else 0)
    {
      CountPreserved(s, step, r);
    }
  }

  lemma CountPreserved(s: State, step: Step, r: RequestId)
    requires ThreadsInv(s) && KnownInv(s) && CountInv(s) && Enabled(s, step) && Grounded(s, step)
    requires r in LedgerAfter(s, step).requests
    ensures var q := LedgerAfter(s, step).requests[r];
      q.refs == |Holders(Apply(s, step), r)| && q.finishes == (if q.refs == 0 then 1 else 0)
  {
    HolderCountAfter(s, step, r);
    RefsMoves(s, step, r);
    HoldersAreThoseWhoHold(s, r);
    if r in s.ledger.requests && s.ledger.requests[r].refs == 0 {
      assert Gained(s, step, r) == {} by {
        hide Holders;
        DeadStaysDead(s, step, r);
      }
    }
    hide Grounded, ThreadsInv, LedgerAfter, Apply, Lost, Enabled;
    if r !in s.ledger.requests {
      assert forall h :: !Holds(s, h, r);
      assert Holders(s, r) == {};
    }
  }

  /** A request nobody holds gains no holder. */
  lemma DeadStaysDead(s: State, step: Step, r: RequestId)
    requires Enabled(s, step) && Grounded(s, step)
    requires r in s.ledger.requests && s.ledger.requests[r].refs == 0
    ensures Gained(s, step, r) == {}
  {
  }

  lemma HeldStaysKnown(s: State, step: Step, h: Holder, r: RequestId)
    requires ThreadsInv(s) && KnownInv(s) && Enabled(s, step) && Grounded(s, step)
    requires Holds(Apply(s, step), h, r)
    ensures r in LedgerAfter(s, step).requests
    ensures h.Listening? ==> LedgerAfter(s, step).requests[r].endpoint == h.l
  {
    EveryHolderMoves(s, step, h, r);
    RefsMoves(s, step, r);
    hide ThreadsInv, LedgerAfter, Holds, Apply;
    if Holds(s, h, r) {
      assert r in s.ledger.requests;
    } else {
      assert h in Gained(s, step, r);
    }
  }

  lemma KnownPreserved(s: State, step: Step)
    requires ThreadsInv(s) && KnownInv(s) && Enabled(s, step) && Grounded(s, step)
    ensures KnownInv(Apply(s, step))
  {
    var s' := Apply(s, step);
    forall h, r | Holds(s', h, r)
      ensures r in s'.ledger.requests
      ensures h.Listening? ==> s'.ledger.requests[r].endpoint == h.l
    {
      HeldStaysKnown(s, step, h, r);
    }
  }

  // ----- endpoints -----

  lemma WithoutOne<T>(s: set<T>, x: T)
    ensures |s| == |s - {x}| + (if x in s then 1 else 0)
  {
    if x in s {
      assert s == (s - {x}) + {x};
    } else {
      assert s == s - {x};
    }
  }

  /** Request r counts for its endpoint while it is live. */
  function CountsFor(g: Ledger, r: RequestId, l: ListenerId): nat {
    if r in g.requests && g.requests[r].endpoint == l && g.requests[r].finishes == 0 then 1 else 0
  }

  lemma LiveWithout(g: Ledger, g': Ledger, r: RequestId, l: ListenerId)
    requires r in g'.requests && g'.requests == g.requests[r := g'.requests[r]]
    ensures LiveOf(g', l) - {r} == LiveOf(g, l) - {r}
  {
    forall q ensures q in LiveOf(g', l) - {r} <==> q in LiveOf(g, l) - {r} {
      assert q != r ==> (q in g'.requests <==> q in g.requests);
    }
  }

  /** A change of request r changes the live requests of an endpoint by r alone. */
  lemma LiveChanges(g: Ledger, g': Ledger, r: RequestId, l: ListenerId)
    requires r in g'.requests && g'.requests == g.requests[r := g'.requests[r]]
    ensures |LiveOf(g', l)| + CountsFor(g, r, l) == |LiveOf(g, l)| + CountsFor(g', r, l)
  {
    LiveWithout(g, g', r, l);
    CountedOnce(g, r, l);
    CountedOnce(g', r, l);
    hide LiveOf, CountsFor;
    WithoutOne(LiveOf(g', l), r);
    WithoutOne(LiveOf(g, l), r);
  }

  lemma CountedOnce(g: Ledger, r: RequestId, l: ListenerId)
    ensures CountsFor(g, r, l) == if r in LiveOf(g, l) then 1 else 0
  {
  }

  lemma CreateCounts(g: Ledger, r: RequestId, l: ListenerId)
    requires EndpointsCounted(g) && l in g.endpoints && r !in g.requests
    ensures EndpointsCounted(g.Create(r, l))
  {
    hide LiveOf;
    var g' := g.Create(r, l);
    forall k | k in g'.endpoints ensures g'.endpoints[k] == 1 + |LiveOf(g', k)| {
      LiveChanges(g, g', r, k);
    }
  }

  lemma AddRefCounts(g: Ledger, r: RequestId)
    requires EndpointsCounted(g)
    ensures EndpointsCounted(g.AddRef(r))
  {
    hide LiveOf;
    var g' := g.AddRef(r);
    if g.Live(r) {
      forall k | k in g'.endpoints ensures g'.endpoints[k] == 1 + |LiveOf(g', k)| {
        LiveChanges(g, g', r, k);
      }
    } else {
      FaultCounts(g);
    }
  }

  lemma FaultCounts(g: Ledger)
    requires EndpointsCounted(g)
    ensures EndpointsCounted(g.Fault())
  {
    forall k ensures LiveOf(g.Fault(), k) == LiveOf(g, k) {
    }
  }

  lemma ReleaseCounts(g: Ledger, r: RequestId)
    requires EndpointsCounted(g)
    ensures EndpointsCounted(g.Release(r))
  {
    hide LiveOf;
    FaultCounts(g);
    var g' := g.Release(r);
    if g' != g.Fault() {
      forall k | k in g'.endpoints ensures g'.endpoints[k] == 1 + |LiveOf(g', k)| {
        LiveChanges(g, g', r, k);
      }
    }
  }

  lemma RegisterCounts(g: Ledger, l: ListenerId)
    requires EndpointsCounted(g) && l !in g.endpoints
    ensures EndpointsCounted(g.(endpoints := g.endpoints[l := 1]))
  {
    var g' := g.(endpoints := g.endpoints[l := 1]);
    forall k | k in g'.endpoints ensures g'.endpoints[k] == 1 + |LiveOf(g', k)| {
      if k == l {
        assert LiveOf(g', k) == {};
      } else {
        assert LiveOf(g', k) == LiveOf(g, k);
      }
    }
  }

  lemma EndpointsPreserved(s: State, step: Step)
    requires EndpointInv(s) && Enabled(s, step) && Grounded(s, step)
    ensures EndpointInv(Apply(s, step))
  {
    hide ThreadAfter, ListenerAfter, EndpointsCounted;
    match step {
      case AddListener(l) => RegisterCounts(s.ledger, l);
      case Acquire(l, r) => CreateCounts(s.ledger, r, l);
      case BeginQueue(l) => AddRefCounts(s.ledger, s.listeners[l].r);
      case ReleaseHold(l) => ReleaseCounts(s.ledger, s.listeners[l].r);
      case DropCurrent(w) => ReleaseCounts(s.ledger, s.workers[w].pc.r);
      case _ =>
    }
  }

  // ----- a request is queued at most once -----

  /** The place a step gives the request it handles, and the one it takes away. */
  ghost function NewPlace(s: State, step: Step): Option<Holder>
    requires Enabled(s, step)
  {
    match step
    case BeginQueue(l) => if Full(s.workers[s.listeners[l].w].host) then None else Some(Adding(l))
    case FinishQueue(l) => Some(Waiting(s.listeners[l].w, |s.workers[s.listeners[l].w].accepted|))
    case _ => None
  }

  ghost predicate PlaceMoves(s: State, step: Step, h: Holder, r: RequestId)
    requires Enabled(s, step)
  {
    Placed(Apply(s, step), h, r) <==>
      || (Placed(s, h, r) && !(step.FinishQueue? && h == Adding(step.l)))
      || (NewPlace(s, step) == Some(h) && s.listeners[step.l].r == r)
  }

  lemma AddingPlaced(s: State, step: Step, h: Holder, r: RequestId)
    requires Enabled(s, step) && h.Adding?
    ensures PlaceMoves(s, step, h, r)
  {
    hide LedgerAfter, ThreadAfter;
  }

  lemma WaitingPlaced(s: State, step: Step, h: Holder, r: RequestId)
    requires Enabled(s, step) && h.Waiting?
    ensures PlaceMoves(s, step, h, r)
  {
    hide LedgerAfter, ListenerAfter;
  }

  lemma PlacedAfter(s: State, step: Step, h: Holder, r: RequestId)
    requires Enabled(s, step)
    ensures PlaceMoves(s, step, h, r)
  {
    hide Apply, Enabled, NewPlace;
    if h.Adding? {
      AddingPlaced(s, step, h, r);
    } else if h.Waiting? {
      WaitingPlaced(s, step, h, r);
    } else {
      NeverPlaced(s, step, h, r);
    }
  }

  lemma NeverPlaced(s: State, step: Step, h: Holder, r: RequestId)
    requires Enabled(s, step) && !h.Adding? && !h.Waiting?
    ensures PlaceMoves(s, step, h, r)
  {
    hide Apply;
  }

  lemma OncePreserved(s: State, step: Step)
    requires OnceInv(s) && KnownInv(s) && Enabled(s, step) && Grounded(s, step)
    ensures OnceInv(Apply(s, step))
  {
    var s' := Apply(s, step);
    forall h, r | Placed(s', h, r) ensures r in s'.ledger.requests {
      PlacedAfter(s, step, h, r);
      RefsMoves(s, step, r);
      hide LedgerAfter, ThreadAfter, Holds, Apply;
    }
    forall h, g, r | Placed(s', h, r) && Placed(s', g, r) ensures h == g {
      PlaceUnique(s, step, h, g, r);
    }
    forall l, h | l in s'.listeners && (s'.listeners[l].Acquired? || s'.listeners[l].Located?)
      ensures !Placed(s', h, s'.listeners[l].r)
    {
      UnroutedUnplaced(s, step, l, h);
    }
  }

  lemma PlacedOnce(s: State, h: Holder, g: Holder, r: RequestId)
    requires OnceInv(s) && Placed(s, h, r) && Placed(s, g, r)
    ensures h == g
  {
  }

  /** The place that queueing gives a request is its first, or takes over from the one before it. */
  lemma NewPlaceIsFree(s: State, step: Step, h: Holder)
    requires OnceInv(s) && Enabled(s, step) && NewPlace(s, step).Some?
    requires Placed(s, h, s.listeners[step.l].r)
    ensures step.FinishQueue? && h == Adding(step.l)
  {
    if step.FinishQueue? {
      assert Placed(s, Adding(step.l), s.listeners[step.l].r);
    }
  }

  lemma PlaceUnique(s: State, step: Step, h: Holder, g: Holder, r: RequestId)
    requires OnceInv(s) && Enabled(s, step)
    requires Placed(Apply(s, step), h, r) && Placed(Apply(s, step), g, r)
    ensures h == g
  {
    PlacedAfter(s, step, h, r);
    PlacedAfter(s, step, g, r);
    hide Apply, OnceInv, Placed, Enabled;
    if NewPlace(s, step).Some? && s.listeners[step.l].r == r {
      if Placed(s, h, r) {
        NewPlaceIsFree(s, step, h);
      }
      if Placed(s, g, r) {
        NewPlaceIsFree(s, step, g);
      }
    }
    if Placed(s, h, r) && Placed(s, g, r) {
      PlacedOnce(s, h, g, r);
    }
  }

  lemma UnroutedUnplaced(s: State, step: Step, l: ListenerId, h: Holder)
    requires OnceInv(s) && KnownInv(s) && Enabled(s, step)
    requires var s' := Apply(s, step);
      l in s'.listeners && (s'.listeners[l].Acquired? || s'.listeners[l].Located?)
    ensures !Placed(Apply(s, step), h, Apply(s, step).listeners[l].r)
  {
    hide LedgerAfter, ThreadAfter;
    var r := Apply(s, step).listeners[l].r;
    PlacedAfter(s, step, h, r);
    if (step.BeginQueue? || step.FinishQueue?) && step.l != l {
      assert Holds(s, Listening(step.l), s.listeners[step.l].r) && Holds(s, Listening(l), r);
    }
  }

  // ----- the invariant is inductive -----

  lemma InvInitial()
    ensures Inv(INITIAL)
  {
  }

  lemma InvPreserved(s: State, step: Step)
    requires Inv(s) && Enabled(s, step)
    ensures Inv(Apply(s, step))
  {
    InvGrounds(s, step);
    RefsMoves(s, step, 0);
    hide ThreadsInv, LockInv, KnownInv, EndpointInv, OnceInv, Apply, Enabled, Grounded, RefsMove;
    ThreadsPreserved(s, step);
    LocksPreserved(s, step);
    KnownPreserved(s, step);
    CountsPreserved(s, step);
    EndpointsPreserved(s, step);
    OncePreserved(s, step);
  }

  lemma {:induction false} InvHoldsOfRuns(s: State, steps: seq<Step>)
    requires Inv(s) && IsRun(s, steps)
    ensures Inv(Final(s, steps))
    decreases |steps|
  {
    if steps != [] {
      InvPreserved(s, steps[0]);
      InvHoldsOfRuns(Apply(s, steps[0]), steps[1..]);
    }
  }

  lemma ReachableInv(steps: seq<Step>)
    requires IsRun(INITIAL, steps)
    ensures Inv(Final(INITIAL, steps))
  {
    InvInitial();
    InvHoldsOfRuns(INITIAL, steps);
  }
}
