/** The worker pool protocol as a transition system. A step is one region protected by a lock, or
    one lock-free event. The regions that a request's own lock protects inside a worker's mutex are
    steps of their own, so other threads interleave between them; the worker's mutex is explicit.
    Listeners, workers and requests are unbounded in number. */
module Pool {
  import opened Wrappers
  import opened Workers

  type RequestId = nat
  type WorkerId = nat
  type ListenerId = nat

  // ----- references (refcount.c, endpoints/fcgi) -----

  /** `finishes` counts how often a release found the count at zero and freed the request. */
  datatype Request = Request(refs: nat, finishes: nat, endpoint: ListenerId)

  /** `endpoints` is the reference count of each listener's endpoint. `fault` records that a thread
      used a request after it was freed, released a count of zero, or shifted an empty queue. */
  datatype Ledger = Ledger(requests: map<RequestId, Request>, endpoints: map<ListenerId, nat>, fault: bool) {
    predicate Live(r: RequestId) {
      r in requests && requests[r].finishes == 0
    }

    function Fault(): Ledger {
      this.(fault := true)
    }

    /** A thread reads request r. */
    function Use(r: RequestId): Ledger {
      if Live(r) then this else Fault()
    }

    /** request_create_: one reference for the caller, one reference to the endpoint. */
    function Create(r: RequestId, l: ListenerId): Ledger {
      if r in requests || l !in endpoints then Fault()
      else Ledger(requests[r := Request(1, 0, l)], endpoints[l := endpoints[l] + 1], fault)
    }

    function AddRef(r: RequestId): Ledger {
      if !Live(r) then Fault()
      else this.(requests := requests[r := requests[r].(refs := requests[r].refs + 1)])
    }

    /** request_release_: the release that reaches zero frees the request and drops its endpoint. */
    function Release(r: RequestId): Ledger {
      if !Live(r) || requests[r].refs == 0 then Fault()
      else if requests[r].refs > 1 then
        this.(requests := requests[r := requests[r].(refs := requests[r].refs - 1)])
      else
        var l := requests[r].endpoint;
        if l !in endpoints || endpoints[l] == 0 then Fault()
        else Ledger(requests[r := Request(0, requests[r].finishes + 1, l)], endpoints[l := endpoints[l] - 1], fault)
    }
  }

  // ----- threads -----

  /** Where a listener thread is in its process, acquire, route, release loop. Appending: inside
      worker_queue_request with the worker's mutex held, after addref, before the slot is written. */
  datatype ListenerPc =
    | Accepting
    | Acquired(r: RequestId)
    | Located(r: RequestId, w: WorkerId)
    | Appending(r: RequestId, w: WorkerId)
    | Routed(r: RequestId)
    | Stopped

  /** Where a worker thread is. Finishing: inside worker_request_ with its mutex held, after the
      head was removed, before the reference is dropped. Blocked: in pthread_cond_wait. */
  datatype WorkerPc =
    | Unstarted
    | InContainer
    | Finishing(r: RequestId)
    | Choosing
    | Blocked(woken: bool)
    | Exited

  datatype Lock = Free | ByListener(l: ListenerId) | ByWorker

  /** `accepted`, `completed`, `spurious` and `selfStopped` record the worker's history. */
  datatype Thread = Thread(
    host: Worker<RequestId>,
    pc: WorkerPc,
    lock: Lock,
    accepted: seq<RequestId>,
    completed: seq<RequestId>,
    spurious: nat,
    selfStopped: bool)

  datatype State = State(ledger: Ledger, listeners: map<ListenerId, ListenerPc>, workers: map<WorkerId, Thread>)

  const INITIAL := State(Ledger(map[], map[], false), map[], map[])

  datatype Step =
    | AddListener(l: ListenerId)
    | Acquire(l: ListenerId, r: RequestId)
    | LocateWorker(l: ListenerId, w: WorkerId)
    | NoWorker(l: ListenerId)
    | BeginQueue(l: ListenerId)
    | FinishQueue(l: ListenerId)
    | ReleaseHold(l: ListenerId)
    | StopListener(l: ListenerId)
    | CreateWorker(w: WorkerId)
    | StartWorker(w: WorkerId)
    | BeginRequest(w: WorkerId)
    | DropCurrent(w: WorkerId)
    | ChooseNext(w: WorkerId)
    | SpuriousWake(w: WorkerId)
    | Wake(w: WorkerId)
    | ExitContainer(w: WorkerId)

  predicate Enabled(s: State, step: Step) {
    match step
    case AddListener(l) => l !in s.listeners
    case Acquire(l, r) => l in s.listeners && s.listeners[l].Accepting? && r !in s.ledger.requests
    case LocateWorker(l, w) => l in s.listeners && s.listeners[l].Acquired? && w in s.workers
    case NoWorker(l) => l in s.listeners && s.listeners[l].Acquired?
    case BeginQueue(l) =>
      && l in s.listeners && s.listeners[l].Located?
      && s.listeners[l].w in s.workers && s.workers[s.listeners[l].w].lock.Free?
    case FinishQueue(l) => l in s.listeners && s.listeners[l].Appending? && s.listeners[l].w in s.workers
    case ReleaseHold(l) => l in s.listeners && s.listeners[l].Routed?
    case StopListener(l) => l in s.listeners && s.listeners[l].Accepting?
    case CreateWorker(w) => w !in s.workers
    case StartWorker(w) => w in s.workers && s.workers[w].pc.Unstarted? && s.workers[w].lock.Free?
    case BeginRequest(w) => w in s.workers && s.workers[w].pc.InContainer? && s.workers[w].lock.Free?
    case DropCurrent(w) => w in s.workers && s.workers[w].pc.Finishing?
    case ChooseNext(w) => w in s.workers && s.workers[w].pc.Choosing?
    case SpuriousWake(w) => w in s.workers && s.workers[w].pc == Blocked(false)
    case Wake(w) => w in s.workers && s.workers[w].pc == Blocked(true) && s.workers[w].lock.Free?
    case ExitContainer(w) => w in s.workers && s.workers[w].pc.InContainer? && s.workers[w].lock.Free?
  }

  // ----- what a step does to the listener that takes it -----

  predicate MovesListener(step: Step) {
    step.AddListener? || step.Acquire? || step.LocateWorker? || step.NoWorker?
    || step.BeginQueue? || step.FinishQueue? || step.ReleaseHold? || step.StopListener?
  }

  function ListenerAfter(s: State, step: Step): ListenerPc
    requires Enabled(s, step) && MovesListener(step)
  {
    match step
    case AddListener(_) => Accepting
    case Acquire(_, r) => Acquired(r)
    case LocateWorker(l, w) => Located(s.listeners[l].r, w)
    case NoWorker(l) => Routed(s.listeners[l].r)
    case BeginQueue(l) =>
      var pc := s.listeners[l];
      if Full(s.workers[pc.w].host) then Routed(pc.r) else Appending(pc.r, pc.w)
    case FinishQueue(l) => Routed(s.listeners[l].r)
    case ReleaseHold(_) => Accepting
    case StopListener(_) => Stopped
  }

  // ----- what a step does to a worker -----

  function WorkerOf(s: State, step: Step): Option<WorkerId>
    requires Enabled(s, step)
  {
    match step
    case BeginQueue(l) => Some(s.listeners[l].w)
    case FinishQueue(l) => Some(s.listeners[l].w)
    case _ => if MovesListener(step) then None else Some(step.w)
  }

  /** worker_request_ returns to the container, or waits and gives the mutex up. */
  function Answered(t: Thread, answer: (Worker<RequestId>, Reply<RequestId>)): Thread {
    t.(host := answer.0, lock := Free,
       pc := if answer.1.Wait? then Blocked(false) else InContainer,
       selfStopped := t.selfStopped || answer.1.Stop?)
  }

  function ThreadQueued(t: Thread, r: RequestId): Thread {
    t.(host := Enqueue(t.host, r), accepted := t.accepted + [r], lock := Free,
       pc := if t.pc.Blocked? then Blocked(true) else t.pc)
  }

  function ThreadBegun(t: Thread): Thread {
    if !Busy(t.host) || t.host.queue == [] then t.(pc := Choosing, lock := ByWorker)
    else t.(host := DropHead(t.host), pc := Finishing(t.host.current.value), lock := ByWorker,
            completed := t.completed + [t.host.current.value])
  }

  function ThreadAfter(s: State, step: Step): Thread
    requires Enabled(s, step) && WorkerOf(s, step).Some?
  {
    if step.CreateWorker? then Thread(NewWorker(), Unstarted, Free, [], [], 0, false)
    else
      var t := s.workers[WorkerOf(s, step).value];
      match step
      case BeginQueue(l) => if Full(t.host) then t else t.(lock := ByListener(l))
      case FinishQueue(l) => ThreadQueued(t, s.listeners[l].r)
      case StartWorker(_) => t.(host := t.host.(state := Idle), pc := InContainer)
      case BeginRequest(_) => ThreadBegun(t)
      case DropCurrent(_) => t.(host := ForgetCurrent(t.host), pc := Choosing)
      case ChooseNext(_) => Answered(t, Choose(t.host))
      case SpuriousWake(_) => t.(pc := Blocked(true), spurious := t.spurious + 1)
      case Wake(_) => Answered(t, Resume(t.host))
      case ExitContainer(_) => t.(host := t.host.(state := Zombie), pc := Exited)
  }

  // ----- what a step does to the references -----

  function LedgerAfter(s: State, step: Step): Ledger
    requires Enabled(s, step)
  {
    match step
    case AddListener(l) => s.ledger.(endpoints := s.ledger.endpoints[l := 1])
    case Acquire(l, r) => s.ledger.Create(r, l)
    case BeginQueue(l) =>
      if Full(s.workers[s.listeners[l].w].host) then s.ledger else s.ledger.AddRef(s.listeners[l].r)
    case ReleaseHold(l) => s.ledger.Release(s.listeners[l].r)
    case BeginRequest(w) =>
      var h := s.workers[w].host;
      if !Busy(h) then s.ledger else if h.queue == [] then s.ledger.Fault() else s.ledger.Use(h.current.value)
    case DropCurrent(w) => s.ledger.Release(s.workers[w].pc.r)
    case ChooseNext(w) =>
      var reply := Choose(s.workers[w].host).1;
      if reply.Deliver? then s.ledger.Use(reply.request) else s.ledger
    case Wake(w) =>
      var reply := Resume(s.workers[w].host).1;
      if reply.Deliver? then s.ledger.Use(reply.request) else s.ledger
    case _ => s.ledger
  }

  function Apply(s: State, step: Step): State
    requires Enabled(s, step)
  {
    State(
      LedgerAfter(s, step),
      if MovesListener(step) then s.listeners[step.l := ListenerAfter(s, step)] else s.listeners,
      if WorkerOf(s, step).Some? then s.workers[WorkerOf(s, step).value := ThreadAfter(s, step)] else s.workers)
  }

  // ----- runs -----

  /** The steps form a run from s: each is enabled where it is taken. */
  predicate IsRun(s: State, steps: seq<Step>)
    decreases |steps|
  {
    steps == [] || (Enabled(s, steps[0]) && IsRun(Apply(s, steps[0]), steps[1..]))
  }

  function Final(s: State, steps: seq<Step>): State
    requires IsRun(s, steps)
    decreases |steps|
  {
    if steps == [] then s else Final(Apply(s, steps[0]), steps[1..])
  }
}
