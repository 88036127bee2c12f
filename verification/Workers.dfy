/** The per-worker part of worker.c and worker-thread.c on values: what each region protected by
    the worker's mutex does to the bounded queue and the state. WorkerHosts proves the array code
    against these functions; Pool interleaves them. */
module Workers {
  import opened Wrappers

  // worker.c:56
  const REQUESTALLOC: nat := 32

  datatype WorkerState = Empty | Idle | Running | Zombie

  /** `queue` is requests[0..requestcount), `capacity` is requestalloc. */
  datatype Worker<R> = Worker(state: WorkerState, queue: seq<R>, capacity: nat, current: Option<R>)

  /** What a call of worker_request_ answers: a request, -1 with EPERM, NULL with 0, or not yet. */
  datatype Reply<R> = Deliver(request: R) | Refuse | Stop | Wait

  function NewWorker<R>(): Worker<R> {
    Worker(Empty, [], REQUESTALLOC, None)
  }

  predicate Full<R>(w: Worker<R>) {
    |w.queue| + 1 > w.capacity
  }

  /** What worker_locate goes by: the number of requests, None for a worker it skips. */
  function LoadOf(state: WorkerState, requestcount: nat): Option<nat> {
    if state.Idle? || state.Running? then Some(requestcount) else None
  }

  function Enqueue<R>(w: Worker<R>, r: R): Worker<R> {
    w.(queue := w.queue + [r])
  }

  /** The guard worker_request_ tests first: the caller has finished the request it was given. */
  predicate Busy<R>(w: Worker<R>) {
    w.state.Running? && w.current.Some?
  }

  function DropHead<R>(w: Worker<R>): Worker<R>
    requires w.queue != []
  {
    w.(queue := w.queue[1..])
  }

  function ForgetCurrent<R>(w: Worker<R>): Worker<R> {
    w.(current := None)
  }

  function Take<R>(w: Worker<R>): Worker<R>
    requires w.queue != []
  {
    w.(state := Running, current := Some(w.queue[0]))
  }

  /** From the ZOMBIE test up to the return or the wait. */
  function Choose<R>(w: Worker<R>): (Worker<R>, Reply<R>) {
    if w.state.Zombie? then (w, Refuse)
    else if w.queue != [] then (Take(w), Deliver(w.queue[0]))
    else (w.(state := Idle), Wait)
  }

  /** After pthread_cond_wait has returned. */
  function Resume<R>(w: Worker<R>): (Worker<R>, Reply<R>) {
    if w.queue == [] then (w.(state := Zombie), Stop)
    else (Take(w), Deliver(w.queue[0]))
  }

  /** What every region keeps: the bound, and that a running worker works on its queue's head. */
  predicate WellFormed<R(==)>(w: Worker<R>) {
    && |w.queue| <= w.capacity
    && (w.state.Running? ==> w.current.Some?)
    && (w.current.Some? ==> w.queue != [] && w.queue[0] == w.current.value)
    && (w.state.Empty? || w.state.Idle? ==> w.current.None?)
  }
}
