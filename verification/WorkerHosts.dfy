/** worker.c and worker-thread.c in their own form: the request array of one worker and the regions
    its mutex protects. Each method is proved to do to the array what the function of Workers with
    the matching name does to the queue. */
module WorkerHosts {
  import opened Wrappers
  import opened Workers
  import opened References

  /** The completed request leaves the front of the queue. */
  function Finish<R>(w: Worker<R>): Worker<R>
    requires Busy(w) ==> w.queue != []
  {
    if Busy(w) then ForgetCurrent(DropHead(w)) else w
  }

  class WorkerHost {
    var state: WorkerState
    var requests: array<Request?>
    var requestcount: nat
    var requestalloc: nat
    var current: Request?
    var status: int
    // How often pthread_cond_signal has been called.
    var signals: nat
    ghost var queue: seq<Request>

    ghost predicate Valid()
      reads this, requests
    {
      && requests.Length == requestalloc
      && requestcount == |queue| <= requestalloc
      && (forall i | 0 <= i < requestcount :: requests[i] == queue[i])
      && WellFormed(Abs())
    }

    ghost function Abs(): Worker<Request>
      reads this
    {
      var c: Option<Request> := if current == null then None else Some(current);
      Worker(state, queue, requestalloc, c)
    }

    /** The part of worker_create that sets a worker up. */
    constructor ()
      ensures Valid() && fresh(requests) && Abs() == NewWorker() && signals == 0
    {
      state, requestcount, requestalloc, current, status, signals, queue := Empty, 0, REQUESTALLOC, null, 0, 0, [];
      requests := new Request?[REQUESTALLOC](_ => null);
    }

    /** worker_queue_request. */
    method QueueRequest(req: Request) returns (r: int)
      requires Valid()
      modifies this, requests, req
      ensures Valid() && requests == old(requests)
      ensures r == (if Full(old(Abs())) then -1 else 0)
      ensures Abs() == (if r == 0 then Enqueue(old(Abs()), req) else old(Abs()))
      ensures if old(requestcount) == requestalloc then r == -1 && queue == old(queue)
        else r == 0 && queue == old(queue) + [req]
      ensures req.refcount == (if r == 0 then Incremented(old(req.refcount)) else old(req.refcount))
      ensures req.finished == old(req.finished)
      ensures signals == old(signals) + (if r == 0 then 1 else 0) && status == old(status)
    {
      if requestcount + 1 > requestalloc {
        return -1;
      }
      var _ := req.AddRef();
      requests[requestcount] := req;
      requestcount := requestcount + 1;
      queue := queue + [req];
      signals := signals + 1;
      r := 0;
    }

    /** Removes requests[0] by moving the others down one slot. worker.c:281 is meant to do this; it
        names the address of the field `requests` as the destination instead of the array the field
        points to (see CopyAsWritten). */
    method ShiftLeft()
      requires requests.Length == requestalloc && 0 < requestcount == |queue| <= requestalloc
      requires forall i | 0 <= i < requestcount :: requests[i] == queue[i]
      modifies this`requestcount, this`queue, requests
      ensures requestcount == |queue| && queue == old(queue)[1..]
      ensures forall i | 0 <= i < requestcount :: requests[i] == queue[i]
    {
      var i := 0;
      while i < requestcount - 1
        modifies requests
        invariant 0 <= i <= requestcount - 1
        invariant forall j | 0 <= j < i :: requests[j] == old(queue)[j + 1]
        invariant forall j | i <= j < requestcount :: requests[j] == old(queue)[j]
      {
        requests[i] := requests[i + 1];
        i := i + 1;
      }
      requestcount := requestcount - 1;
      queue := queue[1..];
    }

    /** The release of a request drops its endpoint iff the request was freed, and the server iff that
        freed the endpoint. */
    static twostate predicate CascadedTo(e: Endpoint, released: bool)
      reads e, e.server
    {
      && e.refcount == (if released then Decremented(old(e.refcount)) else old(e.refcount))
      && e.freed == (old(e.freed) || (released && e.refcount == 0))
      && e.server.refcount ==
         (if released && e.refcount == 0 then Decremented(old(e.server.refcount)) else old(e.server.refcount))
      && e.server.freed == (old(e.server.freed) || (released && e.refcount == 0 && e.server.refcount == 0))
    }

    /** worker_request_ up to its return, or up to pthread_cond_wait. */
    method NextRequest() returns (reply: Reply<Request>)
      requires Valid()
      modifies this, requests
      modifies if current == null then {} else {current, current.endpoint, current.endpoint.server}
      ensures Valid() && requests == old(requests)
      ensures Abs() == Choose(Finish(old(Abs()))).0 && reply == Choose(Finish(old(Abs()))).1
      ensures queue == if old(state == Running && current != null) then old(queue)[1..] else old(queue)
      ensures
        if old(state) == Zombie then reply == Refuse && state == Zombie
        else if queue == [] then reply == Wait && state == Idle && current == null
        else reply == Deliver(queue[0]) && state == Running && current == queue[0]
      ensures old(Busy(Abs())) ==>
        && old(current).refcount == Decremented(old(current.refcount))
        && old(current).finished == (old(current.finished) || old(current).refcount == 0)
        && CascadedTo(old(current).endpoint, old(current).refcount == 0)
      ensures !old(Busy(Abs())) && old(current) != null ==>
        unchanged(old(current)) && unchanged(old(current).endpoint) && unchanged(old(current).endpoint.server)
      ensures signals == old(signals) && status == old(status)
    {
      if state.Running? && current != null {
        ShiftLeft();
        var _ := current.Release();
        current := null;
      }
      if state.Zombie? {
        return Refuse;
      }
      state := Idle;
      if requestcount != 0 {
        current := requests[0];
        state := Running;
        return Deliver(current);
      }
      reply := Wait;
    }

    /** worker_request_ after pthread_cond_wait has returned. */
    method Resumed() returns (reply: Reply<Request>)
      requires Valid() && state.Idle?
      modifies this
      ensures Valid() && requests == old(requests)
      ensures Abs() == Resume(old(Abs())).0 && reply == Resume(old(Abs())).1
      ensures queue == old(queue)
      ensures
        if queue == [] then reply == Stop && state == Zombie && current == null
        else reply == Deliver(queue[0]) && state == Running && current == queue[0]
      ensures signals == old(signals) && status == old(status)
    {
      if requestcount == 0 {
        state := Zombie;
        return Stop;
      }
      current := requests[0];
      state := Running;
      reply := Deliver(current);
    }

    /** worker_thread_ before it runs the container's worker; without one the thread ends at once. */
    method Start(attached: bool) returns (run: bool)
      requires Valid() && state.Empty?
      modifies this
      ensures Valid() && requests == old(requests) && signals == old(signals) && run == attached
      ensures Abs() == old(Abs()).(state := if attached then Idle else Zombie)
      ensures status == if attached then -1 else 255
    {
      state := Idle;
      status := -1;
      if !attached {
        state := Zombie;
        status := 255;
      }
      run := attached;
    }

    /** worker_thread_ after it has run the container's worker. */
    method Exit(r: int)
      requires Valid()
      modifies this
      ensures Valid() && requests == old(requests)
      ensures Abs() == old(Abs()).(state := Zombie) && status == r && signals == old(signals)
    {
      state := Zombie;
      status := r;
    }
  }

  // ----- the shift as worker.c:281 writes it -----

  /** The words of struct container_worker_host_struct from the field `requests` on: the address of
      the buffer, the current request, and what follows them. */
  datatype Word<R> = Buffer | Pointer(r: R) | Other

  /** memcpy(&me->requests, &me->requests[1], (requestcount - 1) * sizeof *). */
  function CopyAsWritten<R>(fields: seq<Word<R>>, queue: seq<R>): seq<Word<R>>
    requires queue != [] && |queue| - 1 <= |fields|
  {
    seq(|fields|, i requires 0 <= i < |fields| => if i < |queue| - 1 then Pointer(queue[i + 1]) else fields[i])
  }

  /** The statement leaves the buffer's address in place, which the removal of the head needs, iff
      the queue holds only the request that is being removed. */
  lemma CopyAsWrittenKeepsBuffer<R>(fields: seq<Word<R>>, queue: seq<R>)
    requires queue != [] && 0 < |fields| && |queue| - 1 <= |fields| && fields[0] == Buffer
    ensures CopyAsWritten(fields, queue)[0] == Buffer <==> |queue| == 1
  {
    if |queue| > 1 {
      assert CopyAsWritten(fields, queue)[0] == Pointer(queue[1]);
    }
  }
}
