/** The choice of worker_locate in the pool: when the worker a request is routed to refuses it. */
module PoolDispatch {
  import opened Wrappers
  import opened Workers
  import opened Pool
  import opened PoolSafety
  import opened PoolTheorems
  import opened Dispatch

  // ----- the states of a run -----

  /** The state after the first n steps. */
  function StateAfter(s: State, steps: seq<Step>, n: nat): State
    requires IsRun(s, steps) && n <= |steps|
    decreases |steps|
  {
    if n == 0 then s else StateAfter(Apply(s, steps[0]), steps[1..], n - 1)
  }

  lemma {:induction false} RestOfRun(s: State, steps: seq<Step>, n: nat)
    requires Inv(s) && IsRun(s, steps) && n <= |steps|
    ensures Inv(StateAfter(s, steps, n)) && IsRun(StateAfter(s, steps, n), steps[n..])
    ensures Final(StateAfter(s, steps, n), steps[n..]) == Final(s, steps)
    decreases |steps|
  {
    if n == 0 {
      assert steps[0..] == steps;
    } else {
      InvPreserved(s, steps[0]);
      hide Inv, Apply, Enabled;
      RestOfRun(Apply(s, steps[0]), steps[1..], n - 1);
      assert steps[1..][n - 1..] == steps[n..];
    }
  }

  // ----- what a queue can have gained -----

  /** How many requests the queue of w has taken in so far. */
  function Accepted(s: State, w: WorkerId): nat {
    |AcceptedBy(s, w)|
  }

  /** A queue is no longer than it was and what it has taken in since. */
  lemma QueueSince(s: State, steps: seq<Step>, w: WorkerId)
    requires Inv(s) && IsRun(s, steps) && w in Final(s, steps).workers
    ensures var s' := Final(s, steps);
      && Accepted(s, w) <= Accepted(s', w)
      && |s'.workers[w].host.queue| + Accepted(s, w) <=
           (if w in s.workers then |s.workers[w].host.queue| else 0) + Accepted(s', w)
  {
    HistoryRun(s, steps, w);
    InvHoldsOfRuns(s, steps);
    var s' := Final(s, steps);
    hide IsRun, Final, LockInv, KnownInv, CountInv, EndpointInv, OnceInv, AllTakenIn, AllFinished, Apply, Enabled;
    assert ThreadInv(s'.workers[w]);
    assert w in s.workers ==> ThreadInv(s.workers[w]);
  }

  /** The worker of listener l's request has no room for it. */
  predicate Refuses(s: State, l: ListenerId, w: WorkerId) {
    Enabled(s, BeginQueue(l)) && s.listeners[l].w == w && Full(s.workers[w].host)
  }

  /** A queue that is full in the end was filled by what it held before and what it took in since. */
  lemma FullSince(steps: seq<Step>, n: nat, l: ListenerId, w: WorkerId)
    requires IsRun(INITIAL, steps) && n <= |steps| && Refuses(Final(INITIAL, steps), l, w)
    ensures var s, s' := StateAfter(INITIAL, steps, n), Final(INITIAL, steps);
      && Accepted(s, w) <= Accepted(s', w)
      && (if w in s.workers then |s.workers[w].host.queue| else 0) + (Accepted(s', w) - Accepted(s, w)) >= 32
  {
    InvInitial();
    RestOfRun(INITIAL, steps, n);
    ReachableInv(steps);
    var s, s' := StateAfter(INITIAL, steps, n), Final(INITIAL, steps);
    QueueSince(s, steps[n..], w);
    hide IsRun, Final, StateAfter, LockInv, KnownInv, CountInv, EndpointInv, OnceInv, Apply;
    assert ThreadInv(s'.workers[w]);
  }

  // ----- the scan -----

  /** What worker_locate reads of a slot. */
  function LoadIn(s: State, slot: Option<WorkerId>): Option<nat> {
    if slot.Some? && slot.value in s.workers then
      var host := s.workers[slot.value].host;
      LoadOf(host.state, |host.queue|)
    else None
  }

  predicate IsLive(s: State, slot: Option<WorkerId>) {
    && slot.Some? && slot.value in s.workers
    && (s.workers[slot.value].host.state == Idle || s.workers[slot.value].host.state == Running)
  }

  /** The scan takes no worker's mutex: slot j is read after at[j] steps of the run, while the other
      threads go on. */
  predicate IsScan(steps: seq<Step>, slots: seq<Option<WorkerId>>, at: seq<nat>) {
    IsRun(INITIAL, steps) && |at| == |slots| && forall j | 0 <= j < |at| :: at[j] <= |steps|
  }

  function LoadsRead(steps: seq<Step>, slots: seq<Option<WorkerId>>, at: seq<nat>): (loads: seq<Option<nat>>)
    requires IsScan(steps, slots, at)
    ensures |loads| == |slots|
    ensures forall j | 0 <= j < |slots| :: loads[j] == LoadIn(StateAfter(INITIAL, steps, at[j]), slots[j])
  {
    seq(|slots|, j requires 0 <= j < |slots| => LoadIn(StateAfter(INITIAL, steps, at[j]), slots[j]))
  }

  /** In every run, however the scan interleaves with it: if the worker picked refuses the request,
      every live worker had, when it was read, at least requestalloc (32) requests less those queued on
      the worker picked since it was read itself. If these are fewer than requestalloc, no further
      worker was allowed either. */
  lemma {:induction false} RefusedOnlyUnderLoad(steps: seq<Step>, slots: seq<Option<WorkerId>>, at: seq<nat>, c: nat,
                                               active: nat, maxchildren: nat, l: ListenerId)
    requires IsScan(steps, slots, at)
    requires IsLeastLoaded(LoadsRead(steps, slots, at), c)
    requires !CreatesWorker(LoadsRead(steps, slots, at), active, maxchildren)
    requires slots[c].Some? && Refuses(Final(INITIAL, steps), l, slots[c].value)
    ensures var w := slots[c].value;
      var before, after := Accepted(StateAfter(INITIAL, steps, at[c]), w), Accepted(Final(INITIAL, steps), w);
      && before <= after
      && (forall j | 0 <= j < |slots| ::
            IsLive(StateAfter(INITIAL, steps, at[j]), slots[j]) ==>
            |StateAfter(INITIAL, steps, at[j]).workers[slots[j].value].host.queue| + (after - before) >= 32)
      && (after - before < 32 ==> active >= maxchildren)
  {
    hide IsRun, Final, StateAfter, Refuses, Accepted;
    FullSince(steps, at[c], l, slots[c].value);
  }

  /** In particular, if nothing was queued on it in between, every live worker's queue was full when
      it was read, and the host had as many workers as it may have. */
  lemma {:induction false} RefusedOnlyIfAllFull(steps: seq<Step>, slots: seq<Option<WorkerId>>, at: seq<nat>, c: nat,
                                               active: nat, maxchildren: nat, l: ListenerId, j: nat)
    requires IsScan(steps, slots, at)
    requires IsLeastLoaded(LoadsRead(steps, slots, at), c)
    requires !CreatesWorker(LoadsRead(steps, slots, at), active, maxchildren)
    requires slots[c].Some? && Refuses(Final(INITIAL, steps), l, slots[c].value)
    requires var w := slots[c].value;
      Accepted(StateAfter(INITIAL, steps, at[c]), w) == Accepted(Final(INITIAL, steps), w)
    ensures var w := slots[c].value; IsLive(StateAfter(INITIAL, steps, at[c]), Some(w)) && active >= maxchildren
    ensures j < |slots| && IsLive(StateAfter(INITIAL, steps, at[j]), slots[j]) ==>
      |StateAfter(INITIAL, steps, at[j]).workers[slots[j].value].host.queue| == 32
  {
    RefusedOnlyUnderLoad(steps, slots, at, c, active, maxchildren, l);
    if j < |slots| && IsLive(StateAfter(INITIAL, steps, at[j]), slots[j]) {
      InvInitial();
      RestOfRun(INITIAL, steps, at[j]);
      var s := StateAfter(INITIAL, steps, at[j]);
      hide IsRun, Final, StateAfter, LockInv, KnownInv, CountInv, EndpointInv, OnceInv, Apply, Enabled;
      assert ThreadInv(s.workers[slots[j].value]);
    }
  }

  /** A worker created for the request refuses it only after requestalloc others were queued on it. */
  lemma {:induction false} NewWorkerRefuses(steps: seq<Step>, i: nat, w: WorkerId, l: ListenerId)
    requires IsRun(INITIAL, steps) && i < |steps| && steps[i] == CreateWorker(w)
    requires Refuses(Final(INITIAL, steps), l, w)
    ensures Accepted(StateAfter(INITIAL, steps, i), w) == 0 && Accepted(Final(INITIAL, steps), w) >= 32
  {
    InvInitial();
    RestOfRun(INITIAL, steps, i);
    assert steps[i..][0] == steps[i];
    assert Enabled(StateAfter(INITIAL, steps, i), steps[i]);
    hide IsRun, Final, StateAfter, Inv, Apply, Refuses;
    FullSince(steps, i, l, w);
  }
}
