/** The host side of worker.c and host.c: which worker a request goes to, and how many workers a
    host starts. */
module Dispatch {
  import opened Wrappers
  import opened Slots
  import opened PtrLists
  import opened Workers
  import opened WorkerHosts

  // ----- choosing a worker -----

  ghost function Load(w: WorkerHost): Option<nat>
    reads w
  {
    LoadOf(w.state, w.requestcount)
  }

  ghost function Loads(s: seq<Option<WorkerHost>>): (r: seq<Option<nat>>)
    reads set i | 0 <= i < |s| && s[i].Some? :: s[i].value
    ensures |r| == |s|
  {
    seq(|s|, i requires 0 <= i < |s| reads (if 0 <= i < |s| && s[i].Some? then {s[i].value} else {}) =>
      if s[i].Some? then Load(s[i].value) else None)
  }

  ghost predicate NoneLive(loads: seq<Option<nat>>) {
    forall j | 0 <= j < |loads| :: loads[j].None?
  }

  ghost predicate AllLoaded(loads: seq<Option<nat>>) {
    forall j | 0 <= j < |loads| && loads[j].Some? :: loads[j].value > 0
  }

  /** c is the first slot among those with the least load. */
  ghost predicate IsLeastLoaded(loads: seq<Option<nat>>, c: nat) {
    && c < |loads| && loads[c].Some?
    && (forall j | 0 <= j < |loads| && loads[j].Some? :: loads[c].value <= loads[j].value)
    && (forall j | 0 <= j < c && loads[j].Some? :: loads[c].value < loads[j].value)
  }

  /** One slot more. */
  lemma ScanStep(loads: seq<Option<nat>>, c: nat, best: nat)
    requires c < |loads|
    ensures NoneLive(loads[..c]) ==>
      if loads[c].None? then NoneLive(loads[..c + 1]) else IsLeastLoaded(loads[..c + 1], c)
    ensures IsLeastLoaded(loads[..c], best) ==>
      loads[best].Some? &&
      if loads[c].Some? && loads[c].value < loads[best].value then IsLeastLoaded(loads[..c + 1], c)
      else IsLeastLoaded(loads[..c + 1], best)
  {
    assert loads[..c + 1] == loads[..c] + [loads[c]];
  }

  /** worker_locate goes on to create a worker. */
  ghost predicate CreatesWorker(loads: seq<Option<nat>>, active: nat, maxchildren: nat) {
    NoneLive(loads) || (AllLoaded(loads) && active < maxchildren)
  }

  /** The same told by the workers themselves. */
  lemma LoadsByWorkers(slots: seq<Option<WorkerHost>>, active: nat, maxchildren: nat)
    ensures CreatesWorker(Loads(slots), active, maxchildren) <==>
      || (forall j | 0 <= j < |slots| && slots[j].Some? ::
            slots[j].value.state != Idle && slots[j].value.state != Running)
      || (active < maxchildren
          && forall j | 0 <= j < |slots| && slots[j].Some? ::
               (slots[j].value.state == Idle || slots[j].value.state == Running) ==> slots[j].value.requestcount > 0)
    ensures forall c: nat | IsLeastLoaded(Loads(slots), c) ::
      && slots[c].Some? && (slots[c].value.state == Idle || slots[c].value.state == Running)
      && forall j | 0 <= j < |slots| && slots[j].Some? ::
           (slots[j].value.state == Idle || slots[j].value.state == Running) ==>
             && slots[c].value.requestcount <= slots[j].value.requestcount
             && (j < c ==> slots[c].value.requestcount < slots[j].value.requestcount)
  {
    var loads := Loads(slots);
    forall j | 0 <= j < |slots|
      ensures loads[j] ==
        if slots[j].Some? && (slots[j].value.state == Idle || slots[j].value.state == Running)
        then Some(slots[j].value.requestcount) else None
    {
    }
  }

  // ----- counting workers -----

  /** How many of the first n creations succeed. */
  function Successes(ok: nat -> bool, n: nat): (r: nat)
    ensures r <= n
  {
    if n == 0 then 0 else Successes(ok, n - 1) + (if ok(n - 1) then 1 else 0)
  }

  lemma {:induction false} AllSucceed(ok: nat -> bool, n: nat)
    ensures Successes(ok, n) == n <==> forall i | 0 <= i < n :: ok(i)
  {
    if n > 0 {
      AllSucceed(ok, n - 1);
    }
  }

  /** The request if it fits, else the most there may be; 0 stands for no limit. */
  function Clamped(requested: nat, maxchildren: nat): (m: nat)
    ensures maxchildren == 0 || m <= maxchildren
    ensures maxchildren == 0 || requested <= maxchildren ==> m == requested
    ensures maxchildren != 0 && requested > maxchildren ==> m == maxchildren
  {
    if maxchildren != 0 && requested > maxchildren then maxchildren else requested
  }

  /** What SetMinWorkers leaves as the number of active workers. */
  function ActiveAfter(minchildren: nat, maxchildren: nat, active: nat, requested: nat, ok: nat -> bool): nat {
    var m := Clamped(requested, maxchildren);
    if m > minchildren && m > active then active + Successes(ok, m - active) else active
  }

  /** The count never falls and never passes the larger of the clamped request and what was there;
      when the clamped request exceeds both minchildren and the count, it is reached exactly if
      every creation that is needed succeeds. */
  lemma {:induction false} MinWorkersReached(minchildren: nat, maxchildren: nat, active: nat, requested: nat,
                                             ok: nat -> bool)
    ensures var m := Clamped(requested, maxchildren);
      var after := ActiveAfter(minchildren, maxchildren, active, requested, ok);
      && active <= after
      && (after > active ==> after <= m <= requested && (maxchildren != 0 ==> after <= maxchildren))
      && (m > minchildren && m > active ==> (after == m <==> forall i | 0 <= i < m - active :: ok(i)))
  {
    var m := Clamped(requested, maxchildren);
    if m > minchildren && m > active {
      AllSucceed(ok, m - active);
    }
  }

  class Host {
    var minchildren: nat
    var maxchildren: nat
    var active: nat
    const workers: PtrList<WorkerHost>

    /** `active` is the number of workers in the list; nothing is ever removed from it. */
    ghost predicate Valid()
      reads this, workers, workers.list
    {
      workers.Valid() && workers.blocksize > 0 && active == workers.count && Packed(workers.list[..])
    }

    ghost function Slots(): seq<Option<WorkerHost>>
      reads this, workers, workers.list
    {
      workers.list[..]
    }

    /** The defaults host_add_container supplies. */
    constructor ()
      ensures Valid() && fresh(workers) && fresh(workers.list)
      ensures minchildren == 0 && maxchildren == 128 && active == 0 && workers.blocksize == 16
    {
      minchildren, maxchildren, active := 0, 128, 0;
      workers := new PtrList(16);
    }

    /** The loop of worker_locate over the allocated slots. */
    method ScanWorkers() returns (p: WorkerHost?)
      requires Valid()
      ensures p == null <==> CreatesWorker(Loads(Slots()), active, maxchildren)
      ensures p != null ==> exists c: nat :: IsLeastLoaded(Loads(Slots()), c) && Slots()[c] == Some(p)
    {
      hide Items, NoneLive, IsLeastLoaded;
      p := null;
      ghost var loads := Loads(Slots());
      if active == 0 {
        NobodyLive();
        return;
      }
      NobodyYet(loads);
      var nreqs, c := 0, 0;
      ghost var best: nat := 0;
      while c < workers.alloc
        invariant 0 <= c <= workers.alloc
        invariant p == null ==> NoneLive(loads[..c])
        invariant p != null ==> best < c && IsLeastLoaded(loads[..c], best) && loads[best] == Some(nreqs)
        invariant p != null ==> Slots()[best] == Some(p)
      {
        ScanStep(loads, c, best);
        if workers.list[c].Some? {
          var w := workers.list[c].value;
          assert loads[c] == Load(w);
          if w.state.Idle? || w.state.Running? {
            if p == null || w.requestcount < nreqs {
              nreqs, p, best := w.requestcount, w, c;
            }
          }
        }
        c := c + 1;
      }
      assert loads[..c] == loads;
      LeastIsLive(loads, best);
      if p != null && nreqs != 0 && active < maxchildren {
        p := null;
      }
    }

    static lemma NobodyYet(loads: seq<Option<nat>>)
      ensures NoneLive(loads[..0])
    {
    }

    static lemma LeastIsLive(loads: seq<Option<nat>>, best: nat)
      ensures IsLeastLoaded(loads, best) ==>
        best < |loads| && loads[best].Some? && !NoneLive(loads) && (AllLoaded(loads) <==> loads[best].value > 0)
    {
    }

    /** worker_locate up to the creation: the first of the IDLE and RUNNING workers with the fewest
        requests. Null means that worker_locate goes on to create a worker: there is none, or all have
        requests and more workers are allowed. */
    method FindWorker() returns (p: WorkerHost?)
      requires Valid()
      ensures p == null <==>
        var s := Slots();
        || (forall j | 0 <= j < |s| && s[j].Some? :: s[j].value.state != Idle && s[j].value.state != Running)
        || (active < maxchildren
            && forall j | 0 <= j < |s| && s[j].Some? ::
                 (s[j].value.state == Idle || s[j].value.state == Running) ==> s[j].value.requestcount > 0)
      ensures p != null ==>
        var s := Slots();
        && (p.state == Idle || p.state == Running)
        && exists c | 0 <= c < |s| ::
          && s[c] == Some(p)
          && forall j | 0 <= j < |s| && s[j].Some? ::
               (s[j].value.state == Idle || s[j].value.state == Running) ==>
                 p.requestcount <= s[j].value.requestcount && (j < c ==> p.requestcount < s[j].value.requestcount)
    {
      p := ScanWorkers();
      LoadsByWorkers(Slots(), active, maxchildren);
      hide CreatesWorker, IsLeastLoaded, Loads, Items, Packed;
    }

    lemma NobodyLive()
      requires Valid() && active == 0
      ensures NoneLive(Loads(Slots()))
    {
      PackedItems(workers.list[..]);
    }

    /** The part of worker_create behind the creation: the worker joins the list. */
    method Join(w: WorkerHost)
      requires Valid()
      modifies this`active, workers, workers.list
      ensures Valid() && workers.blocksize == old(workers.blocksize)
      ensures workers.list == old(workers.list) || fresh(workers.list)
      ensures active == old(active) + 1 && Slots() == Added(old(Slots()), workers.blocksize, w)
    {
      hide Items, FirstEmpty, Added, Packed;
      AddedPacked(workers.list[..], workers.blocksize, w);
      AddedItems(workers.list[..], workers.blocksize, w);
      var _ := workers.AddUnlocked(w);
      active := active + 1;
    }

    /** worker_create; `ok` says whether the container supplies a worker. */
    method Create(ok: bool) returns (p: WorkerHost?)
      requires Valid()
      modifies this`active, workers, workers.list
      ensures Valid() && workers.blocksize == old(workers.blocksize)
      ensures workers.list == old(workers.list) || fresh(workers.list)
      ensures p != null <==> ok
      ensures p != null ==> fresh(p) && p.Valid() && p.Abs() == NewWorker()
      ensures active == old(active) + (if ok then 1 else 0)
      ensures p == null ==> Slots() == old(Slots())
      ensures p != null ==> var w: WorkerHost := p; Slots() == Added(old(Slots()), workers.blocksize, w)
    {
      hide Items, FirstEmpty, Added, Packed;
      p := null;
      if !ok {
        return;
      }
      var w := new WorkerHost();
      Join(w);
      p := w;
    }

    /** worker_locate. */
    method Locate(ok: bool) returns (p: WorkerHost?)
      requires Valid()
      modifies this`active, workers, workers.list
      ensures Valid() && (workers.list == old(workers.list) || fresh(workers.list))
      ensures
        var s := old(Slots());
        var none := old(
          || (forall j | 0 <= j < |s| && s[j].Some? :: s[j].value.state != Idle && s[j].value.state != Running)
          || (active < maxchildren
              && forall j | 0 <= j < |s| && s[j].Some? ::
                   (s[j].value.state == Idle || s[j].value.state == Running) ==> s[j].value.requestcount > 0));
        if none then
          && active == old(active) + (if ok then 1 else 0)
          && (if ok then p != null && fresh(p) && p.Abs() == NewWorker() else p == null)
        else
          && active == old(active) && Slots() == s && p != null && !fresh(p)
          && (p.state == Idle || p.state == Running)
          && exists c | 0 <= c < |s| ::
            && s[c] == Some(p)
            && forall j | 0 <= j < |s| && s[j].Some? ::
                 (s[j].value.state == Idle || s[j].value.state == Running) ==>
                   p.requestcount <= s[j].value.requestcount && (j < c ==> p.requestcount < s[j].value.requestcount)
    {
      p := FindWorker();
      if p == null {
        p := Create(ok);
      }
    }

    /** host_set_minworkers; `ok(i)` says whether the i-th creation succeeds. */
    method SetMinWorkers(requested: nat, ok: nat -> bool)
      requires Valid()
      modifies this`minchildren, this`active, workers, workers.list
      ensures Valid() && (workers.list == old(workers.list) || fresh(workers.list))
      ensures active == ActiveAfter(old(minchildren), maxchildren, old(active), requested, ok)
      ensures active == old(active) || maxchildren == 0 || active <= maxchildren
      ensures var m := Clamped(requested, maxchildren);
        minchildren ==
          if m < old(minchildren) || (m > old(minchildren) && m > old(active)) then m else old(minchildren)
    {
      hide Items, FirstEmpty;
      var m := if maxchildren != 0 && requested > maxchildren then maxchildren else requested;
      if m < minchildren {
        minchildren := m;
        return;
      }
      if m > minchildren {
        if m > active {
          var c := m - active;
          var n := c;
          minchildren := m;
          while c != 0
            modifies this`active, workers, workers.list
            invariant Valid() && 0 <= c <= n
            invariant workers.list == old(workers.list) || fresh(workers.list)
            invariant active == old(active) + Successes(ok, n - c)
            decreases c
          {
            var _ := Create(ok(n - c));
            c := c - 1;
          }
        }
      }
    }
  }
}
