/**
 The pool of worker threads (asyncreq.c): requests are handed to idle workers or to new ones, and
 each completed request posts its `done` event.

 A method is what one thread does while it holds `wtlock`, or without need of it; a run is any
 interleaving of such steps.
 */
module WorkerPool {
  import opened Wrappers

  /** What `wt->req` points to: a request, by its number, or the shutdown request. */
  datatype Job = Request(n: nat) | Shutdown

  /**
   A worker thread: it works on a request, waits on its condition variable, which may have been
   signalled since the wait began, has posted its exit event, or has been joined.
   */
  datatype Worker = Working(n: nat) | Waiting(req: Option<Job>, signalled: bool) | Exiting | Joined

  const MAX_WORKER_THREADS := 32

  /** Whether a worker has request `n`, and whether it counts as running. */
  ghost function Holds(w: Worker, n: nat): nat {
    if w == Working(n) || (w.Waiting? && w.req == Some(Request(n))) then 1 else 0
  }

  ghost function Alive(w: Worker): nat {
    if w.Joined? then 0 else 1
  }

  ghost function Holders(ws: seq<Worker>, n: nat): nat {
    if ws == [] then 0 else Holds(ws[0], n) + Holders(ws[1..], n)
  }

  ghost function Living(ws: seq<Worker>): nat {
    if ws == [] then 0 else Alive(ws[0]) + Living(ws[1..])
  }

  lemma {:induction false} Changed(ws: seq<Worker>, i: nat, w: Worker, n: nat)
    requires i < |ws|
    ensures Holders(ws[i := w], n) + Holds(ws[i], n) == Holders(ws, n) + Holds(w, n)
    ensures Living(ws[i := w]) + Alive(ws[i]) == Living(ws) + Alive(w)
  {
    if i == 0 {
      assert ws[i := w][1..] == ws[1..];
    } else {
      Changed(ws[1..], i - 1, w, n);
      assert ws[i := w][1..] == ws[1..][i - 1 := w];
    }
  }

  lemma {:induction false} Added(ws: seq<Worker>, w: Worker, n: nat)
    ensures Holders(ws + [w], n) == Holders(ws, n) + Holds(w, n)
    ensures Living(ws + [w]) == Living(ws) + Alive(w)
  {
    if ws == [] {
      assert (ws + [w])[1..] == [];
    } else {
      Added(ws[1..], w, n);
      assert (ws + [w])[1..] == ws[1..] + [w];
    }
  }

  lemma {:induction false} HoldsAt(ws: seq<Worker>, i: nat, n: nat)
    requires i < |ws|
    ensures Holders(ws, n) >= Holds(ws[i], n)
  {
    if i > 0 {
      HoldsAt(ws[1..], i - 1, n);
    }
  }

  ghost function Times(q: seq<nat>, n: nat): nat {
    multiset(q)[n]
  }

  lemma TimesSnoc(q: seq<nat>, x: nat, n: nat)
    ensures Times(q + [x], n) == Times(q, n) + if n == x then 1 else 0
  {
  }

  lemma TimesRemove(q: seq<nat>, k: nat, n: nat)
    requires k < |q|
    ensures Times(q, n) == Times(q[..k] + q[k + 1..], n) + if n == q[k] then 1 else 0
  {
    assert q == q[..k] + [q[k]] + q[k + 1..];
  }

  class Pool {
    var workers: seq<Worker>
    // The idle workers, in the order of `wtlist`.
    var wtlist: seq<nat>
    var wtlistSize: nat
    var wtrunningCount: nat
    // A shutdown is pending.
    var pending: bool
    // Requests from other threads whose worker an event will create.
    var deferred: seq<nat>
    var posted: nat
    // The `done` events posted so far.
    ghost var done: seq<nat>

    /** The idle list holds each idle worker once, and no other. */
    ghost predicate IdleList()
      reads `workers, `wtlist, `wtlistSize
    {
      && wtlistSize == |wtlist| <= MAX_WORKER_THREADS
      && (forall k :: 0 <= k < |wtlist| ==> wtlist[k] < |workers| && workers[wtlist[k]] == Waiting(None, false))
      && (forall j, k :: 0 <= j < k < |wtlist| ==> wtlist[j] != wtlist[k])
      && (forall i :: 0 <= i < |workers| && workers[i].Waiting? && workers[i].req.None? ==> i in wtlist)
    }

    /** A worker that was given something to do has been signalled. */
    ghost predicate NoLostWakeUp()
      reads `workers
    {
      forall i :: 0 <= i < |workers| && workers[i].Waiting? ==> workers[i].signalled == workers[i].req.Some?
    }

    /** Each posted request is with one worker, deferred or done: once. */
    ghost predicate Ledger()
      reads `workers, `deferred, `done, `posted
    {
      forall n: nat ::
        Holders(workers, n) + Times(deferred, n) + Times(done, n) == if n < posted then 1 else 0
    }

    ghost predicate Valid()
      reads this
    {
      IdleList() && NoLostWakeUp() && Ledger() && wtrunningCount == Living(workers)
    }

    constructor ()
      ensures Valid() && posted == 0 && workers == [] && done == [] && deferred == [] && !pending
    {
      workers, wtlist, wtlistSize, wtrunningCount, pending, deferred, posted, done := [], [], 0, 0, false, [], 0, [];
    }

    /** `async_req_post`, on the dispatch thread or another one. */
    method Post(onDispatchThread: bool) returns (n: nat)
      requires Valid()
      modifies `workers, `wtlist, `wtlistSize, `wtrunningCount, `deferred, `posted
      ensures Valid() && n == old(posted) && posted == n + 1
      ensures old(wtlist) == [] && onDispatchThread ==>
        workers == old(workers) + [Working(n)] && deferred == old(deferred)
      ensures old(wtlist) == [] && !onDispatchThread ==> deferred == old(deferred) + [n] && workers == old(workers)
      ensures old(wtlist) != [] ==>
        && workers == old(workers)[old(wtlist)[0] := Waiting(Some(Request(n)), true)]
        && wtlist == old(wtlist)[1..] && deferred == old(deferred)
    {
      n := posted;
      if |wtlist| == 0 {
        assert wtlistSize == 0;
        if onDispatchThread {
          AddPosted();
        } else {
          Defer();
        }
      } else {
        HandOver();
      }
    }

    method AddPosted()
      requires Valid()
      modifies `workers, `wtrunningCount, `posted
      ensures Valid() && posted == old(posted) + 1 && workers == old(workers) + [Working(old(posted))]
    {
      hide Holders, Living, Times;
      WorkerAdded(Working(posted));
      Added(workers, Working(posted), 0);
      workers := workers + [Working(posted)];
      wtrunningCount := wtrunningCount + 1;
      posted := posted + 1;
    }

    lemma WorkerAdded(w: Worker)
      ensures forall n: nat :: Holders(workers + [w], n) == Holders(workers, n) + Holds(w, n)
    {
      forall n: nat
        ensures Holders(workers + [w], n) == Holders(workers, n) + Holds(w, n)
      {
        Added(workers, w, n);
      }
    }

    lemma WorkerChanged(i: nat, w: Worker)
      requires i < |workers|
      ensures forall n: nat :: Holders(workers[i := w], n) + Holds(workers[i], n) == Holders(workers, n) + Holds(w, n)
      ensures Living(workers[i := w]) + Alive(workers[i]) == Living(workers) + Alive(w)
    {
      Changed(workers, i, w, 0);
      forall n: nat
        ensures Holders(workers[i := w], n) + Holds(workers[i], n) == Holders(workers, n) + Holds(w, n)
      {
        Changed(workers, i, w, n);
      }
    }

    method Defer()
      requires Valid()
      modifies `deferred, `posted
      ensures Valid() && posted == old(posted) + 1 && deferred == old(deferred) + [old(posted)]
    {
      hide Holders, Living, Times, IdleList, NoLostWakeUp;
      forall n: nat
        ensures Times(deferred + [posted], n) == Times(deferred, n) + if n == posted then 1 else 0
      {
        TimesSnoc(deferred, posted, n);
      }
      deferred := deferred + [posted];
      posted := posted + 1;
    }

    /** The first idle worker is taken off the list, given the request and signalled. */
    method HandOver()
      requires Valid() && wtlist != []
      modifies `workers, `wtlist, `wtlistSize, `posted
      ensures Valid() && posted == old(posted) + 1 && wtlist == old(wtlist)[1..]
      ensures workers == old(workers)[old(wtlist)[0] := Waiting(Some(Request(old(posted))), true)]
    {
      hide Holders, Living, Times;
      var wt := wtlist[0];
      WorkerChanged(wt, Waiting(Some(Request(posted)), true));
      wtlist := wtlist[1..];
      wtlistSize := wtlistSize - 1;
      assert workers[wt].req.None?;
      workers := workers[wt := Waiting(Some(Request(posted)), true)];
      posted := posted + 1;
      assert old(wtlist) == [wt] + wtlist;
    }

    /** `worker_thread_add_deferred`. */
    method AddDeferred(k: nat)
      requires Valid() && k < |deferred|
      modifies `workers, `wtrunningCount, `deferred
      ensures Valid() && workers == old(workers) + [Working(old(deferred)[k])]
      ensures deferred == old(deferred)[..k] + old(deferred)[k + 1..]
    {
      hide Holders, Living, Times;
      var n := deferred[k];
      WorkerAdded(Working(n));
      Added(workers, Working(n), 0);
      forall m: nat
        ensures Times(deferred, m) == Times(deferred[..k] + deferred[k + 1..], m) + if m == n then 1 else 0
      {
        TimesRemove(deferred, k, m);
      }
      workers := workers + [Working(n)];
      wtrunningCount := wtrunningCount + 1;
      deferred := deferred[..k] + deferred[k + 1..];
    }

    /**
     A worker has completed its request: the `done` event is posted, and the worker waits for the
     next one unless there are idle workers enough or a shutdown is pending.
     */
    method Complete(wt: nat)
      requires Valid() && wt < |workers| && workers[wt].Working?
      modifies `workers, `wtlist, `wtlistSize, `done
      ensures Valid() && done == old(done) + [old(workers)[wt].n]
      ensures
        if |old(wtlist)| >= 32 || pending then
          workers == old(workers)[wt := Exiting] && wtlist == old(wtlist)
        else
          workers == old(workers)[wt := Waiting(None, false)] && wtlist == old(wtlist) + [wt]
    {
      hide Holders, Living, Times;
      var n := workers[wt].n;
      forall m: nat
        ensures Times(done + [n], m) == Times(done, m) + if m == n then 1 else 0
      {
        TimesSnoc(done, n, m);
      }
      WorkerChanged(wt, Exiting);
      WorkerChanged(wt, Waiting(None, false));
      done := done + [n];
      if wtlistSize >= MAX_WORKER_THREADS || pending {
        workers := workers[wt := Exiting];
      } else {
        workers := workers[wt := Waiting(None, false)];
        wtlist := wtlist + [wt];
        wtlistSize := wtlistSize + 1;
      }
    }

    /** A wait returns, signalled or not; the worker goes on only if it has something to do. */
    method WakeUp(wt: nat)
      requires Valid() && wt < |workers| && workers[wt].Waiting?
      modifies `workers
      ensures Valid()
      ensures
        workers == match old(workers)[wt].req
                   case None => old(workers)
                   case Some(Request(n)) => old(workers)[wt := Working(n)]
                   case Some(Shutdown) => old(workers)[wt := Exiting]
    {
      hide Holders, Living, Times;
      match workers[wt].req
      case None =>
      case Some(Request(n)) =>
        WorkerChanged(wt, Working(n));
        workers := workers[wt := Working(n)];
      case Some(Shutdown) =>
        WorkerChanged(wt, Exiting);
        workers := workers[wt := Exiting];
    }

    /** `trigger_async_shutdown`: all idle workers are told to exit. */
    method TriggerShutdown()
      requires Valid()
      modifies `workers, `wtlist, `wtlistSize
      ensures Valid() && wtlist == []
      ensures |workers| == |old(workers)|
      ensures forall i :: 0 <= i < |workers| ==>
                workers[i] == if i in old(wtlist) then Waiting(Some(Shutdown), true) else old(workers)[i]
    {
      hide Holders, Living, Times, Ledger, NoLostWakeUp;
      while |wtlist| > 0
        invariant Valid() && |workers| == |old(workers)| && (forall i :: i in wtlist ==> i in old(wtlist))
        invariant forall i :: 0 <= i < |workers| ==>
                    workers[i] == if i in old(wtlist) && i !in wtlist then Waiting(Some(Shutdown), true)
                      else old(workers)[i]
        decreases |wtlist|
      {
        ShutDownFirst();
      }
    }

    method ShutDownFirst()
      requires Valid() && wtlist != []
      modifies `workers, `wtlist, `wtlistSize
      ensures Valid() && wtlist == old(wtlist)[1..]
      ensures old(wtlist)[0] !in wtlist
      ensures workers == old(workers)[old(wtlist)[0] := Waiting(Some(Shutdown), true)]
    {
      hide Holders, Living, Times;
      var wt := wtlist[0];
      WorkerChanged(wt, Waiting(Some(Shutdown), true));
      wtlist := wtlist[1..];
      wtlistSize := wtlistSize - 1;
      workers := workers[wt := Waiting(Some(Shutdown), true)];
      assert old(wtlist) == [wt] + wtlist;
    }

    /** The state of the shutdown changes. */
    method SetPending(p: bool)
      requires Valid()
      modifies `pending
      ensures Valid() && pending == p
    {
      pending := p;
    }

    /** `worker_thread_exit`: the event that an exiting worker has posted. */
    method WorkerExit(wt: nat) returns (stopped: bool)
      requires Valid() && wt < |workers| && workers[wt].Exiting?
      modifies `workers, `wtrunningCount
      ensures Valid() && workers == old(workers)[wt := Joined]
      ensures stopped <==> Living(workers) == 0
    {
      hide Holders, Times, Living;
      WorkerChanged(wt, Joined);
      LivingAt(workers, wt);
      workers := workers[wt := Joined];
      wtrunningCount := wtrunningCount - 1;
      stopped := wtrunningCount == 0;
    }

    static lemma {:induction false} LivingAt(ws: seq<Worker>, i: nat)
      requires i < |ws|
      ensures Living(ws) >= Alive(ws[i])
    {
      if i > 0 {
        LivingAt(ws[1..], i - 1);
      }
    }

    // ---------- Every run ----------

    /** No request is with two workers, and the `done` event of none is posted twice. */
    lemma OneWorkerOneEvent(i: nat, j: nat, n: nat)
      requires Valid() && i < |workers| && j < |workers| && Holds(workers[i], n) == 1
      ensures Times(done, n) == 0 && Times(deferred, n) == 0
      ensures Holds(workers[j], n) == 1 ==> i == j
    {
      hide Times, Holders;
      HoldsAt(workers, i, n);
      assert Holders(workers, n) + Times(deferred, n) + Times(done, n) <= 1;
      if i < j {
        TwoHolders(workers, i, j, n);
      } else if j < i {
        TwoHolders(workers, j, i, n);
      }
    }

    static lemma {:induction false} TwoHolders(ws: seq<Worker>, i: nat, j: nat, n: nat)
      requires i < j < |ws|
      ensures Holders(ws, n) >= Holds(ws[i], n) + Holds(ws[j], n)
    {
      if i == 0 {
        HoldsAt(ws[1..], j - 1, n);
      } else {
        TwoHolders(ws[1..], i - 1, j - 1, n);
      }
    }

    /** When every worker is idle or gone and nothing is deferred, each request is done, once. */
    lemma AllDone(n: nat)
      requires Valid() && n < posted && deferred == []
      requires forall i :: 0 <= i < |workers| ==> Holds(workers[i], n) == 0
      ensures Times(done, n) == 1
    {
      NoHolders(workers, n);
    }

    static lemma {:induction false} NoHolders(ws: seq<Worker>, n: nat)
      requires forall i :: 0 <= i < |ws| ==> Holds(ws[i], n) == 0
      ensures Holders(ws, n) == 0
    {
      if ws != [] {
        assert Holds(ws[0], n) == 0;
        assert forall i :: 0 <= i < |ws[1..]| ==> ws[1..][i] == ws[i + 1];
        NoHolders(ws[1..], n);
      }
    }
  }
}
