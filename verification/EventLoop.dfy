/**
 The event loop (events.c): one dispatch thread runs handlers; they and background threads post
 events, untimed ones first in, first out, timed ones in order of time.

 Every method is one step that the source makes under its lock, or on the dispatch thread alone;
 a run is any sequence of steps that their preconditions allow, so what `Valid` says holds in
 every reachable state, and what it says of the history holds of every run.
 */
module EventLoop {
  import opened Wrappers

  /** A `timespec`. */
  datatype Time = Time(sec: nat, nsec: nat)

  ghost predicate Normal(t: Time) {
    t.nsec < 1_000_000_000
  }

  /** The time in nanoseconds. */
  ghost function Ns(t: Time): nat {
    t.sec * 1_000_000_000 + t.nsec
  }

  /** `time_cmp`: the sign of the difference. */
  function TimeCmp(a: Time, b: Time): (c: int)
    requires Normal(a) && Normal(b)
    ensures c < 0 <==> Ns(a) < Ns(b)
    ensures c == 0 <==> a == b
    ensures c > 0 <==> Ns(a) > Ns(b)
  {
    if a.sec < b.sec then -1 else if a.sec > b.sec then 1
    else if a.nsec < b.nsec then -1 else if a.nsec > b.nsec then 1 else 0
  }

  /** `time_add_usec`. */
  method TimeAddUsec(t: Time, usec: nat) returns (r: Time)
    requires Normal(t)
    ensures Normal(r) && Ns(r) == Ns(t) + usec * 1000
  {
    var sec, nsec := t.sec + usec / 1_000_000, t.nsec + usec % 1_000_000 * 1000;
    if nsec >= 1_000_000_000 {
      sec := sec + 1;
      nsec := nsec - 1_000_000_000;
    }
    r := Time(sec, nsec);
  }

  /** A handler and its argument. */
  datatype Key = Key(handler: nat, arg: nat)

  /** When an event left the timer queue: how many posts there had been, and the clock. */
  datatype Poll = Poll(posted: nat, clock: Time)

  /**
   An event node in use.  An untimed event has no time.  `serial` counts posts and `polled` is
   set once; both are history and no decision reads them.
   */
  datatype Event = Event(node: nat, time: Option<Time>, key: Key, serial: nat, polled: Option<Poll>)

  // ---------- Order ----------

  /** `a` is due before `b`; ties go by the order of posting. */
  ghost predicate Earlier(a: Event, b: Event) {
    && a.time.Some? && b.time.Some?
    && (Ns(a.time.value) < Ns(b.time.value) || (Ns(a.time.value) == Ns(b.time.value) && a.serial < b.serial))
  }

  /** What justifies that `a` comes before `b`: it is earlier, or was polled before `b` was posted. */
  ghost predicate InOrder(a: Event, b: Event) {
    Earlier(a, b) || (a.polled.Some? && a.polled.value.posted <= b.serial)
  }

  ghost predicate Sound(e: Event, posted: nat) {
    && e.time.Some? && Normal(e.time.value) && e.serial < posted
    && (e.polled.Some? ==> e.polled.value.posted <= posted && Ns(e.time.value) <= Ns(e.polled.value.clock))
  }

  /** All timed events that have not been cancelled, dispatched or not, in the order of dispatch. */
  ghost predicate TimedOrder(d: seq<Event>, posted: nat) {
    && (forall i :: 0 <= i < |d| ==> Sound(d[i], posted))
    && (forall i, j :: 0 <= i < j < |d| ==> InOrder(d[i], d[j]))
  }

  /** All untimed events that have not been cancelled, in the order of dispatch: that of posting. */
  ghost predicate UntimedOrder(u: seq<Event>, posted: nat) {
    && (forall i :: 0 <= i < |u| ==> u[i].time.None? && u[i].serial < posted)
    && (forall i, j :: 0 <= i < j < |u| ==> u[i].serial < u[j].serial)
  }

  ghost predicate AllPolled(q: seq<Event>) {
    forall i :: 0 <= i < |q| ==> q[i].time.Some? && q[i].polled.Some?
  }

  ghost predicate AllWaiting(q: seq<Event>) {
    forall i :: 0 <= i < |q| ==> q[i].time.Some? && q[i].polled.None?
  }

  ghost predicate AllUntimedEvents(q: seq<Event>) {
    forall i :: 0 <= i < |q| ==> q[i].time.None?
  }

  lemma InsertWaiting(q: seq<Event>, p: nat, e: Event)
    requires AllWaiting(q) && p <= |q| && e.time.Some? && e.polled.None?
    ensures AllWaiting(q[..p] + [e] + q[p..])
  {
  }

  lemma InsertKeepsOrder(d: seq<Event>, p: nat, e: Event, posted: nat)
    requires TimedOrder(d, posted) && p <= |d|
    requires e.time.Some? && Normal(e.time.value) && e.serial == posted && e.polled.None?
    requires forall i :: 0 <= i < p ==> d[i].polled.Some? || Ns(d[i].time.value) <= Ns(e.time.value)
    requires forall i :: p <= i < |d| ==> Ns(e.time.value) < Ns(d[i].time.value)
    ensures TimedOrder(d[..p] + [e] + d[p..], posted + 1)
  {
    var s := d[..p] + [e] + d[p..];
    forall i, j | 0 <= i < j < |s|
      ensures InOrder(s[i], s[j])
    {
      if i == p {
        assert s[j] == d[j - 1];
      } else {
        var i' := if i < p then i else i - 1;
        assert s[i] == d[i'] && Sound(d[i'], posted);
        assert j != p ==> s[j] == d[if j < p then j else j - 1];
      }
    }
    forall i | 0 <= i < |s|
      ensures Sound(s[i], posted + 1)
    {
      assert i != p ==> Sound(d[if i < p then i else i - 1], posted);
    }
  }

  lemma RemoveKeepsOrder(d: seq<Event>, p: nat, posted: nat)
    requires TimedOrder(d, posted) && p < |d|
    ensures TimedOrder(Without(d, p), posted)
  {
    var s := Without(d, p);
    assert forall i :: 0 <= i < |s| ==> s[i] == d[if i < p then i else i + 1];
  }

  /** `q` with the poll recorded in each event. */
  function Stamped(q: seq<Event>, poll: Poll): (r: seq<Event>)
    ensures |r| == |q|
  {
    seq(|q|, i requires 0 <= i < |q| => q[i].(polled := Some(poll)))
  }

  lemma StampKeepsOrder(a: seq<Event>, b: seq<Event>, c: seq<Event>, posted: nat, clock: Time)
    requires TimedOrder(a + b + c, posted)
    requires forall i :: 0 <= i < |b| ==> b[i].polled.None? && b[i].time.Some? && Ns(b[i].time.value) <= Ns(clock)
    ensures TimedOrder(a + Stamped(b, Poll(posted, clock)) + c, posted)
  {
    var d := a + b + c;
    var s := a + Stamped(b, Poll(posted, clock)) + c;
    assert forall i :: 0 <= i < |s| ==> s[i].time == d[i].time && s[i].serial == d[i].serial;
    forall i, j | 0 <= i < j < |s|
      ensures InOrder(s[i], s[j])
    {
      assert InOrder(d[i], d[j]);
    }
    forall i | 0 <= i < |s|
      ensures Sound(s[i], posted)
    {
      assert Sound(d[i], posted);
      if |a| <= i < |a| + |b| {
        assert d[i] == b[i - |a|];
      }
    }
  }

  lemma MorePosts(d: seq<Event>, posted: nat)
    requires TimedOrder(d, posted)
    ensures TimedOrder(d, posted + 1)
  {
    assert forall i :: 0 <= i < |d| && Sound(d[i], posted) ==> Sound(d[i], posted + 1);
  }

  lemma AppendKeepsOrder(u: seq<Event>, e: Event, posted: nat)
    requires UntimedOrder(u, posted) && e.time.None? && e.serial == posted
    ensures UntimedOrder(u + [e], posted + 1)
  {
  }

  lemma RemoveKeepsUntimed(u: seq<Event>, p: nat, posted: nat)
    requires UntimedOrder(u, posted) && p < |u|
    ensures UntimedOrder(Without(u, p), posted)
  {
    var s := Without(u, p);
    assert forall i :: 0 <= i < |s| ==> s[i] == u[if i < p then i else i + 1];
  }

  /** `q` with its element `k` unlinked. */
  function Without(q: seq<Event>, k: nat): (r: seq<Event>)
    requires k < |q|
  {
    q[..k] + q[k + 1..]
  }

  /** The node that `event_last` is to point to. */
  ghost function LastNode(q: seq<Event>): Option<nat> {
    if q == [] then None else Some(q[|q| - 1].node)
  }

  lemma LastWithout(q: seq<Event>, k: nat)
    requires k < |q|
    ensures
      LastNode(Without(q, k)) ==
      if k + 1 < |q| then LastNode(q) else if k == 0 then None else Some(q[k - 1].node)
  {
  }

  // ---------- Conservation ----------

  ghost function Serials(q: seq<Event>): seq<nat> {
    seq(|q|, i requires 0 <= i < |q| => q[i].serial)
  }

  ghost function Nodes(q: seq<Event>): seq<nat> {
    seq(|q|, i requires 0 <= i < |q| => q[i].node)
  }

  ghost function Numbers(n: nat): seq<nat> {
    seq(n, i => i)
  }

  /** Every post so far is dispatched or queued, cancelled, or absorbed by a waiting cancel: once. */
  ghost predicate Ledger(d: seq<Event>, u: seq<Event>, cancelled: seq<Event>, absorbed: seq<nat>, posted: nat) {
    multiset(Serials(d)) + multiset(Serials(u)) + multiset(Serials(cancelled)) + multiset(absorbed)
    == multiset(Numbers(posted))
  }

  lemma NumbersSnoc(n: nat)
    ensures multiset(Numbers(n + 1)) == multiset(Numbers(n)) + multiset{n}
  {
    assert Numbers(n + 1) == Numbers(n) + [n];
  }

  lemma Insert(d: seq<Event>, p: nat, e: Event)
    requires p <= |d|
    ensures multiset(Serials(d[..p] + [e] + d[p..])) == multiset(Serials(d)) + multiset{e.serial}
    ensures multiset(Nodes(d[..p] + [e] + d[p..])) == multiset(Nodes(d)) + multiset{e.node}
  {
    assert Serials(d[..p] + [e] + d[p..]) == Serials(d)[..p] + [e.serial] + Serials(d)[p..];
    assert Serials(d) == Serials(d)[..p] + Serials(d)[p..];
    assert Nodes(d[..p] + [e] + d[p..]) == Nodes(d)[..p] + [e.node] + Nodes(d)[p..];
    assert Nodes(d) == Nodes(d)[..p] + Nodes(d)[p..];
  }

  lemma Remove(d: seq<Event>, p: nat)
    requires p < |d|
    ensures multiset(Serials(d)) == multiset(Serials(Without(d, p))) + multiset{d[p].serial}
    ensures multiset(Nodes(d)) == multiset(Nodes(Without(d, p))) + multiset{d[p].node}
  {
    var s := Without(d, p);
    Insert(s, p, d[p]);
    assert s[..p] + [d[p]] + s[p..] == d;
  }

  /**
   The history and the queues fit together: the events dispatched, `n` timed events at the front of
   the event queue `q`, the timers `tq`, and the posts that were called off.
   */
  ghost predicate Fits(doneTimed: seq<Event>, doneUntimed: seq<Event>, q: seq<Event>, n: nat, tq: seq<Event>,
      cancelled: seq<Event>, absorbed: seq<nat>, posted: nat)
  {
    && n <= |q|
    && AllPolled(doneTimed) && AllPolled(q[..n]) && AllUntimedEvents(q[n..]) && AllWaiting(tq)
    && TimedOrder(doneTimed + q[..n] + tq, posted)
    && UntimedOrder(doneUntimed + q[n..], posted)
    && Ledger(doneTimed + q[..n] + tq, doneUntimed + q[n..], cancelled, absorbed, posted)
  }

  /** Dispatching the first event of the queue moves it into the history and changes no order. */
  lemma FitsTaken(doneTimed: seq<Event>, doneUntimed: seq<Event>, q: seq<Event>, n: nat, tq: seq<Event>,
      cancelled: seq<Event>, absorbed: seq<nat>, posted: nat)
    requires Fits(doneTimed, doneUntimed, q, n, tq, cancelled, absorbed, posted) && q != []
    ensures q[0].time.Some? <==> n > 0
    ensures n > 0 ==> Fits(doneTimed + [q[0]], doneUntimed, q[1..], n - 1, tq, cancelled, absorbed, posted)
    ensures n == 0 ==> Fits(doneTimed, doneUntimed + [q[0]], q[1..], 0, tq, cancelled, absorbed, posted)
  {
    hide TimedOrder, UntimedOrder, Ledger, AllWaiting;
    assert q == [q[0]] + q[1..];
    if n > 0 {
      assert q[..n] == [q[0]] + q[1..][..n - 1] && q[n..] == q[1..][n - 1..];
      assert doneTimed + q[..n] + tq == doneTimed + [q[0]] + q[1..][..n - 1] + tq;
    } else {
      assert q[0..][0] == q[0] && q[1..][0..] == q[1..] && q[1..][..0] == [] == q[..0];
      assert doneUntimed + q[0..] == doneUntimed + [q[0]] + q[1..];
    }
  }

  // ---------- The loop ----------

  const EVENT_BUF_SIZE := 0x200

  /**
   Where the dispatch thread is: outside the loop, at the top of it, under the lock in the polling
   loop, waiting there for the condition variable, about to take an event, or in its handler.
   */
  datatype Phase =
    | Outside
    | Top
    | Polling
    | Waiting(deadline: Option<Time>, signalled: bool)
    | Ready
    | Running(ev: Event)

  ghost function Count(q: seq<nat>, n: nat): nat {
    multiset(q)[n]
  }

  ghost function One(x: Option<nat>, n: nat): nat {
    if x == Some(n) then 1 else 0
  }

  lemma NoneIn()
    ensures forall n: nat :: Count([], n) == 0
    ensures Serials([]) == [] && Nodes([]) == [] && Numbers(0) == []
  {
  }

  lemma CountHead(q: seq<nat>, n: nat)
    requires q != []
    ensures Count(q, n) == One(Some(q[0]), n) + Count(q[1..], n)
  {
    assert q == [q[0]] + q[1..];
  }

  lemma CountCons(x: nat, q: seq<nat>, n: nat)
    ensures Count([x] + q, n) == One(Some(x), n) + Count(q, n)
  {
  }

  ghost predicate AllStatic(q: seq<nat>) {
    forall i :: 0 <= i < |q| ==> q[i] < EVENT_BUF_SIZE
  }

  datatype CancelResult = Cancelled | NotFound | Waits

  class Events {
    // Free static nodes, for the dispatch thread and for background threads.
    var freeQueue: seq<nat>
    var freeBgQueue: seq<nat>
    var eventQueue: seq<Event>
    var eventLast: Option<nat>
    var timerQueue: seq<Event>
    var cancelKey: Option<Key>
    var eventCnt: nat
    var processEvents: bool
    var phase: Phase
    // The next node the allocator hands out; nodes below EVENT_BUF_SIZE are static.
    var heapTop: nat
    // The number of posts so far, which gives events their serial numbers.
    var posted: nat

    // How many of the events at the front of the event queue are timed.
    ghost var timed: nat
    // The history: dispatched timed and untimed events, and posts that were called off.
    ghost var doneTimed: seq<Event>
    ghost var doneUntimed: seq<Event>
    ghost var cancelled: seq<Event>
    ghost var absorbed: seq<nat>
    // The length of `doneUntimed` at the last poll.
    ghost var polledAt: nat

    /** Timed events at the front of the event queue, then untimed ones; unpolled ones wait for the clock. */
    ghost predicate Kinds()
      reads `eventQueue, `timerQueue, `timed, `doneTimed
    {
      && timed <= |eventQueue|
      && AllPolled(doneTimed) && AllPolled(eventQueue[..timed])
      && AllUntimedEvents(eventQueue[timed..]) && AllWaiting(timerQueue)
    }

    /** `eventCnt` counts the untimed events dispatched since the last poll: never more than 100. */
    ghost predicate Counts()
      reads `eventQueue, `eventLast, `timed, `eventCnt, `doneUntimed, `polledAt, `phase
    {
      && eventLast == LastNode(eventQueue)
      && eventCnt <= 100 && |doneUntimed| == polledAt + eventCnt
      && (eventCnt > 0 ==> timed == 0)
      && (phase.Polling? || phase.Waiting? ==> eventCnt == 0 && timed == 0)
      && (phase.Ready? ==> eventCnt < 100 && eventQueue != [])
    }

    ghost predicate Shape()
      reads `eventQueue, `eventLast, `timerQueue, `timed, `eventCnt, `doneTimed, `doneUntimed, `polledAt, `phase
    {
      Kinds() && Counts()
    }

    /** Timed and untimed events in the order of dispatch: the history, then what is queued. */
    ghost function AllTimed(): seq<Event>
      requires timed <= |eventQueue|
      reads `doneTimed, `eventQueue, `timed, `timerQueue
    {
      doneTimed + eventQueue[..timed] + timerQueue
    }

    ghost function AllUntimed(): seq<Event>
      requires timed <= |eventQueue|
      reads `doneUntimed, `eventQueue, `timed
    {
      doneUntimed + eventQueue[timed..]
    }

    ghost predicate History()
      reads `doneTimed, `doneUntimed, `eventQueue, `timed, `timerQueue, `posted, `cancelled, `absorbed
    {
      && timed <= |eventQueue|
      && TimedOrder(AllTimed(), posted)
      && UntimedOrder(AllUntimed(), posted)
      && Ledger(AllTimed(), AllUntimed(), cancelled, absorbed, posted)
    }

    /** How often a node occurs in the queues of events and as the running one, */
    ghost function InUse(n: nat): nat
      reads `eventQueue, `timerQueue, `phase
    {
      Count(Nodes(eventQueue), n) + Count(Nodes(timerQueue), n) +
      One(if phase.Running? then Some(phase.ev.node) else None, n)
    }

    /** and how often it occurs anywhere, a node that a step has in hand included. */
    ghost function Copies(n: nat, extra: Option<nat>): nat
      reads `freeQueue, `freeBgQueue, `eventQueue, `timerQueue, `phase
    {
      Count(freeQueue, n) + Count(freeBgQueue, n) + InUse(n) + One(extra, n)
    }

    /** Each static node is in exactly one place, each other node in one if it is allocated. */
    ghost predicate Pool(extra: Option<nat>)
      reads `freeQueue, `freeBgQueue, `eventQueue, `timerQueue, `phase, `heapTop
    {
      && EVENT_BUF_SIZE <= heapTop
      && AllStatic(freeQueue) && AllStatic(freeBgQueue)
      && (forall n: nat :: Copies(n, extra) <= 1)
      && (forall n: nat :: n < EVENT_BUF_SIZE ==> Copies(n, extra) == 1)
      && (forall n: nat :: n >= heapTop ==> Copies(n, extra) == 0)
    }

    /** No queued event has this key. */
    ghost predicate NoneQueued(key: Key)
      reads `eventQueue, `timerQueue
    {
      && (forall i :: 0 <= i < |eventQueue| ==> eventQueue[i].key != key)
      && (forall i :: 0 <= i < |timerQueue| ==> timerQueue[i].key != key)
    }

    /** The earliest time in the timer queue. */
    ghost function Earliest(): Option<Time>
      reads `timerQueue
    {
      if timerQueue == [] then None else timerQueue[0].time
    }

    /**
     While a cancel waits nothing that it is for is queued; while the loop waits it has been
     signalled or will wake up for the earliest timer.
     */
    ghost predicate Blocked()
      reads `cancelKey, `phase, `eventQueue, `timerQueue
    {
      && (cancelKey.Some? ==> (phase.Running? || phase.Outside?) && NoneQueued(cancelKey.value))
      && (phase.Waiting? ==> eventQueue == [] && (phase.signalled || phase.deadline == Earliest()))
    }

    ghost predicate Valid()
      reads this
    {
      Shape() && History() && Pool(None) && Blocked()
    }

    /** The dispatch thread runs a handler, or code outside the loop, and is not blocked. */
    predicate OnDispatchThread()
      reads `cancelKey, `phase
    {
      cancelKey.None? && (phase.Running? || phase.Outside?)
    }

    constructor ()
      ensures Valid() && OnDispatchThread() && posted == 0 && phase.Outside? && !processEvents
      ensures |freeQueue| == 0x200 && freeBgQueue == [] && eventQueue == [] && timerQueue == []
    {
      hide Pool, History;
      freeQueue := Descending(EVENT_BUF_SIZE);
      freeBgQueue, eventQueue, timerQueue, eventLast := [], [], [], None;
      cancelKey, eventCnt, processEvents, phase, heapTop := None, 0, false, Outside, EVENT_BUF_SIZE;
      timed, posted, polledAt := 0, 0, 0;
      doneTimed, doneUntimed, cancelled, absorbed := [], [], [], [];
      new;
      NothingPosted();
      AllFree(EVENT_BUF_SIZE);
    }

    lemma NothingPosted()
      requires timed == 0 && eventQueue == [] && timerQueue == [] && posted == 0
      requires doneTimed == [] && doneUntimed == [] && cancelled == [] && absorbed == []
      ensures History()
    {
      hide Serials, Numbers;
      NoneIn();
    }

    lemma AllFree(k: nat)
      requires k == EVENT_BUF_SIZE && freeQueue == Descending(k) && freeBgQueue == [] && heapTop == EVENT_BUF_SIZE
      requires eventQueue == [] && timerQueue == [] && phase.Outside?
      ensures Pool(None)
    {
      hide Count, Descending, Nodes;
      NoneIn();
      CountAll(k);
      assert forall n: nat :: Copies(n, None) == if n < k then 1 else 0;
    }

    static lemma CountAll(k: nat)
      ensures forall n: nat :: Count(Descending(k), n) == if n < k then 1 else 0
    {
      forall n: nat {
        CountDown(k, n);
      }
    }

    /** The free queue is set up with each static node once. */
    static lemma {:induction false} CountDown(k: nat, n: nat)
      ensures Count(Descending(k), n) == if n < k then 1 else 0
    {
      hide Count;
      NoneIn();
      if k > 0 {
        CountDown(k - 1, n);
        CountCons(k - 1, Descending(k - 1), n);
      }
    }

    /** k-1, ..., 0, the order in which the static nodes are chained. */
    static function Descending(k: nat): (q: seq<nat>)
      ensures |q| == k && forall i :: 0 <= i < k ==> q[i] < k
    {
      if k == 0 then [] else [k - 1] + Descending(k - 1)
    }

    // ---------- Nodes ----------

    /** `alloc_event_node`. */
    method AllocNode() returns (n: nat)
      requires Pool(None)
      modifies `freeQueue, `heapTop
      ensures Pool(Some(n))
      ensures if old(freeQueue) == [] then n == old(heapTop) && heapTop == n + 1 && freeQueue == []
              else [n] + freeQueue == old(freeQueue) && heapTop == old(heapTop)
    {
      hide InUse, Count;
      if |freeQueue| > 0 {
        n := freeQueue[0];
        forall m: nat {
          CountHead(freeQueue, m);
        }
        freeQueue := freeQueue[1..];
      } else {
        n := heapTop;
        heapTop := heapTop + 1;
      }
      assert forall m: nat :: Copies(m, Some(n)) == old(Copies(m, None)) + if m == old(heapTop) == n then 1 else 0;
    }

    /** `alloc_event_node_bg`. */
    method AllocNodeBg() returns (n: nat)
      requires Pool(None)
      modifies `freeBgQueue, `heapTop
      ensures Pool(Some(n))
      ensures if old(freeBgQueue) == [] then n == old(heapTop) && heapTop == n + 1 && freeBgQueue == []
              else [n] + freeBgQueue == old(freeBgQueue) && heapTop == old(heapTop)
    {
      hide InUse, Count;
      if |freeBgQueue| > 0 {
        n := freeBgQueue[0];
        forall m: nat {
          CountHead(freeBgQueue, m);
        }
        freeBgQueue := freeBgQueue[1..];
      } else {
        n := heapTop;
        heapTop := heapTop + 1;
      }
      assert forall m: nat :: Copies(m, Some(n)) == old(Copies(m, None)) + if m == old(heapTop) == n then 1 else 0;
    }

    /** `free_event_node`. */
    method FreeNode(n: nat)
      requires Pool(Some(n))
      modifies `freeQueue
      ensures Pool(None) && freeQueue == if n < EVENT_BUF_SIZE then [n] + old(freeQueue) else old(freeQueue)
    {
      hide InUse, Count;
      if n < EVENT_BUF_SIZE {
        forall m: nat {
          CountCons(n, freeQueue, m);
        }
        freeQueue := [n] + freeQueue;
      }
      assert forall m: nat :: Copies(m, None) == old(Copies(m, Some(n))) - if m == n >= EVENT_BUF_SIZE then 1 else 0;
    }

    // ---------- Posting ----------

    /** The search for the place of a timed event and its insertion, the same for both kinds of post. */
    method InsertTimer(ev: Event) returns (p: nat)
      requires Shape() && History() && Pool(Some(ev.node))
      requires ev.time.Some? && Normal(ev.time.value) && ev.serial == posted && ev.polled.None?
      modifies `timerQueue, `posted
      ensures Shape() && History() && Pool(None)
      ensures posted == old(posted) + 1
      ensures p <= |old(timerQueue)| && timerQueue == old(timerQueue)[..p] + [ev] + old(timerQueue)[p..]
    {
      hide TimedOrder, UntimedOrder, Ledger, Nodes, Ns, AllPolled, AllUntimedEvents, AllStatic, Counts;
      hide History, Shape, InUse, Count, Pool, Copies, One;
      p := FindPlace(ev.time.value);
      PutTimer(p, ev);
      NodesMoved(Some(ev.node), None);
    }

    /** A step moves nodes only between the queues of events, the handler and its own hand. */
    twostate predicate Moved(before: Option<nat>, after: Option<nat>)
      reads `eventQueue, `timerQueue, `phase
    {
      forall m: nat :: InUse(m) + One(after, m) == old(InUse(m)) + One(before, m)
    }

    twostate lemma NodesMoved(new before: Option<nat>, new after: Option<nat>)
      requires freeQueue == old(freeQueue) && freeBgQueue == old(freeBgQueue) && heapTop == old(heapTop)
      requires old(Pool(before)) && Moved(before, after)
      ensures Pool(after)
    {
      hide InUse, Count;
      assert forall m: nat :: Copies(m, after) == old(Copies(m, before));
    }

    method PutTimer(p: nat, ev: Event)
      requires Shape() && History() && p <= |timerQueue|
      requires ev.time.Some? && Normal(ev.time.value) && ev.serial == posted && ev.polled.None?
      requires forall i :: 0 <= i < p ==> Ns(timerQueue[i].time.value) <= Ns(ev.time.value)
      requires forall i :: p <= i < |timerQueue| ==> Ns(ev.time.value) < Ns(timerQueue[i].time.value)
      modifies `timerQueue, `posted
      ensures Shape() && History()
      ensures posted == old(posted) + 1
      ensures Moved(Some(ev.node), None)
      ensures timerQueue == old(timerQueue)[..p] + [ev] + old(timerQueue)[p..]
    {
      hide TimedOrder, UntimedOrder, Ledger, Ns, AllPolled, AllUntimedEvents, Counts, AllWaiting, Nodes;
      InsertInOrder(p, ev);
      InsertInLedger(p, ev);
      InsertWaiting(timerQueue, p, ev);
      Insert(timerQueue, p, ev);
      timerQueue := timerQueue[..p] + [ev] + timerQueue[p..];
      posted := posted + 1;
    }

    method FindPlace(t: Time) returns (p: nat)
      requires Shape() && History() && Normal(t)
      ensures p <= |timerQueue| && AllWaiting(timerQueue)
      ensures forall i :: 0 <= i < p ==> Ns(timerQueue[i].time.value) <= Ns(t)
      ensures forall i :: p <= i < |timerQueue| ==> Ns(t) < Ns(timerQueue[i].time.value)
    {
      hide Ns, InOrder, History;
      TimersSorted();
      p := 0;
      while p < |timerQueue| && TimeCmp(t, timerQueue[p].time.value) >= 0
        invariant p <= |timerQueue|
        invariant forall i :: 0 <= i < p ==> Ns(timerQueue[i].time.value) <= Ns(t)
      {
        p := p + 1;
      }
    }

    /** The timer queue is sorted, ties in the order of posting. */
    lemma TimersSorted()
      requires Kinds() && History()
      ensures forall i :: 0 <= i < |timerQueue| ==> Normal(timerQueue[i].time.value)
      ensures forall i, j :: 0 <= i < j < |timerQueue| ==> Earlier(timerQueue[i], timerQueue[j])
      ensures forall i, j :: 0 <= i < j < |timerQueue| ==> Ns(timerQueue[i].time.value) <= Ns(timerQueue[j].time.value)
    {
      hide Ns;
      var k := |doneTimed| + timed;
      var d := AllTimed();
      assert forall i :: 0 <= i < |timerQueue| ==> timerQueue[i] == d[k + i];
      forall i, j | 0 <= i < j < |timerQueue|
        ensures Earlier(timerQueue[i], timerQueue[j])
      {
        assert InOrder(d[k + i], d[k + j]);
      }
      forall i | 0 <= i < |timerQueue|
        ensures Normal(timerQueue[i].time.value)
      {
        assert Sound(d[k + i], posted);
      }
    }

    /** The timed events once `ev` has been inserted. */
    ghost function WithTimer(p: nat, ev: Event): seq<Event>
      requires timed <= |eventQueue| && p <= |timerQueue|
      reads `doneTimed, `eventQueue, `timed, `timerQueue
    {
      doneTimed + eventQueue[..timed] + (timerQueue[..p] + [ev] + timerQueue[p..])
    }

    lemma Spliced(p: nat, ev: Event)
      requires timed <= |eventQueue| && p <= |timerQueue|
      ensures
        var k := |doneTimed| + timed + p;
        WithTimer(p, ev) == AllTimed()[..k] + [ev] + AllTimed()[k..]
    {
    }

    lemma InsertInOrder(p: nat, ev: Event)
      requires Shape() && History() && p <= |timerQueue|
      requires ev.time.Some? && Normal(ev.time.value) && ev.serial == posted && ev.polled.None?
      requires forall i :: 0 <= i < p ==> Ns(timerQueue[i].time.value) <= Ns(ev.time.value)
      requires forall i :: p <= i < |timerQueue| ==> Ns(ev.time.value) < Ns(timerQueue[i].time.value)
      ensures TimedOrder(WithTimer(p, ev), posted + 1) && UntimedOrder(AllUntimed(), posted + 1)
    {
      hide Ns, Ledger, InOrder;
      var d := AllTimed();
      var k := |doneTimed| + timed;
      assert forall i :: k <= i < |d| ==> d[i] == timerQueue[i - k];
      assert forall i :: 0 <= i < k ==> d[i].polled.Some?;
      InsertKeepsOrder(d, k + p, ev, posted);
      Spliced(p, ev);
    }

    lemma InsertInLedger(p: nat, ev: Event)
      requires Shape() && History() && p <= |timerQueue| && ev.serial == posted
      ensures Ledger(WithTimer(p, ev), AllUntimed(), cancelled, absorbed, posted + 1)
    {
      hide TimedOrder, UntimedOrder, Serials, Numbers;
      Insert(AllTimed(), |doneTimed| + timed + p, ev);
      Spliced(p, ev);
      NumbersSnoc(posted);
    }

    /** `post_event` on the dispatch thread. */
    method PostEvent(key: Key)
      requires Valid() && OnDispatchThread()
      modifies `freeQueue, `heapTop, `eventQueue, `eventLast, `posted
      ensures Valid() && posted == old(posted) + 1
      ensures |eventQueue| == |old(eventQueue)| + 1 && eventQueue[..|old(eventQueue)|] == old(eventQueue)
      ensures eventQueue[|old(eventQueue)|].(node := 0) == Event(0, None, key, old(posted), None)
    {
      hide Shape, History, Pool;
      var n := AllocNode();
      Append(Event(n, None, key, posted, None));
    }

    method Append(ev: Event)
      requires Shape() && History() && Pool(Some(ev.node))
      requires ev.time.None? && ev.serial == posted
      modifies `eventQueue, `eventLast, `posted
      ensures Shape() && History() && Pool(None)
      ensures eventQueue == old(eventQueue) + [ev] && posted == old(posted) + 1
    {
      hide TimedOrder, UntimedOrder, Ledger, Pool, Nodes, Count, Copies, AllPolled, AllWaiting;
      AppendInHistory(ev);
      CountNodesConcat(eventQueue, [ev]);
      SplitAppended(eventQueue, ev, timed);
      eventQueue := eventQueue + [ev];
      eventLast := Some(ev.node);
      posted := posted + 1;
      NodesMoved(Some(ev.node), None);
    }

    lemma SplitAppended(q: seq<Event>, e: Event, k: nat)
      requires k <= |q|
      ensures (q + [e])[..k] == q[..k] && (q + [e])[k..] == q[k..] + [e]
      ensures doneUntimed + (q + [e])[k..] == doneUntimed + q[k..] + [e]
    {
    }

    lemma CountNodesConcat(a: seq<Event>, b: seq<Event>)
      ensures forall m: nat :: Count(Nodes(a + b), m) == Count(Nodes(a), m) + Count(Nodes(b), m)
      ensures forall e: Event, m: nat :: Count(Nodes([e]), m) == One(Some(e.node), m)
    {
      assert Nodes(a + b) == Nodes(a) + Nodes(b);
      assert forall e: Event :: Nodes([e]) == [e.node];
    }

    lemma AppendInHistory(ev: Event)
      requires History() && ev.time.None? && ev.serial == posted
      ensures TimedOrder(AllTimed(), posted + 1) && UntimedOrder(AllUntimed() + [ev], posted + 1)
      ensures Ledger(AllTimed(), AllUntimed() + [ev], cancelled, absorbed, posted + 1)
    {
      hide TimedOrder, UntimedOrder, Serials, Numbers;
      MorePosts(AllTimed(), posted);
      AppendKeepsOrder(AllUntimed(), ev, posted);
      var u := AllUntimed();
      Insert(u, |u|, ev);
      assert u[..|u|] + [ev] + u[|u|..] == u + [ev];
      NumbersSnoc(posted);
    }

    /** `post_event_with_delay` on the dispatch thread. */
    method PostDelayed(key: Key, now: Time, usec: nat) returns (p: nat)
      requires Valid() && OnDispatchThread() && Normal(now)
      modifies `freeQueue, `heapTop, `timerQueue, `posted
      ensures Valid() && posted == old(posted) + 1
      ensures IsPosted(p, key, now, usec)
    {
      hide Shape, History, Pool;
      var runtime := TimeAddUsec(now, usec);
      var n := AllocNode();
      p := InsertTimer(Event(n, Some(runtime), key, posted, None));
    }

    /** A new event for `usec` microseconds after `now` has been inserted at `p`, and nothing else changed. */
    twostate predicate IsPosted(p: nat, key: Key, now: Time, usec: nat)
      reads `timerQueue
    {
      && p < |timerQueue| == |old(timerQueue)| + 1
      && timerQueue[..p] + timerQueue[p + 1..] == old(timerQueue)
      && timerQueue[p].key == key && timerQueue[p].serial == old(posted)
      && timerQueue[p].time.Some? && Ns(timerQueue[p].time.value) == Ns(now) + usec * 1000
    }

    /**
     A post from a background thread.  If a cancel waits for it, it is absorbed and ends the wait;
     if it becomes the earliest timer, a loop that waits is signalled.
     */
    method PostFromBackground(key: Key, now: Time, usec: nat) returns (taken: bool, p: nat)
      requires Valid() && Normal(now)
      modifies `freeBgQueue, `heapTop, `timerQueue, `posted, `cancelKey, `absorbed, `phase
      ensures Valid() && posted == old(posted) + 1
      ensures taken <==> old(cancelKey) == Some(key)
      ensures taken ==> cancelKey == None && timerQueue == old(timerQueue) && absorbed == old(absorbed) + [old(posted)]
      ensures !taken ==> cancelKey == old(cancelKey) && absorbed == old(absorbed) && IsPosted(p, key, now, usec)
      ensures phase == (if old(phase).Waiting? && !taken && p == 0 then old(phase).(signalled := true) else old(phase))
    {
      hide Shape, History, Pool;
      var runtime := TimeAddUsec(now, usec);
      p := 0;
      taken := cancelKey == Some(key);
      if taken {
        Absorb();
      } else {
        p := InsertFromBackground(key, runtime);
      }
    }

    method InsertFromBackground(key: Key, runtime: Time) returns (p: nat)
      requires Valid() && Normal(runtime) && cancelKey != Some(key)
      modifies `freeBgQueue, `heapTop, `timerQueue, `posted, `phase
      ensures Valid() && posted == old(posted) + 1
      ensures p < |timerQueue| == |old(timerQueue)| + 1
      ensures timerQueue[..p] + timerQueue[p + 1..] == old(timerQueue)
      ensures timerQueue[p].key == key && timerQueue[p].serial == old(posted) && timerQueue[p].time == Some(runtime)
      ensures phase == (if old(phase).Waiting? && p == 0 then old(phase).(signalled := true) else old(phase))
    {
      hide Shape, History, Pool, Ns;
      var n := AllocNodeBg();
      p := InsertTimer(Event(n, Some(runtime), key, posted, None));
      if p == 0 {
        Signal();
      }
      assert timerQueue[..p] == old(timerQueue)[..p] && timerQueue[p + 1..] == old(timerQueue)[p..];
    }

    method Absorb()
      requires Valid()
      modifies `cancelKey, `absorbed, `posted
      ensures Valid() && cancelKey == None && absorbed == old(absorbed) + [old(posted)] && posted == old(posted) + 1
    {
      hide TimedOrder, UntimedOrder, Ledger, Pool, Shape, NoneQueued, AllTimed, AllUntimed, Earliest;
      AbsorbInHistory();
      cancelKey := None;
      absorbed := absorbed + [posted];
      posted := posted + 1;
    }

    lemma AbsorbInHistory()
      requires History()
      ensures TimedOrder(AllTimed(), posted + 1) && UntimedOrder(AllUntimed(), posted + 1)
      ensures Ledger(AllTimed(), AllUntimed(), cancelled, absorbed + [posted], posted + 1)
    {
      hide TimedOrder, Serials, Numbers;
      MorePosts(AllTimed(), posted);
      NumbersSnoc(posted);
    }

    /** `pthread_cond_signal`: it wakes a loop that waits and is lost otherwise. */
    method Signal()
      requires Shape() && Pool(None)
      modifies `phase
      ensures Shape() && Pool(None)
      ensures phase == if old(phase).Waiting? then old(phase).(signalled := true) else old(phase)
    {
      hide Count, Pool, Kinds;
      if phase.Waiting? {
        phase := phase.(signalled := true);
      }
      NodesMoved(None, None);
    }

    // ---------- Cancelling ----------

    /**
     `cancel_event`: takes the first queued event with this key, untimed ones first.  If there is
     none and the caller wants to wait, the next background post of it will be absorbed.
     */
    method CancelEvent(key: Key, wait: bool) returns (r: CancelResult)
      requires Valid() && OnDispatchThread()
      modifies `freeQueue, `eventQueue, `eventLast, `timed, `timerQueue, `cancelled, `cancelKey
      ensures Valid()
      ensures r.Cancelled? <==> !old(NoneQueued(key))
      ensures r.Waits? <==> old(NoneQueued(key)) && wait
      ensures cancelKey == if r.Waits? then Some(key) else None
      ensures r.Cancelled? ==> OneTaken(key)
      ensures !r.Cancelled? ==>
        eventQueue == old(eventQueue) && timerQueue == old(timerQueue) && cancelled == old(cancelled)
    {
      hide Shape, History, Pool;
      var k := FindKey(eventQueue, key);
      if k < |eventQueue| {
        TakeFromEvents(k);
        return Cancelled;
      }
      k := FindKey(timerQueue, key);
      if k < |timerQueue| {
        TakeFromTimers(k);
        return Cancelled;
      }
      if !wait {
        return NotFound;
      }
      cancelKey := Some(key);
      r := Waits;
    }

    /** Just the first event with this key has gone from the queues. */
    twostate predicate OneTaken(new key: Key)
      reads `eventQueue, `timerQueue, `cancelled
    {
      if exists i :: 0 <= i < |old(eventQueue)| && old(eventQueue)[i].key == key then
        && timerQueue == old(timerQueue)
        && exists k ::
             FirstTaken(old(eventQueue), eventQueue, k, key) && cancelled == old(cancelled) + [old(eventQueue)[k]]
      else
        && eventQueue == old(eventQueue)
        && exists k ::
             FirstTaken(old(timerQueue), timerQueue, k, key) && cancelled == old(cancelled) + [old(timerQueue)[k]]
    }

    /** The first element with `key`, or the length. */
    static method FindKey(q: seq<Event>, key: Key) returns (k: nat)
      ensures k <= |q| && (forall i :: 0 <= i < k ==> q[i].key != key) && (k < |q| ==> q[k].key == key)
    {
      k := 0;
      while k < |q| && q[k].key != key
        invariant k <= |q| && forall i :: 0 <= i < k ==> q[i].key != key
      {
        k := k + 1;
      }
    }

    method TakeFromEvents(k: nat)
      requires Shape() && History() && Pool(None) && k < |eventQueue| && !phase.Ready?
      modifies `freeQueue, `eventQueue, `eventLast, `timed, `cancelled
      ensures Shape() && History() && Pool(None)
      ensures eventQueue == Without(old(eventQueue), k)
      ensures cancelled == old(cancelled) + [old(eventQueue)[k]]
    {
      hide Shape, History, Pool;
      var ev := eventQueue[k];
      UnlinkEvent(k);
      EventNodeFreed(k);
      FreeNode(ev.node);
    }

    method UnlinkEvent(k: nat)
      requires Shape() && History() && k < |eventQueue| && !phase.Ready?
      modifies `eventQueue, `eventLast, `timed, `cancelled
      ensures Shape() && History()
      ensures eventQueue == Without(old(eventQueue), k)
      ensures cancelled == old(cancelled) + [old(eventQueue)[k]]
    {
      hide Without, LastNode, Fits, History;
      hide Kinds;
      ghost var n := Unlinked(k);
      LastWithout(eventQueue, k);
      if k + 1 == |eventQueue| {
        eventLast := if k == 0 then None else Some(eventQueue[k - 1].node);
      }
      cancelled := cancelled + [eventQueue[k]];
      eventQueue := Without(eventQueue, k);
      timed := n;
      FitsNow();
    }

    lemma FitsNow()
      requires Fits(doneTimed, doneUntimed, eventQueue, timed, timerQueue, cancelled, absorbed, posted)
      ensures Kinds() && History()
    {
      hide AllPolled, AllUntimedEvents, AllWaiting, TimedOrder, UntimedOrder, Ledger;
    }

    /** The event queue without its element `k`, and where its timed events end. */
    lemma Unlinked(k: nat) returns (n: nat)
      requires Kinds() && History() && k < |eventQueue|
      ensures n <= timed &&
        Fits(doneTimed, doneUntimed, Without(eventQueue, k), n, timerQueue, cancelled + [eventQueue[k]], absorbed,
             posted)
    {
      hide TimedOrder, UntimedOrder, Ledger, AllWaiting;
      n := if k < timed then timed - 1 else timed;
      UnlinkInHistory(k);
      SplitWithout(eventQueue, k, timed);
    }

    twostate lemma EventNodeFreed(new k: nat)
      requires k < |old(eventQueue)| && eventQueue == Without(old(eventQueue), k)
      requires timerQueue == old(timerQueue) && phase == old(phase)
      requires freeQueue == old(freeQueue) && freeBgQueue == old(freeBgQueue) && heapTop == old(heapTop)
      requires old(Pool(None))
      ensures Pool(Some(old(eventQueue)[k].node))
    {
      hide Pool, Nodes, Count;
      CountNodesWithout(old(eventQueue), k);
      NodesMoved(None, Some(old(eventQueue)[k].node));
    }

    lemma CountNodesWithout(q: seq<Event>, k: nat)
      requires k < |q|
      ensures forall m: nat :: Count(Nodes(q), m) == Count(Nodes(Without(q, k)), m) + One(Some(q[k].node), m)
    {
      Remove(q, k);
    }

    /** Where the timed events end once an event has been unlinked. */
    lemma SplitWithout(q: seq<Event>, k: nat, n: nat)
      requires k < |q| && n <= |q|
      ensures
        var r := Without(q, k);
        if k < n then r[..n - 1] == q[..k] + q[k + 1..n] && r[n - 1..] == q[n..]
        else r[..n] == q[..n] && r[n..] == q[n..k] + q[k + 1..]
    {
    }

    lemma UnlinkInHistory(k: nat)
      requires History() && k < |eventQueue|
      ensures
        k < timed ==>
          var d := doneTimed + (eventQueue[..k] + eventQueue[k + 1..timed]) + timerQueue;
          TimedOrder(d, posted) && Ledger(d, AllUntimed(), cancelled + [eventQueue[k]], absorbed, posted)
      ensures
        k >= timed ==>
          var u := doneUntimed + (eventQueue[timed..k] + eventQueue[k + 1..]);
          UntimedOrder(u, posted) && Ledger(AllTimed(), u, cancelled + [eventQueue[k]], absorbed, posted)
    {
      hide InOrder, Sound, Numbers, Serials;
      if k < timed {
        var d := AllTimed();
        var p := |doneTimed| + k;
        assert Without(d, p) == doneTimed + (eventQueue[..k] + eventQueue[k + 1..timed]) + timerQueue;
        RemoveKeepsOrder(d, p, posted);
        Remove(d, p);
      } else {
        var u := AllUntimed();
        var p := |doneUntimed| + k - timed;
        assert Without(u, p) == doneUntimed + (eventQueue[timed..k] + eventQueue[k + 1..]);
        RemoveKeepsUntimed(u, p, posted);
        Remove(u, p);
      }
      SerialsSnoc(cancelled, eventQueue[k]);
    }

    lemma SerialsSnoc(q: seq<Event>, e: Event)
      ensures multiset(Serials(q + [e])) == multiset(Serials(q)) + multiset{e.serial}
    {
      assert Serials(q + [e]) == Serials(q) + [e.serial];
    }

    method TakeFromTimers(k: nat)
      requires Shape() && History() && Pool(None) && k < |timerQueue|
      modifies `freeQueue, `timerQueue, `cancelled
      ensures Shape() && History() && Pool(None)
      ensures timerQueue == Without(old(timerQueue), k)
      ensures cancelled == old(cancelled) + [old(timerQueue)[k]]
    {
      hide Shape, History, Pool;
      var ev := timerQueue[k];
      UnlinkTimer(k);
      FreeNode(ev.node);
    }

    method UnlinkTimer(k: nat)
      requires Shape() && History() && Pool(None) && k < |timerQueue|
      modifies `timerQueue, `cancelled
      ensures Shape() && History() && Pool(Some(old(timerQueue)[k].node))
      ensures timerQueue == Without(old(timerQueue), k)
      ensures cancelled == old(cancelled) + [old(timerQueue)[k]]
    {
      hide TimedOrder, UntimedOrder, Ledger, Pool, Nodes, Count, Counts, AllPolled, AllUntimedEvents, Copies;
      UnlinkTimerInHistory(k);
      CountNodesWithout(timerQueue, k);
      var ev := timerQueue[k];
      timerQueue := Without(timerQueue, k);
      cancelled := cancelled + [ev];
      NodesMoved(None, Some(ev.node));
    }

    lemma UnlinkTimerInHistory(k: nat)
      requires History() && k < |timerQueue|
      ensures
        var d := doneTimed + eventQueue[..timed] + (Without(timerQueue, k));
        TimedOrder(d, posted) && Ledger(d, AllUntimed(), cancelled + [timerQueue[k]], absorbed, posted)
    {
      hide InOrder, Sound, Numbers, Serials;
      var d := AllTimed();
      var p := |doneTimed| + timed + k;
      assert Without(d, p) == doneTimed + eventQueue[..timed] + (Without(timerQueue, k));
      RemoveKeepsOrder(d, p, posted);
      Remove(d, p);
      SerialsSnoc(cancelled, timerQueue[k]);
    }

    // ---------- Running ----------

    /** `run_event_loop` is entered. */
    method Start()
      requires Valid() && phase.Outside? && cancelKey.None?
      modifies `phase, `eventCnt, `polledAt, `processEvents
      ensures Valid() && phase.Top? && processEvents
    {
      hide Kinds, History, Pool;
      SetPhase(Top);
      eventCnt, polledAt, processEvents := 0, |doneUntimed|, true;
    }

    /** `cancel_event_loop`. */
    method Stop()
      requires Valid() && OnDispatchThread()
      modifies `processEvents
      ensures Valid() && !processEvents
    {
      processEvents := false;
    }

    /**
     The top of the loop: the loop ends, or polls the timers if it has nothing else to do, or after
     100 untimed events or 100 milliseconds, or goes on to the next event.
     */
    method AtTop(elapsed: nat)
      requires Valid() && phase.Top?
      modifies `phase, `eventCnt, `polledAt, `freeQueue, `freeBgQueue
      ensures Valid()
      ensures
        phase ==
        if !processEvents then Outside
        else if eventQueue == [] || old(eventCnt) >= 100 || (old(eventCnt) >= 1 && elapsed >= 100) then Polling
        else Ready
      ensures eventCnt == if phase.Polling? then 0 else old(eventCnt)
      ensures if phase.Polling? then freeQueue == [] || |freeBgQueue| >= 2
              else freeQueue == old(freeQueue) && freeBgQueue == old(freeBgQueue)
    {
      hide Kinds, History, Pool;
      if !processEvents {
        SetPhase(Outside);
      } else if |eventQueue| == 0 || eventCnt >= 100 || (eventCnt >= 1 && elapsed >= 100) {
        NoTimedLeft();
        SetPhase(Polling);
        ShareNodes();
        eventCnt, polledAt := 0, |doneUntimed|;
      } else {
        SetPhase(Ready);
      }
    }

    method SetPhase(p: Phase)
      requires Pool(None) && !phase.Running? && !p.Running?
      modifies `phase
      ensures Pool(None) && phase == p
    {
      hide Pool, Count, Nodes;
      phase := p;
      NodesMoved(None, None);
    }

    /** When the loop polls, the event queue holds only untimed events. */
    lemma NoTimedLeft()
      requires Shape() && (eventQueue == [] || eventCnt >= 1)
      ensures timed == 0
    {
    }

    /** Give background threads up to two of the free nodes. */
    method ShareNodes()
      requires Pool(None)
      modifies `freeQueue, `freeBgQueue
      ensures Pool(None)
      ensures freeQueue == [] || |freeBgQueue| >= 2
      ensures freeBgQueue == old(freeBgQueue) || |freeBgQueue| <= 2
      ensures |freeQueue| + |freeBgQueue| == old(|freeQueue| + |freeBgQueue|)
    {
      hide Pool;
      while |freeQueue| > 0 && |freeBgQueue| < 2
        invariant Pool(None) && (freeBgQueue == old(freeBgQueue) || |freeBgQueue| <= 2)
        invariant |freeQueue| + |freeBgQueue| == old(|freeQueue| + |freeBgQueue|)
        decreases |freeQueue|
      {
        ShareNode();
      }
    }

    method ShareNode()
      requires Pool(None) && |freeQueue| > 0
      modifies `freeQueue, `freeBgQueue
      ensures Pool(None) && |freeQueue| == |old(freeQueue)| - 1 && |freeBgQueue| == |old(freeBgQueue)| + 1
    {
      hide InUse, Count;
      var x := freeQueue[0];
      forall m: nat
        ensures Count(freeQueue, m) + Count(freeBgQueue, m) == Count(freeQueue[1..], m) + Count([x] + freeBgQueue, m)
      {
        CountHead(freeQueue, m);
        CountCons(x, freeBgQueue, m);
      }
      freeQueue := freeQueue[1..];
      freeBgQueue := [x] + freeBgQueue;
      assert forall m: nat :: Copies(m, None) == old(Copies(m, None));
    }

    /**
     One round of polling, at time `now`.  The timed events that are due are the front of the timer
     queue; they go to the front of the event queue, in order, where no other timed event is.
     */
    method PollRound(now: Time)
      requires Valid() && phase.Polling? && Normal(now)
      modifies `phase, `eventQueue, `eventLast, `timerQueue, `timed
      ensures Valid()
      ensures
        var k := Due(old(timerQueue), now);
        && eventQueue == Stamped(old(timerQueue)[..k], Poll(posted, now)) + old(eventQueue)
        && timerQueue == old(timerQueue)[k..] && timed == k
      ensures forall i :: 0 <= i < |timerQueue| ==> Ns(now) < Ns(timerQueue[i].time.value)
      ensures phase == if eventQueue == [] then Waiting(Earliest(), false) else Ready
    {
      hide Kinds, History, Pool, Ns, Stamped;
      var k := CountDue(now);
      MoveDue(k, now);
    }

    method CountDue(now: Time) returns (k: nat)
      requires Kinds() && History() && Normal(now)
      ensures k == Due(timerQueue, now) <= |timerQueue| && AllWaiting(timerQueue)
      ensures forall i :: 0 <= i < k ==> Ns(timerQueue[i].time.value) <= Ns(now)
      ensures forall i :: k <= i < |timerQueue| ==> timerQueue[i].time.Some? && Ns(now) < Ns(timerQueue[i].time.value)
    {
      hide Ns, History;
      TimersSorted();
      k := 0;
      while k < |timerQueue| && TimeCmp(timerQueue[k].time.value, now) <= 0
        invariant k <= |timerQueue| && Due(timerQueue, now) == k + Due(timerQueue[k..], now)
        invariant forall i :: 0 <= i < k ==> Ns(timerQueue[i].time.value) <= Ns(now)
      {
        assert timerQueue[k..][1..] == timerQueue[k + 1..];
        k := k + 1;
      }
    }

    /** The due events are moved, then the loop goes on, or waits if there is nothing to do. */
    method MoveDue(k: nat, now: Time)
      requires Shape() && History() && Pool(None) && phase.Polling? && k <= |timerQueue|
      requires AllWaiting(timerQueue) && forall i :: 0 <= i < k ==> Ns(timerQueue[i].time.value) <= Ns(now)
      modifies `phase, `eventQueue, `eventLast, `timerQueue, `timed
      ensures Shape() && History() && Pool(None)
      ensures phase == if eventQueue == [] then Waiting(Earliest(), false) else Ready
      ensures eventQueue == Stamped(old(timerQueue)[..k], Poll(posted, now)) + old(eventQueue)
      ensures timerQueue == old(timerQueue)[k..] && timed == k
    {
      hide History, Pool, Kinds, Ns, Stamped, Fits, LastNode, Nodes, Count;
      DueFits(k, now);
      var due := Stamped(timerQueue[..k], Poll(posted, now));
      LastOfBoth(due, eventQueue);
      CountMoved(timerQueue, k, Poll(posted, now), eventQueue);
      if k > 0 && |eventQueue| == 0 {
        eventLast := Some(due[k - 1].node);
      }
      eventQueue, timerQueue, timed := due + eventQueue, timerQueue[k..], k;
      if |eventQueue| > 0 {
        phase := Ready;
      } else if |timerQueue| > 0 {
        phase := Waiting(timerQueue[0].time, false);
      } else {
        phase := Waiting(None, false);
      }
      FitsNow();
      NodesMoved(None, None);
    }

    lemma LastOfBoth(a: seq<Event>, b: seq<Event>)
      ensures b == [] ==> LastNode(b) == None
      ensures LastNode(a + b) == if b != [] then LastNode(b) else if a == [] then None else Some(a[|a| - 1].node)
    {
    }

    lemma CountMoved(q: seq<Event>, k: nat, poll: Poll, r: seq<Event>)
      requires k <= |q|
      ensures forall m: nat ::
        Count(Nodes(Stamped(q[..k], poll) + r), m) + Count(Nodes(q[k..]), m) == Count(Nodes(r), m) + Count(Nodes(q), m)
    {
      hide Count;
      CountNodesConcat(Stamped(q[..k], poll), r);
      CountNodesConcat(q[..k], q[k..]);
      assert q == q[..k] + q[k..];
      assert Nodes(Stamped(q[..k], poll)) == Nodes(q[..k]);
    }

    lemma DueFits(k: nat, now: Time)
      requires Kinds() && History() && timed == 0 && k <= |timerQueue|
      requires forall i :: 0 <= i < k ==> timerQueue[i].time.Some? && Ns(timerQueue[i].time.value) <= Ns(now)
      ensures
        Fits(doneTimed, doneUntimed, Stamped(timerQueue[..k], Poll(posted, now)) + eventQueue, k, timerQueue[k..],
          cancelled, absorbed, posted)
    {
      hide Ns, UntimedOrder, TimedOrder;
      var due := Stamped(timerQueue[..k], Poll(posted, now));
      var q := due + eventQueue;
      assert q[..k] == due && q[k..] == eventQueue == eventQueue[timed..];
      var d := doneTimed + timerQueue[..k] + timerQueue[k..];
      assert AllTimed() == d;
      StampKeepsOrder(doneTimed, timerQueue[..k], timerQueue[k..], posted, now);
      assert Serials(doneTimed + due + timerQueue[k..]) == Serials(d);
    }

    /** The condition variable was signalled, the time has come, or nothing of the kind. */
    method WakeUp()
      requires Valid() && phase.Waiting?
      modifies `phase
      ensures Valid() && phase.Polling?
    {
      hide Kinds, History, Pool;
      SetPhase(Polling);
    }

    /** The first event is taken off the queue for its handler to run. */
    method Take() returns (ev: Event)
      requires Valid() && phase.Ready?
      modifies `phase, `eventQueue, `eventLast, `eventCnt, `timed, `doneTimed, `doneUntimed
      ensures Valid() && OnDispatchThread()
      ensures [ev] + eventQueue == old(eventQueue) && phase == Running(ev)
      ensures ev.time.Some? ==> doneTimed == old(doneTimed) + [ev] && doneUntimed == old(doneUntimed)
      ensures ev.time.None? ==> doneUntimed == old(doneUntimed) + [ev] && doneTimed == old(doneTimed)
      ensures eventCnt == old(eventCnt) + if ev.time.None? then 1 else 0
    {
      hide History, Pool, Kinds, Nodes, Count;
      ev := eventQueue[0];
      CountNodesConcat([ev], eventQueue[1..]);
      assert eventQueue == [ev] + eventQueue[1..];
      Pop();
      NodesMoved(None, None);
    }

    method Pop()
      requires Shape() && History() && phase.Ready?
      modifies `phase, `eventQueue, `eventLast, `eventCnt, `timed, `doneTimed, `doneUntimed
      ensures Shape() && History()
      ensures eventQueue == old(eventQueue)[1..] && phase == Running(old(eventQueue)[0])
      ensures
        var ev := old(eventQueue)[0];
        if ev.time.None? then
          doneUntimed == old(doneUntimed) + [ev] && doneTimed == old(doneTimed) && eventCnt == old(eventCnt) + 1
        else
          doneTimed == old(doneTimed) + [ev] && doneUntimed == old(doneUntimed) && eventCnt == old(eventCnt)
    {
      hide History, Kinds, LastNode, Fits;
      var ev := eventQueue[0];
      LastOfBoth([ev], eventQueue[1..]);
      FitsThen();
      FitsTaken(doneTimed, doneUntimed, eventQueue, timed, timerQueue, cancelled, absorbed, posted);
      assert eventQueue == [ev] + eventQueue[1..];
      eventQueue := eventQueue[1..];
      if |eventQueue| == 0 {
        eventLast := None;
      }
      if ev.time.None? {
        eventCnt := eventCnt + 1;
        doneUntimed := doneUntimed + [ev];
      } else {
        doneTimed := doneTimed + [ev];
        timed := timed - 1;
      }
      phase := Running(ev);
      FitsNow();
    }

    lemma FitsThen()
      requires Kinds() && History()
      ensures Fits(doneTimed, doneUntimed, eventQueue, timed, timerQueue, cancelled, absorbed, posted)
    {
      hide AllPolled, AllUntimedEvents, AllWaiting, TimedOrder, UntimedOrder, Ledger;
    }

    /** The handler has returned. */
    method Done()
      requires Valid() && phase.Running? && cancelKey.None?
      modifies `phase, `freeQueue
      ensures Valid() && phase.Top?
    {
      hide History, Pool, Kinds, Count, Nodes;
      var n := phase.ev.node;
      phase := Top;
      NodesMoved(None, Some(n));
      FreeNode(n);
    }

    // ---------- Every run ----------

    /**
     Dispatched untimed events are in the order of posting.  Dispatched timed events are in order
     of time, ties in the order of posting, except that one posted after the other was polled may
     be late.  None was dispatched before its time.
     */
    lemma DispatchOrder(i: nat, j: nat)
      requires Valid()
      ensures i < j < |doneUntimed| ==> doneUntimed[i].serial < doneUntimed[j].serial
      ensures
        i < j < |doneTimed| ==>
          Earlier(doneTimed[i], doneTimed[j]) || doneTimed[i].polled.value.posted <= doneTimed[j].serial
      ensures i < |doneTimed| ==> Ns(doneTimed[i].time.value) <= Ns(doneTimed[i].polled.value.clock)
    {
      hide Pool, Ledger, Ns;
      if i < j < |doneUntimed| {
        assert AllUntimed()[i] == doneUntimed[i] && AllUntimed()[j] == doneUntimed[j];
      }
      if i < |doneTimed| {
        assert AllTimed()[i] == doneTimed[i] && Sound(AllTimed()[i], posted);
        if i < j < |doneTimed| {
          assert AllTimed()[j] == doneTimed[j] && InOrder(AllTimed()[i], AllTimed()[j]);
        }
      }
    }

    /** Every post is, exactly once, dispatched, queued, cancelled or absorbed. */
    lemma EachPostOnce(n: nat)
      requires Valid()
      ensures
        Count(Serials(doneTimed), n) + Count(Serials(doneUntimed), n) +
        Count(Serials(eventQueue), n) + Count(Serials(timerQueue), n) +
        Count(Serials(cancelled), n) + Count(absorbed, n) == if n < posted then 1 else 0
    {
      hide Pool, TimedOrder, UntimedOrder, Kinds, Counts;
      CountNumbers(posted, n);
      assert Serials(AllTimed()) == Serials(doneTimed) + Serials(eventQueue[..timed]) + Serials(timerQueue);
      assert Serials(AllUntimed()) == Serials(doneUntimed) + Serials(eventQueue[timed..]);
      assert Serials(eventQueue) == Serials(eventQueue[..timed]) + Serials(eventQueue[timed..]);
      hide Serials, Numbers;
    }

    static lemma {:induction false} CountNumbers(k: nat, n: nat)
      ensures Count(Numbers(k), n) == if n < k then 1 else 0
    {
      if k > 0 {
        CountNumbers(k - 1, n);
        NumbersSnoc(k - 1);
      }
    }

    /** Every static node is in exactly one place, every other node in one or none. */
    lemma EachNodeOnce(n: nat)
      requires Valid()
      ensures
        var places := Count(freeQueue, n) + Count(freeBgQueue, n) +
          Count(Nodes(eventQueue), n) + Count(Nodes(timerQueue), n) +
          (if phase.Running? && phase.ev.node == n then 1 else 0);
        if n < EVENT_BUF_SIZE then places == 1 else places <= 1
    {
      hide Shape, History, Blocked, Count, Nodes;
      assert Copies(n, None) <= 1;
    }
  }

  /** How many events at the front of the queue are due. */
  ghost function Due(q: seq<Event>, now: Time): (k: nat)
    ensures k <= |q|
  {
    if q == [] || q[0].time.None? || Ns(q[0].time.value) > Ns(now) then 0 else 1 + Due(q[1..], now)
  }

  /** `after` is `before` without its first event with `key`, which was at `k`. */
  ghost predicate FirstTaken(before: seq<Event>, after: seq<Event>, k: int, key: Key) {
    && 0 <= k < |before| && before[k].key == key
    && (forall i :: 0 <= i < k ==> before[i].key != key)
    && after == Without(before, k)
  }
}
