/**
 Restartable cache transactions (cache.c): a client that misses in a cache is put on the wait list
 of that cache and run again, from its start, when the cache is notified.

 A method is one step; what a client does while it runs is a sequence of the steps `Wait`, `Exit`
 and `EndRun`.  Runs are not nested: no cache is notified at once from within a client.
 */
module CacheClients {
  import opened Wrappers

  /** The arguments of a client: none, the caller's memory, or a copy, which are numbered. */
  datatype Args = NoArgs | Callers | Copy(n: nat)

  /** A `WaitingCacheClient`.  The serial number is history: it tells transactions apart for good. */
  datatype Client = Client(id: nat, serial: nat, channel: Option<nat>, args: Args)

  /** What is counted: entries of a transaction, entries of a channel, references to a copy. */
  datatype Key = OfTransaction(serial: nat) | OfChannel(channel: nat) | OfCopy(copy: nat)

  predicate Has(c: Client, key: Key) {
    match key
    case OfTransaction(n) => c.serial == n
    case OfChannel(n) => c.channel == Some(n)
    case OfCopy(n) => c.args == Copy(n)
  }

  ghost function One(c: Client, key: Key): nat {
    if Has(c, key) then 1 else 0
  }

  ghost function Count(q: seq<Client>, key: Key): nat {
    if q == [] then 0 else One(q[0], key) + Count(q[1..], key)
  }

  ghost function CountAll(qs: seq<seq<Client>>, key: Key): nat {
    if qs == [] then 0 else Count(qs[0], key) + CountAll(qs[1..], key)
  }

  lemma {:induction false} CountConcat(a: seq<Client>, b: seq<Client>, key: Key)
    ensures Count(a + b, key) == Count(a, key) + Count(b, key)
  {
    hide Has;
    if a == [] {
      assert a + b == b;
    } else {
      CountConcat(a[1..], b, key);
      assert (a + b)[1..] == a[1..] + b;
    }
  }

  lemma CountSnoc(q: seq<Client>, c: Client, key: Key)
    ensures Count(q + [c], key) == Count(q, key) + One(c, key)
  {
    CountConcat(q, [c], key);
  }

  lemma {:induction false} CountUpdate(qs: seq<seq<Client>>, i: nat, q: seq<Client>, key: Key)
    requires i < |qs|
    ensures CountAll(qs[i := q], key) + Count(qs[i], key) == CountAll(qs, key) + Count(q, key)
  {
    hide Has;
    if i == 0 {
      assert qs[i := q][1..] == qs[1..];
    } else {
      CountUpdate(qs[1..], i - 1, q, key);
      assert qs[i := q][1..] == qs[1..][i - 1 := q];
    }
  }

  lemma {:induction false} CountAllConcat(a: seq<seq<Client>>, b: seq<seq<Client>>, key: Key)
    ensures CountAll(a + b, key) == CountAll(a, key) + CountAll(b, key)
  {
    if a == [] {
      assert a + b == b;
    } else {
      CountAllConcat(a[1..], b, key);
      assert (a + b)[1..] == a[1..] + b;
    }
  }

  lemma CountRemove(qs: seq<seq<Client>>, k: nat, key: Key)
    requires k < |qs|
    ensures CountAll(qs[..k] + qs[k + 1..], key) + Count(qs[k], key) == CountAll(qs, key)
  {
    CountAllConcat(qs[..k], qs[k + 1..], key);
    CountAllConcat(qs[..k] + [qs[k]], qs[k + 1..], key);
    CountAllConcat(qs[..k], [qs[k]], key);
    CountAllOne(qs[k], key);
    assert qs == qs[..k] + [qs[k]] + qs[k + 1..];
  }

  lemma CountAllOne(q: seq<Client>, key: Key)
    ensures CountAll([q], key) == Count(q, key)
  {
    assert [q][1..] == [];
  }

  lemma {:induction false} CountIff(q: seq<Client>, key: Key)
    ensures Count(q, key) > 0 <==> exists c :: c in q && Has(c, key)
  {
    hide Has;
    if q != [] {
      CountIff(q[1..], key);
      assert q == [q[0]] + q[1..];
    }
  }

  ghost predicate Among(qs: seq<seq<Client>>, c: Client) {
    exists i :: 0 <= i < |qs| && c in qs[i]
  }

  lemma {:induction false} CountAllIff(qs: seq<seq<Client>>, key: Key)
    ensures CountAll(qs, key) > 0 <==> exists c :: Among(qs, c) && Has(c, key)
  {
    hide Has, Count, Among;
    if qs != [] {
      CountIff(qs[0], key);
      CountAllIff(qs[1..], key);
      forall c: Client
        ensures Among(qs, c) <==> c in qs[0] || Among(qs[1..], c)
      {
        AmongFirst(qs, c);
      }
    } else {
      AmongNone();
    }
  }

  lemma AmongFirst(qs: seq<seq<Client>>, c: Client)
    requires qs != []
    ensures Among(qs, c) <==> c in qs[0] || Among(qs[1..], c)
  {
    if Among(qs[1..], c) {
      var i :| 0 <= i < |qs[1..]| && c in qs[1..][i];
      assert c in qs[i + 1];
    }
    if Among(qs, c) {
      var i :| 0 <= i < |qs| && c in qs[i];
      assert i > 0 ==> c in qs[1..][i - 1];
    }
  }

  lemma AmongNone()
    ensures forall c :: !Among([], c)
  {
  }

  ghost function Times(q: seq<nat>, n: nat): nat {
    multiset(q)[n]
  }

  /** The `n`-th id: the counter skips 0 each time it comes round. */
  function NthId(n: nat, ids: nat): (id: nat)
    requires ids > 1
    ensures 0 < id < ids
  {
    if n == 0 then 1 else if NthId(n - 1, ids) + 1 < ids then NthId(n - 1, ids) + 1 else 1
  }

  /** Ids are all different until the counter has gone round. */
  lemma {:induction false} IdsDiffer(i: nat, j: nat, ids: nat)
    requires ids > 1 && i <= j
    ensures j - i < ids - 1 ==>
      NthId(j, ids) ==
      if NthId(i, ids) + (j - i) < ids then NthId(i, ids) + (j - i) else NthId(i, ids) + (j - i) - (ids - 1)
    ensures i < j && j - i < ids - 1 ==> NthId(i, ids) != NthId(j, ids)
    decreases j - i
  {
    if i < j {
      IdsDiffer(i, j - 1, ids);
    }
  }

  /** A client in a queue does not refer to the memory of the caller, and has the id of its transaction. */
  ghost predicate Safe(c: Client, ids: seq<nat>) {
    c.args != Callers && c.serial < |ids| && c.id == ids[c.serial]
  }

  ghost predicate AllSafe(q: seq<Client>, ids: seq<nat>) {
    forall i :: 0 <= i < |q| ==> Safe(q[i], ids)
  }

  /** A run in progress: the client, and the queue entry that it was started from, if it is run again. */
  datatype Run = Idle | Running(current: Client, entry: Option<Client>)

  class Caches {
    // The wait lists of the caches, the notifications posted as events, and the rest of the batch
    // that is being run.
    var waitLists: seq<seq<Client>>
    var posted: seq<seq<Client>>
    var batch: seq<Client>
    var run: Run
    var clientExited: bool
    var cacheMissCnt: nat
    var idCnt: nat
    // The number of values of an unsigned int.
    const ids: nat
    // The locks that cache clients hold on channels, and the number of copies of arguments made.
    var locks: nat -> nat
    var copies: nat
    var started: nat
    // The ids of all transactions, the transactions that are over, and the copies that were freed.
    ghost var given: seq<nat>
    ghost var finished: seq<nat>
    ghost var freed: seq<nat>

    /** How often something occurs in the queues, */
    ghost function Queued(key: Key): nat
      reads `waitLists, `posted, `batch
    {
      CountAll(waitLists, key) + CountAll(posted, key) + Count(batch, key)
    }

    /** and in a run that has not yet been put back on a wait list. */
    ghost function InRun(key: Key): nat
      reads `run, `cacheMissCnt
    {
      if run.Running? && cacheMissCnt == 0 then One(run.current, key) else 0
    }

    /** Each transaction is in exactly one queue, or running, or over. */
    ghost predicate Transactions()
      reads `waitLists, `posted, `batch, `run, `cacheMissCnt, `finished, `started
    {
      forall n: nat ::
        Queued(OfTransaction(n)) + InRun(OfTransaction(n)) + Times(finished, n) == if n < started then 1 else 0
    }

    /** Each queue entry holds a lock on its channel, and so does the entry that is being run again. */
    ghost predicate Locks()
      reads `waitLists, `posted, `batch, `run, `locks
    {
      forall ch: nat ::
        locks(ch) == Queued(OfChannel(ch)) +
        if run.Running? && run.entry.Some? then One(run.entry.value, OfChannel(ch)) else 0
    }

    /** Each copy of arguments belongs to one entry or run, or was freed. */
    ghost predicate Copies()
      reads `waitLists, `posted, `batch, `run, `cacheMissCnt, `freed, `copies
    {
      forall k: nat ::
        Queued(OfCopy(k)) + InRun(OfCopy(k)) + Times(freed, k) == if k < copies then 1 else 0
    }

    ghost predicate Entries()
      reads `waitLists, `posted, `batch, `run, `given, `started
    {
      && |given| == started
      && (forall i :: 0 <= i < |waitLists| ==> AllSafe(waitLists[i], given))
      && (forall i :: 0 <= i < |posted| ==> AllSafe(posted[i], given))
      && AllSafe(batch, given)
      && (run.Running? ==>
            && run.current.serial < |given| && run.current.id == given[run.current.serial]
            && (run.entry.Some? ==> run.current == run.entry.value && run.current.args != Callers))
    }

    /** Ids are given in turn, and `next` is one that the counter may have for the next of them. */
    ghost predicate Ids(n: nat, next: nat)
      reads `given
    {
      && ids > 1 && |given| == n && next < ids
      && (forall k :: 0 <= k < n ==> given[k] == NthId(k, ids))
    }

    ghost predicate Valid()
      reads this
    {
      Consistent() && Ids(started, idCnt) && NthId(started, ids) == if idCnt == 0 then 1 else idCnt
    }

    ghost predicate Consistent()
      reads this
    {
      && Transactions() && Locks() && Copies() && Entries()
      && (clientExited ==> run.Running? && cacheMissCnt == 0)
      && (run.Idle? ==> cacheMissCnt == 0)
      && (run.Running? ==> Times(finished, run.current.serial) == 0)
    }

    constructor (caches: nat, ids: nat)
      requires ids > 1
      ensures Valid() && run.Idle? && batch == [] && started == 0 && |waitLists| == caches && idCnt == 0
    {
      hide Has;
      this.ids := ids;
      waitLists, posted, batch := seq(caches, i => []), [], [];
      run, clientExited, cacheMissCnt, idCnt := Idle, false, 0, 0;
      locks, copies, started := (ch: nat) => 0, 0, 0;
      given, finished, freed := [], [], [];
      new;
      forall key: Key
        ensures CountAll(waitLists, key) == 0
      {
        NothingIn(waitLists, key);
      }
    }

    static lemma {:induction false} NothingIn(qs: seq<seq<Client>>, key: Key)
      requires forall i :: 0 <= i < |qs| ==> qs[i] == []
      ensures CountAll(qs, key) == 0
    {
      if qs != [] {
        NothingIn(qs[1..], key);
      }
    }

    /** `cache_enter`: a new transaction gets an id, which is never 0, and its client is run. */
    method Enter(channel: Option<nat>, hasArgs: bool) returns (id: nat)
      requires Valid() && run.Idle? && batch == []
      modifies `run, `idCnt, `started, `given
      ensures Valid() && id != 0 && idCnt < ids && given == old(given) + [id] && started == old(started) + 1
      ensures run == Running(Client(id, old(started), channel, if hasArgs then Callers else NoArgs), None)
    {
      hide Count, CountAll, Times;
      id := NextId();
      if id == 0 {
        id := NextId();
      }
      Begin(id, channel, if hasArgs then Callers else NoArgs);
    }

    method Begin(id: nat, channel: Option<nat>, args: Args)
      requires Consistent() && run.Idle? && !args.Copy?
      requires Ids(started, idCnt) && id == NthId(started, ids)
      requires NthId(started + 1, ids) == if idCnt == 0 then 1 else idCnt
      modifies `run, `started, `given
      ensures Valid() && started == old(started) + 1
      ensures given == old(given) + [id] && run == Running(Client(id, old(started), channel, args), None)
    {
      hide Times, Queued;
      NoneYet(started);
      run := Running(Client(id, started, channel, args), None);
      given := given + [id];
      started := started + 1;
    }

    lemma NoneYet(n: nat)
      requires Transactions()
      ensures n >= started ==> Queued(OfTransaction(n)) == 0 && Times(finished, n) == 0
    {
      hide Queued, Times;
    }

    method NextId() returns (id: nat)
      requires ids > 1 && idCnt < ids
      modifies `idCnt
      ensures id == old(idCnt) && idCnt == if id + 1 < ids then id + 1 else 0
    {
      id := idCnt;
      idCnt := if idCnt + 1 < ids then idCnt + 1 else 0;
    }

    /**
     `cache_wait` by the running client.  Its first miss in a run puts it on the wait list, with a
     copy of its arguments, which is made unless there is one, and a lock on its channel; the call
     always ends in an exception.
     */
    method Wait(cache: nat)
      requires Valid() && run.Running? && !clientExited && cache < |waitLists|
      modifies `run, `waitLists, `cacheMissCnt, `locks, `copies
      ensures Valid() && cacheMissCnt == old(cacheMissCnt) + 1
      ensures old(cacheMissCnt) > 0 ==> waitLists == old(waitLists) && run == old(run) && copies == old(copies)
      ensures old(cacheMissCnt) == 0 ==>
        && waitLists == old(waitLists)[cache := old(waitLists)[cache] + [run.current]]
        && run.entry == old(run).entry && run.current == old(run.current).(args := run.current.args)
        && (if old(run.current.args) == Callers then run.current.args == Copy(old(copies)) && copies == old(copies) + 1
            else run.current.args == old(run.current.args) && copies == old(copies))
    {
      hide Count, CountAll, Times;
      if cacheMissCnt == 0 {
        if run.current.args == Callers {
          CopyArgs();
        }
        Enqueue(cache);
      } else {
        cacheMissCnt := cacheMissCnt + 1;
      }
    }

    method CopyArgs()
      requires Valid() && run.Running? && !clientExited && cacheMissCnt == 0 && run.current.args == Callers
      modifies `run, `copies
      ensures Valid() && copies == old(copies) + 1
      ensures run == Running(old(run.current).(args := Copy(old(copies))), old(run.entry))
    {
      hide Count, CountAll, Times, Queued;
      run := Running(run.current.(args := Copy(copies)), run.entry);
      copies := copies + 1;
    }

    method Enqueue(cache: nat)
      requires Valid() && run.Running? && !clientExited && cacheMissCnt == 0 && cache < |waitLists|
      requires run.current.args != Callers
      modifies `waitLists, `cacheMissCnt, `locks
      ensures Valid() && cacheMissCnt == 1
      ensures waitLists == old(waitLists)[cache := old(waitLists)[cache] + [run.current]]
    {
      hide Count, CountAll, Times, Has, Ids, NthId;
      var c := run.current;
      forall key: Key
        ensures CountAll(waitLists[cache := waitLists[cache] + [c]], key) == CountAll(waitLists, key) + One(c, key)
      {
        CountUpdate(waitLists, cache, waitLists[cache] + [c], key);
        CountSnoc(waitLists[cache], c, key);
      }
      if c.channel.Some? {
        var was := locks;
        locks := (ch: nat) => if ch == c.channel.value then was(ch) + 1 else was(ch);
      }
      HasChannel(c);
      waitLists := waitLists[cache := waitLists[cache] + [c]];
      cacheMissCnt := 1;
    }

    static lemma HasChannel(c: Client)
      ensures forall ch: nat :: One(c, OfChannel(ch)) == if c.channel == Some(ch) then 1 else 0
    {
    }

    /** `cache_exit`: the client has all it needs, unless it has missed; then it ends in an exception. */
    method Exit() returns (threw: bool)
      requires Valid() && run.Running? && !clientExited
      modifies `clientExited
      ensures Valid() && (threw <==> cacheMissCnt > 0) && clientExited == !threw
    {
      hide Transactions, Locks, Copies, Entries;
      threw := cacheMissCnt > 0;
      if !threw {
        clientExited := true;
      }
    }

    /**
     The end of `run_cache_client`, by return or by an exception, and of the loop around it.  A
     transaction that is not on a wait list is over, and its copy of arguments is freed; the entry
     that was run again gives up its lock only now, after any new one was taken.
     */
    method EndRun(normally: bool)
      requires Valid() && run.Running? && (normally ==> cacheMissCnt == 0 && clientExited)
      modifies `run, `clientExited, `cacheMissCnt, `locks, `finished, `freed
      ensures Valid() && run.Idle?
      ensures finished == if old(cacheMissCnt) == 0 then old(finished) + [old(run.current.serial)] else old(finished)
      ensures freed ==
        if old(cacheMissCnt) == 0 && old(run.current.args).Copy? then old(freed) + [old(run.current.args.n)]
        else old(freed)
    {
      hide Times, Queued, One, Ids, AllSafe, NthId;
      Account();
      Release();
      run, clientExited, cacheMissCnt := Idle, false, 0;
    }

    /** What is only in the run is over, and freed. */
    method Account()
      requires run.Running?
      modifies `finished, `freed
      ensures forall n: nat :: Times(finished, n) == old(Times(finished, n)) + InRun(OfTransaction(n))
      ensures forall k: nat :: Times(freed, k) == old(Times(freed, k)) + InRun(OfCopy(k))
      ensures finished == if cacheMissCnt == 0 then old(finished) + [run.current.serial] else old(finished)
      ensures freed ==
        if cacheMissCnt == 0 && run.current.args.Copy? then old(freed) + [run.current.args.n] else old(freed)
    {
      hide Times;
      var c := run.current;
      TimesSnoc(finished, c.serial);
      if cacheMissCnt == 0 {
        finished := finished + [c.serial];
        if c.args.Copy? {
          TimesSnoc(freed, c.args.n);
          freed := freed + [c.args.n];
        }
      }
    }

    /** `channel_unlock`, for the entry that was run again. */
    method Release()
      requires run.Running? && Locks()
      modifies `locks
      ensures forall ch: nat :: locks(ch) == Queued(OfChannel(ch))
    {
      hide Queued;
      if run.entry.Some? && run.entry.value.channel.Some? {
        var was, l := locks, run.entry.value.channel.value;
        locks := (ch: nat) => if ch == l && was(ch) > 0 then was(ch) - 1 else was(ch);
      }
    }

    static lemma TimesSnoc(q: seq<nat>, x: nat)
      ensures forall n: nat :: Times(q + [x], n) == Times(q, n) + if n == x then 1 else 0
    {
    }

    // ---------- Notification ----------

    /** `cache_notify`: all clients that wait for the cache are to be run again, in order. */
    method Notify(cache: nat)
      requires Valid() && run.Idle? && batch == [] && cache < |waitLists|
      modifies `waitLists, `batch
      ensures Valid() && batch == old(waitLists)[cache] && waitLists == old(waitLists)[cache := []]
    {
      hide CountAll;
      hide Times, Has;
      forall key: Key
        ensures CountAll(waitLists[cache := []], key) + Count(waitLists[cache], key) == CountAll(waitLists, key)
      {
        CountUpdate(waitLists, cache, [], key);
      }
      batch, waitLists := waitLists[cache], waitLists[cache := []];
    }

    /** `cache_notify_later`: the same, by an event; this can be called from within a client. */
    method NotifyLater(cache: nat)
      requires Valid() && cache < |waitLists|
      modifies `waitLists, `posted
      ensures Valid() && waitLists == old(waitLists)[cache := []]
      ensures posted == if old(waitLists)[cache] == [] then old(posted) else old(posted) + [old(waitLists)[cache]]
    {
      hide Times, Has;
      if |waitLists[cache]| == 0 {
        assert waitLists == waitLists[cache := []];
        return;
      }
      MovedToPosted(cache);
      posted, waitLists := posted + [waitLists[cache]], waitLists[cache := []];
    }

    lemma MovedToPosted(cache: nat)
      requires cache < |waitLists|
      ensures forall key: Key ::
        CountAll(waitLists[cache := []], key) + CountAll(posted + [waitLists[cache]], key) ==
        CountAll(waitLists, key) + CountAll(posted, key)
    {
      forall key: Key
        ensures CountAll(waitLists[cache := []], key) + CountAll(posted + [waitLists[cache]], key) ==
                CountAll(waitLists, key) + CountAll(posted, key)
      {
        CountUpdate(waitLists, cache, [], key);
        CountAllConcat(posted, [waitLists[cache]], key);
        CountAllOne(waitLists[cache], key);
      }
    }

    /** `cache_notify_event`. */
    method NotifyEvent(k: nat)
      requires Valid() && run.Idle? && batch == [] && k < |posted|
      modifies `posted, `batch
      ensures Valid() && batch == old(posted)[k] && posted == old(posted)[..k] + old(posted)[k + 1..]
    {
      hide CountAll;
      hide Times, Has;
      forall key: Key
        ensures CountAll(posted[..k] + posted[k + 1..], key) + Count(posted[k], key) == CountAll(posted, key)
      {
        CountRemove(posted, k, key);
      }
      batch, posted := posted[k], posted[..k] + posted[k + 1..];
    }

    /** The next client of the batch is run again, under the id and with the arguments it had. */
    method RunNext()
      requires Valid() && run.Idle? && batch != []
      modifies `batch, `run
      ensures Valid() && run == Running(old(batch)[0], Some(old(batch)[0])) && batch == old(batch)[1..]
    {
      hide CountAll, Times;
      var c := batch[0];
      assert One(c, OfTransaction(c.serial)) == 1;
      assert Queued(OfTransaction(c.serial)) + Times(finished, c.serial) <= 1;
      run := Running(c, Some(c));
      batch := batch[1..];
    }

    // ---------- Every run ----------

    /** Transactions have different ids, unless the counter went round between them. */
    lemma IdsUnique(i: nat, j: nat)
      requires Valid() && i < j < |given| && j - i < ids - 1
      ensures given[i] != given[j] && given[i] != 0
    {
      hide Consistent;
      IdsDiffer(i, j, ids);
    }

    /** An unfinished transaction that is not running is in exactly one queue, once, and no other transaction is. */
    lemma WaitsOnce(n: nat)
      requires Valid() && n < started
      ensures run.Idle? ==> Queued(OfTransaction(n)) + Times(finished, n) == 1
      ensures Queued(OfTransaction(n)) <= 1 && Times(finished, n) <= 1
      ensures run.Running? && run.current.serial == n ==> Queued(OfTransaction(n)) == if cacheMissCnt > 0 then 1 else 0
    {
      hide Queued, Times, Locks, Copies;
    }

    /** A client waits, on a list or in a notification, or is being run again. */
    ghost predicate Pending(c: Client)
      reads `waitLists, `posted, `batch, `run
    {
      Among(waitLists, c) || Among(posted, c) || c in batch || (run.Running? && run.entry == Some(c))
    }

    /** A channel is locked exactly while a client of it waits or is run again. */
    lemma ChannelLocked(ch: nat)
      requires Valid()
      ensures locks(ch) > 0 <==> exists c: Client :: Pending(c) && c.channel == Some(ch)
    {
      hide Transactions, Copies, Entries, Count, CountAll, Among;
      var key := OfChannel(ch);
      CountAllIff(waitLists, key);
      CountAllIff(posted, key);
      CountIff(batch, key);
      if locks(ch) > 0 {
        if CountAll(waitLists, key) > 0 {
          var c :| Among(waitLists, c) && Has(c, key);
          assert Pending(c);
        } else if CountAll(posted, key) > 0 {
          var c :| Among(posted, c) && Has(c, key);
          assert Pending(c);
        } else if Count(batch, key) > 0 {
          var c :| c in batch && Has(c, key);
          assert Pending(c);
        } else {
          assert Pending(run.entry.value);
        }
      }
      forall c: Client | Pending(c) && c.channel == Some(ch)
        ensures locks(ch) > 0
      {
        assert Has(c, key);
      }
    }

    /** A copy of arguments is freed at most once, and not while its transaction is unfinished. */
    lemma FreedOnce(k: nat)
      requires Valid()
      ensures Times(freed, k) <= 1 && (Queued(OfCopy(k)) + InRun(OfCopy(k)) > 0 ==> Times(freed, k) == 0)
      ensures k < copies && run.Idle? && Queued(OfCopy(k)) == 0 ==> Times(freed, k) == 1
    {
      hide Queued, Times, Locks, Transactions;
    }
  }
}
