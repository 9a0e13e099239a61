/**
 Commands and replies (protocol.c): outstanding commands wait in a hash table for their replies;
 when a channel is closed its commands are told so.

 A method is one step of the dispatch thread.  While the table is searched for the commands of a
 closed channel the handlers that are called may send commands, so that search is several steps.
 */
module Replies {
  import opened Wrappers

  /**
   A `ReplyHandlerInfo`: whether it has a handler for the final reply and one for progress.  The
   serial number is history: it tells commands apart.
   */
  datatype Reply = Reply(serial: nat, channel: nat, tokenid: nat, handler: bool, progress: bool)

  /** `reply_hash`: the address of the channel and the token, added as unsigned integers. */
  function ReplyHash(channel: nat, tokenid: nat, size: nat): (h: nat)
    requires size > 0
    ensures h < size
  {
    (channel / 16 + tokenid) % 0x1_0000_0000 % size
  }

  // ---------- Chains ----------

  predicate Is(r: Reply, c: nat, t: nat) {
    r.channel == c && r.tokenid == t
  }

  ghost predicate InChain(chain: seq<Reply>, c: nat, t: nat) {
    exists k :: 0 <= k < |chain| && Is(chain[k], c, t)
  }

  /** On one channel no two outstanding commands have the same token. */
  ghost predicate DistinctTokens(chain: seq<Reply>) {
    forall j, k :: 0 <= j < k < |chain| && chain[j].channel == chain[k].channel ==> chain[j].tokenid != chain[k].tokenid
  }

  ghost predicate HashedTo(chain: seq<Reply>, i: nat, size: nat)
    requires size > 0
  {
    forall k :: 0 <= k < |chain| ==> ReplyHash(chain[k].channel, chain[k].tokenid, size) == i
  }

  ghost predicate NoneOf(chain: seq<Reply>, c: nat) {
    forall k :: 0 <= k < |chain| ==> chain[k].channel != c
  }

  ghost predicate WellFormed(chains: seq<seq<Reply>>) {
    |chains| > 0 && forall i :: 0 <= i < |chains| ==> DistinctTokens(chains[i]) && HashedTo(chains[i], i, |chains|)
  }

  /** How often the handler of command `n` is still to be called, in a chain or list, and in the table. */
  ghost function Owed(q: seq<Reply>, n: nat): nat {
    if q == [] then 0 else (if q[0].handler && q[0].serial == n then 1 else 0) + Owed(q[1..], n)
  }

  ghost function OwedAll(chains: seq<seq<Reply>>, n: nat): nat {
    if chains == [] then 0 else Owed(chains[0], n) + OwedAll(chains[1..], n)
  }

  lemma {:induction false} OwedConcat(a: seq<Reply>, b: seq<Reply>, n: nat)
    ensures Owed(a + b, n) == Owed(a, n) + Owed(b, n)
  {
    if a == [] {
      assert a + b == b;
    } else {
      OwedConcat(a[1..], b, n);
      assert (a + b)[1..] == a[1..] + b;
    }
  }

  lemma {:induction false} OwedUpdate(chains: seq<seq<Reply>>, i: nat, chain: seq<Reply>, n: nat)
    requires i < |chains|
    ensures OwedAll(chains[i := chain], n) + Owed(chains[i], n) == OwedAll(chains, n) + Owed(chain, n)
  {
    if i == 0 {
      assert chains[i := chain][1..] == chains[1..];
    } else {
      OwedUpdate(chains[1..], i - 1, chain, n);
      assert chains[i := chain][1..] == chains[1..][i - 1 := chain];
    }
  }

  /** A chain with its element `k` replaced by `middle`. */
  function Splice(chain: seq<Reply>, k: nat, middle: seq<Reply>): seq<Reply>
    requires k < |chain|
  {
    chain[..k] + middle + chain[k + 1..]
  }

  lemma OwedSplice(chain: seq<Reply>, k: nat, middle: seq<Reply>, n: nat)
    requires k < |chain|
    ensures Owed(Splice(chain, k, middle), n) + Owed([chain[k]], n) == Owed(chain, n) + Owed(middle, n)
  {
    OwedConcat(chain[..k] + middle, chain[k + 1..], n);
    OwedConcat(chain[..k], middle, n);
    OwedConcat(chain[..k] + [chain[k]], chain[k + 1..], n);
    OwedConcat(chain[..k], [chain[k]], n);
    assert chain == chain[..k] + [chain[k]] + chain[k + 1..];
  }

  /** Replacing an element by nothing, or by one with the same token, keeps a table well formed. */
  lemma SpliceWellFormed(chains: seq<seq<Reply>>, i: nat, k: nat, middle: seq<Reply>)
    requires WellFormed(chains) && i < |chains| && k < |chains[i]|
    requires middle == [] || (|middle| == 1 && Is(middle[0], chains[i][k].channel, chains[i][k].tokenid))
    ensures WellFormed(chains[i := Splice(chains[i], k, middle)])
  {
    var s := Splice(chains[i], k, middle);
    assert forall j :: 0 <= j < |s| ==>
        var o := if j < k || middle != [] then j else j + 1;
        s[j].channel == chains[i][o].channel && s[j].tokenid == chains[i][o].tokenid;
  }

  /** `DropBefore`, the effect of unlinking element `k` through the head of the chain. */
  lemma DropWellFormed(chains: seq<seq<Reply>>, i: nat, k: nat)
    requires WellFormed(chains) && i < |chains| && k < |chains[i]|
    ensures WellFormed(chains[i := chains[i][k + 1..]])
  {
    var s := chains[i][k + 1..];
    assert forall j :: 0 <= j < |s| ==> s[j] == chains[i][j + k + 1];
  }

  lemma InsertWellFormed(chains: seq<seq<Reply>>, r: Reply)
    requires WellFormed(chains)
    requires var h := ReplyHash(r.channel, r.tokenid, |chains|); !InChain(chains[h], r.channel, r.tokenid)
    ensures var h := ReplyHash(r.channel, r.tokenid, |chains|); WellFormed(chains[h := [r] + chains[h]])
  {
    var h := ReplyHash(r.channel, r.tokenid, |chains|);
    var s := [r] + chains[h];
    forall j, k | 0 <= j < k < |s| && s[j].channel == s[k].channel
      ensures s[j].tokenid != s[k].tokenid
    {
      assert s[k] == chains[h][k - 1];
      if j == 0 {
        assert !Is(chains[h][k - 1], r.channel, r.tokenid);
      } else {
        assert s[j] == chains[h][j - 1];
      }
    }
  }

  /**
   What unlinking the element at `k` leaves of a chain.  The pointer through which it is unlinked
   was taken before the handler ran: if it is the head of the chain, it no longer points to the
   element once the handler has sent a command that was put in front of it.
   */
  function Unlinked(chain: seq<Reply>, k: nat, throughHead: bool): seq<Reply>
    requires k < |chain|
  {
    if throughHead then chain[k + 1..] else Splice(chain, k, [])
  }

  /** Whose commands the handlers in a chain belong to. */
  ghost predicate SentBy(chain: seq<Reply>, owing: map<nat, nat>) {
    forall k :: 0 <= k < |chain| && chain[k].handler ==>
      chain[k].serial in owing && owing[chain[k].serial] == chain[k].channel
  }

  lemma SpliceSentBy(chain: seq<Reply>, k: nat, middle: seq<Reply>, owing: map<nat, nat>)
    requires SentBy(chain, owing) && k < |chain| && (middle == [] || (|middle| == 1 && !middle[0].handler))
    ensures SentBy(Splice(chain, k, middle), owing) && SentBy(chain[k + 1..], owing)
  {
    var s := Splice(chain, k, middle);
    assert forall j :: 0 <= j < |s| && s[j].handler ==> s[j] == chain[if j < k || middle != [] then j else j + 1];
  }

  // ---------- The table ----------

  /** What came of a reply message. */
  datatype Outcome =
    | Unexpected
    | Progress(rh: Reply)
    | ProgressSkipped
    | Final(rh: Reply, invalidCommand: bool)
    | FinalSkipped

  datatype ReplyType = P | N | R

  /**
   The search for commands of a channel that is closed: `i` and `pos` say where it is, `throughHead`
   whether it holds a pointer to the head of the chain, `start` how many commands had been sent.
   */
  datatype Pass =
    | NoPass
    | Walking(c: nat, disconnected: bool, start: nat, i: nat, pos: nat, throughHead: bool)
    | InHandler(c: nat, disconnected: bool, start: nat, i: nat, pos: nat, throughHead: bool)

  /** A command put in front of chain `h` shifts the one whose handler is running. */
  function Shifted(pass: Pass, h: nat): Pass {
    match pass
    case InHandler(c, disconnected, start, i, pos, throughHead) =>
      if i == h then InHandler(c, disconnected, start, i, pos + 1, throughHead) else pass
    case NoPass => pass
    case Walking(_, _, _, _, _, _) => pass
  }

  /** The part of a chain that the search is done with. */
  ghost predicate Walked(chain: seq<Reply>, c: nat, disconnected: bool, start: nat) {
    forall k :: 0 <= k < |chain| && chain[k].channel == c ==>
      !disconnected && (chain[k].handler ==> chain[k].serial >= start)
  }

  /** All that the search has passed is walked, and the channel of a disconnected peer is not open. */
  ghost predicate Searching(pass: Pass, chains: seq<seq<Reply>>, open: set<nat>, sent: nat) {
    match pass
    case NoPass => true
    case Walking(c, disconnected, start, i, pos, throughHead) =>
      && (disconnected ==> c !in open) && start <= sent && i <= |chains|
      && (forall j :: 0 <= j < i ==> Walked(chains[j], c, disconnected, start))
      && (i < |chains| ==>
            pos <= |chains[i]| && (throughHead ==> pos == 0) && Walked(chains[i][..pos], c, disconnected, start))
    case InHandler(c, disconnected, start, i, pos, throughHead) =>
      && (disconnected ==> c !in open) && start <= sent && i < |chains|
      && (forall j :: 0 <= j < i ==> Walked(chains[j], c, disconnected, start))
      && pos < |chains[i]| && chains[i][pos].channel == c && Walked(chains[i][..pos], c, disconnected, start)
  }

  /** A command sent during the search is one that the search need not find. */
  lemma SendKeepsSearching(pass: Pass, chains: seq<seq<Reply>>, open: set<nat>, sent: nat, h: nat, rh: Reply)
    requires Searching(pass, chains, open, sent) && !pass.Walking? && h < |chains|
    requires rh.channel in open && rh.serial == sent
    ensures Searching(Shifted(pass, h), chains[h := [rh] + chains[h]], open, sent + 1)
  {
    match pass
    case InHandler(c, disconnected, start, i, pos, throughHead) =>
      assert ([rh] + chains[i])[..pos + 1] == [rh] + chains[i][..pos];
    case NoPass =>
    case Walking(_, _, _, _, _, _) =>
  }

  /** When a handler has returned the search goes on behind its command. */
  lemma AfterKeepsSearching(pass: Pass, chains: seq<seq<Reply>>, open: set<nat>, sent: nat)
    requires Searching(pass, chains, open, sent) && pass.InHandler?
    ensures pass.i < |chains| && pass.pos < |chains[pass.i]|
    ensures
      var InHandler(c, disconnected, start, i, pos, throughHead) := pass;
      var chain := chains[i];
      if !disconnected then
        Searching(Walking(c, false, start, i, pos + 1, false),
                  chains[i := Splice(chain, pos, [Muted(chain[pos])])], open, sent)
      else if throughHead then Searching(Walking(c, true, start, i, 0, true), chains[i := chain[pos + 1..]], open, sent)
      else Searching(Walking(c, true, start, i, pos, false), chains[i := Splice(chain, pos, [])], open, sent)
  {
    var InHandler(c, disconnected, start, i, pos, throughHead) := pass;
    var chain := chains[i];
    assert Splice(chain, pos, [])[..pos] == chain[..pos];
    assert Splice(chain, pos, [Muted(chain[pos])])[..pos + 1] == chain[..pos] + [Muted(chain[pos])];
  }

  /** How often the handler of a command is owed to those that go with the one whose handler is running. */
  ghost function InFront(pass: Pass, chains: seq<seq<Reply>>, n: nat): nat {
    match pass
    case InHandler(c, disconnected, start, i, pos, throughHead) =>
      if disconnected && throughHead && i < |chains| && pos <= |chains[i]| then Owed(chains[i][..pos], n) else 0
    case NoPass => 0
    case Walking(_, _, _, _, _, _) => 0
  }

  /** What is lost or in front is just what was doomed. */
  ghost predicate JustDoomed(pass: Pass, chains: seq<seq<Reply>>, lost: seq<Reply>, doomed: set<nat>, sent: nat) {
    && (forall n :: n in doomed ==> n < sent)
    && forall n: nat :: Owed(lost, n) + InFront(pass, chains, n) == if n in doomed then 1 else 0
  }

  /** A command sent is put in front just if it falls into the chain that is held by its head. */
  lemma SendInFront(pass: Pass, chains: seq<seq<Reply>>, h: nat, rh: Reply, n: nat)
    requires !pass.Walking? && h < |chains|
    requires pass.InHandler? ==> pass.i < |chains| && pass.pos < |chains[pass.i]|
    ensures
      var more := pass.InHandler? && pass.disconnected && pass.throughHead && pass.i == h;
      InFront(Shifted(pass, h), chains[h := [rh] + chains[h]], n) ==
      InFront(pass, chains, n) + if more then Owed([rh], n) else 0
  {
    match pass
    case InHandler(c, disconnected, start, i, pos, throughHead) =>
      assert ([rh] + chains[i])[..pos + 1] == [rh] + chains[i][..pos];
      OwedConcat([rh], chains[i][..pos], n);
    case NoPass =>
    case Walking(_, _, _, _, _, _) =>
  }

  lemma WalkedOneMore(chain: seq<Reply>, pos: nat, c: nat, disconnected: bool, start: nat)
    requires pos < |chain| && Walked(chain[..pos], c, disconnected, start) && chain[pos].channel != c
    ensures Walked(chain[..pos + 1], c, disconnected, start)
  {
    assert forall k :: 0 <= k < pos ==> chain[..pos + 1][k] == chain[..pos][k];
  }

  lemma WalkedNothing(c: nat, disconnected: bool, start: nat)
    ensures Walked([], c, disconnected, start)
  {
  }

  lemma SpliceTokens(chain: seq<Reply>, k: nat, middle: seq<Reply>, tokens: nat)
    requires k < |chain| && forall j :: 0 <= j < |chain| ==> chain[j].tokenid < tokens
    requires forall j :: 0 <= j < |middle| ==> middle[j].tokenid < tokens
    ensures forall j :: 0 <= j < |Splice(chain, k, middle)| ==> Splice(chain, k, middle)[j].tokenid < tokens
  {
  }

  ghost function Count(q: seq<nat>, n: nat): nat {
    multiset(q)[n]
  }

  class ReplyTable {
    // The number of values of an unsigned long.
    const tokens: nat
    var chains: seq<seq<Reply>>
    // The token counter of the protocol, and the channels that commands can be sent on.
    var tokenid: nat
    var open: set<nat>
    var pass: Pass
    // Commands that failed at once; an event will call their handlers.
    var failing: seq<Reply>
    var sent: nat
    // The history: the channels of commands with a handler, and what became of commands.
    ghost var owing: map<nat, nat>
    ghost var called: seq<nat>
    ghost var lost: seq<Reply>
    // The commands that `Dooms` held for when they were sent.
    ghost var doomed: set<nat>

    ghost predicate Table()
      reads `chains, `tokenid
    {
      && |chains| > 0 && WellFormed(chains) && tokenid < tokens
      && forall i, k :: 0 <= i < |chains| && 0 <= k < |chains[i]| ==> chains[i][k].tokenid < tokens
    }

    ghost predicate Ledger()
      reads `chains, `failing, `called, `lost, `owing, `sent
    {
      Balanced(chains, failing, called, lost, owing, sent)
    }

    /** The handler of each command is owed to its sender, or was called, or was lost: once. */
    static ghost predicate Balanced(chains: seq<seq<Reply>>, failing: seq<Reply>, called: seq<nat>, lost: seq<Reply>,
                                    owing: map<nat, nat>, sent: nat) {
      && (forall n :: n in owing ==> n < sent)
      && (forall i :: 0 <= i < |chains| ==> SentBy(chains[i], owing))
      && forall n: nat ::
           OwedAll(chains, n) + Owed(failing, n) + Count(called, n) + Owed(lost, n) == if n in owing then 1 else 0
    }

    ghost predicate Search()
      reads `pass, `chains, `open, `sent
    {
      Searching(pass, chains, open, sent)
    }

    /** Lost, or to be lost when the handler that is running returns, are just the doomed commands. */
    ghost predicate Doom()
      reads `pass, `chains, `lost, `doomed, `sent
    {
      JustDoomed(pass, chains, lost, doomed, sent)
    }

    ghost predicate Valid()
      reads this
    {
      Table() && Ledger() && Search() && Doom()
    }

    /**
     A command sent now with this token falls into the chain that the search for the commands of a
     disconnected channel is about to unlink one from, through its head.
     */
    predicate Dooms(c: nat, t: nat)
      requires |chains| > 0
      reads `pass, `chains
    {
      pass.InHandler? && pass.disconnected && pass.throughHead && ReplyHash(c, t, |chains|) == pass.i
    }

    ghost predicate Outstanding(c: nat, t: nat)
      reads `chains
    {
      exists i :: 0 <= i < |chains| && InChain(chains[i], c, t)
    }

    lemma OutstandingInItsChain(c: nat, t: nat)
      requires WellFormed(chains)
      ensures Outstanding(c, t) <==> InChain(chains[ReplyHash(c, t, |chains|)], c, t)
    {
      if Outstanding(c, t) {
        var i :| 0 <= i < |chains| && InChain(chains[i], c, t);
        assert DistinctTokens(chains[i]) && HashedTo(chains[i], i, |chains|);
      }
    }

    constructor (size: nat, tokens: nat)
      requires size > 0 && tokens > 1
      ensures Valid() && pass.NoPass? && chains == seq(size, i => []) && this.tokens == tokens
      ensures open == {} && sent == 0 && tokenid == 1 && failing == [] && called == [] && lost == [] && doomed == {}
    {
      this.tokens := tokens;
      chains := seq(size, i => []);
      tokenid, open, pass, failing, sent := 1, {}, NoPass, [], 0;
      owing, called, lost, doomed := map[], [], [], {};
      new;
      forall n: nat
        ensures OwedAll(chains, n) == 0
      {
        NothingOwed(chains, n);
      }
    }

    static lemma {:induction false} NothingOwed(chains: seq<seq<Reply>>, n: nat)
      requires forall i :: 0 <= i < |chains| ==> chains[i] == []
      ensures OwedAll(chains, n) == 0
    {
      if chains != [] {
        NothingOwed(chains[1..], n);
      }
    }

    /** `find_reply_handler`, without taking. */
    method FindReply(c: nat, t: nat) returns (k: Option<nat>)
      requires WellFormed(chains)
      ensures k.Some? <==> Outstanding(c, t)
      ensures
        var h := ReplyHash(c, t, |chains|);
        k.Some? ==> k.value < |chains[h]| && Is(chains[h][k.value], c, t)
    {
      OutstandingInItsChain(c, t);
      var h := ReplyHash(c, t, |chains|);
      var j := 0;
      while j < |chains[h]|
        invariant j <= |chains[h]| && forall l :: 0 <= l < j ==> !Is(chains[h][l], c, t)
      {
        var rh := chains[h][j];
        if rh.channel == c && rh.tokenid == t {
          assert Is(chains[h][j], c, t);
          return Some(j);
        }
        j := j + 1;
      }
      k := None;
    }

    /** The choice of a token: the next ones that are outstanding on the channel are skipped. */
    method NextToken(c: nat, ghost unused: nat) returns (t: nat)
      requires Table() && unused < tokens && !Outstanding(c, unused)
      modifies `tokenid
      ensures Table() && t < tokens && !Outstanding(c, t)
      ensures !Outstanding(c, old(tokenid)) ==> t == old(tokenid) && tokenid == if t + 1 < tokens then t + 1 else 0
    {
      hide WellFormed, Outstanding;
      t := tokenid;
      tokenid := if tokenid + 1 < tokens then tokenid + 1 else 0;
      var k := FindReply(c, t);
      while k.Some?
        invariant Table() && t < tokens && (k.Some? <==> Outstanding(c, t))
        invariant tokenid == if t + 1 < tokens then t + 1 else 0
        invariant !Outstanding(c, old(tokenid)) ==> t == old(tokenid)
        decreases if t <= unused then unused - t else unused + tokens - t
      {
        t := tokenid;
        tokenid := if tokenid + 1 < tokens then tokenid + 1 else 0;
        k := FindReply(c, t);
      }
    }

    /**
     `protocol_send_command_with_progress`: on a channel that is not open the command fails by an
     event; otherwise it gets a token and waits at the head of its chain.
     */
    method Send(c: nat, handler: bool, progress: bool, ghost unused: nat) returns (rh: Reply)
      requires Valid() && !pass.Walking?
      requires c in open ==> unused < tokens && !Outstanding(c, unused)
      modifies `chains, `tokenid, `failing, `sent, `pass, `owing, `doomed
      ensures Valid() && sent == old(sent) + 1
      ensures rh == Reply(old(sent), c, rh.tokenid, handler, progress)
      ensures owing == if handler then old(owing)[rh.serial := c] else old(owing)
      ensures c !in open ==> failing == old(failing) + [rh] && chains == old(chains) && pass == old(pass)
      ensures
        var h := ReplyHash(c, rh.tokenid, |old(chains)|);
        c in open ==>
          && !old(Outstanding(c, rh.tokenid)) && failing == old(failing)
          && chains == old(chains)[h := [rh] + old(chains)[h]]
          && pass == Shifted(old(pass), h)
      ensures
        c in open && !old(Outstanding(c, tokenid)) ==>
          rh.tokenid == old(tokenid) && tokenid == if rh.tokenid + 1 < tokens then rh.tokenid + 1 else 0
      ensures doomed ==
        if c in open && handler && old(Dooms(c, rh.tokenid)) then old(doomed) + {rh.serial} else old(doomed)
    {
      hide Table, Ledger, Search, Doom, Dooms;
      if c !in open {
        rh := Reply(sent, c, 0, handler, progress);
        Fail(rh);
      } else {
        var t := NextToken(c, unused);
        rh := Reply(sent, c, t, handler, progress);
        Enter(rh);
      }
    }

    method Fail(rh: Reply)
      requires Valid() && rh.serial == sent
      modifies `failing, `sent, `owing
      ensures Valid() && sent == old(sent) + 1 && failing == old(failing) + [rh]
      ensures owing == if rh.handler then old(owing)[rh.serial := rh.channel] else old(owing)
    {
      hide Table, OwedAll, Count, Owed, InFront;
      forall n: nat
        ensures Owed(failing + [rh], n) == Owed(failing, n) + if rh.handler && rh.serial == n then 1 else 0
      {
        OwedConcat(failing, [rh], n);
        OwedOne(rh, n);
      }
      failing := failing + [rh];
      sent := sent + 1;
      owing := if rh.handler then owing[rh.serial := rh.channel] else owing;
    }

    static lemma OwedOne(rh: Reply, n: nat)
      ensures Owed([rh], n) == if rh.handler && rh.serial == n then 1 else 0
    {
    }

    method Enter(rh: Reply)
      requires Valid() && !pass.Walking? && rh.serial == sent && rh.tokenid < tokens && rh.channel in open
      requires !Outstanding(rh.channel, rh.tokenid)
      modifies `chains, `sent, `pass, `owing, `doomed
      ensures Valid() && sent == old(sent) + 1
      ensures owing == if rh.handler then old(owing)[rh.serial := rh.channel] else old(owing)
      ensures
        var h := ReplyHash(rh.channel, rh.tokenid, |old(chains)|);
        && chains == old(chains)[h := [rh] + old(chains)[h]]
        && pass == Shifted(old(pass), h)
      ensures doomed ==
        if rh.handler && old(Dooms(rh.channel, rh.tokenid)) then old(doomed) + {rh.serial} else old(doomed)
    {
      hide Balanced, ReplyHash, WellFormed, Searching, Shifted, Outstanding, JustDoomed;
      var h := ReplyHash(rh.channel, rh.tokenid, |chains|);
      NotInItsChain(rh);
      InsertWellFormed(chains, rh);
      EnteredLedger(h, rh);
      SendKeepsSearching(pass, chains, open, sent, h, rh);
      EnteredDoom(h, rh);
      doomed := if rh.handler && Dooms(rh.channel, rh.tokenid) then doomed + {rh.serial} else doomed;
      chains := chains[h := [rh] + chains[h]];
      sent := sent + 1;
      owing := if rh.handler then owing[rh.serial := rh.channel] else owing;
      pass := Shifted(pass, h);
    }

    lemma NotInItsChain(rh: Reply)
      requires WellFormed(chains) && !Outstanding(rh.channel, rh.tokenid)
      ensures !InChain(chains[ReplyHash(rh.channel, rh.tokenid, |chains|)], rh.channel, rh.tokenid)
    {
    }

    lemma EnteredOwed(h: nat, rh: Reply)
      requires h < |chains|
      ensures forall n: nat ::
        OwedAll(chains[h := [rh] + chains[h]], n) == OwedAll(chains, n) + if rh.handler && rh.serial == n then 1 else 0
    {
      forall n: nat
        ensures OwedAll(chains[h := [rh] + chains[h]], n) ==
                OwedAll(chains, n) + if rh.handler && rh.serial == n then 1 else 0
      {
        OwedUpdate(chains, h, [rh] + chains[h], n);
        OwedConcat([rh], chains[h], n);
        OwedOne(rh, n);
      }
    }

    lemma EnteredLedger(h: nat, rh: Reply)
      requires Ledger() && h < |chains| && rh.serial == sent
      ensures
        var now := if rh.handler then owing[rh.serial := rh.channel] else owing;
        Balanced(chains[h := [rh] + chains[h]], failing, called, lost, now, sent + 1)
    {
      hide OwedAll, Owed, Count;
      EnteredOwed(h, rh);
    }

    lemma EnteredDoom(h: nat, rh: Reply)
      requires Search() && Doom() && !pass.Walking? && rh.serial == sent
      requires |chains| > 0 && h == ReplyHash(rh.channel, rh.tokenid, |chains|)
      ensures
        var now := if rh.handler && Dooms(rh.channel, rh.tokenid) then doomed + {rh.serial} else doomed;
        JustDoomed(Shifted(pass, h), chains[h := [rh] + chains[h]], lost, now, sent + 1)
    {
      hide InFront, Shifted, Owed, ReplyHash;
      var more := pass.InHandler? && pass.disconnected && pass.throughHead && pass.i == h;
      forall n: nat
        ensures
          InFront(Shifted(pass, h), chains[h := [rh] + chains[h]], n) ==
          InFront(pass, chains, n) + if more && rh.handler && rh.serial == n then 1 else 0
      {
        SendInFront(pass, chains, h, rh, n);
        OwedOne(rh, n);
      }
    }

    /** The event that `Send` posts for a command that failed. */
    method DispatchFailed(k: nat) returns (rh: Reply)
      requires Valid() && pass.NoPass? && k < |failing|
      modifies `failing, `called
      ensures Valid() && rh == old(failing)[k] && failing == old(failing)[..k] + old(failing)[k + 1..]
      ensures called == if rh.handler then old(called) + [rh.serial] else old(called)
    {
      hide Table, OwedAll, Owed, Count;
      rh := failing[k];
      forall n: nat
        ensures Owed(Splice(failing, k, []), n) + (if rh.handler && rh.serial == n then 1 else 0) == Owed(failing, n)
      {
        OwedSplice(failing, k, [], n);
        OwedOne(rh, n);
        OwedNone(n);
      }
      CountSnoc(called, rh.serial);
      failing := Splice(failing, k, []);
      if rh.handler {
        called := called + [rh.serial];
      }
    }

    static lemma OwedNone(n: nat)
      ensures Owed([], n) == 0
    {
    }

    static lemma CountSnoc(q: seq<nat>, x: nat)
      ensures forall n: nat :: Count(q + [x], n) == Count(q, n) + if n == x then 1 else 0
    {
    }

    /**
     The reply branch of `handle_protocol_message`, for a message of the given type whose token was
     read as a number, or not.  Progress leaves the command where it is; a final reply takes it out.
     */
    method HandleReply(c: nat, reply: ReplyType, token: Option<nat>) returns (o: Outcome, k: nat)
      requires Valid() && pass.NoPass?
      modifies `chains, `called
      ensures Valid()
      ensures o.Unexpected? <==> token.None? || !old(Outstanding(c, token.value))
      ensures reply.P? || o.Unexpected? ==> chains == old(chains) && called == old(called)
      ensures
        !o.Unexpected? ==>
          var h := ReplyHash(c, token.value, |old(chains)|);
          && At(old(chains), h, k, c, token.value)
          && var rh := old(chains)[h][k];
          && (reply.P? ==> o == if rh.progress then Progress(rh) else ProgressSkipped)
          && (!reply.P? ==>
                && o == (if rh.handler then Final(rh, reply.N?) else FinalSkipped)
                && called == (if rh.handler then old(called) + [rh.serial] else old(called))
                && chains == old(chains)[h := Splice(old(chains)[h], k, [])])
    {
      hide Ledger, Outstanding, WellFormed;
      k := 0;
      if token.None? {
        return Unexpected, 0;
      }
      var h := ReplyHash(c, token.value, |chains|);
      var found := FindReply(c, token.value);
      if found.None? {
        return Unexpected, 0;
      }
      k := found.value;
      var rh := chains[h][k];
      if reply.P? {
        o := if rh.progress then Progress(rh) else ProgressSkipped;
      } else {
        Unlink(h, k);
        o := if rh.handler then Final(rh, reply.N?) else FinalSkipped;
      }
    }

    /** The command with this token on this channel is at this place. */
    static ghost predicate At(chains: seq<seq<Reply>>, i: nat, k: nat, c: nat, t: nat) {
      i < |chains| && k < |chains[i]| && Is(chains[i][k], c, t)
    }

    /** Replacing a command by nothing, or by one without a handler, takes what was owed. */
    lemma SpliceOwed(i: nat, k: nat, middle: seq<Reply>)
      requires i < |chains| && k < |chains[i]|
      requires middle == [] || (|middle| == 1 && !middle[0].handler)
      ensures forall n: nat ::
        OwedAll(chains[i := Splice(chains[i], k, middle)], n) +
        (if chains[i][k].handler && chains[i][k].serial == n then 1 else 0) == OwedAll(chains, n)
    {
      forall n: nat
        ensures OwedAll(chains[i := Splice(chains[i], k, middle)], n) +
                (if chains[i][k].handler && chains[i][k].serial == n then 1 else 0) == OwedAll(chains, n)
      {
        OwedUpdate(chains, i, Splice(chains[i], k, middle), n);
        OwedSplice(chains[i], k, middle, n);
        OwedOne(chains[i][k], n);
      }
    }

    /** The peer has said hello: commands can be sent on the channel. */
    method Open(c: nat)
      requires Valid() && pass.NoPass?
      modifies `open
      ensures Valid() && open == old(open) + {c}
    {
      hide Table, Ledger;
      open := open + {c};
    }

    // ---------- Closing ----------

    /** `channel_closed` begins, for a channel that is disconnected or, if not, redirected. */
    method BeginClose(c: nat, disconnected: bool)
      requires Valid() && pass.NoPass?
      modifies `pass, `open
      ensures Valid() && pass == Walking(c, disconnected, sent, 0, 0, true)
      ensures open == if disconnected then old(open) - {c} else old(open)
    {
      hide Table, Ledger;
      if disconnected {
        open := open - {c};
      }
      pass := Walking(c, disconnected, sent, 0, 0, true);
    }

    /** The search goes one step on, to the next command, the next chain or the end; it may find a command of `c`. */
    method Walk() returns (found: Option<Reply>)
      requires Valid() && pass.Walking?
      modifies `pass, `open
      ensures Valid() && !(found.Some? && pass.NoPass?)
      ensures
        found.Some? ==>
          && pass.InHandler?
          && old(pass) == Walking(pass.c, pass.disconnected, pass.start, pass.i, pass.pos, pass.throughHead)
          && found.value == chains[pass.i][pass.pos] && found.value.channel == pass.c && open == old(open)
      ensures
        found.None? && !pass.NoPass? ==>
          var Walking(c, disconnected, start, i, pos, throughHead) := old(pass);
          && i < |chains| && open == old(open)
          && (if pos == |chains[i]| then pass == Walking(c, disconnected, start, i + 1, 0, true)
              else (pos < |chains[i]| && chains[i][pos].channel != c &&
                    pass == Walking(c, disconnected, start, i, pos + 1, false)))
      ensures
        pass.NoPass? ==>
          && old(pass.i) == |chains| && open == old(open) - {old(pass.c)}
          && forall i :: 0 <= i < |chains| ==> Walked(chains[i], old(pass.c), old(pass.disconnected), old(pass.start))
      ensures pass.NoPass? && old(pass.disconnected) ==>
        forall i :: 0 <= i < |chains| ==> NoneOf(chains[i], old(pass.c))
    {
      hide Table, Ledger, Walked;
      found := None;
      match pass
      case Walking(c, disconnected, start, i, pos, throughHead) =>
        if i == |chains| {
          WalkedAll(c, disconnected, start);
          pass := NoPass;
          open := open - {c};
        } else if pos == |chains[i]| {
          assert chains[i][..pos] == chains[i];
          WalkedNothing(c, disconnected, start);
          pass := Walking(c, disconnected, start, i + 1, 0, true);
        } else if chains[i][pos].channel == c {
          found := Some(chains[i][pos]);
          pass := InHandler(c, disconnected, start, i, pos, throughHead);
        } else {
          WalkedOneMore(chains[i], pos, c, disconnected, start);
          pass := Walking(c, disconnected, start, i, pos + 1, false);
        }
    }

    lemma WalkedAll(c: nat, disconnected: bool, start: nat)
      requires forall i :: 0 <= i < |chains| ==> Walked(chains[i], c, disconnected, start)
      ensures disconnected ==> forall i :: 0 <= i < |chains| ==> NoneOf(chains[i], c)
    {
    }

    /**
     The handler has returned, with whatever commands it sent.  If the channel is disconnected the
     command is unlinked, and with it what was put in front of it if the search holds the head of
     the chain; otherwise it stays, without its handlers, to intercept a reply.
     */
    method AfterHandler()
      requires Valid() && pass.InHandler?
      modifies `chains, `called, `lost, `pass
      ensures Valid()
      ensures
        var InHandler(c, disconnected, start, i, pos, throughHead) := old(pass);
        var chain := old(chains)[i];
        && called == (if chain[pos].handler then old(called) + [chain[pos].serial] else old(called))
        && chains == old(chains)[i :=
             if disconnected then Unlinked(chain, pos, throughHead) else Splice(chain, pos, [Muted(chain[pos])])]
        && lost == (if disconnected && throughHead then old(lost) + chain[..pos] else old(lost))
        && pass == if disconnected then Walking(c, disconnected, start, i, if throughHead then 0 else pos, throughHead)
                   else Walking(c, disconnected, start, i, pos + 1, false)
    {
      hide Table, Ledger, Searching, Walked, Owed;
      AfterKeepsSearching(pass, chains, open, sent);
      LostInFront();
      match pass
      case InHandler(c, disconnected, start, i, pos, throughHead) =>
        if !disconnected {
          Mute(i, pos);
        } else if throughHead {
          UnlinkHead(i, pos);
        } else {
          Unlink(i, pos);
        }
        pass := if disconnected then Walking(c, disconnected, start, i, if throughHead then 0 else pos, throughHead)
                else Walking(c, disconnected, start, i, pos + 1, false);
    }

    /**
     When the handler has returned, what is lost is what was in front of its command, if it is
     unlinked by the head.
     */
    lemma LostInFront()
      requires pass.InHandler? && pass.i < |chains| && pass.pos < |chains[pass.i]|
      ensures forall n: nat ::
        Owed(if pass.disconnected && pass.throughHead then lost + chains[pass.i][..pass.pos] else lost, n) ==
        Owed(lost, n) + InFront(pass, chains, n)
    {
      hide Owed;
      forall n: nat
        ensures Owed(if pass.disconnected && pass.throughHead then lost + chains[pass.i][..pass.pos] else lost, n) ==
                Owed(lost, n) + InFront(pass, chains, n)
      {
        OwedConcat(lost, chains[pass.i][..pass.pos], n);
      }
    }

    /** The command keeps its place and loses its handlers. */
    method Mute(i: nat, pos: nat)
      requires Table() && Ledger() && i < |chains| && pos < |chains[i]|
      modifies `chains, `called
      ensures Table() && Ledger()
      ensures chains == old(chains)[i := Splice(old(chains)[i], pos, [Muted(old(chains)[i][pos])])]
      ensures
        var rh := old(chains)[i][pos];
        called == if rh.handler then old(called) + [rh.serial] else old(called)
    {
      hide WellFormed, OwedAll, Owed, Count, SentBy, Splice;
      var rh := chains[i][pos];
      SpliceWellFormed(chains, i, pos, [Muted(rh)]);
      SpliceOwed(i, pos, [Muted(rh)]);
      SpliceSentBy(chains[i], pos, [Muted(rh)], owing);
      SpliceTokens(chains[i], pos, [Muted(rh)], tokens);
      CountSnoc(called, rh.serial);
      chains := chains[i := Splice(chains[i], pos, [Muted(rh)])];
      if rh.handler {
        called := called + [rh.serial];
      }
    }

    /** The command alone is unlinked, its handler called or about to be. */
    method Unlink(i: nat, pos: nat)
      requires Table() && Ledger() && i < |chains| && pos < |chains[i]|
      modifies `chains, `called
      ensures Table() && Ledger() && chains == old(chains)[i := Splice(old(chains)[i], pos, [])]
      ensures
        var rh := old(chains)[i][pos];
        called == if rh.handler then old(called) + [rh.serial] else old(called)
    {
      hide WellFormed, OwedAll, Owed, Count, SentBy, Splice;
      var rh := chains[i][pos];
      SpliceWellFormed(chains, i, pos, []);
      SpliceOwed(i, pos, []);
      SpliceSentBy(chains[i], pos, [], owing);
      SpliceTokens(chains[i], pos, [], tokens);
      CountSnoc(called, rh.serial);
      chains := chains[i := Splice(chains[i], pos, [])];
      if rh.handler {
        called := called + [rh.serial];
      }
    }

    /** The command is unlinked through the head of its chain. */
    method UnlinkHead(i: nat, pos: nat)
      requires Table() && Ledger() && i < |chains| && pos < |chains[i]|
      modifies `chains, `called, `lost
      ensures Table() && Ledger() && chains == old(chains)[i := old(chains)[i][pos + 1..]]
      ensures lost == old(lost) + old(chains)[i][..pos]
      ensures
        var rh := old(chains)[i][pos];
        called == if rh.handler then old(called) + [rh.serial] else old(called)
    {
      hide WellFormed, OwedAll, Owed, Count, SentBy, Splice;
      var rh := chains[i][pos];
      DropWellFormed(chains, i, pos);
      DropOwed(i, pos);
      SpliceSentBy(chains[i], pos, [], owing);
      CountSnoc(called, rh.serial);
      lost := lost + chains[i][..pos];
      chains := chains[i := chains[i][pos + 1..]];
      if rh.handler {
        called := called + [rh.serial];
      }
    }

    lemma DropOwed(i: nat, k: nat)
      requires i < |chains| && k < |chains[i]|
      ensures forall n: nat ::
        OwedAll(chains[i := chains[i][k + 1..]], n) + Owed(lost + chains[i][..k], n) +
        (if chains[i][k].handler && chains[i][k].serial == n then 1 else 0) == OwedAll(chains, n) + Owed(lost, n)
    {
      forall n: nat
        ensures OwedAll(chains[i := chains[i][k + 1..]], n) + Owed(lost + chains[i][..k], n) +
                (if chains[i][k].handler && chains[i][k].serial == n then 1 else 0) ==
                OwedAll(chains, n) + Owed(lost, n)
      {
        var chain := chains[i];
        OwedUpdate(chains, i, chain[k + 1..], n);
        OwedConcat(lost, chain[..k], n);
        OwedConcat(chain[..k] + [chain[k]], chain[k + 1..], n);
        OwedConcat(chain[..k], [chain[k]], n);
        OwedOne(chain[k], n);
        assert chain == chain[..k] + [chain[k]] + chain[k + 1..];
      }
    }

    // ---------- Every run ----------

    /** On each channel the tokens of outstanding commands are pairwise distinct. */
    lemma TokensDistinct(i: nat, j: nat, k: nat, l: nat)
      requires Valid() && i < |chains| && j < |chains| && k < |chains[i]| && l < |chains[j]| && (i != j || k != l)
      ensures !(chains[i][k].channel == chains[j][l].channel && chains[i][k].tokenid == chains[j][l].tokenid)
    {
      hide Ledger, Search, ReplyHash;
      assert HashedTo(chains[i], i, |chains|) && HashedTo(chains[j], j, |chains|) && DistinctTokens(chains[i]);
    }

    /** No handler is called twice with a final result. */
    lemma CalledAtMostOnce(n: nat)
      requires Valid()
      ensures Count(called, n) <= 1
    {
      hide Table, Search, Count, OwedAll, Owed, SentBy;
    }

    /**
     Once a search is over and none of its commands is in the table, as after a disconnect, a command
     with a handler that was sent on a channel has been called, or will be by an event, exactly once,
     if and only if it was not doomed when it was sent; if it was it is lost.
     */
    lemma CalledOnDisconnect(c: nat, n: nat)
      requires Valid() && pass.NoPass? && n in owing && owing[n] == c
      requires forall i :: 0 <= i < |chains| ==> NoneOf(chains[i], c)
      ensures Count(called, n) + Owed(failing, n) == 1 <==> n !in doomed
      ensures n in doomed <==> Count(called, n) + Owed(failing, n) == 0 && Owed(lost, n) == 1
    {
      hide Table, Search, Count, Owed;
      NoneOwed(chains, c, n);
    }

    lemma {:induction false} NoneOwed(chs: seq<seq<Reply>>, c: nat, n: nat)
      requires n in owing && owing[n] == c
      requires forall i :: 0 <= i < |chs| ==> NoneOf(chs[i], c) && SentBy(chs[i], owing)
      ensures OwedAll(chs, n) == 0
    {
      if chs != [] {
        NoneOwedIn(chs[0], c, n);
        NoneOwed(chs[1..], c, n);
      }
    }

    lemma {:induction false} NoneOwedIn(chain: seq<Reply>, c: nat, n: nat)
      requires n in owing && owing[n] == c
      requires NoneOf(chain, c) && SentBy(chain, owing)
      ensures Owed(chain, n) == 0
    {
      if chain != [] {
        NoneOwedIn(chain[1..], c, n);
      }
    }
  }

  /** A table in which the command `first` is outstanding on channel 32 and channel 16 is open. */
  predicate OneOutstanding(table: ReplyTable, first: Reply)
    reads table
  {
    && first == Reply(0, 32, 1, true, false) && table.tokens == 0x1_0000_0000 && table.tokenid == 2
    && table.chains == [[], [], [], [first], [], [], []] && 16 in table.open && table.sent == 1
    && table.failing == []
  }

  method SendFirst() returns (table: ReplyTable, first: Reply)
    ensures fresh(table) && table.Valid() && table.pass.NoPass? && OneOutstanding(table, first)
    ensures table.called == [] && table.lost == []
  {
    hide ReplyTable.Table, ReplyTable.Ledger, ReplyTable.Search, ReplyTable.Doom;
    table := new ReplyTable(7, 0x1_0000_0000);
    table.Open(32);
    table.Open(16);
    first := table.Send(32, true, false, 1);
    assert [first] + [] == [first] && table.chains[3] == [first];
  }

  /** The search for the commands of channel 32 finds it at the head of its chain. */
  method CloseFirst(table: ReplyTable, ghost first: Reply)
    requires table.Valid() && table.pass.NoPass? && OneOutstanding(table, first)
    modifies table`pass, table`open
    ensures table.Valid() && table.pass == InHandler(32, true, 1, 3, 0, true) && OneOutstanding(table, first)
  {
    hide ReplyTable.Table, ReplyTable.Ledger, ReplyTable.Doom;
    table.BeginClose(32, true);
    var found := table.Walk();
    found := table.Walk();
    found := table.Walk();
    found := table.Walk();
  }

  /**
   How a reply is lost: channel 32 is disconnected with one command outstanding, the first of its
   chain, and its handler sends a command on channel 16 that falls into the same chain.  Unlinking
   the first one leaves neither: the second will never be called.
   */
  method LoseReply() returns (table: ReplyTable, second: Reply)
    ensures fresh(table) && table.Valid() && table.pass.Walking?
    ensures second == Reply(1, 16, 2, true, false) && table.lost == [second] && table.called == [0]
    ensures table.failing == [] && table.chains == [[], [], [], [], [], [], []]
  {
    hide ReplyTable.Table, ReplyTable.Ledger, ReplyTable.Doom, ReplyTable.Search;
    var first: Reply;
    table, first := SendFirst();
    CloseFirst(table, first);
    second := table.Send(16, true, false, 2);
    table.AfterHandler();
  }

  /** `rh` without its handlers. */
  function Muted(rh: Reply): Reply {
    rh.(handler := false, progress := false)
  }
}
