/**
 The input buffer of an unbuffered channel (inputbuf.c): a growable ring, filled by
 asynchronous reads and drained by message handlers.  The escape/length automaton of the wire
 format runs twice over it: at the fill pointer `inp`, to count waiting messages, and at the
 read pointer, to hand out symbols.
 */
module InputBuffer {
  import opened Framing

  datatype HandleMsg = Idle | Triggered | Active

  /** What the fill-side parser keeps about messages. */
  datatype Counters = Counters(eof: bool, longMsg: bool, messageCount: nat)

  /** `message_count` against the number of end-of-message markers not yet consumed. */
  ghost predicate Balanced(k: Counters, waiting: int) {
    && waiting >= 0
    && k.messageCount == waiting + (if k.longMsg then 1 else 0) + (if k.eof then 1 else 0)
    && (k.longMsg ==> waiting == 0)
  }

  function OnEof(k: Counters): Counters {
    if k.eof then k else k.(eof := true, messageCount := k.messageCount + 1)
  }

  /** The effect on the counters of one symbol passing the fill pointer. */
  function OnSymbol(k: Counters, s: Symbol): Counters {
    match s
    case Data(_) => k
    case Eom => if k.longMsg then k.(longMsg := false) else k.(messageCount := k.messageCount + 1)
    case _ => OnEof(k)
  }

  /** A full buffer with no message counted starts a long message; nothing can be read then. */
  function Impatient(k: Counters, reading: bool): Counters {
    if !k.eof && !reading && k.messageCount == 0 then Counters(false, true, 1) else k
  }

  function OnSymbols(k: Counters, syms: seq<Symbol>): Counters
    decreases |syms|
  {
    if syms == [] then k else OnSymbols(OnSymbol(k, syms[0]), syms[1..])
  }

  lemma {:induction false} OnSymbolsConcat(k: Counters, a: seq<Symbol>, b: seq<Symbol>)
    ensures OnSymbols(k, a + b) == OnSymbols(OnSymbols(k, a), b)
    decreases |a|
  {
    if a == [] {
      assert a + b == b;
    } else {
      assert (a + b)[1..] == a[1..] + b;
      OnSymbolsConcat(OnSymbol(k, a[0]), a[1..], b);
    }
  }

  lemma {:induction false} OnSymbolsOfData(k: Counters, bs: seq<byte>)
    ensures OnSymbols(k, DataSyms(bs)) == k
  {
    if bs != [] {
      assert DataSyms(bs)[1..] == DataSyms(bs[1..]);
      OnSymbolsOfData(k, bs[1..]);
    }
  }

  /** Scanning symbols keeps the message count balanced. */
  lemma {:induction false} OnSymbolsBalanced(k: Counters, syms: seq<Symbol>, waiting: int)
    requires Balanced(k, waiting)
    ensures Balanced(OnSymbols(k, syms), waiting + CountEom(syms))
    ensures OnSymbols(k, syms).eof <==> k.eof || Eos in syms || Invalid in syms
    ensures OnSymbols(k, syms).longMsg <==> k.longMsg && CountEom(syms) == 0
    ensures OnSymbols(k, syms).messageCount >= k.messageCount
    decreases |syms|
  {
    if syms != [] {
      OnSymbolsBalanced(OnSymbol(k, syms[0]), syms[1..], waiting + if syms[0] == Eom then 1 else 0);
    }
  }

  /** The check made when a long message ends: it must be the only one counted. */
  predicate LongMessageCheck(k: Counters, syms: seq<Symbol>)
    decreases |syms|
  {
    syms == [] ||
    ((syms[0] == Eom && k.longMsg ==> k.messageCount == 1) &&
     LongMessageCheck(OnSymbol(k, syms[0]), syms[1..]))
  }

  /** Whether an end-of-file indication comes before the first end of message. */
  predicate EofBeforeEom(syms: seq<Symbol>) {
    syms != [] && (syms[0] == Eos || syms[0] == Invalid || (syms[0] != Eom && EofBeforeEom(syms[1..])))
  }

  /**
   The check holds exactly when no end-of-file indication is recorded before the end of the
   long message: a long message cut short by an EOS marker trips it.
   */
  lemma {:induction false} LongMessageCheckExact(k: Counters, syms: seq<Symbol>)
    requires Balanced(k, 0)
    ensures !k.longMsg ==> LongMessageCheck(k, syms)
    ensures k.longMsg ==>
      (LongMessageCheck(k, syms) <==> Eom !in syms || !(k.eof || EofBeforeEom(syms)))
    decreases |syms|
  {
    if syms == [] {
    } else if syms[0] == Eom {
      NoLongMessageNoCheck(OnSymbol(k, Eom), syms[1..]);
    } else {
      LongMessageCheckExact(OnSymbol(k, syms[0]), syms[1..]);
      assert Eom in syms <==> Eom in syms[1..];
      if !k.longMsg {
        NoLongMessageNoCheck(k, syms);
      }
    }
  }

  lemma {:induction false} NoLongMessageNoCheck(k: Counters, syms: seq<Symbol>)
    requires !k.longMsg
    ensures LongMessageCheck(k, syms)
    decreases |syms|
  {
    if syms != [] {
      NoLongMessageNoCheck(OnSymbol(k, syms[0]), syms[1..]);
    }
  }

  /** The failing case: the bytes of EOS, then EOM, while a long message is being handled. */
  lemma LongMessageCheckFails()
    ensures !LongMessageCheck(Counters(false, true, 1), Decode(Plain, [3, 2, 3, 1]))
  {
    hide Decode, After, WireAll;
    WireDecodes([Eos, Eom]);
    WireOne(Eos);
    WireSnoc([Eos], Eom);
    assert [Eos] + [Eom] == [Eos, Eom] && [3, 2] + [3, 1] == [3, 2, 3, 1];
    assert [Eos, Eom][1..] == [Eom];
  }

  lemma {:induction false} LongMessageCheckConcat(k: Counters, a: seq<Symbol>, b: seq<Symbol>)
    ensures LongMessageCheck(k, a + b) <==> LongMessageCheck(k, a) && LongMessageCheck(OnSymbols(k, a), b)
    decreases |a|
  {
    if a == [] {
      assert a + b == b;
    } else {
      assert (a + b)[1..] == a[1..] + b;
      LongMessageCheckConcat(OnSymbol(k, a[0]), a[1..], b);
    }
  }

  lemma {:induction false} LongMessageCheckOfData(k: Counters, bs: seq<byte>)
    ensures LongMessageCheck(k, DataSyms(bs))
  {
    if bs != [] {
      assert DataSyms(bs)[1..] == DataSyms(bs[1..]);
      LongMessageCheckOfData(k, bs[1..]);
    }
  }

  /** The parser flags the source keeps, once at each end of the buffer. */
  datatype Parser = Parser(esc: bool, sizeMode: nat, dataSize: nat) {
    function Where(): State {
      if sizeMode > 0 then Length(sizeMode - 1, dataSize)
      else if dataSize > 0 then Block(dataSize)
      else if esc then Escape
      else Plain
    }

    predicate Ok() {
      esc ==> sizeMode == 0 && dataSize == 0
    }
  }

  /** The outstanding read request of the channel: the region offered to the socket. */
  datatype Request = NoRead | Reading(pos: nat, size: nat)

  /**
   The fill side, as values: after `got` wire bytes the parser is where the automaton stands,
   and the message count is balanced.
   */
  ghost predicate FillOk(wire: seq<byte>, got: nat, st: State, k: Counters, delivered: seq<Symbol>) {
    && got <= |wire|
    && After(Plain, wire[..got]) == st
    && Balanced(k, CountEom(Decode(Plain, wire[..got])) - CountEom(delivered))
  }

  /**
   The read side, as values: after `parsed` wire bytes the parser state is `st`, and what was
   decoded is what was delivered, followed by the bytes from `taken` to `parsed` as plain data.
   */
  ghost predicate ReadOk(wire: seq<byte>, taken: nat, parsed: nat, st: State, delivered: seq<Symbol>) {
    && taken <= parsed <= |wire|
    && After(Plain, wire[..parsed]) == st
    && Decode(Plain, wire[..parsed]) == delivered + DataSyms(wire[taken..parsed])
  }

  /** `sym` is the symbol that follows the consumed ones in the pure decoding of the bytes read. */
  ghost predicate IsNext(bytes: seq<byte>, before: seq<Symbol>, sym: Symbol) {
    before + [sym] <= Decode(Plain, bytes)
  }

  /** While a symbol is next, not all of them were delivered. */
  lemma NextIsMore(bytes: seq<byte>, before: seq<Symbol>, sym: Symbol)
    requires IsNext(bytes, before, sym)
    ensures before != Decode(Plain, bytes)
  {
    assert |before + [sym]| <= |Decode(Plain, bytes)|;
  }

  /** Newly read bytes: the automaton and the counters move on together. */
  lemma FillMore(wire: seq<byte>, got: nat, len: nat, st: State, k: Counters, delivered: seq<Symbol>)
    requires FillOk(wire, got, st, k, delivered) && got + len <= |wire|
    ensures var data := wire[got..got + len];
      FillOk(wire, got + len, After(st, data), OnSymbols(k, Decode(st, data)), delivered)
    ensures k.eof ==> OnSymbols(k, Decode(st, wire[got..got + len])).eof
    ensures OnSymbols(k, Decode(st, wire[got..got + len])).messageCount >= k.messageCount
  {
    var data := wire[got..got + len];
    assert wire[..got + len] == wire[..got] + data;
    DecodeConcat(Plain, wire[..got], data);
    CountEomConcat(Decode(Plain, wire[..got]), Decode(st, data));
    OnSymbolsBalanced(k, Decode(st, data), CountEom(Decode(Plain, wire[..got])) - CountEom(delivered));
  }

  /** End of file, and a long message whose handling starts early, are counted as messages. */
  lemma FillCount(wire: seq<byte>, got: nat, st: State, k: Counters, delivered: seq<Symbol>)
    requires FillOk(wire, got, st, k, delivered)
    ensures FillOk(wire, got, st, OnEof(k), delivered)
    ensures k.messageCount == 0 ==>
      k == Counters(false, false, 0) && FillOk(wire, got, st, Counters(false, true, 1), delivered)
  {
  }

  /** Consuming a symbol keeps the message count balanced. */
  lemma FillTake(wire: seq<byte>, got: nat, st: State, k: Counters, delivered: seq<Symbol>, sym: Symbol)
    requires FillOk(wire, got, st, k, delivered)
    requires delivered + [sym] <= Decode(Plain, wire[..got])
    ensures sym == Eom ==> k.messageCount > 0
    ensures FillOk(wire, got, st, if sym == Eom then k.(messageCount := k.messageCount - 1) else k,
                   delivered + [sym])
  {
    var all := Decode(Plain, wire[..got]);
    CountEomConcat(delivered, [sym]);
    assert [sym][1..] == [];
    CountEomConcat(delivered + [sym], all[|delivered| + 1..]);
    assert all == delivered + [sym] + all[|delivered| + 1..];
  }

  /** The read side moves over one byte. */
  lemma ReadStep(wire: seq<byte>, p: nat, st: State, delivered: seq<Symbol>)
    requires ReadOk(wire, p, p, st, delivered) && p < |wire|
    ensures ReadOk(wire, p + 1, p + 1, Next(st, wire[p]), delivered + Out(st, wire[p]))
  {
    hide Decode, After, Next, Out;
    assert delivered + DataSyms(wire[p..p]) == delivered;
    var out := delivered + Out(st, wire[p]);
    assert out + DataSyms(wire[p + 1..p + 1]) == out;
    assert wire[..p + 1] == wire[..p] + [wire[p]];
    DecodeSnoc(Plain, wire[..p], wire[p]);
  }

  /** What was delivered is decoded from what was read, and from the whole wire. */
  lemma ReadPrefix(wire: seq<byte>, p: nat, got: nat, st: State, delivered: seq<Symbol>)
    requires ReadOk(wire, p, p, st, delivered) && p <= got <= |wire|
    ensures delivered <= Decode(Plain, wire[..got]) <= Decode(Plain, wire)
  {
    hide Decode, After;
    assert delivered + DataSyms(wire[p..p]) == delivered;
    DecodePrefix(Plain, wire[..p], wire[..got]);
    DecodePrefix(Plain, wire[..got], wire);
  }

  /** The read side moves over a run of data, which becomes the window. */
  lemma ReadRun(wire: seq<byte>, p: nat, n: nat, st: State, delivered: seq<Symbol>)
    requires ReadOk(wire, p, p, st, delivered) && p + n <= |wire|
    requires Decode(st, wire[p..p + n]) == DataSyms(wire[p..p + n])
    ensures ReadOk(wire, p, p + n, After(st, wire[p..p + n]), delivered)
  {
    assert wire[..p + n] == wire[..p] + wire[p..p + n];
    DecodeConcat(Plain, wire[..p], wire[p..p + n]);
  }

  /** The first byte of a window is consumed, seen from both sides. */
  lemma ReadTake(wire: seq<byte>, taken: nat, parsed: nat, got: nat, out: State, st: State, k: Counters,
                 delivered: seq<Symbol>)
    requires ReadOk(wire, taken, parsed, out, delivered) && taken < parsed <= got
    requires FillOk(wire, got, st, k, delivered)
    ensures ReadOk(wire, taken + 1, parsed, out, delivered + [Data(wire[taken])])
    ensures FillOk(wire, got, st, k, delivered + [Data(wire[taken])])
    ensures IsNext(wire[..got], delivered, Data(wire[taken]))
  {
    var window := wire[taken..parsed];
    assert wire[taken + 1..parsed] == window[1..];
    assert DataSyms(window) == [Data(window[0])] + DataSyms(window[1..]);
    DecodePrefix(Plain, wire[..parsed], wire[..got]);
    DecodePrefix(Plain, wire[..got], wire);
    FillTake(wire, got, st, k, delivered, Data(wire[taken]));
  }

  /** A symbol made of an escape sequence is consumed, seen from both sides. */
  lemma ReadEscape(wire: seq<byte>, p: nat, got: nat, st: State, k: Counters, delivered: seq<Symbol>,
                   sym: Symbol)
    requires ReadOk(wire, p, p, Escape, delivered) && p < got <= |wire|
    requires wire[p] != 3 && Out(Escape, wire[p]) == [sym]
    requires FillOk(wire, got, st, k, delivered)
    ensures ReadOk(wire, p + 1, p + 1, Plain, delivered + [sym])
    ensures IsNext(wire[..got], delivered, sym)
    ensures sym == Eom ==> k.messageCount > 0
    ensures FillOk(wire, got, st, if sym == Eom then k.(messageCount := k.messageCount - 1) else k,
                   delivered + [sym])
  {
    ReadStep(wire, p, Escape, delivered);
    ReadPrefix(wire, p + 1, got, Plain, delivered + [sym]);
    FillTake(wire, got, st, k, delivered, sym);
  }

  /** When everything read is consumed, only a long message or end of file is counted. */
  lemma Drained(wire: seq<byte>, got: nat, st: State, k: Counters, delivered: seq<Symbol>, out: State)
    requires FillOk(wire, got, st, k, delivered) && ReadOk(wire, got, got, out, delivered)
    ensures k.messageCount == (if k.longMsg then 1 else 0) + (if k.eof then 1 else 0)
    ensures out == st && Decode(Plain, wire[..got]) == delivered
  {
    assert delivered + DataSyms(wire[got..got]) == delivered;
  }

  /** Scanning `bs[i..]` from state `s` with counters `k` ends in `st` with counters `goal`. */
  ghost predicate Ahead(bs: seq<byte>, i: nat, s: State, k: Counters, st: State, goal: Counters) {
    i <= |bs| && After(s, bs[i..]) == st && OnSymbols(k, Decode(s, bs[i..])) == goal
  }

  lemma AheadStep(bs: seq<byte>, i: nat, s: State, k: Counters, st: State, goal: Counters)
    requires i < |bs| && Ahead(bs, i, s, k, st, goal)
    ensures var out := Out(s, bs[i]);
      Ahead(bs, i + 1, Next(s, bs[i]), if out == [] then k else OnSymbol(k, out[0]), st, goal)
  {
    assert bs[i..][1..] == bs[i + 1..];
    OnSymbolsConcat(k, Out(s, bs[i]), Decode(Next(s, bs[i]), bs[i + 1..]));
  }

  /** The checks made up to `i` and those made after it are together those of the whole scan. */
  ghost predicate Checking(bs: seq<byte>, i: nat, s: State, k: Counters, checked: bool, all: bool) {
    i <= |bs| && (checked && LongMessageCheck(k, Decode(s, bs[i..])) <==> all)
  }

  lemma CheckStep(bs: seq<byte>, i: nat, s: State, k: Counters, checked: bool, all: bool)
    requires i < |bs| && Checking(bs, i, s, k, checked, all)
    ensures
      var out := Out(s, bs[i]);
      Checking(bs, i + 1, Next(s, bs[i]), if out == [] then k else OnSymbol(k, out[0]),
               checked && LongMessageCheck(k, out), all)
  {
    assert bs[i..][1..] == bs[i + 1..];
    LongMessageCheckConcat(k, Out(s, bs[i]), Decode(Next(s, bs[i]), bs[i + 1..]));
  }

  lemma CheckBlock(bs: seq<byte>, i: nat, rem: nat, skip: nat, k: Counters, checked: bool, all: bool)
    requires 0 < skip <= rem && i + skip <= |bs| && Checking(bs, i, Block(rem), k, checked, all)
    ensures Checking(bs, i + skip, LengthDone(rem - skip), k, checked, all)
  {
    var data := bs[i..i + skip];
    assert bs[i..] == data + bs[i + skip..];
    DecodeConcat(Block(rem), data, bs[i + skip..]);
    DecodeBlock(rem, data);
    LongMessageCheckConcat(k, DataSyms(data), Decode(LengthDone(rem - skip), bs[i + skip..]));
    LongMessageCheckOfData(k, data);
    OnSymbolsOfData(k, data);
  }

  lemma AheadBlock(bs: seq<byte>, i: nat, rem: nat, skip: nat, k: Counters, st: State, goal: Counters)
    requires 0 < skip <= rem && i + skip <= |bs| && Ahead(bs, i, Block(rem), k, st, goal)
    ensures Ahead(bs, i + skip, LengthDone(rem - skip), k, st, goal)
  {
    var data := bs[i..i + skip];
    assert bs[i..] == data + bs[i + skip..];
    DecodeConcat(Block(rem), data, bs[i + skip..]);
    DecodeBlock(rem, data);
    OnSymbolsConcat(k, DataSyms(data), Decode(LengthDone(rem - skip), bs[i + skip..]));
    OnSymbolsOfData(k, data);
  }

  class InputBuf {
    var buf: array<byte>
    var inp: nat
    var cur: nat
    var end: int
    var inpParser: Parser
    var outParser: Parser
    var counts: Counters
    var handling: HandleMsg
    var request: Request

    // Buffers of this size or more do not grow.
    const growLimit: nat

    // The environment: all bytes the peer will ever send, and how many of them were read.
    const wire: seq<byte>
    var got: nat

    // How many wire bytes are before `cur`, and the symbols consumed by message handlers.
    ghost var taken: nat
    ghost var delivered: seq<Symbol>

    /** The ring position of the `n`-th byte after `cur`. */
    function At(n: nat): nat
      reads this`buf, this`cur
    {
      if cur + n >= buf.Length then cur + n - buf.Length else cur + n
    }

    ghost predicate Bounds()
      reads this`buf, this`inp, this`cur, this`got, this`taken
    {
      && 2 <= buf.Length && inp < buf.Length && cur <= buf.Length
      && taken <= got <= |wire|
      && got - taken < buf.Length && inp == At(got - taken)
    }

    /** The ring holds the wire bytes from `taken` to `got`. */
    ghost predicate Ring()
      reads this`buf, this`inp, this`cur, this`got, this`taken, buf
    {
      Bounds() && forall i :: taken <= i < got ==> buf[At(i - taken)] == wire[i]
    }

    /** Room for incoming bytes at the fill pointer; one byte always stays free. */
    function Free(): nat
      requires inp < buf.Length && cur <= buf.Length
      reads this`buf, this`inp, this`cur
    {
      if cur == buf.Length then buf.Length - inp - 1
      else if cur <= inp then buf.Length - inp - (if cur == 0 then 1 else 0)
      else cur - inp - 1
    }

    /** A counted message is being handled or has a handler event posted. */
    ghost predicate Dispatching()
      reads this`counts, this`handling
    {
      && (counts.messageCount > 0 && !counts.eof ==> handling != Idle)
      && (handling != Idle ==> counts.messageCount > 0)
    }

    /** The offered region is free space at the fill pointer. */
    ghost predicate RequestOk()
      requires inp < buf.Length && cur <= buf.Length
      reads this`buf, this`inp, this`cur, this`counts, this`request
    {
      request.Reading? ==> !counts.eof && request.pos == inp && 0 < request.size <= Free()
    }

    /** The fill side: ring, parser, message count and read request. */
    ghost predicate FillValid()
      reads this`buf, this`inp, this`cur, this`got, this`taken, this`inpParser, this`counts
      reads this`handling, this`request, this`delivered, buf
    {
      && Bounds() && Ring()
      && inpParser.Ok()
      && FillOk(wire, got, inpParser.Where(), counts, delivered)
      && Dispatching()
      && RequestOk()
    }

    /** The read side stands at wire position `p`. */
    ghost predicate ReadAt(p: nat)
      reads this`got, this`taken, this`outParser, this`delivered
    {
      p <= got && outParser.Ok() && ReadOk(wire, taken, p, outParser.Where(), delivered)
    }

    /** The bytes from `cur` to `end` are a window of data. */
    ghost predicate Windowed()
      reads this, buf
    {
      && FillValid()
      && cur <= end <= buf.Length
      && ReadAt(taken + (end - cur))
    }

    ghost predicate Valid()
      reads this, buf
    {
      Windowed() && (counts.eof || request.Reading? || counts.messageCount > 0)
    }

    constructor (size: nat, growLimit: nat, wire: seq<byte>)
      requires size >= 2
      ensures Valid() && fresh(buf)
      ensures this.wire == wire && this.growLimit == growLimit && buf.Length == size
      ensures got == 0 && delivered == [] && counts == Counters(false, false, 0)
      ensures request == Reading(0, size - 1) && inpParser.Where() == Plain && cur == end == 0
    {
      buf := new byte[size](_ => 0);
      inp, cur, end := 0, 0, 0;
      inpParser, outParser := Parser(false, 0, 0), Parser(false, 0, 0);
      counts, handling, request := Counters(false, false, 0), Idle, NoRead;
      this.growLimit := growLimit;
      this.wire := wire;
      got, taken, delivered := 0, 0, [];
      new;
      assert FillOk(wire, 0, Plain, counts, []) && ReadOk(wire, 0, 0, Plain, []);
      TriggerRead();
    }

    method FreeSize() returns (size: nat)
      requires Ring()
      requires cur == buf.Length ==> end == cur
      modifies this`cur, this`end
      ensures Bounds() && Ring()
      ensures cur == if !counts.eof && old(cur) == buf.Length then 0 else old(cur)
      ensures end == if !counts.eof && old(cur) == buf.Length then 0 else old(end)
      ensures size == if counts.eof then 0 else Free()
      ensures Free() == old(Free())
    {
      if counts.eof {
        return 0;
      }
      if cur == buf.Length {
        cur, end := 0, 0;
      }
      if cur <= inp {
        size := buf.Length - inp;
        if cur == 0 {
          size := size - 1;
        }
      } else {
        size := cur - inp - 1;
      }
    }

    method PostRead(size: nat)
      modifies this`request
      ensures request == if old(request).Reading? then old(request) else Reading(inp, size)
    {
      if request.Reading? {
        return;
      }
      request := Reading(inp, size);
    }

    method TriggerRead()
      requires FillValid()
      requires cur == buf.Length ==> end == cur
      modifies this`cur, this`end, this`request
      ensures FillValid()
      ensures cur == if !counts.eof && old(cur) == buf.Length then 0 else old(cur)
      ensures end == if !counts.eof && old(cur) == buf.Length then 0 else old(end)
      ensures request ==
        if old(request).Reading? || counts.eof || Free() == 0 then old(request) else Reading(inp, Free())
    {
      hide FillOk, Ring;
      var size := FreeSize();
      if size > 0 {
        PostRead(size);
      }
    }

    method TriggerMessage()
      modifies this`handling
      ensures handling == if old(handling) == Idle then Triggered else old(handling)
    {
      if handling == Idle {
        handling := Triggered;
      }
    }

    method NewMessage()
      modifies this`counts, this`handling
      ensures counts == old(counts).(messageCount := old(counts).messageCount + 1)
      ensures handling == if old(handling) == Idle then Triggered else old(handling)
    {
      counts := counts.(messageCount := counts.messageCount + 1);
      TriggerMessage();
    }

    method Eof()
      modifies this`counts, this`handling
      ensures counts == OnEof(old(counts))
      ensures handling == if !old(counts).eof && old(handling) == Idle then Triggered else old(handling)
    {
      if !counts.eof {
        counts := counts.(eof := true);
        NewMessage();
      }
    }

    /** Bytes the peer sent, put by the socket at the fill pointer. */
    ghost predicate Arrived(len: nat)
      reads this`buf, this`inp, this`cur, this`got, buf
    {
      && inp < buf.Length && cur <= buf.Length && inp + len <= buf.Length
      && len <= Free()
      && got + len <= |wire|
      && forall i :: got <= i < got + len ==> buf[inp + (i - got)] == wire[i]
    }

    /** One byte outside the body of a binary block passes the fill pointer. */
    static method ScanByte(ch: byte, parser: Parser, k: Counters)
      returns (parser': Parser, k': Counters, ghost checked: bool)
      requires parser.Ok() && !parser.Where().Block?
      ensures parser'.Ok() && parser'.Where() == Next(parser.Where(), ch)
      ensures var out := Out(parser.Where(), ch); k' == if out == [] then k else OnSymbol(k, out[0])
      ensures checked <==> LongMessageCheck(k, Out(parser.Where(), ch))
    {
      parser', k', checked := parser, k, true;
      if parser.sizeMode > 0 {
        parser' := Parser(false, if ch < 128 then 0 else parser.sizeMode + 1,
                          parser.dataSize + Shift7(ch % 128, parser.sizeMode - 1));
      } else if parser.esc {
        parser' := Parser(false, 0, 0);
        match ch {
          case 0 =>
          case 1 =>
            checked := k.longMsg ==> k.messageCount == 1;
            k' := if k.longMsg then k.(longMsg := false) else k.(messageCount := k.messageCount + 1);
          case 2 => k' := OnEof(k);
          case 3 => parser' := Parser(false, 1, 0);
          case _ => k' := OnEof(k);
        }
      } else if ch == ESC {
        parser' := Parser(true, 0, 0);
      }
    }

    /** The scan of `len` bytes from `inp` has reached the `i`-th of them. */
    ghost predicate Scanned(len: nat, i: int, p: nat, parser: Parser, k: Counters,
                            st: State, goal: Counters)
      reads this`buf, this`inp, this`got
    {
      && 0 <= i <= len && got + len <= |wire|
      && p == (if i == len && inp + i == buf.Length then 0 else inp + i)
      && parser.Ok() && Ahead(wire[got..got + len], i, parser.Where(), k, st, goal)
    }

    /** The next byte, outside the body of a binary block. */
    method ScanStep(p: nat, parser: Parser, k: Counters, ghost len: nat, ghost i: int,
                    ghost st: State, ghost goal: Counters, ghost checked: bool, ghost all: bool)
      returns (p': nat, parser': Parser, k': Counters, ghost checked': bool)
      requires Arrived(len)
      requires Scanned(len, i, p, parser, k, st, goal) && i < len && !parser.Where().Block?
      requires Checking(wire[got..got + len], i, parser.Where(), k, checked, all)
      ensures Scanned(len, i + 1, p', parser', k', st, goal)
      ensures Checking(wire[got..got + len], i + 1, parser'.Where(), k', checked', all)
    {
      hide Ahead, Next, Out, OnSymbol, Free, Checking, LongMessageCheck;
      AheadStep(wire[got..got + len], i, parser.Where(), k, st, goal);
      assert buf[p] == wire[got + i];
      CheckStep(wire[got..got + len], i, parser.Where(), k, checked, all);
      ghost var ok;
      parser', k', ok := ScanByte(buf[p], parser, k);
      checked' := checked && ok;
      p' := p + 1;
      if p' == buf.Length {
        p' := 0;
      }
    }

    /** The part of the body of a binary block that is there, at most `n` bytes. */
    method ScanBlock(p: nat, parser: Parser, n: nat, k: Counters, ghost len: nat,
                     ghost st: State, ghost goal: Counters, ghost checked: bool, ghost all: bool)
      returns (p': nat, parser': Parser, left: nat)
      requires Arrived(len)
      requires Scanned(len, len - n, p, parser, k, st, goal) && 0 < n && parser.Where().Block?
      requires Checking(wire[got..got + len], len - n, parser.Where(), k, checked, all)
      ensures left < n && Scanned(len, len - left, p', parser', k, st, goal)
      ensures Checking(wire[got..got + len], len - left, parser'.Where(), k, checked, all)
    {
      hide Ahead, Free, Checking;
      var skip := if parser.dataSize < n then parser.dataSize else n;
      AheadBlock(wire[got..got + len], len - n, parser.dataSize, skip, k, st, goal);
      CheckBlock(wire[got..got + len], len - n, parser.dataSize, skip, k, checked, all);
      parser' := Parser(false, 0, parser.dataSize - skip);
      left := n - skip;
      p' := p + skip;
      if p' >= buf.Length {
        p' := p' - buf.Length;
      }
    }

    /**
     Preprocess `len` newly read bytes to count messages: the new fill pointer, parser flags and
     message counters.  `checked` tells whether the assertion made when a long message ends held.
     */
    method Scan(len: nat) returns (p: nat, parser: Parser, k: Counters, ghost checked: bool)
      requires Arrived(len) && inpParser.Ok()
      ensures p == if inp + len == buf.Length then 0 else inp + len
      ensures parser.Ok() && parser.Where() == After(inpParser.Where(), wire[got..got + len])
      ensures k == OnSymbols(counts, Decode(inpParser.Where(), wire[got..got + len]))
      ensures checked <==> LongMessageCheck(counts, Decode(inpParser.Where(), wire[got..got + len]))
    {
      hide Scanned, OnSymbols, Decode, After, Parser.Where, Free, LongMessageCheck, Checking;
      p, parser, k, checked := inp, inpParser, counts, true;
      var n := len;
      ghost var st := After(inpParser.Where(), wire[got..got + len]);
      ghost var goal := OnSymbols(counts, Decode(inpParser.Where(), wire[got..got + len]));
      ghost var all := LongMessageCheck(counts, Decode(inpParser.Where(), wire[got..got + len]));
      ScanStart(len);
      while n > 0
        invariant 0 <= n <= len && Scanned(len, len - n, p, parser, k, st, goal)
        invariant Checking(wire[got..got + len], len - n, parser.Where(), k, checked, all)
      {
        if parser.Where().Block? {
          p, parser, n := ScanBlock(p, parser, n, k, len, st, goal, checked, all);
        } else {
          p, parser, k, checked := ScanStep(p, parser, k, len, len - n, st, goal, checked, all);
          n := n - 1;
        }
      }
      ScanEnd(len, p, parser, k, st, goal, checked, all);
    }

    lemma ScanStart(len: nat)
      requires Arrived(len) && inpParser.Ok()
      ensures var data := wire[got..got + len];
        Scanned(len, 0, inp, inpParser, counts, After(inpParser.Where(), data),
                OnSymbols(counts, Decode(inpParser.Where(), data))) &&
        Checking(data, 0, inpParser.Where(), counts, true, LongMessageCheck(counts, Decode(inpParser.Where(), data)))
    {
      var data := wire[got..got + len];
      assert data[0..] == data;
    }

    lemma ScanEnd(len: nat, p: nat, parser: Parser, k: Counters, st: State, goal: Counters, checked: bool, all: bool)
      requires Scanned(len, len, p, parser, k, st, goal)
      requires Checking(wire[got..got + len], len, parser.Where(), k, checked, all)
      ensures p == if inp + len == buf.Length then 0 else inp + len
      ensures parser.Ok() && parser.Where() == st && k == goal && (checked <==> all)
    {
      var data := wire[got..got + len];
      assert data[len..] == [];
    }

    /** Store the new fill pointer after a read of `len` bytes. */
    method Advance(p: nat, len: nat)
      requires Ring() && Arrived(len)
      requires p == if inp + len == buf.Length then 0 else inp + len
      modifies this`inp, this`got
      ensures Ring() && inp == p && got == old(got) + len
    {
      inp := p;
      got := got + len;
    }

    /** Double the buffer when it is full, unrolling the ring to its start. */
    method Grow()
      requires Ring() && Free() == 0 && cur < buf.Length
      modifies this`buf, this`inp, this`cur, this`end
      ensures Ring() && fresh(buf) && buf.Length == 2 * old(buf.Length)
      ensures cur == 0 && end == old(end) - old(cur)
    {
      Full();
      hide Free;
      var n := buf.Length;
      var tmp := new byte[n * 2];
      var size := n - cur;
      var scnt := end - cur;
      forall i | 0 <= i < n {
        tmp[i] := if i < size then buf[cur + i] else buf[i - size];
      }
      forall i | taken <= i < got
        ensures tmp[i - taken] == wire[i]
      {
        assert buf[At(i - taken)] == wire[i];
      }
      buf := tmp;
      inp := n - 1;
      cur := 0;
      end := scnt;
    }

    lemma Full()
      requires Bounds()
      ensures Free() == 0 <==> got - taken == buf.Length - 1
    {
    }

    /** Scan newly read bytes, and trigger message handling if they complete a message. */
    method CountMessages(len: nat) returns (p: nat, ghost checked: bool)
      requires Arrived(len) && inpParser.Ok() && Dispatching()
      requires FillOk(wire, got, inpParser.Where(), counts, delivered)
      modifies this`inpParser, this`counts, this`handling
      ensures p == if inp + len == buf.Length then 0 else inp + len
      ensures inpParser.Ok() && FillOk(wire, got + len, inpParser.Where(), counts, delivered)
      ensures counts == OnSymbols(old(counts), Decode(old(inpParser).Where(), wire[got..got + len]))
      ensures Dispatching()
      ensures counts.messageCount >= old(counts).messageCount
      ensures handling ==
        if old(handling) == Idle && counts.messageCount > old(counts).messageCount then Triggered else old(handling)
      ensures checked <==> LongMessageCheck(old(counts), Decode(old(inpParser).Where(), wire[old(got)..old(got) + len]))
    {
      hide OnSymbols, Decode, After, FillOk, LongMessageCheck;
      FillMore(wire, got, len, inpParser.Where(), counts, delivered);
      var parser, k;
      p, parser, k, checked := Scan(len);
      if k.messageCount > counts.messageCount {
        TriggerMessage();
      }
      inpParser, counts := parser, k;
    }

    /** Count the messages in newly read bytes and make the bytes readable. */
    method Absorb(len: nat) returns (ghost checked: bool)
      requires FillValid() && request.NoRead? && Arrived(len)
      modifies this`inp, this`got, this`inpParser, this`counts, this`handling
      ensures FillValid() && got == old(got) + len
      ensures counts == OnSymbols(old(counts), Decode(old(inpParser).Where(), wire[old(got)..got]))
      ensures counts.messageCount >= old(counts).messageCount
      ensures handling ==
        if old(handling) == Idle && counts.messageCount > old(counts).messageCount then Triggered else old(handling)
      ensures checked <==> LongMessageCheck(old(counts), Decode(old(inpParser).Where(), wire[old(got)..old(got) + len]))
    {
      hide FillOk, OnSymbols, Decode, Free, Ring, Dispatching, LongMessageCheck;
      var p;
      p, checked := CountMessages(len);
      Advance(p, len);
    }

    /** Grow a full buffer if allowed. */
    method GrowIfFull()
      requires Ring()
      requires cur == buf.Length ==> end == cur
      modifies this`buf, this`inp, this`cur, this`end
      ensures buf == old(buf) || fresh(buf)
      ensures Bounds() && Ring() && end - cur == old(end - cur)
      ensures cur == buf.Length ==> end == cur
      ensures buf == old(buf) ==> inp == old(inp)
      ensures cur > inp ==> buf == old(buf) && cur == old(cur)
      ensures buf == old(buf) && old(cur) < buf.Length ==> cur == old(cur)
      ensures buf.Length ==
        if !counts.eof && got - taken == old(buf.Length) - 1 && old(buf.Length) < growLimit
        then 2 * old(buf.Length) else old(buf.Length)
    {
      hide Free;
      Full();
      if !counts.eof {
        var free := FreeSize();
        if free == 0 && buf.Length < growLimit {
          Grow();
        }
      }
    }

    /**
     After new data: grow a full buffer if allowed, post the next read, or start handling an
     incomplete message that fills the buffer.
     */
    method MakeRoom()
      requires FillValid() && request.NoRead?
      requires cur == buf.Length ==> end == cur
      modifies this`buf, this`inp, this`cur, this`end, this`counts, this`handling, this`request
      ensures buf == old(buf) || fresh(buf)
      ensures FillValid()
      ensures end - cur == old(end - cur) && (cur > inp ==> buf == old(buf) && cur == old(cur))
      ensures buf == old(buf) && old(cur) < buf.Length ==> cur == old(cur)
      ensures buf.Length ==
        if !counts.eof && got - taken == old(buf.Length) - 1 && old(buf.Length) < growLimit
        then 2 * old(buf.Length) else old(buf.Length)
      ensures request.Reading? <==> !counts.eof && got - taken < buf.Length - 1
      ensures counts == Impatient(old(counts), request.Reading?)
      ensures handling == if counts != old(counts) && old(handling) == Idle then Triggered else old(handling)
    {
      hide FillOk, Free, Ring, At;
      FillCount(wire, got, inpParser.Where(), counts, delivered);
      GrowIfFull();
      Full();
      var size := FreeSize();
      if size > 0 {
        TriggerRead();
      } else if counts.messageCount == 0 {
        counts := counts.(longMsg := true);
        NewMessage();
      }
    }

    /** What a completed read of `len` bytes leaves, whatever the read side is doing. */
    twostate predicate Filled(len: nat)
      requires old(got) + len <= |wire|
      reads this, buf
    {
      var data := wire[old(got)..old(got) + len];
      var k := if len == 0 then OnEof(old(counts))
               else OnSymbols(old(counts), Decode(old(inpParser).Where(), data));
      var full := got - taken == old(buf.Length) - 1;
      && FillValid()
      && got == old(got) + len
      && end - cur == old(end - cur)
      && (cur > inp ==> buf == old(buf) && cur == old(cur))
      && (buf == old(buf) && old(cur) < buf.Length ==> cur == old(cur))
      && buf.Length ==
         (if len > 0 && !k.eof && full && old(buf.Length) < growLimit
          then 2 * old(buf.Length) else old(buf.Length))
      && (request.Reading? <==> !counts.eof && got - taken < buf.Length - 1)
      && counts == Impatient(k, request.Reading?)
      && handling ==
         if old(handling) == Idle && counts.messageCount > old(counts).messageCount then Triggered else old(handling)
    }

    /** Whether the scan of the bytes read last made no check that failed. */
    twostate predicate Passed(len: nat, checked: bool)
      requires old(got) + len <= |wire|
      reads this
    {
      checked <==> LongMessageCheck(old(counts), Decode(old(inpParser).Where(), wire[old(got)..old(got) + len]))
    }

    /** Completion of a read of `len` bytes, already in place; no bytes mean end of file. */
    method ReadDone(len: nat) returns (ghost checked: bool)
      requires FillValid() && request.NoRead? && !counts.eof && Arrived(len)
      requires cur == buf.Length ==> end == cur
      modifies this`buf, this`inp, this`got, this`cur, this`end
      modifies this`inpParser, this`counts, this`handling, this`request
      ensures buf == old(buf) || fresh(buf)
      ensures Filled(len) && Passed(len, checked)
    {
      hide FillOk, OnSymbols, Decode, Ring, Free, LongMessageCheck;
      checked := true;
      if len == 0 {
        NothingChecked();
        FillCount(wire, got, inpParser.Where(), counts, delivered);
        Eof();
        return;
      }
      checked := Absorb(len);
      MakeRoom();
    }

    lemma NothingChecked()
      requires got <= |wire|
      ensures LongMessageCheck(counts, Decode(inpParser.Where(), wire[got..got + 0]))
    {
    }

    /** The socket stores the next `len` wire bytes in the region offered to it. */
    method Receive(len: nat)
      requires Bounds() && Ring() && request.Reading? && RequestOk()
      requires len <= request.size && got + len <= |wire|
      modifies buf
      ensures Ring() && Arrived(len)
    {
      forall i | got <= i < got + len {
        buf[request.pos + (i - got)] := wire[i];
      }
    }

    /** The outstanding read completes with `len` bytes; none is end of file or a read error. */
    method CompleteRead(len: nat) returns (ghost checked: bool)
      requires FillValid() && request.Reading?
      requires len <= request.size && got + len <= |wire|
      requires cur == buf.Length ==> end == cur
      modifies buf
      modifies this`buf, this`inp, this`got, this`cur, this`end
      modifies this`inpParser, this`counts, this`handling, this`request
      ensures buf == old(buf) || fresh(buf)
      ensures Filled(len) && Passed(len, checked)
    {
      hide FillOk, OnSymbols, Decode, After, Ring, LongMessageCheck;
      Receive(len);
      request := NoRead;
      checked := ReadDone(len);
    }

    /** Block until the outstanding read completes, with any outcome the socket may produce. */
    method WaitRead()
      requires FillValid() && request.Reading?
      requires cur == buf.Length ==> end == cur
      modifies buf
      modifies this`buf, this`inp, this`got, this`cur, this`end
      modifies this`inpParser, this`counts, this`handling, this`request
      ensures buf == old(buf) || fresh(buf)
      ensures old(got) <= got <= |wire| && Filled(got - old(got))
      ensures counts.eof || got > old(got)
    {
      hide FillOk, OnSymbols, Decode, After, Ring, Free;
      var len: nat :| len <= request.size && got + len <= |wire|;
      ghost var checked := CompleteRead(len);
    }

    /** Move the read pointer to the ring position of wire byte `p`. */
    method MoveCur(out: nat, ghost p: nat)
      requires Ring() && taken <= p <= got && out <= buf.Length
      requires out == At(p - taken) || (out == buf.Length && At(p - taken) == 0)
      modifies this`cur, this`taken
      ensures Ring() && cur == out && taken == p
      ensures Free() >= old(Free())
    {
      cur := out;
      taken := p;
    }

    lemma ByteAt(out: nat, p: nat)
      requires Ring() && taken <= p < got && out == At(p - taken)
      ensures out < buf.Length && buf[out] == wire[p]
    {
    }

    lemma FirstAt()
      requires Bounds() && cur < buf.Length
      ensures At(0) == cur && (cur + 1 == At(1) || (cur + 1 == buf.Length && At(1) == 0))
    {
    }

    /** Consume the first byte of the window. */
    method TakeByte() returns (ch: byte)
      requires Windowed() && cur < end
      modifies this`cur, this`taken, this`delivered
      ensures Windowed() && cur == old(cur) + 1 && taken == old(taken) + 1
      ensures delivered == old(delivered) + [Data(ch)] && IsNext(wire[..got], old(delivered), Data(ch))
    {
      hide FillOk, ReadOk, Ring, IsNext, Free, Dispatching, At;
      FirstAt();
      ByteAt(cur, taken);
      ReadTake(wire, taken, taken + (end - cur), got, outParser.Where(), inpParser.Where(), counts, delivered);
      ch := buf[cur];
      MoveCur(cur + 1, taken + 1);
      delivered := delivered + [Data(ch)];
    }

    /** What a completed `GetMore` or stream read leaves. */
    twostate predicate Gave(sym: Symbol, peeking: bool)
      reads this, buf
    {
      && Valid()
      && IsNext(wire[..got], old(delivered), sym)
      && delivered == (if peeking then old(delivered) else old(delivered) + [sym])
      && (if sym == Eom && !peeking then handling != Active else handling == old(handling))
    }

    /** Nothing is left to read, and nothing will come. */
    twostate predicate RanOut()
      reads this, buf
    {
      && FillValid()
      && counts.eof && taken == got && cur == inp
      && delivered == old(delivered) == Decode(Plain, wire[..got])
      && handling == old(handling)
      && (buf == old(buf) ==> end == old(end))
    }

    /** Ask for more data after some was consumed, or while messages are waiting. */
    method Refill()
      requires Windowed() && (counts.messageCount > 0 || got - taken < buf.Length - 1)
      modifies this`cur, this`end, this`request
      ensures Valid()
    {
      Full();
      hide FillOk, ReadOk, Dispatching, Ring, Free;
      TriggerRead();
    }

    /** Publish the window of the `w` parsed bytes at `out`. */
    method OpenWindow(out: nat, w: nat, ghost p: nat)
      requires FillValid() && taken <= p < got && 0 < w
      requires out == At(p - taken) && out + w <= buf.Length
      requires p + w <= got && outParser.Ok() && ReadOk(wire, p, p + w, outParser.Where(), delivered)
      modifies this`cur, this`end, this`taken
      ensures Windowed() && cur == out && end == out + w && taken == p
    {
      hide FillOk, ReadOk, Dispatching, Ring, Free;
      MoveCur(out, p);
      end := out + w;
    }

    /** Publish the window of the `w` parsed bytes at `out`, and hand out its first byte. */
    method GiveWindow(out: nat, w: nat, peeking: bool, ghost p: nat) returns (ch: byte)
      requires FillValid() && taken <= p < got && 0 < w && counts.messageCount > 0
      requires out == At(p - taken) && out + w <= buf.Length
      requires p + w <= got && outParser.Ok() && ReadOk(wire, p, p + w, outParser.Where(), delivered)
      modifies this`cur, this`end, this`taken, this`delivered, this`request
      ensures Gave(Data(ch), peeking)
    {
      hide FillOk, ReadOk, IsNext, Dispatching, Ring, Free, Windowed, Valid, At;
      ByteAt(out, p);
      ReadTake(wire, p, p + w, got, outParser.Where(), inpParser.Where(), counts, delivered);
      ch := buf[out];
      OpenWindow(out, w, p);
      if !peeking {
        ch := TakeByte();
      }
      Refill();
    }

    /** `GetMore` stands at ring position `out`, wire position `p`, with no window open. */
    ghost predicate Standing(out: nat, p: nat)
      reads this, buf
    {
      && FillValid()
      && taken <= p <= got && out <= buf.Length
      && (out == At(p - taken) || (out == buf.Length && At(p - taken) == 0))
      && outParser.Ok() && ReadOk(wire, p, p, outParser.Where(), delivered)
      && (cur == buf.Length ==> end == cur)
      && counts.messageCount > 0 && handling == Active
    }

    /** All buffered data is parsed: block until there is more, or end of file. */
    method Starve(out: nat, ghost p: nat)
      requires Standing(out, p) && p == got && out < buf.Length && !counts.eof
      modifies buf
      modifies this`buf, this`inp, this`got, this`cur, this`end, this`taken
      modifies this`inpParser, this`counts, this`handling, this`request
      ensures buf == old(buf) || fresh(buf)
      ensures Standing(cur, taken) && handling == Active && old(got) == taken <= got <= |wire|
      ensures counts.eof || got > old(got)
      ensures buf == old(buf) ==> end == old(end)
    {
      hide FillOk, ReadOk, Ring, Free;
      MoveCur(out, p);
      Full();
      TriggerRead();
      StarveWait(p);
    }

    method StarveWait(ghost p: nat)
      requires FillValid() && request.Reading? && cur < buf.Length && taken == got == p
      requires outParser.Ok() && ReadOk(wire, p, p, outParser.Where(), delivered)
      requires handling == Active
      modifies buf
      modifies this`buf, this`inp, this`got, this`cur, this`end
      modifies this`inpParser, this`counts, this`handling, this`request
      ensures buf == old(buf) || fresh(buf)
      ensures Standing(cur, taken) && old(got) <= got <= |wire|
      ensures counts.eof || got > old(got)
      ensures buf == old(buf) ==> end == old(end)
    {
      hide FillOk, ReadOk, Ring, Free, OnSymbols, Decode;
      WaitRead();
    }

    /** One byte that yields no symbol: part of a block length, ESC, or the code of a block. */
    method ReadSilent(ch: byte, ghost p: nat)
      requires p < |wire| && ch == wire[p] && outParser.Ok()
      requires ReadOk(wire, p, p, outParser.Where(), delivered) && Out(outParser.Where(), ch) == []
      modifies this`outParser
      ensures outParser.Ok() && ReadOk(wire, p + 1, p + 1, outParser.Where(), delivered)
    {
      hide ReadOk;
      ReadStep(wire, p, outParser.Where(), delivered);
      assert delivered + [] == delivered;
      if outParser.sizeMode > 0 {
        outParser := Parser(false, if ch < 128 then 0 else outParser.sizeMode + 1,
                            outParser.dataSize + Shift7(ch % 128, outParser.sizeMode - 1));
      } else if outParser.esc {
        outParser := Parser(false, 1, 0);
      } else {
        outParser := Parser(true, 0, 0);
      }
    }

    /** Move past an escape sequence without consuming it. */
    method PeekEscape(out: nat, ghost p: nat)
      requires Standing(out, p)
      modifies this`cur, this`end, this`taken
      ensures Windowed()
    {
      hide FillOk, ReadOk, Dispatching, Ring, Free;
      MoveCur(out, p);
      end := out;
    }

    /** The handler has read the end of its message: trigger the next one, if there is one. */
    method MessageRead()
      requires counts.messageCount > 0
      modifies this`counts, this`handling
      ensures counts == old(counts).(messageCount := old(counts).messageCount - 1)
      ensures handling == if counts.messageCount > 0 then Triggered else Idle
    {
      counts := counts.(messageCount := counts.messageCount - 1);
      handling := Idle;
      if counts.messageCount > 0 {
        TriggerMessage();
      }
    }

    lemma NextPlace(out: nat, p: nat)
      requires Bounds() && taken <= p < got && out < buf.Length && out == At(p - taken)
      ensures out + 1 == At(p + 1 - taken) || (out + 1 == buf.Length && At(p + 1 - taken) == 0)
    {
    }

    /** Consume the symbol `sym` of an escape sequence whose code is at `out`. */
    method TakeEscape(out: nat, sym: Symbol, ghost p: nat)
      requires Standing(out, p) && p < got && out < buf.Length
      requires outParser.Where() == Escape && wire[p] != 3 && Out(Escape, wire[p]) == [sym]
      modifies this`cur, this`end, this`taken, this`outParser, this`delivered, this`counts, this`handling
      ensures Windowed() && taken == p + 1
      ensures delivered == old(delivered) + [sym] && IsNext(wire[..got], old(delivered), sym)
      ensures if sym == Eom then handling != Active else counts == old(counts) && handling == Active
    {
      hide FillOk, ReadOk, IsNext, Ring, Free, At;
      NextPlace(out, p);
      ReadEscape(wire, p, got, inpParser.Where(), counts, delivered, sym);
      if sym == Eom {
        MessageRead();
      }
      outParser := Parser(false, 0, 0);
      delivered := delivered + [sym];
      MoveCur(out + 1, p + 1);
      end := out + 1;
    }

    /** Hand out the symbol of an escape sequence whose code is at `out`. */
    method GiveEscape(out: nat, ch: byte, peeking: bool, ghost p: nat) returns (sym: Symbol)
      requires Standing(out, p) && p < got && out < buf.Length && ch == wire[p] < 3
      requires outParser.Where() == Escape
      modifies this`cur, this`end, this`taken, this`outParser, this`delivered, this`counts, this`handling
      modifies this`request
      ensures Gave(sym, peeking)
    {
      hide FillOk, ReadOk, IsNext, Ring, Free, Windowed, Valid;
      sym := if ch == 0 then Data(ESC) else if ch == 1 then Eom else Eos;
      ReadEscape(wire, p, got, inpParser.Where(), counts, delivered, sym);
      if peeking {
        PeekEscape(out, p);
      } else {
        TakeEscape(out, sym, p);
      }
      Refill();
    }

    /** The handler ran out of data after end of file. */
    method GiveUp(out: nat, ghost p: nat)
      requires Standing(out, p) && out < buf.Length && p == got && counts.eof
      modifies this`cur, this`taken
      ensures FillValid() && taken == got && cur == inp && delivered == Decode(Plain, wire[..got])
    {
      hide FillOk, ReadOk, Ring, Free, Dispatching;
      Drained(wire, got, inpParser.Where(), counts, delivered, outParser.Where());
      MoveCur(out, p);
    }

    /** Plain data from `out` on: the run up to the next ESC, within the data at hand. */
    method PlainRun(out: nat, ghost p: nat) returns (w: nat)
      requires Standing(out, p) && p < got && out < buf.Length
      requires outParser.Where() == Plain && wire[p] != ESC
      ensures 0 < w && p + w <= got && out + w <= buf.Length
      ensures ReadOk(wire, p, p + w, Plain, delivered)
    {
      hide FillOk, ReadOk, Dispatching, Free, Decode, After, Balanced;
      var max := if out + 1 <= inp then inp else buf.Length;
      var q := out + 1;
      while q != max && buf[q] != ESC
        invariant out < q <= max && p + (q - out) <= got
        invariant forall i :: p <= i < p + (q - out) ==> wire[i] != ESC
        decreases max - q
      {
        assert buf[At(p + (q - out) - taken)] == wire[p + (q - out)];
        q := q + 1;
      }
      w := q - out;
      DecodePlain(wire[p..p + w]);
      ReadRun(wire, p, w, Plain, delivered);
    }

    /** Data of a binary block from `out` on, as much as is at hand. */
    method BlockRun(out: nat, ghost p: nat) returns (w: nat)
      requires Standing(out, p) && p < got && out < buf.Length
      requires outParser.Where().Block?
      modifies this`outParser
      ensures 0 < w && p + w <= got && out + w <= buf.Length
      ensures outParser.Ok() && ReadOk(wire, p, p + w, outParser.Where(), delivered)
    {
      hide Ring;
      var max := if out + 1 <= inp then inp else buf.Length;
      if max - out < outParser.dataSize {
        w := max - out;
      } else {
        w := outParser.dataSize;
      }
      DecodeBlock(outParser.dataSize, wire[p..p + w]);
      ReadRun(wire, p, w, outParser.Where(), delivered);
      outParser := Parser(false, 0, outParser.dataSize - w);
    }

    /** Data of a binary block: publish the run at hand, and give its first byte. */
    method GiveBlock(out: nat, peeking: bool, ghost p: nat) returns (sym: Symbol)
      requires Standing(out, p) && p < got && out < buf.Length && outParser.Where().Block?
      modifies this`cur, this`end, this`taken, this`delivered, this`request, this`outParser
      ensures Gave(sym, peeking)
    {
      hide FillOk, ReadOk, Ring, Free, Dispatching;
      var w := BlockRun(out, p);
      var ch := GiveWindow(out, w, peeking, p);
      sym := Data(ch);
    }

    /** Plain data: publish the run at hand, and give its first byte. */
    method GivePlain(out: nat, peeking: bool, ghost p: nat) returns (sym: Symbol)
      requires Standing(out, p) && p < got && out < buf.Length
      requires outParser.Where() == Plain && wire[p] != ESC
      modifies this`cur, this`end, this`taken, this`delivered, this`request
      ensures Gave(sym, peeking)
    {
      hide FillOk, ReadOk, Ring, Free, Dispatching;
      var w := PlainRun(out, p);
      var ch := GiveWindow(out, w, peeking, p);
      sym := Data(ch);
    }

    /** Move on over a byte that yields no symbol. */
    method Skip(out: nat, ch: byte, ghost p: nat)
      requires Standing(out, p) && p < got && out < buf.Length && ch == wire[p]
      requires Out(outParser.Where(), ch) == []
      modifies this`outParser
      ensures Standing(out + 1, p + 1)
    {
      hide FillOk, ReadOk, Ring, Free, Dispatching, Out;
      ReadSilent(ch, p);
    }

    lemma StandingFacts(out: nat, p: nat)
      requires Standing(out, p)
      ensures taken <= p <= got <= |wire| && out <= buf.Length && buf.Length > 0
      ensures var o := if out == buf.Length then 0 else out;
        Standing(o, p) && (o == inp <==> p == got)
      ensures p == got ==> counts.longMsg || counts.eof
      ensures p == got && !counts.eof ==> counts.messageCount == 1
    {
      if p == got {
        Drained(wire, got, inpParser.Where(), counts, delivered, outParser.Where());
      }
    }

    method Peek(out: nat, ghost p: nat) returns (ch: byte)
      requires Standing(out, p) && out < buf.Length && out != inp
      requires Invalid !in Decode(Plain, wire)
      ensures p < got && ch == wire[p]
      ensures Quiet(ch) <==> Out(outParser.Where(), ch) == []
      ensures !Quiet(ch) && outParser.Where() == Escape ==> ch < 3
    {
      ch := buf[out];
      assert buf[At(p - taken)] == wire[p];
      if outParser.Where() == Escape {
        NotInvalid(p);
      }
    }

    /** Whether `ch` is part of a block length, an ESC, or the code that starts a block. */
    predicate Quiet(ch: byte)
      reads this`outParser
    {
      outParser.sizeMode > 0 || (outParser.dataSize == 0 && (if outParser.esc then ch == 3 else ch == ESC))
    }

    /** On a wire with no invalid escape sequence, the reader never meets one. */
    lemma NotInvalid(p: nat)
      requires Invalid !in Decode(Plain, wire)
      requires p < |wire| && ReadOk(wire, p, p, Escape, delivered)
      ensures wire[p] <= 3
    {
      ReadStep(wire, p, Escape, delivered);
      ReadPrefix(wire, p + 1, |wire|, Next(Escape, wire[p]), delivered + Out(Escape, wire[p]));
      assert Invalid in delivered + [Invalid];
    }

    /** Where parsing stops: at a byte that yields a symbol, or with nothing left at the end of the file. */
    ghost predicate Stopped(out: nat, ch: byte, drained: bool, p: nat)
      reads this, buf
    {
      && Standing(out, p) && out < buf.Length
      && (if drained then p == got && counts.eof
          else p < got && ch == wire[p] && Out(outParser.Where(), ch) != [])
      && (!drained && outParser.Where() == Escape ==> ch < 3)
    }

    /** What parsing on leaves, with reads it may have to wait for, and none at the end of file. */
    twostate predicate Onward()
      reads this
    {
      && handling == Active && old(got) <= got <= |wire|
      && (buf == old(buf) ==> end == old(end))
      && (old(counts).eof ==> counts.eof && got == old(got) && buf == old(buf) && inp == old(inp))
    }

    /** One round of the loop of `FindSymbol`. */
    method FindStep(out0: nat, ghost p0: nat) returns (stop: bool, out: nat, ch: byte, drained: bool, ghost p: nat)
      requires Standing(out0, p0) && Invalid !in Decode(Plain, wire)
      modifies buf
      modifies this`buf, this`inp, this`got, this`cur, this`end, this`taken, this`outParser
      modifies this`inpParser, this`counts, this`handling, this`request
      ensures (buf == old(buf) || fresh(buf)) && Onward()
      ensures if stop then Stopped(out, ch, drained, p) else Standing(out, p)
      ensures !stop ==>
        got > old(got) || (!old(counts).eof && counts.eof) || (counts.eof == old(counts).eof && p == p0 + 1 <= got)
    {
      hide Standing, Decode, Valid, FillValid, Dispatching, Out, Parser.Where, Quiet;
      stop, out, ch, drained, p := false, out0, 0, false, p0;
      StandingFacts(out, p);
      if out == buf.Length {
        out := 0;
      }
      if out == inp {
        assert counts.longMsg || counts.eof;
        if counts.eof {
          stop, drained := true, true;
          return;
        }
        assert counts.messageCount == 1;
        Starve(out, p);
        out, p := cur, taken;
      } else {
        ch := Peek(out, p);
        if !Quiet(ch) {
          stop := true;
          return;
        }
        Skip(out, ch, p);
        out, p := out + 1, p + 1;
      }
    }

    /**
     Parse on, blocking for more data if needed, up to a byte that yields a symbol; `drained`
     tells that the data ran out at the end of the file.
     */
    method FindSymbol() returns (out: nat, ch: byte, drained: bool, ghost p: nat)
      requires Valid() && cur == end && counts.messageCount > 0 && handling == Active
      requires Invalid !in Decode(Plain, wire)
      modifies buf
      modifies this`buf, this`inp, this`got, this`cur, this`end, this`taken, this`outParser
      modifies this`inpParser, this`counts, this`handling, this`request
      ensures (buf == old(buf) || fresh(buf)) && Onward()
      ensures Stopped(out, ch, drained, p)
    {
      out, ch, drained, p := cur, 0, false, taken;
      assert Standing(out, p);
      hide Standing, Stopped, Decode, Valid, FillValid;
      var stop := false;
      while !stop
        invariant buf == old(buf) || fresh(buf)
        invariant Onward() && if stop then Stopped(out, ch, drained, p) else Standing(out, p)
        invariant !stop ==> p <= got
        decreases !stop, |wire| - got, if counts.eof then 0 else 1, got - p
      {
        stop, out, ch, drained, p := FindStep(out, p);
        if !stop {
          StandingFacts(out, p);
        }
      }
    }

    /**
     At the end of file: the data runs out just when all symbols were delivered.  The read pointer
     is then at the fill pointer and the end of the window where it was, so the window is left
     empty just if its end was at the fill pointer.
     */
    twostate predicate AtEof(drained: bool)
      reads this
    {
      && got == old(got) <= |wire|
      && (drained <==> old(delivered) == Decode(Plain, wire[..got]))
      && (drained ==> buf == old(buf) && cur == old(inp) && end == old(end))
    }

    /** Get the next symbol when no window is open; peeking leaves it in place. */
    method GetMore(peeking: bool) returns (sym: Symbol, drained: bool)
      requires Valid() && cur == end && counts.messageCount > 0 && handling == Active
      requires Invalid !in Decode(Plain, wire)
      modifies this, buf
      ensures buf == old(buf) || fresh(buf)
      ensures old(got) <= got <= |wire|
      ensures if drained then sym == Eos && RanOut() else Gave(sym, peeking)
      ensures old(counts).eof ==> AtEof(drained)
    {
      hide Standing, Decode, Valid, FillValid, Dispatching, IsNext;
      var out, ch;
      ghost var p;
      out, ch, drained, p := FindSymbol();
      if drained {
        GiveUp(out, p);
        sym := Eos;
      } else if outParser.dataSize > 0 {
        sym := GiveBlock(out, peeking, p);
      } else if outParser.esc {
        sym := GiveEscape(out, ch, peeking, p);
      } else {
        sym := GivePlain(out, peeking, p);
      }
      if !drained {
        NextIsMore(wire[..got], old(delivered), sym);
      }
    }

    /** Read a symbol: from the window if there is one. */
    method ReadStream() returns (sym: Symbol, drained: bool)
      requires Valid()
      requires cur == end ==>
        counts.messageCount > 0 && handling == Active && Invalid !in Decode(Plain, wire)
      modifies this, buf
      ensures buf == old(buf) || fresh(buf)
      ensures if drained then sym == Eos && RanOut() else Gave(sym, false)
      ensures old(counts).eof ==> AtEof(drained)
    {
      hide FillOk, ReadOk, Ring, IsNext, Decode;
      if cur < end {
        var ch := TakeByte();
        NextIsMore(wire[..got], old(delivered), Data(ch));
        return Data(ch), false;
      }
      sym, drained := GetMore(false);
    }

    /** Look at the next symbol without consuming it. */
    method PeekStream() returns (sym: Symbol, drained: bool)
      requires Valid()
      requires cur == end ==>
        counts.messageCount > 0 && handling == Active && Invalid !in Decode(Plain, wire)
      modifies this, buf
      ensures buf == old(buf) || fresh(buf)
      ensures if drained then sym == Eos && RanOut() else Gave(sym, true)
      ensures old(counts).eof ==> AtEof(drained)
    {
      if cur < end {
        WindowIsNext();
        NextIsMore(wire[..got], delivered, Data(buf[cur]));
        return Data(buf[cur]), false;
      }
      sym, drained := GetMore(true);
    }

    lemma WindowIsNext()
      requires Windowed() && cur < end
      ensures IsNext(wire[..got], delivered, Data(buf[cur]))
    {
      assert At(0) == cur && buf[At(0)] == wire[taken];
      ReadTake(wire, taken, taken + (end - cur), got, outParser.Where(), inpParser.Where(), counts, delivered);
    }

    /**
     The posted handler event runs: start handling a message, or report end of file (-1), whatever
     else is waiting; with no message at all (0), as after a flush, there is nothing to do.
     */
    method StartMessage() returns (r: int)
      requires handling == Triggered
      modifies this`handling
      ensures r == if counts.messageCount == 0 then 0 else if counts.eof then -1 else 1
      ensures handling == if r == 1 then Active else Idle
      ensures old(Valid()) ==> r != 0 && (counts.eof || Valid())
    {
      if counts.messageCount == 0 {
        handling := Idle;
        return 0;
      }
      if counts.eof {
        handling := Idle;
        return -1;
      }
      handling := Active;
      return 1;
    }

    /**
     The two parsers agree: the automaton run from the read side over the unread bytes ends in
     the fill side, and meets as many ends of message as are counted.
     */
    lemma TwinParsersAgree()
      requires Valid()
      ensures var ahead := wire[taken + (end - cur)..got];
        && After(outParser.Where(), ahead) == inpParser.Where()
        && counts.messageCount == CountEom(Decode(outParser.Where(), ahead)) +
           (if counts.longMsg then 1 else 0) + (if counts.eof then 1 else 0)
    {
      var p := taken + (end - cur);
      assert wire[..got] == wire[..p] + wire[p..got];
      DecodeConcat(Plain, wire[..p], wire[p..got]);
      CountEomConcat(delivered + DataSyms(wire[taken..p]), Decode(outParser.Where(), wire[p..got]));
      CountEomConcat(delivered, DataSyms(wire[taken..p]));
      DataSymsHaveNoEom(wire[taken..p]);
    }

    /** What was consumed, and the window after it, is a prefix of the pure decoding of the wire. */
    lemma DeliveredIsPrefix()
      requires Valid()
      ensures delivered + DataSyms(buf[cur..end]) <= Decode(Plain, wire)
    {
      hide Decode, After, DataSyms, FillOk, Free;
      var p := taken + (end - cur);
      assert |buf[cur..end]| == |wire[taken..p]|;
      forall n | 0 <= n < end - cur
        ensures buf[cur..end][n] == wire[taken..p][n]
      {
        assert At(n) == cur + n && taken <= taken + n < got;
        assert buf[At((taken + n) - taken)] == wire[taken + n];
      }
      assert buf[cur..end] == wire[taken..p];
      DecodePrefix(Plain, wire[..p], wire);
    }

    /** The region offered to the socket lies in the buffer and holds no unread byte. */
    lemma OfferedRegionIsFree(i: nat)
      requires Valid() && request.Reading? && taken <= i < got
      ensures request.pos + request.size <= buf.Length
      ensures !(request.pos <= At(i - taken) < request.pos + request.size)
    {
    }
  }

  /** A complete message that waits when the end of file is counted is not started. */
  method EofHidesMessage() returns (ibuf: InputBuf, r: int)
    ensures fresh(ibuf) && r == -1 && ibuf.handling == Idle && ibuf.delivered == []
    ensures ibuf.counts == Counters(true, false, 2)
    ensures ibuf.got == |ibuf.wire| && Decode(Plain, ibuf.wire) == [Data(97), Eom]
  {
    hide Decode, After, OnSymbols, FillOk, ReadOk, LongMessageCheck, InputBuf.Ring, InputBuf.Free;
    ibuf := new InputBuf(8, 0, [97, 3, 1]);
    assert [97, 3, 1][0..3] == [97, 3, 1];
    OneMessage();
    ghost var checked := ibuf.CompleteRead(3);
    assert ibuf.counts == Counters(false, false, 1) && ibuf.request.Reading? && ibuf.handling == Triggered;
    checked := ibuf.CompleteRead(0);
    r := ibuf.StartMessage();
  }

  lemma OneMessage()
    ensures Decode(Plain, [97, 3, 1]) == [Data(97), Eom]
    ensures OnSymbols(Counters(false, false, 0), [Data(97), Eom]) == Counters(false, false, 1)
  {
    WireBytes();
    assert [Data(97), Eom][1..] == [Eom];
  }

  /** The assertion fails when the end of a long message arrives together with an EOS marker before it. */
  method CutLongMessage(ibuf: InputBuf) returns (ghost checked: bool)
    requires ibuf.Valid() && ibuf.counts == Counters(false, true, 1) && ibuf.inpParser.Where() == Plain
    requires ibuf.request.Reading? && ibuf.request.size >= 4 && (ibuf.cur == ibuf.buf.Length ==> ibuf.end == ibuf.cur)
    requires ibuf.got + 4 <= |ibuf.wire| && ibuf.wire[ibuf.got..ibuf.got + 4] == [3, 2, 3, 1]
    modifies ibuf, ibuf.buf
    ensures !checked
  {
    hide Decode, LongMessageCheck;
    LongMessageCheckFails();
    checked := ibuf.CompleteRead(4);
  }

  /**
   The end of file, met when the last byte was read at the very end of the buffer and the fill
   pointer has wrapped around: the read pointer wraps and the end of the window does not, so that
   the next read finds a window of bytes that were read before.
   */
  method StaleWindow(ibuf: InputBuf) returns (sym: Symbol, drained: bool)
    requires ibuf.Valid() && ibuf.counts.eof && ibuf.handling == Active && ibuf.taken == ibuf.got
    requires ibuf.cur == ibuf.buf.Length && ibuf.end == ibuf.cur && Invalid !in Decode(Plain, ibuf.wire)
    modifies ibuf, ibuf.buf
    ensures drained && sym == Eos && ibuf.taken == ibuf.got
    ensures ibuf.cur == 0 && ibuf.end == ibuf.buf.Length
  {
    hide Decode;
    Drained(ibuf.wire, ibuf.got, ibuf.inpParser.Where(), ibuf.counts, ibuf.delivered, ibuf.outParser.Where());
    sym, drained := ibuf.ReadStream();
  }
}
