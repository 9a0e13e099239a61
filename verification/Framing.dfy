/**
 The wire format of a TCF channel, as a pure automaton.

 A channel carries symbols: data bytes and the two markers.  On the wire a data byte other
 than ESC stands for itself; ESC introduces an escape sequence (ESC 0 is a data byte ESC,
 ESC 1 the end-of-message marker, ESC 2 the end-of-stream marker) or, as ESC 3, a binary
 block: a little-endian base-128 length, then that many data bytes taken literally.
 */
module Framing {

  type byte = x: int | 0 <= x < 256

  const ESC: byte := 3

  /** `Invalid` marks an escape sequence no writer produces. */
  datatype Symbol = Data(b: byte) | Eom | Eos | Invalid

  /** The parser state between two wire bytes. */
  datatype State =
    | Plain
    | Escape
    | Length(digits: nat, acc: nat)
    | Block(rem: nat)

  /** `x` shifted left by `n` groups of seven bits. */
  function Shift7(x: nat, n: nat): nat {
    if n == 0 then x else 128 * Shift7(x, n - 1)
  }

  /** The state once the `digits`-th length byte has been added. */
  function LengthDone(acc: nat): State {
    if acc == 0 then Plain else Block(acc)
  }

  function Next(s: State, b: byte): State {
    match s
    case Plain => if b == ESC then Escape else Plain
    case Escape => if b == 3 then Length(0, 0) else Plain
    case Length(digits, acc) =>
      var sum := acc + Shift7(b % 128, digits);
      if b < 128 then LengthDone(sum) else Length(digits + 1, sum)
    case Block(rem) => if rem <= 1 then Plain else Block(rem - 1)
  }

  function Out(s: State, b: byte): (out: seq<Symbol>)
    ensures |out| <= 1
  {
    match s
    case Plain => if b == ESC then [] else [Data(b)]
    case Escape => if b == 0 then [Data(ESC)] else if b == 1 then [Eom] else if b == 2 then [Eos]
      else if b == 3 then [] else [Invalid]
    case Block(rem) => [Data(b)]
    case Length(_, _) => []
  }

  /** The state after a run of wire bytes. */
  function After(s: State, bs: seq<byte>): State
    decreases |bs|
  {
    if bs == [] then s else After(Next(s, bs[0]), bs[1..])
  }

  /** The symbols a run of wire bytes stands for. */
  function Decode(s: State, bs: seq<byte>): seq<Symbol>
    decreases |bs|
  {
    if bs == [] then [] else Out(s, bs[0]) + Decode(Next(s, bs[0]), bs[1..])
  }

  function CountEom(syms: seq<Symbol>): nat {
    if syms == [] then 0 else (if syms[0] == Eom then 1 else 0) + CountEom(syms[1..])
  }

  lemma {:induction false} DecodeConcat(s: State, a: seq<byte>, b: seq<byte>)
    ensures After(s, a + b) == After(After(s, a), b)
    ensures Decode(s, a + b) == Decode(s, a) + Decode(After(s, a), b)
    decreases |a|
  {
    if a == [] {
      assert a + b == b;
    } else {
      assert (a + b)[1..] == a[1..] + b;
      DecodeConcat(Next(s, a[0]), a[1..], b);
    }
  }

  lemma DecodeSnoc(s: State, a: seq<byte>, b: byte)
    ensures After(s, a + [b]) == Next(After(s, a), b)
    ensures Decode(s, a + [b]) == Decode(s, a) + Out(After(s, a), b)
  {
    DecodeConcat(s, a, [b]);
    var t := After(s, a);
    assert [b][1..] == [];
    assert Decode(t, [b]) == Out(t, b) + Decode(Next(t, b), []);
  }

  lemma {:induction false} CountEomConcat(a: seq<Symbol>, b: seq<Symbol>)
    ensures CountEom(a + b) == CountEom(a) + CountEom(b)
  {
    if a == [] {
      assert a + b == b;
    } else {
      assert (a + b)[1..] == a[1..] + b;
      CountEomConcat(a[1..], b);
    }
  }

  /** A data run as symbols. */
  function DataSyms(bs: seq<byte>): (syms: seq<Symbol>)
    ensures |syms| == |bs|
  {
    seq(|bs|, i requires 0 <= i < |bs| => Data(bs[i]))
  }

  lemma {:induction false} DataSymsHaveNoEom(bs: seq<byte>)
    ensures CountEom(DataSyms(bs)) == 0
  {
    if bs != [] {
      assert DataSyms(bs)[1..] == DataSyms(bs[1..]);
      DataSymsHaveNoEom(bs[1..]);
    }
  }

  /** A run without ESC decodes to itself. */
  lemma {:induction false} DecodePlain(bs: seq<byte>)
    requires forall i :: 0 <= i < |bs| ==> bs[i] != ESC
    ensures After(Plain, bs) == Plain
    ensures Decode(Plain, bs) == DataSyms(bs)
  {
    if bs != [] {
      DecodePlain(bs[1..]);
      assert DataSyms(bs) == [Data(bs[0])] + DataSyms(bs[1..]);
    }
  }

  /** The body of a binary block decodes to itself, escape bytes included. */
  lemma {:induction false} DecodeBlock(rem: nat, bs: seq<byte>)
    requires 0 < |bs| <= rem
    ensures After(Block(rem), bs) == LengthDone(rem - |bs|)
    ensures Decode(Block(rem), bs) == DataSyms(bs)
  {
    assert DataSyms(bs) == [Data(bs[0])] + DataSyms(bs[1..]);
    if |bs| > 1 {
      DecodeBlock(rem - 1, bs[1..]);
    } else {
      assert bs[1..] == [];
    }
  }

  /** Decoding is prefix-monotone: more wire bytes only add symbols. */
  lemma DecodePrefix(s: State, a: seq<byte>, b: seq<byte>)
    requires a <= b
    ensures Decode(s, a) <= Decode(s, b)
    ensures After(s, b) == After(After(s, a), b[|a|..])
  {
    assert b == a + b[|a|..];
    DecodeConcat(s, a, b[|a|..]);
  }

  /** The bytes of a symbol outside of blocks. */
  function Wire(sym: Symbol): seq<byte>
    requires !sym.Invalid?
  {
    match sym
    case Data(b) => if b == 3 then [3, 0] else [b]
    case Eom => [3, 1]
    case Eos => [3, 2]
  }

  function WireAll(syms: seq<Symbol>): seq<byte>
    requires Invalid !in syms
  {
    if syms == [] then [] else WireAll(syms[..|syms| - 1]) + Wire(syms[|syms| - 1])
  }

  lemma WireSnoc(syms: seq<Symbol>, sym: Symbol)
    requires Invalid !in syms && !sym.Invalid?
    ensures WireAll(syms + [sym]) == WireAll(syms) + Wire(sym)
  {
    assert (syms + [sym])[..|syms|] == syms;
  }

  lemma WireNothing()
    ensures WireAll([]) == []
  {
  }

  lemma {:induction false} WireConcat(a: seq<Symbol>, b: seq<Symbol>)
    requires Invalid !in a && Invalid !in b
    ensures WireAll(a + b) == WireAll(a) + WireAll(b)
    decreases |b|
  {
    hide WireAll, Wire;
    if b == [] {
      WireNothing();
      assert a + b == a;
    } else {
      var before, sym := b[..|b| - 1], b[|b| - 1];
      WireConcat(a, before);
      WireSnoc(a + before, sym);
      WireSnoc(before, sym);
      assert a + b == a + before + [sym] && b == before + [sym];
    }
  }

  lemma DecodeNothing()
    ensures After(Plain, []) == Plain && Decode(Plain, []) == []
  {
  }

  /** Symbols written without blocks are read as they were. */
  lemma {:induction false} WireDecodes(syms: seq<Symbol>)
    requires Invalid !in syms
    ensures After(Plain, WireAll(syms)) == Plain && Decode(Plain, WireAll(syms)) == syms
  {
    hide WireAll, Wire, Decode, After;
    if syms == [] {
      WireNothing();
      DecodeNothing();
    } else {
      var before, sym := syms[..|syms| - 1], syms[|syms| - 1];
      WireDecodes(before);
      WireOne(sym);
      WireSnoc(before, sym);
      assert syms == before + [sym];
      DecodeConcat(Plain, WireAll(before), Wire(sym));
    }
  }

  lemma WireOne(sym: Symbol)
    requires !sym.Invalid?
    ensures WireAll([sym]) == Wire(sym)
    ensures After(Plain, Wire(sym)) == Plain && Decode(Plain, Wire(sym)) == [sym]
  {
    var w := Wire(sym);
    WireSnoc([], sym);
    assert [] + [sym] == [sym];
    DecodeSnoc(Plain, [], w[0]);
    assert [] + [w[0]] == [w[0]];
    if |w| > 1 {
      DecodeSnoc(Plain, [3], w[1]);
      assert [3] + [w[1]] == w;
    } else {
      assert w == [w[0]];
    }
  }

  /** Byte by byte: "a" and the end of a message, an escaped 3, the end of the stream, and a block of 3 and 1. */
  lemma WireBytes()
    ensures Decode(Plain, [97, 3, 1]) == [Data(97), Eom]
    ensures Decode(Plain, [3, 0]) == [Data(3)] && Decode(Plain, [3, 2]) == [Eos]
    ensures Decode(Plain, [3, 3, 0x82, 0, 3, 1]) == [Data(3), Data(1)]
  {
    hide Decode, After, DataSyms;
    WireDecodes([Data(97), Eom]);
    WireOne(Data(97));
    WireSnoc([Data(97)], Eom);
    assert [Data(97)] + [Eom] == [Data(97), Eom];
    assert [97] + [3, 1] == [97, 3, 1];
    WireOne(Data(3));
    WireOne(Eos);
    DecodeBlock(2, [3, 1]);
    LengthOfTwo();
    DecodeConcat(Plain, [3, 3, 0x82, 0], [3, 1]);
    assert [3, 3, 0x82, 0] + [3, 1] == [3, 3, 0x82, 0, 3, 1];
    TwoData(3, 1);
  }

  lemma TwoData(a: byte, b: byte)
    ensures DataSyms([a, b]) == [Data(a), Data(b)]
  {
  }

  lemma LengthOfTwo()
    ensures After(Plain, [3, 3, 0x82, 0]) == Block(2) && Decode(Plain, [3, 3, 0x82, 0]) == []
  {
    assert After(Plain, [3]) == Escape && Decode(Plain, [3]) == [];
    DecodeSnoc(Plain, [3], 3);
    DecodeSnoc(Plain, [3, 3], 0x82);
    DecodeSnoc(Plain, [3, 3, 0x82], 0);
    assert [3] + [3] == [3, 3] && [3, 3] + [0x82] == [3, 3, 0x82] && [3, 3, 0x82] + [0] == [3, 3, 0x82, 0];
  }
}
