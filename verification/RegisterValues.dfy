/** Whole register values (cpudefs.c): the bytes of a register as a number, in its byte order. */
module RegisterValues {
  import opened Framing

  /** The number with these bytes, the most significant one first. */
  function Number(bs: seq<byte>): nat {
    if bs == [] then 0 else Number(bs[..|bs| - 1]) * 256 + bs[|bs| - 1]
  }

  /** The lowest `n` bytes of a number, the most significant one first. */
  function Bytes(value: nat, n: nat): (bs: seq<byte>)
    ensures |bs| == n
  {
    if n == 0 then [] else Bytes(value / 256, n - 1) + [value % 256]
  }

  /** 256 to the power `n`. */
  function Range(n: nat): (r: nat)
    ensures r > 0
  {
    if n == 0 then 1 else 256 * Range(n - 1)
  }

  /** The bytes of a register, the most significant one first. */
  function Ordered(reg: seq<byte>, bigEndian: bool): (bs: seq<byte>)
    ensures |bs| == |reg|
  {
    if bigEndian then reg else seq(|reg|, i requires 0 <= i < |reg| => reg[|reg| - 1 - i])
  }

  const MAX_SIZE := 8

  /** `read_reg_value`; a register of more than eight bytes is an error. */
  method ReadRegValue(reg: array<byte>, bigEndian: bool) returns (ok: bool, value: nat)
    ensures ok <==> reg.Length <= 8
    ensures ok ==> value == Number(Ordered(reg[..], bigEndian))
  {
    value := 0;
    if reg.Length > MAX_SIZE {
      return false, 0;
    }
    ghost var bs := Ordered(reg[..], bigEndian);
    for i := 0 to reg.Length
      invariant value == Number(bs[..i])
    {
      assert bs[..i + 1][..i] == bs[..i];
      value := value * 256 + reg[if bigEndian then i else reg.Length - i - 1];
    }
    assert bs[..reg.Length] == bs;
    ok := true;
  }

  /** `write_reg_value`; bytes of the value that the register has no room for are dropped. */
  method WriteRegValue(reg: array<byte>, bigEndian: bool, value: nat) returns (ok: bool)
    modifies reg
    ensures ok <==> reg.Length <= 8
    ensures ok ==> Ordered(reg[..], bigEndian) == Bytes(value, reg.Length)
    ensures !ok ==> reg[..] == old(reg[..])
  {
    if reg.Length > MAX_SIZE {
      return false;
    }
    hide Ordered, Bytes, Filled;
    var v := value;
    var n := reg.Length;
    NothingFilled(reg[..], bigEndian, value);
    for i := 0 to n
      invariant Filled(reg[..], bigEndian, i, v, value)
    {
      FillByte(reg[..], bigEndian, i, v, value);
      var k := if bigEndian then n - i - 1 else i;
      ghost var stored := reg[..][k := v % 256];
      reg[k] := v % 256;
      assert reg[..] == stored;
      v := v / 256;
    }
    AllFilled(reg[..], bigEndian, v, value);
    ok := true;
  }

  /** The last `i` ordered bytes are those of the value, of which `v` is left. */
  ghost predicate Filled(reg: seq<byte>, bigEndian: bool, i: nat, v: nat, value: nat) {
    && i <= |reg|
    && Bytes(value, |reg|) == Bytes(v, |reg| - i) + Ordered(reg, bigEndian)[|reg| - i..]
  }

  lemma NothingFilled(reg: seq<byte>, bigEndian: bool, value: nat)
    ensures Filled(reg, bigEndian, 0, value, value)
  {
  }

  lemma AllFilled(reg: seq<byte>, bigEndian: bool, v: nat, value: nat)
    requires Filled(reg, bigEndian, |reg|, v, value)
    ensures Ordered(reg, bigEndian) == Bytes(value, |reg|)
  {
    assert Bytes(v, 0) == [];
  }

  /** Storing the lowest byte of what is left of the value. */
  lemma FillByte(reg: seq<byte>, bigEndian: bool, i: nat, v: nat, value: nat)
    requires i < |reg| && Filled(reg, bigEndian, i, v, value)
    ensures Filled(reg[if bigEndian then |reg| - i - 1 else i := v % 256], bigEndian, i + 1, v / 256, value)
  {
    hide Bytes, Ordered;
    LastByte(v, |reg| - i);
    OrderedStored(reg, bigEndian, i, v % 256);
    Regroup(Bytes(v / 256, |reg| - i - 1), [v % 256], Ordered(reg, bigEndian)[|reg| - i..]);
  }

  lemma OrderedStored(reg: seq<byte>, bigEndian: bool, i: nat, b: byte)
    requires i < |reg|
    ensures
      Ordered(reg[if bigEndian then |reg| - i - 1 else i := b], bigEndian)[|reg| - i - 1..] ==
      [b] + Ordered(reg, bigEndian)[|reg| - i..]
  {
    var was, now := Ordered(reg, bigEndian), Ordered(reg[if bigEndian then |reg| - i - 1 else i := b], bigEndian);
    var m := |reg| - i - 1;
    assert forall k :: 0 <= k < |reg| ==> now[k] == if k == m then b else was[k];
    Suffix(was, now, m, b);
  }

  lemma Suffix<T>(was: seq<T>, now: seq<T>, m: nat, b: T)
    requires m < |was| == |now| && forall k :: 0 <= k < |was| ==> now[k] == if k == m then b else was[k]
    ensures now[m..] == [b] + was[m + 1..]
  {
  }

  lemma Regroup<T>(a: seq<T>, b: seq<T>, c: seq<T>)
    ensures a + b + c == a + (b + c)
  {
  }

  lemma LastByte(v: nat, n: nat)
    requires n > 0
    ensures Bytes(v, n) == Bytes(v / 256, n - 1) + [v % 256]
  {
  }

  /** A number without its lowest `n` bytes. */
  function High(value: nat, n: nat): nat {
    if n == 0 then value else High(value / 256, n - 1)
  }

  /** What is read back after a write: the value, or what the register has room for. */
  lemma {:induction false} ReadsWhatWasWritten(value: nat, n: nat)
    ensures value == High(value, n) * Range(n) + Number(Bytes(value, n)) && Number(Bytes(value, n)) < Range(n)
    ensures value < Range(n) ==> Number(Bytes(value, n)) == value
  {
    if n > 0 {
      ReadsWhatWasWritten(value / 256, n - 1);
      assert Bytes(value, n)[..n - 1] == Bytes(value / 256, n - 1);
      Associate(High(value, n), Range(n - 1));
    }
  }

  lemma Associate(h: nat, r: nat)
    ensures h * r * 256 == h * (256 * r)
  {
  }

  /** Writing back what was read leaves the register as it was. */
  lemma {:induction false} WritesWhatWasRead(bs: seq<byte>)
    ensures Bytes(Number(bs), |bs|) == bs
  {
    if bs != [] {
      WritesWhatWasRead(bs[..|bs| - 1]);
    }
  }

  /** A register is its ordered bytes: the two orders are one to one. */
  lemma OrderedOneToOne(a: seq<byte>, b: seq<byte>, bigEndian: bool)
    requires |a| == |b| && Ordered(a, bigEndian) == Ordered(b, bigEndian)
    ensures a == b
  {
    forall k | 0 <= k < |a|
      ensures a[k] == b[k]
    {
      var i := if bigEndian then k else |a| - 1 - k;
      assert Ordered(a, bigEndian)[i] == Ordered(b, bigEndian)[i];
    }
  }

  /** A register that is written is then read as the value, or as what it has room for of the value. */
  lemma RegisterHoldsValue(reg: seq<byte>, bigEndian: bool, value: nat)
    requires Ordered(reg, bigEndian) == Bytes(value, |reg|)
    ensures value < Range(|reg|) ==> Number(Ordered(reg, bigEndian)) == value
    ensures value == High(value, |reg|) * Range(|reg|) + Number(Ordered(reg, bigEndian))
  {
    ReadsWhatWasWritten(value, |reg|);
  }

  /** A register that is written with what was read from it, in the same order, is unchanged. */
  lemma RegisterKeepsValue(was: seq<byte>, now: seq<byte>, bigEndian: bool)
    requires |now| == |was| && Ordered(now, bigEndian) == Bytes(Number(Ordered(was, bigEndian)), |now|)
    ensures now == was
  {
    hide Ordered, Bytes, Number;
    WritesWhatWasRead(Ordered(was, bigEndian));
    OrderedOneToOne(now, was, bigEndian);
  }
}
