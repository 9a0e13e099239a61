/**
 The writer half of a TCP channel (channel_tcp.c, streams.c): symbols are encoded into a
 fixed-size buffer, as plain bytes, escape sequences, or binary blocks whose length is patched in
 when the block is closed; full buffers go to the output queue.
 */
module TcpOutputs {
  import opened Framing
  import opened OutputQueues

  /** A complete encoding of `syms`. */
  ghost predicate Encodes(bs: seq<byte>, syms: seq<Symbol>) {
    After(Plain, bs) == Plain && Decode(Plain, bs) == syms
  }

  /** An encoding of `syms`, and the first half of an escape sequence. */
  ghost predicate EncodesEsc(bs: seq<byte>, syms: seq<Symbol>) {
    After(Plain, bs) == Escape && Decode(Plain, bs) == syms
  }

  /** No block, and no block header, is open after these bytes. */
  ghost predicate Whole(bs: seq<byte>) {
    After(Plain, bs) == Plain || After(Plain, bs) == Escape
  }

  /** The code of a symbol in an escape sequence; markers and the data byte ESC have one. */
  function Code(sym: Symbol): byte
    requires sym == Data(ESC) || sym == Eom || sym == Eos
  {
    if sym == Eom then 1 else if sym == Eos then 2 else 0
  }

  lemma EncodePlain(bs: seq<byte>, syms: seq<Symbol>, b: byte)
    requires Encodes(bs, syms) && b != ESC
    ensures Encodes(bs + [b], syms + [Data(b)])
  {
    DecodeSnoc(Plain, bs, b);
  }

  lemma EncodeBegin(bs: seq<byte>, syms: seq<Symbol>)
    requires Encodes(bs, syms)
    ensures EncodesEsc(bs + [ESC], syms)
  {
    DecodeSnoc(Plain, bs, ESC);
    assert syms + [] == syms;
  }

  lemma EncodeCode(bs: seq<byte>, syms: seq<Symbol>, sym: Symbol)
    requires EncodesEsc(bs, syms) && (sym == Data(ESC) || sym == Eom || sym == Eos)
    ensures Encodes(bs + [Code(sym)], syms + [sym])
  {
    DecodeSnoc(Plain, bs, Code(sym));
  }

  /** The header of a block: ESC, the block code and the length, in 14 or 21 bits. */
  function BlockHeader(len: nat, wide: bool): (h: seq<byte>)
    requires len < if wide then 0x200000 else 0x4000
    ensures |h| == if wide then 5 else 4
  {
    if wide then [ESC, 3, len % 128 + 128, len / 128 % 128 + 128, len / 16384]
    else [ESC, 3, len % 128 + 128, len / 128]
  }

  /** The length bytes of a header, read one by one, add up to the length. */
  lemma HeaderDigits(len: nat, wide: bool)
    requires len < if wide then 0x200000 else 0x4000
    ensures wide ==> len % 128 + Shift7(len / 128 % 128, 1) + Shift7(len / 16384, 2) == len
    ensures !wide ==> len % 128 + Shift7(len / 128, 1) == len
  {
    var hi := len / 128;
    assert len == 128 * hi + len % 128;
    if wide {
      assert hi / 128 == len / 16384;
      assert hi == 128 * (hi / 128) + hi % 128;
      assert Shift7(hi / 128, 2) == 128 * Shift7(hi / 128, 1) == 128 * (128 * Shift7(hi / 128, 0));
      assert Shift7(hi % 128, 1) == 128 * (hi % 128);
    } else {
      assert Shift7(hi, 1) == 128 * Shift7(hi, 0);
    }
  }

  lemma HeaderStart(b: byte)
    requires b >= 128
    ensures After(Plain, [ESC, 3, b]) == Length(1, b % 128)
    ensures Decode(Plain, [ESC, 3, b]) == []
  {
    assert After(Plain, []) == Plain && Decode(Plain, []) == [] && Shift7(b % 128, 0) == b % 128;
    hide After, Decode;
    DecodeSnoc(Plain, [], ESC);
    DecodeSnoc(Plain, [ESC], 3);
    DecodeSnoc(Plain, [ESC, 3], b);
    assert [] + [ESC] == [ESC] && [ESC] + [3] == [ESC, 3] && [ESC, 3] + [b] == [ESC, 3, b];
  }

  /** One more length byte of a header. */
  lemma HeaderMore(h: seq<byte>, digits: nat, acc: nat, b: byte)
    requires After(Plain, h) == Length(digits, acc) && Decode(Plain, h) == []
    ensures
      var sum := acc + Shift7(b % 128, digits);
      After(Plain, h + [b]) == if b < 128 then LengthDone(sum) else Length(digits + 1, sum)
    ensures Decode(Plain, h + [b]) == []
  {
    hide After, Decode, Shift7;
    DecodeSnoc(Plain, h, b);
  }

  lemma HeaderRead(len: nat, wide: bool)
    requires 0 < len < if wide then 0x200000 else 0x4000
    ensures After(Plain, BlockHeader(len, wide)) == Block(len)
    ensures Decode(Plain, BlockHeader(len, wide)) == []
  {
    hide After, Decode, Shift7;
    HeaderDigits(len, wide);
    if wide {
      HeaderThree(len % 128, len / 128 % 128, len / 16384);
    } else {
      HeaderTwo(len % 128, len / 128);
    }
  }

  lemma HeaderTwo(d0: nat, d1: nat)
    requires d0 < 128 && d1 < 128
    ensures After(Plain, [ESC, 3, d0 + 128, d1]) == LengthDone(d0 + Shift7(d1, 1))
    ensures Decode(Plain, [ESC, 3, d0 + 128, d1]) == []
  {
    hide After, Decode, Shift7;
    HeaderStart(d0 + 128);
    HeaderMore([ESC, 3, d0 + 128], 1, d0, d1);
    assert [ESC, 3, d0 + 128] + [d1] == [ESC, 3, d0 + 128, d1];
  }

  lemma HeaderThree(d0: nat, d1: nat, d2: nat)
    requires d0 < 128 && d1 < 128 && d2 < 128
    ensures After(Plain, [ESC, 3, d0 + 128, d1 + 128, d2]) == LengthDone(d0 + Shift7(d1, 1) + Shift7(d2, 2))
    ensures Decode(Plain, [ESC, 3, d0 + 128, d1 + 128, d2]) == []
  {
    hide After, Decode, Shift7;
    HeaderStart(d0 + 128);
    HeaderMore([ESC, 3, d0 + 128], 1, d0, d1 + 128);
    assert [ESC, 3, d0 + 128] + [d1 + 128] == [ESC, 3, d0 + 128, d1 + 128];
    HeaderMore([ESC, 3, d0 + 128, d1 + 128], 2, d0 + Shift7(d1, 1), d2);
    assert [ESC, 3, d0 + 128, d1 + 128] + [d2] == [ESC, 3, d0 + 128, d1 + 128, d2];
  }

  lemma EncodeBlock(bs: seq<byte>, syms: seq<Symbol>, body: seq<byte>, wide: bool)
    requires Encodes(bs, syms) && 0 < |body| < if wide then 0x200000 else 0x4000
    ensures Encodes(bs + BlockHeader(|body|, wide) + body, syms + DataSyms(body))
  {
    hide After, Decode, BlockHeader;
    var h := BlockHeader(|body|, wide);
    HeaderRead(|body|, wide);
    DecodeBlock(|body|, body);
    DecodeConcat(Plain, bs, h);
    DecodeConcat(Plain, bs + h, body);
  }

  /** The open binary block, if any: where its body starts in the buffer. */
  datatype BinBlock = NoBlock | Body(start: nat)

  class TcpOutput {
    const buf: array<byte>
    const queue: OutputQueue
    var cur: nat
    var block: BinBlock
    var zeroCopy: bool
    // The channel is not disconnected and no write failed.
    var open: bool
    var eomCnt: nat
    // Blocks have been accepted at some time.
    ghost var blocks: bool

    // All flushed bytes, the bytes in the buffer, and the symbols written so far.
    ghost var sent: seq<byte>
    ghost var text: seq<byte>
    ghost var syms: seq<Symbol>

    // While a block is open: the bytes before its header, the symbols they encode, its body.
    ghost var head: seq<byte>
    ghost var headSyms: seq<Symbol>
    ghost var body: seq<byte>

    predicate Wide() {
      buf.Length > 0x4000
    }

    function HeaderSize(): nat {
      if Wide() then 5 else 4
    }

    ghost predicate Sizes() {
      0x100 <= buf.Length < 0x200000
    }

    ghost predicate Stored()
      reads this`cur, this`text, buf
    {
      cur == |text| <= buf.Length && buf[..cur] == text
    }

    ghost predicate Linked()
      reads this`open, this`sent, queue
    {
      && queue.Valid() && queue.size == buf.Length
      && queue.added <= sent
      && (open ==> queue.added == sent && !queue.error)
    }

    /** The open block is the end of the buffer, after a header still to be filled in. */
    ghost predicate Pending()
      reads this`block, this`text, this`head, this`body, this`headSyms, this`syms, this`sent
    {
      && |text| == |head| + HeaderSize() + |body|
      && text[..|head|] == head && text[|head|] == ESC && text[|head| + 1] == 3
      && text[|head| + HeaderSize()..] == body
      && block == Body(|head| + HeaderSize())
      && Encodes(sent + head, headSyms)
      && syms == headSyms + DataSyms(body)
    }

    /** The bytes written so far, once the open block is closed, encode the symbols written. */
    ghost predicate Coded()
      reads this`block, this`text, this`head, this`body, this`headSyms, this`syms, this`sent
    {
      if block.NoBlock? then Encodes(sent + text, syms) else Pending() && body != []
    }

    /** Until blocks are accepted, every symbol is written byte by byte, and no block is ever open. */
    ghost predicate Imaged()
      reads this`zeroCopy, this`blocks, this`block, this`sent, this`text, this`syms
    {
      && (zeroCopy ==> blocks)
      && (!blocks ==> block.NoBlock? && Invalid !in syms && sent + text == WireAll(syms))
    }

    ghost predicate Valid()
      reads this, buf, queue
    {
      Sizes() && Stored() && Linked() && Whole(sent) && Coded() && Invalid !in syms && Imaged()
    }

    /** Outside of blocks, and while they are not accepted, the bytes of the new symbols are appended. */
    twostate predicate Appended(new syms': seq<Symbol>)
      requires Invalid !in syms'
      reads this`zeroCopy, this`block, this`sent, this`text
    {
      !zeroCopy && old(block).NoBlock? ==> block.NoBlock? && sent + text == old(sent + text) + WireAll(syms')
    }

    constructor (size: nat)
      requires 0x100 <= size < 0x200000
      ensures Valid() && fresh(buf) && fresh(queue) && buf.Length == size
      ensures block.NoBlock? && syms == [] && sent == [] && text == [] && open && !zeroCopy && !blocks
      ensures cur == 0 && eomCnt == 0
    {
      buf := new byte[size](_ => 0);
      queue := new OutputQueue(size);
      cur, block, zeroCopy, open, eomCnt, blocks := 0, NoBlock, false, true, 0, false;
      sent, text, syms := [], [], [];
      head, headSyms, body := [], [], [];
      new;
      assert sent + text == [];
    }

    method Put(b: byte)
      requires Stored() && cur < buf.Length
      modifies buf, this`cur, this`text
      ensures Stored() && text == old(text) + [b]
    {
      buf[cur] := b;
      cur := cur + 1;
      text := text + [b];
      assert buf[..cur] == old(buf[..cur]) + [b];
    }

    /** Hand the buffer to the queue; only between blocks. */
    method Flush()
      requires Sizes() && Stored() && Linked() && block.NoBlock? && Whole(sent + text)
      modifies this`cur, this`text, this`sent, this`eomCnt, queue
      ensures Stored() && Linked() && Whole(sent)
      ensures text == [] && sent == old(sent) + old(text)
      ensures eomCnt == if old(text) == [] then old(eomCnt) else 0
    {
      if cur == 0 {
        assert sent + text == sent;
        return;
      }
      if open {
        queue.AddObuf(buf[..cur]);
      }
      sent := sent + text;
      text := [];
      cur := 0;
      eomCnt := 0;
    }

    /** The header of a new block, with a length of zero for now. */
    method PutHeader()
      requires Stored() && cur + HeaderSize() < buf.Length
      modifies buf, this`cur, this`text
      ensures Stored()
      ensures text == old(text) + (if Wide() then [ESC, 3, 0, 0, 0] else [ESC, 3, 0, 0])
    {
      hide Stored;
      StoredLength();
      Put(ESC);
      StoredLength();
      Put(3);
      StoredLength();
      if Wide() {
        Put(0);
      }
      StoredLength();
      Put(0);
      StoredLength();
      Put(0);
    }

    lemma StoredLength()
      requires Stored()
      ensures cur == |text|
    {
    }

    method BlockStart()
      requires Valid() && block.NoBlock? && cur + HeaderSize() < buf.Length
      modifies buf, this`cur, this`text, this`block, this`head, this`headSyms, this`body
      ensures Stored() && Pending() && body == [] && cur == old(cur) + HeaderSize() && head == old(text)
    {
      hide Encodes;
      head, headSyms, body := text, syms, [];
      PutHeader();
      block := Body(cur);
      assert syms + DataSyms([]) == syms;
    }

    /** Close the open block: patch its length, or drop its header if it is empty. */
    method BlockEnd()
      requires Sizes() && Stored() && Pending()
      modifies buf, this`cur, this`text, this`block
      ensures Stored() && block.NoBlock? && Encodes(sent + text, syms)
      ensures cur <= old(cur) && |body| < (if Wide() then 0x200000 else 0x4000)
      ensures text == if body == [] then head else head + BlockHeader(|body|, Wide()) + body
    {
      hide Encodes;
      var len := cur - block.start;
      if len == 0 {
        Unstart();
      } else {
        Patch(len);
        EncodeBlock(sent + head, headSyms, body, Wide());
        assert sent + text == sent + head + BlockHeader(len, Wide()) + body;
        block := NoBlock;
      }
    }

    /** Drop the header of a block that stayed empty. */
    method Unstart()
      requires Stored() && Pending() && body == []
      modifies this`cur, this`text, this`block
      ensures Stored() && block.NoBlock? && Encodes(sent + text, syms)
      ensures cur <= old(cur) && text == head
    {
      hide Encodes;
      cur := cur - HeaderSize();
      assert buf[..cur] == old(buf[..cur])[..cur];
      text := head;
      assert headSyms + DataSyms([]) == headSyms;
      block := NoBlock;
    }

    method Patch(len: nat)
      requires Sizes() && Stored() && Pending() && len == |body| > 0
      modifies buf, this`text
      ensures Stored()
      ensures len < (if Wide() then 0x200000 else 0x4000)
      ensures text == head + BlockHeader(len, Wide()) + body
    {
      hide Encodes, Decode;
      var start := block.start;
      if Wide() {
        buf[start - 3] := len % 128 + 128;
        buf[start - 2] := len / 128 % 128 + 128;
        buf[start - 1] := len / 16384;
      } else {
        buf[start - 2] := len % 128 + 128;
        buf[start - 1] := len / 128;
      }
      text := head + BlockHeader(len, Wide()) + body;
      assert buf[..cur] == text;
    }

    /** A byte goes into the open block as it is. */
    method PutInBlock(b: byte)
      requires Stored() && Pending() && cur < buf.Length
      modifies buf, this`cur, this`text, this`body, this`syms
      ensures Stored() && Pending() && body == old(body) + [b] && cur == old(cur) + 1
      ensures syms == old(syms) + [Data(b)]
    {
      hide Encodes;
      Put(b);
      assert DataSyms(body + [b]) == DataSyms(body) + [Data(b)];
      body := body + [b];
      syms := syms + [Data(b)];
    }

    /** A byte other than ESC goes between blocks as it is. */
    method PutPlain(b: byte)
      requires Stored() && block.NoBlock? && Encodes(sent + text, syms) && b != ESC && cur < buf.Length
      modifies buf, this`cur, this`text, this`syms
      ensures Stored() && Encodes(sent + text, syms) && syms == old(syms) + [Data(b)] && cur == old(cur) + 1
      ensures text == old(text) + [b]
    {
      hide Encodes;
      EncodePlain(sent + text, syms, b);
      Put(b);
      assert sent + text == sent + old(text) + [b];
      syms := syms + [Data(b)];
    }

    /** An escape sequence; the buffer may be flushed in the middle of it. */
    method PutEscape(sym: Symbol)
      requires Sizes() && Stored() && Linked() && Whole(sent)
      requires block.NoBlock? && Encodes(sent + text, syms) && cur < buf.Length
      requires sym == Data(ESC) || sym == Eom || sym == Eos
      modifies buf, queue, this`cur, this`text, this`syms, this`sent, this`eomCnt
      ensures Stored() && Linked() && Whole(sent)
      ensures Encodes(sent + text, syms) && syms == old(syms) + [sym]
      ensures sent + text == old(sent + text) + Wire(sym)
      ensures sent == if old(cur) + 1 == buf.Length then old(sent + text) + [3] else old(sent)
      ensures eomCnt == (if old(cur) + 1 == buf.Length then 0 else old(eomCnt)) + if sym == Eom then 1 else 0
    {
      hide Encodes, EncodesEsc, Whole;
      EncodeBegin(sent + text, syms);
      EscIsWhole(sent + text + [ESC], syms);
      ghost var all := sent + text + [ESC];
      Put(ESC);
      assert sent + text == all;
      if cur == buf.Length {
        Flush();
        assert sent + text == all;
      }
      EncodeCode(all, syms, sym);
      Put(Code(sym));
      assert sent + text == all + [Code(sym)];
      assert all + [Code(sym)] == old(sent + text) + Wire(sym);
      syms := syms + [sym];
      if sym == Eom {
        eomCnt := eomCnt + 1;
      }
    }

    lemma EscIsWhole(bs: seq<byte>, symbols: seq<Symbol>)
      ensures EncodesEsc(bs, symbols) ==> Whole(bs)
      ensures Encodes(bs, symbols) ==> Whole(bs)
    {
    }

    /** Leave block mode, and make room for a byte. */
    method Settle()
      requires Valid()
      modifies buf, queue, this`cur, this`text, this`block, this`sent, this`eomCnt
      ensures Stored() && Linked() && Whole(sent)
      ensures block.NoBlock? && Encodes(sent + text, syms) && cur < buf.Length
      ensures old(block).NoBlock? ==> sent + text == old(sent + text)
      ensures old(block).Body? ==>
        && |body| < (if Wide() then 0x200000 else 0x4000)
        && sent + text == old(sent) + head + BlockHeader(|body|, Wide()) + body
      ensures old(cur) < buf.Length ==> sent == old(sent) && eomCnt == old(eomCnt) && cur <= old(cur)
    {
      hide Encodes, Whole, BlockHeader, Pending, Imaged;
      if !block.NoBlock? {
        BlockEnd();
      }
      if cur == buf.Length {
        EscIsWhole(sent + text, syms);
        ghost var all := sent + text;
        Flush();
        assert sent + text == all;
      }
    }

    /** Where a symbol goes: between blocks, behind the block that it closes, or into a block. */
    twostate predicate Placed(sym: Symbol)
      requires !sym.Invalid?
      reads this`block, this`sent, this`text, this`head, this`body
    {
      if block.Body? then
        && sym.Data? && sent == old(sent) && head == (if old(block).NoBlock? then old(text) else old(head))
        && body == (if old(block).NoBlock? then [] else old(body)) + [sym.b]
      else if old(block).NoBlock? then sent + text == old(sent + text) + Wire(sym)
      else
        && |old(body)| < (if Wide() then 0x200000 else 0x4000)
        && sent + text == old(sent + head) + BlockHeader(|old(body)|, Wide()) + old(body) + Wire(sym)
    }

    /** The buffer is flushed, and the count of messages in it is reset, only if there is no room for two bytes. */
    twostate predicate FlushedIfFull(sym: Symbol)
      reads this`sent, this`eomCnt
    {
      old(cur) + 1 < buf.Length ==> sent == old(sent) && eomCnt == old(eomCnt) + if sym == Eom then 1 else 0
    }

    /**
     Write a data byte or a marker: the slow path of the stream.  A byte goes into a block, which is
     opened if none is open, exactly if blocks are accepted and there is room for one.
     */
    method Write(sym: Symbol)
      requires Valid() && !sym.Invalid?
      modifies this, buf, queue
      ensures Valid() && syms == old(syms) + [sym]
      ensures open == old(open) && zeroCopy == old(zeroCopy) && blocks == old(blocks)
      ensures block.Body? <==> zeroCopy && old(cur) + 32 < buf.Length && sym.Data?
      ensures Placed(sym) && FlushedIfFull(sym) && Appended([sym])
    {
      hide Encodes, Whole, Stored, Linked, WireAll;
      if !zeroCopy || cur + 32 >= buf.Length || !sym.Data? {
        WriteBetween(sym);
      } else {
        WriteWithin(sym.b);
      }
    }

    /** A symbol between blocks. */
    method WriteBetween(sym: Symbol)
      requires Valid() && !sym.Invalid?
      modifies this, buf, queue
      ensures Valid() && syms == old(syms) + [sym] && block.NoBlock?
      ensures open == old(open) && zeroCopy == old(zeroCopy) && blocks == old(blocks)
      ensures Placed(sym) && FlushedIfFull(sym) && Appended([sym])
    {
      hide Encodes, Whole, Stored, Linked, WireAll, Pending;
      WireSnoc(syms, sym);
      WireOne(sym);
      Settle();
      if !sym.Data? || sym.b == ESC {
        PutEscape(sym);
      } else {
        PutPlain(sym.b);
      }
    }

    /** A byte into a block. */
    method WriteWithin(b: byte)
      requires Valid() && cur + 32 < buf.Length && zeroCopy
      modifies this, buf, queue
      ensures Valid() && syms == old(syms) + [Data(b)] && block.Body?
      ensures open == old(open) && zeroCopy == old(zeroCopy) && blocks == old(blocks)
      ensures Placed(Data(b)) && FlushedIfFull(Data(b))
    {
      hide Encodes, Whole, Stored, Linked, WireAll;
      if block.NoBlock? {
        BlockStart();
      }
      PutInBlock(b);
    }

    /** Write a symbol: bytes above ESC go straight to the buffer while there is room. */
    method WriteStream(sym: Symbol)
      requires Valid() && !sym.Invalid?
      modifies this, buf, queue
      ensures Valid() && syms == old(syms) + [sym]
      ensures open == old(open) && zeroCopy == old(zeroCopy) && blocks == old(blocks)
      ensures block.Body? <==>
        if sym.Data? && sym.b > 3 && old(cur) < buf.Length then old(block).Body?
        else zeroCopy && old(cur) + 32 < buf.Length && sym.Data?
      ensures Placed(sym) && FlushedIfFull(sym) && Appended([sym])
    {
      hide Encodes, Whole, Linked, WireAll;
      if sym.Data? && sym.b > ESC && cur < buf.Length {
        PutDirect(sym.b);
      } else {
        Write(sym);
      }
    }

    /** A byte other than ESC stored beside the encoder: data in a block, plain text between. */
    method PutDirect(b: byte)
      requires Valid() && b != ESC && cur < buf.Length
      modifies buf, this`cur, this`text, this`body, this`syms
      ensures Valid() && syms == old(syms) + [Data(b)] && cur == old(cur) + 1
      ensures block == old(block) && Placed(Data(b)) && Appended([Data(b)])
    {
      hide Encodes, Whole, Linked, Stored, WireAll;
      WireSnoc(syms, Data(b));
      WireOne(Data(b));
      if block.NoBlock? {
        PutPlain(b);
      } else {
        PutInBlock(b);
      }
    }

    method Copy(run: seq<byte>)
      requires Stored() && cur + |run| <= buf.Length
      modifies buf, this`cur, this`text
      ensures Stored() && cur == old(cur) + |run| && text == old(text) + run
    {
      forall i | 0 <= i < |run| {
        buf[cur + i] := run[i];
      }
      cur := cur + |run|;
      text := text + run;
      assert buf[..cur] == old(buf[..cur]) + run;
    }

    /** Copy data into the open block. */
    method CopyInBlock(run: seq<byte>)
      requires Stored() && Pending() && cur + |run| <= buf.Length
      modifies buf, this`cur, this`text, this`body, this`syms
      ensures Stored() && Pending() && body == old(body) + run && syms == old(syms) + DataSyms(run)
    {
      hide Encodes, Stored;
      assert DataSyms(body + run) == DataSyms(body) + DataSyms(run);
      Copy(run);
      body := body + run;
      syms := syms + DataSyms(run);
    }

    /** Write `data`: block copy inside a block, runs of plain bytes outside. */
    method WriteBlock(data: seq<byte>)
      requires Valid()
      modifies this, buf, queue
      ensures Valid() && syms == old(syms) + DataSyms(data)
      ensures open == old(open) && zeroCopy == old(zeroCopy) && blocks == old(blocks) && Appended(DataSyms(data))
    {
      hide Encodes, Whole, Linked, Coded, Stored, DataSyms, WireAll, Imaged;
      var i := 0;
      DataSymsNone(syms, data);
      while i < |data|
        invariant 0 <= i <= |data| && Valid() && syms == old(syms) + DataSyms(data[..i])
        invariant open == old(open) && zeroCopy == old(zeroCopy) && blocks == old(blocks)
        invariant Appended(DataSyms(data[..i]))
      {
        var n := WriteSome(data, i);
        DataSymsJoin(old(syms), data, i, i + n);
        i := i + n;
      }
      assert data[..|data|] == data;
    }

    lemma DataSymsNone(before: seq<Symbol>, data: seq<byte>)
      ensures before + DataSyms(data[..0]) == before && WireAll(DataSyms(data[..0])) == []
      ensures forall k :: 0 <= k <= |data| ==> Invalid !in DataSyms(data[..k])
    {
    }

    lemma DataSymsJoin(before: seq<Symbol>, data: seq<byte>, i: nat, j: nat)
      requires i <= j <= |data|
      ensures before + DataSyms(data[..i]) + DataSyms(data[i..j]) == before + DataSyms(data[..j])
      ensures WireAll(DataSyms(data[..j])) == WireAll(DataSyms(data[..i])) + WireAll(DataSyms(data[i..j]))
    {
      assert data[..j] == data[..i] + data[i..j];
      assert DataSyms(data[..j]) == DataSyms(data[..i]) + DataSyms(data[i..j]);
      WireConcat(DataSyms(data[..i]), DataSyms(data[i..j]));
    }

    lemma DataSymsOne(data: seq<byte>, i: nat)
      requires i < |data|
      ensures DataSyms(data[i..i + 1]) == [Data(data[i])]
    {
    }

    /** One round of the loop of `WriteBlock`, from position `i` on. */
    method WriteSome(data: seq<byte>, i: nat) returns (n: nat)
      requires Valid() && i < |data|
      modifies this, buf, queue
      ensures Valid() && 0 < n <= |data| - i && syms == old(syms) + DataSyms(data[i..i + n])
      ensures open == old(open) && zeroCopy == old(zeroCopy) && blocks == old(blocks)
      ensures Appended(DataSyms(data[i..i + n]))
    {
      hide Encodes, Whole, Linked, Pending, WireAll;
      n := if buf.Length - cur > |data| - i then |data| - i else buf.Length - cur;
      if n > 0 && block.Body? {
        CopyInBlock(data[i..i + n]);
      } else if n > 0 && data[i] != ESC {
        var run := data[i..i + n];
        n := PlainRun(run);
        assert data[i..i + n] == run[..n];
      } else {
        Write(Data(data[i]));
        n := 1;
        DataSymsOne(data, i);
      }
    }

    /** Store plain bytes up to the first ESC. */
    method PlainRun(run: seq<byte>) returns (n: nat)
      requires Valid() && block.NoBlock? && run != [] && run[0] != ESC && cur + |run| <= buf.Length
      modifies buf, this`cur, this`text, this`body, this`syms
      ensures Valid() && 0 < n <= |run| && syms == old(syms) + DataSyms(run[..n]) && Appended(DataSyms(run[..n]))
    {
      hide Encodes, Whole, Linked, Stored, Pending, WireAll, Coded, Imaged, DataSyms;
      n := 0;
      DataSymsNone(syms, run);
      while n < |run| && run[n] != ESC
        invariant 0 <= n <= |run| && (n == 0 ==> run[0] != ESC)
        invariant Valid() && syms == old(syms) + DataSyms(run[..n]) && cur == old(cur) + n && block == old(block)
        invariant Appended(DataSyms(run[..n]))
      {
        PutDirect(run[n]);
        DataSymsJoin(old(syms), run, n, n + 1);
        DataSymsOne(run, n);
        n := n + 1;
      }
    }

    /** Write a string, without its terminating zero. */
    method WriteString(str: seq<byte>)
      requires Valid()
      modifies this, buf, queue
      ensures Valid() && syms == old(syms) + DataSyms(str)
      ensures open == old(open) && zeroCopy == old(zeroCopy) && blocks == old(blocks) && Appended(DataSyms(str))
    {
      hide Encodes, Whole, Linked, Stored, Coded, WireAll, Imaged, DataSyms;
      DataSymsNone(syms, str);
      for i := 0 to |str|
        invariant Valid() && syms == old(syms) + DataSyms(str[..i])
        invariant open == old(open) && zeroCopy == old(zeroCopy) && blocks == old(blocks)
        invariant Appended(DataSyms(str[..i]))
      {
        WriteChar(str[i]);
        DataSymsJoin(old(syms), str, i, i + 1);
        DataSymsOne(str, i);
      }
      assert str[..|str|] == str;
    }

    /** Write a string with its terminating zero. */
    method WriteStringz(str: seq<byte>)
      requires Valid()
      modifies this, buf, queue
      ensures Valid() && syms == old(syms) + DataSyms(str) + [Data(0)]
      ensures open == old(open) && zeroCopy == old(zeroCopy) && blocks == old(blocks)
      ensures Appended(DataSyms(str) + [Data(0)])
    {
      hide WireAll, Valid;
      WireConcat(DataSyms(str), [Data(0)]);
      WriteString(str);
      WriteChar(0);
    }

    method WriteChar(ch: byte)
      requires Valid()
      modifies this, buf, queue
      ensures Valid() && syms == old(syms) + [Data(ch)]
      ensures open == old(open) && zeroCopy == old(zeroCopy) && blocks == old(blocks) && Appended([Data(ch)])
    {
      hide Encodes, Whole, Linked, Coded, WireAll;
      if ch != ESC && cur < buf.Length {
        PutDirect(ch);
      } else {
        Write(Data(ch));
      }
    }

    /** A posted flush runs; it must not find a block open. */
    method FlushEvent()
      requires Valid() && block.NoBlock?
      modifies this, queue
      ensures Valid() && block.NoBlock? && text == [] && syms == old(syms) && sent == old(sent + text)
      ensures open == old(open) && zeroCopy == old(zeroCopy) && blocks == old(blocks)
    {
      EscIsWhole(sent + text, syms);
      Flush();
      assert sent + text == old(sent) + old(text);
    }

    /** The write in flight completed; a failure stops all further writing. */
    method WriteDone(failed: bool, written: nat)
      requires Valid() && queue.request.Writing? && written <= |queue.request.bytes|
      modifies this`open, queue
      ensures Valid() && open == (old(open) && !failed)
      ensures queue.acked ==
        if failed then old(queue.acked) else old(queue.acked) + old(queue.request).bytes[..written]
    {
      hide Encodes, Whole, Stored, Pending;
      queue.Done(failed, written);
      if failed {
        open := false;
      }
    }

    /** The channel is disconnected: what is flushed from now on is dropped. */
    method Disconnect()
      requires Valid()
      modifies this`open
      ensures Valid() && !open
    {
      open := false;
    }

    /** The peer announced, or stopped announcing, that it accepts binary blocks. */
    method SetZeroCopy(on: bool)
      requires Valid()
      modifies this`zeroCopy, this`blocks
      ensures Valid() && zeroCopy == on && blocks == (old(blocks) || on)
    {
      zeroCopy := on;
      blocks := blocks || on;
    }

    /** Until blocks are accepted, what was flushed and what is in the buffer are the bytes of the symbols. */
    lemma WrittenBytes()
      requires Valid() && open && !blocks
      ensures block.NoBlock? && queue.added + buf[..cur] == WireAll(syms)
    {
    }

    /** Between blocks, what was flushed and what is in the buffer decode to what was written. */
    lemma WrittenDecodes()
      requires Valid() && open && block.NoBlock?
      ensures After(Plain, queue.added + buf[..cur]) == Plain
      ensures Decode(Plain, queue.added + buf[..cur]) == syms
    {
    }

    /** Whatever the socket acknowledged decodes to a prefix of what was written, at any time. */
    lemma AckedIsPrefix()
      requires Valid()
      ensures Decode(Plain, queue.acked) <= syms
      ensures Invalid !in Decode(Plain, queue.acked)
    {
      hide Decode, Unsent;
      var whole := sent + if block.NoBlock? then text else head;
      assert queue.acked <= queue.added <= sent <= whole;
      DecodePrefix(Plain, queue.acked, whole);
    }
  }

  /** The message "a" on a channel that does not accept blocks. */
  method WriteMessage() returns (out: TcpOutput)
    ensures fresh(out) && out.Valid() && out.block.NoBlock? && out.sent + out.text == [97, 3, 1]
  {
    hide TcpOutput.Valid, TcpOutput.Placed, TcpOutput.FlushedIfFull, WireAll;
    out := new TcpOutput(0x100);
    WireOne(Data(97));
    WireOne(Eom);
    out.WriteStream(Data(97));
    out.WriteStream(Eom);
    assert [] + [] + [97] + [3, 1] == [97, 3, 1];
  }
}
