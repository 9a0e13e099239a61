/**
 Binary data in JSON (json.c): a client writes and reads it in pieces of any size, and on the
 stream it is either raw bytes after a size, or BASE64 text in quotes.

 `Streamed` is what a text holds, group after group; whatever the sizes of the reads, their
 results are consecutive pieces of it.
 */
module JsonBinary {
  import opened Framing
  import opened Base64
  import NumberPrinting
  import NumberScanning

  const QUOTE: byte := 34 // '"'

  /** All that a reader gets from a text: the bytes, how the text ends and how long it is. */
  datatype Streamed = Streamed(data: seq<byte>, failed: bool, used: nat)

  function Stream(cs: seq<byte>): Streamed
    decreases |cs|
  {
    var n0 := CharToInt(CharAt(cs, 0));
    if n0 < 0 then Streamed([], false, 0)
    else
      var g := Ungroup(n0, cs);
      if cs == [] || g.SyntaxError? then Streamed([], true, 0)
      else
        var n := Min(g.used, |cs|);
        Before(g.data, n, Stream(cs[n..]))
  }

  /** `s`, after `data` taken from `used` characters. */
  function Before(data: seq<byte>, used: nat, s: Streamed): Streamed {
    s.(data := data + s.data, used := used + s.used)
  }

  lemma BeforeNothing(s: Streamed)
    ensures Before([], 0, s) == s
  {
  }

  lemma BeforeHas(data: seq<byte>, s: Streamed)
    ensures Before(data, 0, s).data == data + s.data && Before(data, 0, s).failed == s.failed
    ensures s == Before(data, 0, s).(data := Before(data, 0, s).data[|data|..])
  {
  }

  lemma BeforeBefore(a: seq<byte>, b: seq<byte>, s: Streamed)
    ensures Before(a, 0, Before(b, 0, s)) == Before(a + b, 0, s)
  {
    assert a + (b + s.data) == a + b + s.data;
  }

  /** How one call of the decoder relates to the whole stream. */
  ghost predicate Fits(cs: seq<byte>, size: nat, d: Decoded) {
    match d
    case SyntaxError => Stream(cs).failed && |Stream(cs).data| + 3 <= size
    case Decoded(data, used) =>
      && used <= |cs| && |data| <= size && (data == [] <==> used == 0)
      && Stream(cs) == Before(data, used, Stream(cs[used..]))
      && (data == [] && size >= 3 ==> Stream(cs) == Streamed([], false, 0))
  }

  lemma {:induction false} DecodeFits(cs: seq<byte>, size: nat)
    ensures Fits(cs, size, Decode64(cs, size))
    decreases size
  {
    hide CharToInt, Ungroup;
    var n0 := CharToInt(CharAt(cs, 0));
    NoneBeyond(CharAt(cs, 0));
    assert cs[0..] == cs;
    if n0 >= 0 && size >= 3 {
      UngroupShape(n0, cs);
      var g := Ungroup(n0, cs);
      if g.Decoded? && |g.data| == 3 {
        DecodeFits(cs[4..], size - 3);
        var d := Decode64(cs[4..], size - 3);
        if d.Decoded? {
          assert cs[4..][d.used..] == cs[4 + d.used..];
          var rest := Stream(cs[4 + d.used..]);
          assert g.data + (d.data + rest.data) == g.data + d.data + rest.data;
        }
      }
    }
  }

  lemma UngroupShape(n0: nat, cs: seq<byte>)
    requires n0 < 64 && cs != []
    ensures
      var g := Ungroup(n0, cs);
      g.Decoded? ==> 1 <= |g.data| <= 3 && 0 < g.used <= |cs| && (|g.data| == 3 ==> g.used == 4)
  {
    hide CharToInt;
    NoneBeyond(CharAt(cs, 1));
    NoneBeyond(CharAt(cs, 2));
    NoneBeyond(CharAt(cs, 3));
  }

  /** An encoded text in quotes streams exactly the data, and ends at the quote. */
  lemma {:induction false} StreamEncoded(data: seq<byte>, rest: seq<byte>)
    requires rest != [] && rest[0] == QUOTE
    ensures Stream(Encode(data) + rest) == Streamed(data, false, TextSize(|data|))
  {
    hide Ungroup, Group;
    if data == [] {
      assert Encode(data) + rest == rest;
    } else {
      var k := Min(3, |data|);
      var tail := Encode(data[k..]) + rest;
      EncodeFirst(data, rest);
      UngroupGroup(data[..k], tail);
      hide Encode, CharToInt;
      assert (Group(data[..k]) + tail)[4..] == tail;
      assert data == data[..k] + data[k..];
      StreamEncoded(data[k..], rest);
      TextSizeStep(|data|);
    }
  }

  lemma TextSizeStep(n: nat)
    requires n > 0
    ensures TextSize(n) == 4 + TextSize(n - Min(3, n))
  {
  }

  datatype Encoding = Raw | Text

  /** What a whole binary value looks like on the stream. */
  function Image(encoding: Encoding, size: nat, data: seq<byte>): seq<byte> {
    if encoding.Raw? then Header(size) + data else [QUOTE] + Encode(data) + [QUOTE]
  }

  /** The size in parentheses. */
  function Header(size: nat): seq<byte> {
    [40] + Codes(NumberPrinting.Digits(size)) + [41]
  }

  /** `JsonWriteBinaryState` with its output stream. */
  class BinaryWriter {
    var out: seq<byte>
    var encoding: Encoding
    var buf: seq<byte>
    var sizeStart: nat
    var sizeDone: nat
    // The bytes that have left `buf`.
    ghost var gone: seq<byte>

    ghost predicate Valid()
      reads this
    {
      if encoding.Raw? then buf == [] && sizeDone == |gone| && out == Header(sizeStart) + gone
      else |buf| < 3 && |gone| % 3 == 0 && out == [QUOTE] + Encode(gone)
    }

    /** Everything written so far. */
    ghost function Written(): seq<byte>
      reads this
    {
      gone + buf
    }

    constructor Start(zeroCopy: bool, size: nat)
      ensures Valid() && Written() == [] && sizeStart == size
      ensures encoding == if zeroCopy && size > 0 then Raw else Text
    {
      buf, gone, sizeStart, sizeDone := [], [], size, 0;
      if zeroCopy && size > 0 {
        encoding := Raw;
        out := Header(size);
      } else {
        encoding := Text;
        out := [QUOTE];
      }
    }

    method Data(data: seq<byte>)
      requires Valid()
      modifies this
      ensures Valid() && Written() == old(Written()) + data
      ensures encoding == old(encoding) && sizeStart == old(sizeStart)
    {
      if |data| == 0 {
        return;
      }
      if encoding.Raw? {
        out := out + data;
        gone := gone + data;
        sizeDone := sizeDone + |data|;
      } else {
        DataAsText(data);
      }
    }

    method DataAsText(data: seq<byte>)
      requires Valid() && encoding.Text?
      modifies this`out, this`gone, this`buf, this`sizeDone
      ensures Valid() && Written() == old(Written()) + data
    {
      hide Encode, Header;
      var n := 0;
      if |buf| > 0 {
        n := Complete(data);
      }
      if n < |data| {
        WriteRest(data, n);
      }
    }

    /** Whole groups straight from the caller's bytes; the last one or two are kept. */
    method WriteRest(data: seq<byte>, n: nat)
      requires Valid() && encoding.Text? && buf == [] && n < |data|
      modifies this`out, this`gone, this`buf, this`sizeDone
      ensures Valid() && Written() == old(Written()) + data[n..]
      ensures sizeDone == old(sizeDone) + (|data| - n) / 3 * 3
    {
      hide Encode, Header;
      var rem := (|data| - n) % 3;
      var end := |data| - rem;
      WriteGroups(data[n..end]);
      buf := data[end..];
      sizeDone := sizeDone + (end - n);
    }

    /** Top the kept bytes up to a group and write it. */
    method Complete(data: seq<byte>) returns (n: nat)
      requires Valid() && encoding.Text? && |buf| > 0
      modifies this`out, this`gone, this`buf
      ensures Valid() && n <= |data| && Written() == old(Written()) + data[..n]
      ensures buf == [] || n == |data|
    {
      hide Encode, Header;
      n := 0;
      var group := buf;
      while |group| < 3 && n < |data|
        invariant n <= |data| && |group| <= 3 && group == buf + data[..n]
      {
        group := group + [data[n]];
        n := n + 1;
      }
      buf := group;
      if |buf| >= 3 {
        buf := [];
        WriteGroups(group);
      }
    }

    method WriteGroups(data: seq<byte>)
      requires Valid() && encoding.Text? && buf == [] && |data| % 3 == 0
      modifies this`out, this`gone
      ensures Valid() && gone == old(gone) + data
    {
      hide Encode, Header;
      var text, size := WriteBase64(data);
      TextGrows(gone, data);
      out := out + text;
      gone := gone + data;
    }

    lemma TextGrows(a: seq<byte>, b: seq<byte>)
      requires |a| % 3 == 0
      ensures [QUOTE] + Encode(a + b) == [QUOTE] + Encode(a) + Encode(b)
    {
      hide Encode;
      EncodeConcat(a, b);
    }

    /** A value that was written in any number of pieces is the same on the stream as one written at once. */
    method End()
      requires Valid()
      requires encoding.Raw? ==> |Written()| == sizeStart
      modifies this`out
      ensures out == Image(encoding, sizeStart, Written())
    {
      assert Encode([]) == [];
      hide Encode, Header;
      if encoding.Text? {
        TextGrows(gone, buf);
        if |buf| > 0 {
          var text, size := WriteBase64(buf);
          out := out + text;
        }
        out := out + [QUOTE];
      }
    }
  }

  // ---------- The head of a value ----------

  /** `isspace` */
  predicate IsSpace(ch: int) {
    ch == 32 || 9 <= ch <= 13
  }

  lemma Spaces(ch: int)
    ensures IsSpace(ch) <==> ch == ' ' as int || '\t' as int <= ch <= '\r' as int
    ensures IsDigit(ch) <==> '0' as int <= ch <= '9' as int
  {
  }

  function SkipSpace(text: seq<byte>, i: nat): (j: nat)
    ensures i <= j && (i <= |text| ==> j <= |text|) && !IsSpace(CharAt(text, j))
    decreases |text| - i
  {
    if IsSpace(CharAt(text, i)) then SkipSpace(text, i + 1) else i
  }

  predicate IsDigit(ch: int) {
    48 <= ch <= 57
  }

  /** Digits, in the arithmetic of an unsigned long with `ulongs` values. */
  function TakeDigits(text: seq<byte>, i: nat, acc: nat, ulongs: nat): (r: (nat, nat))
    requires ulongs > 0
    decreases |text| - i
  {
    if IsDigit(CharAt(text, i)) then TakeDigits(text, i + 1, (acc * 10 + (CharAt(text, i) - 48)) % ulongs, ulongs)
    else (acc, i)
  }

  /** What the head says and where it ends. */
  datatype Head = Head(encoding: Encoding, size: nat, next: nat) | NoHead

  /** After the opening parenthesis. */
  function HeadOfRaw(text: seq<byte>, i: nat, ulongs: nat): Head
    requires ulongs > 0
  {
    var j := SkipSpace(text, i);
    var neg := CharAt(text, j) == 45;
    var first := if neg then j + 1 else j;
    if !IsDigit(CharAt(text, first)) then NoHead
    else
      var (n, k) := TakeDigits(text, first, 0, ulongs);
      var end := SkipSpace(text, k);
      if CharAt(text, end) == 41 then Head(Raw, if neg then (ulongs - n) % ulongs else n, end + 1) else NoHead
  }

  /** After the letter n. */
  function HeadOfNull(text: seq<byte>, i: nat): Head {
    var a := SkipSpace(text, i);
    var b := SkipSpace(text, a + 1);
    var c := SkipSpace(text, b + 1);
    if CharAt(text, a) == 117 && CharAt(text, b) == 108 && CharAt(text, c) == 108 then Head(Raw, 0, c + 1) else NoHead
  }

  function HeadOf(text: seq<byte>, ulongs: nat): Head
    requires ulongs > 0
  {
    var i := SkipSpace(text, 0);
    var ch := CharAt(text, i);
    if ch == 40 then HeadOfRaw(text, i + 1, ulongs)
    else if ch == 34 then Head(Text, 0, i + 1)
    else if ch == 110 then HeadOfNull(text, i + 1)
    else NoHead
  }

  method IgnoreWhitespace(text: seq<byte>, pos: nat) returns (next: nat)
    ensures next == SkipSpace(text, pos)
  {
    next := pos;
    while IsSpace(CharAt(text, next))
      invariant SkipSpace(text, pos) == SkipSpace(text, next)
      decreases |text| - next
    {
      next := next + 1;
    }
  }

  /** `json_test_char` */
  method TestChar(text: seq<byte>, pos: nat, x: byte) returns (ok: bool, next: nat)
    ensures ok <==> CharAt(text, SkipSpace(text, pos)) == x
    ensures next == SkipSpace(text, pos) + 1
  {
    next := IgnoreWhitespace(text, pos);
    ok := CharAt(text, next) == x;
    next := next + 1;
  }

  /** `json_read_ulong` */
  method ReadUlong(text: seq<byte>, pos: nat, ulongs: nat) returns (ok: bool, n: nat, next: nat)
    requires ulongs > 10
    ensures
      var j := SkipSpace(text, pos);
      var neg := CharAt(text, j) == 45;
      var first := if neg then j + 1 else j;
      && (ok <==> IsDigit(CharAt(text, first)))
      && (ok ==>
            var (m, k) := TakeDigits(text, first, 0, ulongs);
            n == (if neg then (ulongs - m) % ulongs else m) && next == k)
  {
    n := 0;
    next := IgnoreWhitespace(text, pos);
    var neg := CharAt(text, next) == 45;
    if neg {
      next := next + 1;
    }
    ghost var first := next;
    ok := IsDigit(CharAt(text, next));
    if !ok {
      return;
    }
    n := CharAt(text, next) - 48;
    next := next + 1;
    SmallMod(n, ulongs);
    while IsDigit(CharAt(text, next))
      invariant n < ulongs && TakeDigits(text, first, 0, ulongs) == TakeDigits(text, next, n, ulongs)
      decreases |text| - next
    {
      n := (n * 10 + (CharAt(text, next) - 48)) % ulongs;
      next := next + 1;
    }
    if neg {
      n := (ulongs - n) % ulongs;
    }
  }

  lemma SmallMod(n: nat, m: nat)
    requires n < m
    ensures n % m == n
  {
  }

  /** `json_read_binary_start` */
  method ReadHead(text: seq<byte>, ulongs: nat) returns (h: Head)
    requires ulongs > 10
    ensures h == HeadOf(text, ulongs)
  {
    hide TakeDigits, SkipSpace;
    var pos := IgnoreWhitespace(text, 0);
    var ch := CharAt(text, pos);
    var ok, size;
    pos := pos + 1;
    if ch == 40 {
      ok, size, pos := ReadUlong(text, pos, ulongs);
      if !ok {
        return NoHead;
      }
      ok, pos := TestChar(text, pos, 41);
      h := if ok then Head(Raw, size, pos) else NoHead;
    } else if ch == 34 {
      h := Head(Text, 0, pos);
    } else if ch == 110 {
      h := ReadNull(text, pos);
    } else {
      h := NoHead;
    }
  }

  method ReadNull(text: seq<byte>, pos: nat) returns (h: Head)
    ensures h == HeadOfNull(text, pos)
  {
    hide SkipSpace;
    var u, p := TestChar(text, pos, 117);
    if !u {
      return NoHead;
    }
    var l;
    l, p := TestChar(text, p, 108);
    if !l {
      return NoHead;
    }
    l, p := TestChar(text, p, 108);
    h := if l then Head(Raw, 0, p) else NoHead;
  }

  /** The text `t` stands at `i`. */
  predicate At(text: seq<byte>, i: nat, t: seq<byte>) {
    i + |t| <= |text| && text[i..i + |t|] == t
  }

  /** Characters as bytes. */
  function Codes(s: string): (bs: seq<byte>)
    ensures |bs| == |s|
  {
    seq(|s|, i requires 0 <= i < |s| => s[i] as int % 256)
  }

  lemma {:induction false} DigitsTaken(text: seq<byte>, i: nat, ds: string, acc: nat, ulongs: nat)
    requires NumberScanning.AllDigits(ds) && At(text, i, Codes(ds)) && !IsDigit(CharAt(text, i + |ds|))
    requires acc < ulongs && NumberScanning.Number(acc, ds) < ulongs
    ensures TakeDigits(text, i, acc, ulongs) == (NumberScanning.Number(acc, ds), i + |ds|)
    decreases |ds|
  {
    if ds != "" {
      assert text[i] == text[i..i + |ds|][0] == Codes(ds)[0];
      assert text[i + 1..i + |ds|] == text[i..i + |ds|][1..] == Codes(ds)[1..] == Codes(ds[1..]);
      var next := acc * 10 + NumberScanning.DigitValue(ds[0]);
      NumberScanning.NumberGrows(next, ds[1..]);
      SmallMod(next, ulongs);
      DigitsTaken(text, i + 1, ds[1..], next, ulongs);
    }
  }

  lemma {:induction false} SpaceSkipped(text: seq<byte>, i: nat, j: nat)
    requires i <= j && (forall k :: i <= k < j ==> IsSpace(CharAt(text, k))) && !IsSpace(CharAt(text, j))
    ensures SkipSpace(text, i) == j
    decreases j - i
  {
    if i < j {
      SpaceSkipped(text, i + 1, j);
    }
  }

  lemma AtConcat(text: seq<byte>, i: nat, a: seq<byte>, b: seq<byte>)
    requires At(text, i, a + b)
    ensures At(text, i, a) && At(text, i + |a|, b)
  {
    assert text[i..i + |a|] == text[i..i + |a + b|][..|a|];
    assert text[i + |a|..i + |a + b|] == text[i..i + |a + b|][|a|..];
  }

  lemma AtOne(text: seq<byte>, i: nat, c: byte)
    requires At(text, i, [c])
    ensures CharAt(text, i) == c
  {
    assert text[i] == text[i..i + 1][0];
  }

  /** The head of a written value is read back, with white space in front of it, up to where its data begin. */
  lemma HeadRead(text: seq<byte>, i: nat, encoding: Encoding, size: nat, data: seq<byte>, ulongs: nat)
    requires (forall k :: 0 <= k < i ==> IsSpace(CharAt(text, k))) && At(text, i, Image(encoding, size, data))
    requires size < ulongs
    ensures
      HeadOf(text, ulongs) ==
      if encoding.Raw? then Head(Raw, size, i + |Header(size)|) else Head(Text, 0, i + 1)
  {
    hide HeadOf, Image, Header;
    if encoding.Text? {
      TextHeadRead(text, i, size, data, ulongs);
    } else {
      RawImageRead(text, i, size, data, ulongs);
    }
  }

  lemma TextHeadRead(text: seq<byte>, i: nat, size: nat, data: seq<byte>, ulongs: nat)
    requires (forall k :: 0 <= k < i ==> IsSpace(CharAt(text, k))) && At(text, i, Image(Text, size, data)) && ulongs > 0
    ensures HeadOf(text, ulongs) == Head(Text, 0, i + 1)
  {
    hide TakeDigits, SkipSpace, At, Encode, HeadOfRaw, HeadOfNull;
    assert Image(Text, size, data) == [QUOTE] + (Encode(data) + [QUOTE]);
    AtConcat(text, i, [QUOTE], Encode(data) + [QUOTE]);
    AtOne(text, i, QUOTE);
    SpaceSkipped(text, 0, i);
  }

  lemma RawImageRead(text: seq<byte>, i: nat, size: nat, data: seq<byte>, ulongs: nat)
    requires (forall k :: 0 <= k < i ==> IsSpace(CharAt(text, k))) && At(text, i, Image(Raw, size, data))
    requires size < ulongs
    ensures HeadOf(text, ulongs) == Head(Raw, size, i + |Header(size)|)
  {
    hide TakeDigits, SkipSpace, At, Codes, NumberPrinting.Digits, HeadOfRaw, HeadOfNull, NumberScanning.AllDigits;
    var ds := NumberPrinting.Digits(size);
    ImageParts(size, data);
    AtConcat(text, i, [40], Codes(ds) + ([41] + data));
    AtConcat(text, i + 1, Codes(ds), [41] + data);
    AtConcat(text, i + 1 + |ds|, [41], data);
    AtOne(text, i, 40);
    AtOne(text, i + 1 + |ds|, 41);
    SpaceSkipped(text, 0, i);
    RawHeadRead(text, i + 1, size, ulongs);
  }

  lemma ImageParts(size: nat, data: seq<byte>)
    ensures Image(Raw, size, data) == [40] + (Codes(NumberPrinting.Digits(size)) + ([41] + data))
  {
  }

  lemma RawHeadRead(text: seq<byte>, i: nat, size: nat, ulongs: nat)
    requires
      var ds := NumberPrinting.Digits(size);
      At(text, i, Codes(ds)) && CharAt(text, i + |ds|) == 41 && size < ulongs
    ensures HeadOfRaw(text, i, ulongs) == Head(Raw, size, i + |NumberPrinting.Digits(size)| + 1)
  {
    hide TakeDigits, SkipSpace, NumberPrinting.Digits;
    var ds := NumberPrinting.Digits(size);
    NumberScanning.NumberOfDigits(size);
    assert text[i] == text[i..i + |ds|][0] == Codes(ds)[0];
    SpaceSkipped(text, i, i);
    DigitsTaken(text, i, ds, 0, ulongs);
    SpaceSkipped(text, i + |ds|, i + |ds|);
  }

  /** A size with a minus sign is taken in the arithmetic of an unsigned long. */
  lemma NegativeHead(ulongs: nat)
    requires ulongs > 10
    ensures HeadOf([40, 45, 53, 41], ulongs) == Head(Raw, ulongs - 5, 4)
  {
    var text: seq<byte> := [40, 45, 53, 41];
    SmallMod(5, ulongs);
    SmallMod(ulongs - 5, ulongs);
    assert TakeDigits(text, 3, 5, ulongs) == (5, 3);
    assert TakeDigits(text, 2, 0, ulongs) == (5, 3);
    assert SkipSpace(text, 0) == 0 && SkipSpace(text, 1) == 1 && SkipSpace(text, 3) == 3;
  }

  /** `null` is read as a value of no bytes. */
  lemma HeadOfNullRead(ulongs: nat)
    requires ulongs > 0
    ensures HeadOf([110, 117, 108, 108], ulongs) == Head(Raw, 0, 4)
  {
  }

  /** The result of a read, or a JSON exception. */
  datatype Result = Ok(data: seq<byte>) | Failed

  /** `JsonReadBinaryState` with its input stream, once the head of the value has been read. */
  class BinaryReader {
    const text: seq<byte>
    const encoding: Encoding
    const sizeStart: nat
    var pos: nat
    var buf: seq<byte>
    var sizeDone: nat

    ghost predicate Valid()
      reads this
    {
      && pos <= |text| && |buf| <= 3
      && (encoding.Raw? ==> buf == [] && sizeDone <= sizeStart)
    }

    /** What is still to be read: the data, whether the text is malformed, and where it ends. */
    ghost function Coming(): Streamed
      requires Valid()
      reads this
    {
      if encoding.Raw? then
        Streamed(RawData(text[pos..], sizeStart - sizeDone), false, Min(|text|, pos + sizeStart - sizeDone))
      else Before(buf, pos, Stream(text[pos..]))
    }

    constructor (encoding: Encoding, size: nat, text: seq<byte>, pos: nat)
      requires pos <= |text|
      ensures Valid() && this.encoding == encoding && this.text == text && sizeStart == size && sizeDone == 0
      ensures
        Coming() ==
        if encoding.Raw? then Streamed(RawData(text[pos..], size), false, Min(|text|, pos + size))
        else Before([], pos, Stream(text[pos..]))
    {
      this.encoding, this.text, sizeStart := encoding, text, size;
      this.pos, buf, sizeDone := pos, [], 0;
    }

    /**
     One read.  It returns the next bytes of the value, as many as are asked for and left; it
     fails only in a malformed text and only if it asks for all that comes before the bad place.
     */
    method Data(size: nat) returns (r: Result)
      requires Valid()
      modifies this
      ensures Valid()
      ensures r.Failed? ==> old(Coming()).failed && size >= |old(Coming()).data|
      ensures old(Coming()).failed && size > |old(Coming()).data| ==> r.Failed?
      ensures r.Ok? ==> r.data == old(Coming()).data[..Min(size, |old(Coming()).data|)]
      ensures r.Ok? ==> Coming() == old(Coming()).(data := old(Coming()).data[|r.data|..])
      ensures r.Ok? ==> sizeDone == old(sizeDone) + |r.data|
    {
      if encoding.Raw? {
        r := ReadRaw(size);
      } else {
        r := ReadText(size);
      }
    }

    method ReadRaw(size: nat) returns (r: Result)
      requires Valid() && encoding.Raw?
      modifies this`pos, this`sizeDone
      ensures Valid() && r.Ok?
      ensures r.data == old(Coming()).data[..Min(size, |old(Coming()).data|)]
      ensures Coming() == old(Coming()).(data := old(Coming()).data[|r.data|..])
      ensures sizeDone == old(sizeDone) + |r.data|
    {
      hide RawData;
      var len := Min(size, sizeStart - sizeDone);
      RawParts(text, pos, sizeStart - sizeDone, len);
      var res: seq<byte> := [];
      ghost var all := RawData(text[pos..], len);
      ghost var start := pos;
      while |res| < len
        invariant Valid() && |res| <= len && res == all[..|res|]
        invariant pos == Min(|text|, start + |res|) && sizeDone == old(sizeDone)
      {
        if pos < |text| {
          var n := Min(|text| - pos, len - |res|);
          RawMore(text, start, len, |res|, n);
          res := res + text[pos..pos + n];
          pos := pos + n;
        } else {
          RawPast(text, start, len, |res|);
          res := res + [255];
        }
      }
      sizeDone := sizeDone + |res|;
      r := Ok(res);
    }

    /** The BASE64 branch: bytes kept from the last read, then whole groups, then one kept group. */
    method ReadText(size: nat) returns (r: Result)
      requires Valid() && encoding.Text?
      modifies this
      ensures Valid()
      ensures r.Failed? ==> old(Coming()).failed && size >= |old(Coming()).data|
      ensures old(Coming()).failed && size > |old(Coming()).data| ==> r.Failed?
      ensures r.Ok? ==> r.data == old(Coming()).data[..Min(size, |old(Coming()).data|)]
      ensures r.Ok? ==> Coming() == old(Coming()).(data := old(Coming()).data[|r.data|..])
      ensures r.Ok? ==> sizeDone == old(sizeDone) + |r.data|
    {
      hide Coming, Before;
      ghost var all := Coming();
      var res: seq<byte> := [];
      BeforeNothing(all);
      while |res| < size
        invariant Valid() && |res| <= size
        invariant all == Before(res, 0, Coming()) && sizeDone == old(sizeDone)
        decreases |text| - pos
      {
        if |buf| > 0 {
          var part := TakeKept(size - |res|);
          BeforeBefore(res, part, Coming());
          res := res + part;
          if |buf| > 0 {
            break;
          }
        }
        if size - |res| >= 3 {
          var d := DecodeDirectly(size - |res|);
          BeforeHas(res, Coming());
          if d.SyntaxError? {
            return Failed;
          }
          if d.data == [] {
            break;
          }
          BeforeBefore(res, d.data, Coming());
          res := res + d.data;
        } else {
          var ok := DecodeAndKeep();
          BeforeHas(res, Coming());
          if !ok {
            return Failed;
          }
          if |buf| == 0 {
            break;
          }
        }
      }
      Account(|res|);
      BeforeHas(res, Coming());
      r := Ok(res);
    }

    method Account(n: nat)
      requires Valid() && encoding.Text?
      modifies this`sizeDone
      ensures Valid() && Coming() == old(Coming()) && sizeDone == old(sizeDone) + n
    {
      sizeDone := sizeDone + n;
    }

    method TakeKept(room: nat) returns (part: seq<byte>)
      requires Valid() && encoding.Text? && room > 0
      modifies this`buf
      ensures Valid() && part == old(buf)[..Min(room, |old(buf)|)] && buf == old(buf)[|part|..]
      ensures old(Coming()) == Before(part, 0, Coming())
    {
      hide Stream;
      var i := Min(room, |buf|);
      part := buf[..i];
      buf := buf[i..];
    }

    method DecodeDirectly(room: nat) returns (d: Decoded)
      requires Valid() && encoding.Text? && buf == [] && room >= 3
      modifies this`pos
      ensures Valid()
      ensures d.SyntaxError? ==> Coming() == old(Coming()) && Coming().failed && |Coming().data| + 3 <= room
      ensures d.Decoded? ==> old(Coming()) == Before(d.data, 0, Coming()) && |d.data| <= room
      ensures d.Decoded? && d.data != [] ==> pos > old(pos)
      ensures d.Decoded? && d.data == [] ==> Coming() == old(Coming()) && Coming().data == [] && !Coming().failed
    {
      hide Stream, Decode64, RawData;
      d := ReadBase64(text, pos, room);
      DecodeFits(text[pos..], room);
      if d.Decoded? {
        DropDrop(text, pos, d.used);
        pos := pos + d.used;
      }
    }

    lemma DropDrop(s: seq<byte>, m: nat, n: nat)
      requires m <= |s| && n <= |s[m..]|
      ensures s[m..][n..] == s[m + n..]
    {
    }

    method DecodeAndKeep() returns (ok: bool)
      requires Valid() && encoding.Text? && buf == []
      modifies this`pos, this`buf
      ensures Valid() && Coming() == old(Coming())
      ensures !ok ==> Coming().failed && Coming().data == []
      ensures ok ==> if buf == [] then Coming().data == [] && !Coming().failed else pos > old(pos)
    {
      var d := DecodeDirectly(3);
      ok := d.Decoded?;
      if ok {
        buf := d.data;
      }
    }

    /** The closing quote; bytes that were never asked for are an error. */
    method End() returns (ok: bool)
      requires Valid() && (encoding.Raw? ==> sizeDone == sizeStart)
      modifies this`pos
      ensures Valid()
      ensures encoding.Text? ==> (ok <==> buf == [] && CharAt(text, SkipSpace(text, old(pos))) == '"' as int)
      ensures encoding.Raw? ==> ok && pos == old(pos)
      ensures encoding.Text? && ok ==> pos == SkipSpace(text, old(pos)) + 1
    {
      ok := buf == [];
      if ok && encoding.Text? {
        var next;
        ok, next := TestChar(text, pos, QUOTE);
        if ok {
          pos := next;
        }
      }
    }
  }

  /** The next `n` bytes of a stream that reads as -1, cast to a byte, past its end. */
  function RawData(cs: seq<byte>, n: nat): (data: seq<byte>)
    ensures |data| == n
  {
    seq(n, i => if 0 <= i < |cs| then cs[i] else 255)
  }

  function Flatten(pieces: seq<seq<byte>>): seq<byte> {
    if pieces == [] then [] else Flatten(pieces[..|pieces| - 1]) + pieces[|pieces| - 1]
  }

  /**
   Writing a value in pieces gives the one-shot text of all of them, however they are cut, or all
   their bytes behind the size where those are accepted.
   */
  method WritePieces(zeroCopy: bool, pieces: seq<seq<byte>>) returns (out: seq<byte>)
    ensures
      var data := Flatten(pieces);
      out == if zeroCopy && data != [] then Header(|data|) + data else ['"' as int] + Encode(data) + ['"' as int]
  {
    hide Encode, Header;
    var size := |Flatten(pieces)|;
    var writer := new BinaryWriter.Start(zeroCopy, size);
    for k := 0 to |pieces|
      invariant writer.Valid() && writer.sizeStart == size
      invariant writer.encoding == if zeroCopy && size > 0 then Raw else Text
      invariant writer.Written() == Flatten(pieces[..k])
    {
      writer.Data(pieces[k]);
      assert pieces[..k + 1][..k] == pieces[..k];
    }
    assert pieces[..|pieces|] == pieces;
    writer.End();
    out := writer.out;
  }

  /**
   Reading a value in pieces: `sizes` are the sizes asked for, one after the other.  Of a value
   that a writer wrote, in either encoding, the pieces put together are the data, whatever the
   sizes; the value ends in good order exactly if all of it was asked for, and then what follows
   it is next.
   */
  method ReadPieces(encoding: Encoding, data: seq<byte>, rest: seq<byte>, sizes: seq<nat>, ulongs: nat)
      returns (all: seq<byte>, ended: bool, pos: nat)
    requires |data| < ulongs && ulongs > 10
    ensures all == data[..Min(Sum(sizes), |data|)]
    ensures ended <==> Sum(sizes) >= |data|
    ensures ended ==> pos == |Image(encoding, |data|, data)|
  {
    hide Reading, Image;
    var reader := OpenReader(encoding, data, rest, ulongs);
    all := [];
    for k := 0 to |sizes|
      invariant |all| == Min(Sum(sizes[..k]), |data|) && all == data[..|all|]
      invariant fresh(reader) && Reading(reader, encoding, data, rest, |all|)
    {
      var piece := ReadPiece(reader, sizes[k], encoding, data, rest, |all|);
      SumSnoc(sizes, k);
      PieceAdds(data, |all|, |piece|);
      all := all + piece;
    }
    assert sizes[..|sizes|] == sizes;
    ended := EndOfValue(reader, encoding, data, rest, |all|);
    pos := reader.pos;
  }

  /** A reader of the value for `data` that has returned `done` bytes so far. */
  ghost predicate Reading(reader: BinaryReader, encoding: Encoding, data: seq<byte>, rest: seq<byte>, done: nat)
    reads reader
  {
    && done <= |data|
    && reader.Valid() && reader.encoding == encoding
    && reader.text == Image(encoding, |data|, data) + rest
    && reader.Coming() == Streamed(data[done..], false, Ending(encoding, |data|))
    && (encoding.Raw? ==> reader.sizeStart == |data| && reader.sizeDone == done)
  }

  /** Where the data of a value end on the stream. */
  function Ending(encoding: Encoding, size: nat): nat {
    if encoding.Raw? then |Header(size)| + size else 1 + TextSize(size)
  }

  method OpenReader(encoding: Encoding, data: seq<byte>, rest: seq<byte>, ulongs: nat) returns (reader: BinaryReader)
    requires |data| < ulongs && ulongs > 10
    ensures fresh(reader) && Reading(reader, encoding, data, rest, 0)
  {
    hide Encode, Stream, HeadOf;
    var text := Image(encoding, |data|, data) + rest;
    assert At(text, 0, Image(encoding, |data|, data));
    HeadRead(text, 0, encoding, |data|, data, ulongs);
    var head := ReadHead(text, ulongs);
    ImageStreams(encoding, data, rest);
    hide Image;
    reader := new BinaryReader(head.encoding, head.size, text, head.next);
    assert data[0..] == data;
  }

  method ReadPiece(reader: BinaryReader, size: nat, encoding: Encoding, data: seq<byte>, rest: seq<byte>, done: nat)
      returns (piece: seq<byte>)
    requires Reading(reader, encoding, data, rest, done)
    modifies reader
    ensures piece == data[done..Min(done + size, |data|)]
    ensures Reading(reader, encoding, data, rest, done + |piece|)
  {
    hide Image, Ending, BinaryReader.Coming;
    var r := reader.Data(size);
    piece := r.data;
    assert data[done..][|piece|..] == data[done + |piece|..];
  }

  method EndOfValue(reader: BinaryReader, encoding: Encoding, data: seq<byte>, rest: seq<byte>, done: nat)
      returns (ended: bool)
    requires Reading(reader, encoding, data, rest, done)
    modifies reader
    ensures ended <==> done == |data|
    ensures ended ==> reader.pos == |Image(encoding, |data|, data)|
  {
    hide Encode, Stream, BinaryReader.Coming, SkipSpace;
    if encoding.Raw? {
      // The source asserts that all was read.
      if reader.sizeDone < reader.sizeStart {
        return false;
      }
      RawEnd(reader, data, rest);
      ended := reader.End();
    } else {
      EndsAtQuote(reader, data, rest, done);
      EncodeLength(data);
      ended := reader.End();
    }
  }

  lemma RawEnd(reader: BinaryReader, data: seq<byte>, rest: seq<byte>)
    requires Reading(reader, Raw, data, rest, |data|)
    ensures reader.pos == |Header(|data|)| + |data|
  {
  }

  lemma PieceAdds(data: seq<byte>, m: nat, n: nat)
    requires m + n <= |data|
    ensures data[..m] + data[m..m + n] == data[..m + n]
  {
  }

  lemma ImageStreams(encoding: Encoding, data: seq<byte>, rest: seq<byte>)
    ensures
      var text := Image(encoding, |data|, data) + rest;
      if encoding.Raw? then
        var h := |Header(|data|)|;
        h + |data| <= |text| && RawData(text[h..], |data|) == data
      else |text| > 0 && Before([], 1, Stream(text[1..])) == Streamed(data, false, Ending(encoding, |data|))
  {
    hide Encode, Stream, Header;
    var text := Image(encoding, |data|, data) + rest;
    if encoding.Text? {
      assert text[1..] == Encode(data) + ([QUOTE] + rest);
      StreamEncoded(data, [QUOTE] + rest);
    } else {
      assert text[|Header(|data|)|..] == data + rest;
    }
  }

  lemma EndsAtQuote(reader: BinaryReader, data: seq<byte>, rest: seq<byte>, done: nat)
    requires Reading(reader, Text, data, rest, done)
    ensures done == |data| <==> reader.buf == [] && CharAt(reader.text, SkipSpace(reader.text, reader.pos)) == QUOTE
    ensures done == |data| ==> SkipSpace(reader.text, reader.pos) == reader.pos == 1 + TextSize(|data|)
  {
    hide Encode, Stream, Image, CharToInt;
    var cs := reader.text[reader.pos..];
    EmptyStream(cs);
    QuoteAtEnd(data, rest);
    QuoteIsNoSextet();
    assert CharAt(cs, 0) == CharAt(reader.text, reader.pos);
    assert data[done..] == reader.buf + Stream(cs).data;
    if done == |data| {
      assert |data[done..]| == 0;
      assert reader.buf == [] && Stream(cs).data == [];
      assert reader.pos == 1 + TextSize(|data|);
    } else {
      assert |data[done..]| > 0;
      if reader.buf == [] {
        assert CharToInt(CharAt(cs, 0)) >= 0;
        SextetIsNoSpace(CharAt(cs, 0));
      }
    }
  }

  lemma SextetIsNoSpace(ch: int)
    requires CharToInt(ch) >= 0
    ensures !IsSpace(ch) && ch != QUOTE
  {
  }

  lemma QuoteAtEnd(data: seq<byte>, rest: seq<byte>)
    ensures CharAt(Image(Text, |data|, data) + rest, 1 + TextSize(|data|)) == QUOTE
  {
    hide Encode, TextSize;
    EncodeLength(data);
  }

  lemma QuoteIsNoSextet()
    ensures CharToInt(QUOTE) < 0
  {
  }

  lemma EmptyStream(cs: seq<byte>)
    ensures Stream(cs).data == [] && !Stream(cs).failed <==> CharToInt(CharAt(cs, 0)) < 0
    ensures CharToInt(CharAt(cs, 0)) < 0 ==> Stream(cs).used == 0
  {
    var n0 := CharToInt(CharAt(cs, 0));
    if n0 >= 0 && cs != [] {
      UngroupShape(n0, cs);
    }
    hide CharToInt, Ungroup;
  }

  function Sum(sizes: seq<nat>): nat {
    if sizes == [] then 0 else sizes[0] + Sum(sizes[1..])
  }

  lemma {:induction false} SumSnoc(sizes: seq<nat>, k: nat)
    requires k < |sizes|
    ensures Sum(sizes[..k + 1]) == Sum(sizes[..k]) + sizes[k]
  {
    if k > 0 {
      SumSnoc(sizes[1..], k - 1);
      assert sizes[1..][..k - 1] == sizes[..k][1..] && sizes[1..][..k] == sizes[..k + 1][1..];
    }
  }

  lemma RawMore(text: seq<byte>, start: nat, len: nat, m: nat, n: nat)
    requires start + m + n <= |text| && m + n <= len
    ensures RawData(text[start..], len)[..m] + text[start + m..start + m + n] == RawData(text[start..], len)[..m + n]
  {
  }

  lemma RawPast(text: seq<byte>, start: nat, len: nat, m: nat)
    requires start <= |text| <= start + m && m < len
    ensures RawData(text[start..], len)[..m] + [255] == RawData(text[start..], len)[..m + 1]
  {
  }

  lemma RawParts(text: seq<byte>, start: nat, total: nat, n: nat)
    requires start <= |text| && n <= total
    ensures RawData(text[start..], n) == RawData(text[start..], total)[..n]
    ensures RawData(text[Min(|text|, start + n)..], total - n) == RawData(text[start..], total)[n..]
  {
  }
}
