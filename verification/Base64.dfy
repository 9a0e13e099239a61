/**
 BASE64 (base64.c), the encoding of section 4.3.2.4 of RFC 1421.

 `Encode` and `Decode64` say what the encoder and the decoder compute; the two loops are proved
 to compute just that, and `DecodeEncoded` says that the decoder takes back, from the front of an
 encoded text, exactly the bytes its buffer has room for.
 */
module Base64 {
  import opened Framing

  const PAD: byte := 61 // '='

  /** `int2char`: the alphabet A-Z a-z 0-9 + / as character codes. */
  function IntToChar(n: nat): (c: byte)
    requires n < 64
    ensures 43 <= c <= 122 && c != PAD
  {
    if n < 26 then 65 + n else if n < 52 then 97 + (n - 26) else if n < 62 then 48 + (n - 52)
    else if n == 62 then 43 else 47
  }

  // The number of entries of the `char2int` table; it ends with 'z'.
  const CH_MAX := 123

  /** `char2int` behind its bound test, negative for what is not in the alphabet. */
  function CharToInt(ch: int): (n: int)
    ensures -1 <= n < 64
  {
    if ch < 0 || ch >= CH_MAX then -1
    else if 65 <= ch <= 90 then ch - 65 else if 97 <= ch then ch - 97 + 26
    else if 48 <= ch <= 57 then ch - 48 + 52 else if ch == 43 then 62 else if ch == 47 then 63 else -1
  }

  /** The two tables are each other's inverse. */
  lemma TablesAgree(ch: byte)
    ensures CharToInt(ch) >= 0 <==> exists n: nat :: n < 64 && IntToChar(n) == ch
    ensures CharToInt(ch) >= 0 ==> IntToChar(CharToInt(ch)) == ch
  {
    if CharToInt(ch) >= 0 {
      assert IntToChar(CharToInt(ch)) == ch;
    }
  }

  /** Character by character. */
  lemma Alphabet(n: nat)
    ensures n < 26 ==> IntToChar(n) == "ABCDEFGHIJKLMNOPQRSTUVWXYZ"[n] as int
    ensures n < 26 ==> IntToChar(26 + n) == "abcdefghijklmnopqrstuvwxyz"[n] as int
    ensures n < 10 ==> IntToChar(52 + n) == "0123456789"[n] as int
    ensures IntToChar(62) == '+' as int && IntToChar(63) == '/' as int
  {
    if n < 26 {
      Uppers(n);
      Lowers(n);
    }
  }

  lemma Uppers(n: nat)
    requires n < 26
    ensures "ABCDEFGHIJKLMNOPQRSTUVWXYZ"[n] as int == 65 + n
  {
  }

  lemma Lowers(n: nat)
    requires n < 26
    ensures "abcdefghijklmnopqrstuvwxyz"[n] as int == 97 + n
  {
  }

  /** The four characters of a group of one to three bytes. */
  function Group(g: seq<byte>): (cs: seq<byte>)
    requires 1 <= |g| <= 3
    ensures |cs| == 4
  {
    if |g| == 1 then [IntToChar(g[0] / 4), IntToChar(g[0] % 4 * 16), PAD, PAD]
    else if |g| == 2 then
      [IntToChar(g[0] / 4), IntToChar(g[0] % 4 * 16 + g[1] / 16), IntToChar(g[1] % 16 * 4), PAD]
    else
      [IntToChar(g[0] / 4), IntToChar(g[0] % 4 * 16 + g[1] / 16),
       IntToChar(g[1] % 16 * 4 + g[2] / 64), IntToChar(g[2] % 64)]
  }

  /** The bits of the bytes, with zeros for bytes that are not there, are those of the four sextets. */
  lemma GroupBits(g: seq<byte>)
    requires 1 <= |g| <= 3
    ensures
      var cs := Group(g);
      var b0: int := g[0];
      var b1: int := if |g| > 1 then g[1] else 0;
      var b2: int := if |g| > 2 then g[2] else 0;
      var n2, n3 := if |g| > 1 then CharToInt(cs[2]) else 0, if |g| > 2 then CharToInt(cs[3]) else 0;
      && (|g| == 1 ==> cs[2] == '=' as int) && (|g| < 3 ==> cs[3] == '=' as int)
      && CharToInt(cs[0]) * 0x40000 + CharToInt(cs[1]) * 0x1000 + n2 * 0x40 + n3 ==
         b0 * 0x10000 + b1 * 0x100 + b2
  {
    hide CharToInt, IntToChar;
    Sextet(g[0] / 4);
    if |g| == 1 {
      Sextet(g[0] % 4 * 16);
    } else {
      Sextet(g[0] % 4 * 16 + g[1] / 16);
      if |g| == 2 {
        Sextet(g[1] % 16 * 4);
      } else {
        Sextet(g[1] % 16 * 4 + g[2] / 64);
        Sextet(g[2] % 64);
      }
    }
  }

  lemma Sextet(n: nat)
    requires n < 64
    ensures CharToInt(IntToChar(n)) == n
  {
  }

  /** How many of the available bytes the next group takes. */
  function Min(a: nat, b: nat): nat {
    if a <= b then a else b
  }

  /** The one-shot encoding. */
  function Encode(data: seq<byte>): seq<byte> {
    if data == [] then []
    else
      var n := Min(3, |data|);
      Group(data[..n]) + Encode(data[n..])
  }

  /** The length of the encoding of `n` bytes. */
  function TextSize(n: nat): nat {
    (n + 2) / 3 * 4
  }

  lemma {:induction false} EncodeLength(data: seq<byte>)
    ensures |Encode(data)| == TextSize(|data|)
  {
    hide Group;
    if data == [] {
    } else {
      EncodeLength(data[Min(3, |data|)..]);
    }
  }

  /** Whole groups of three can be encoded apart. */
  lemma {:induction false} EncodeConcat(a: seq<byte>, b: seq<byte>)
    requires |a| % 3 == 0
    ensures Encode(a + b) == Encode(a) + Encode(b)
  {
    hide Group;
    if a == [] {
      assert a + b == b;
    } else {
      assert (a + b)[..3] == a[..3] && (a + b)[3..] == a[3..] + b;
      EncodeConcat(a[3..], b);
    }
  }

  lemma Shift<T>(a: seq<T>, b: seq<T>, c: seq<T>, d: seq<T>)
    ensures a + b + (c + d) == a + (b + c) + d == (a + (b + c)) + [] + d
  {
  }

  // The size at which the encoder's output buffer is written out.
  const OBF_SIZE := 0x100

  /** The encoding loop; characters collect in a buffer that is written out when full. */
  method WriteBase64(buf: seq<byte>) returns (out: seq<byte>, size: nat)
    ensures out == Encode(buf) && size == |out|
  {
    assert Encode([]) == [];
    hide Group, Encode;
    var pos := 0;
    var obf := [];
    out := [];
    assert buf[0..] == buf;
    while pos < |buf|
      invariant 0 <= pos <= |buf| && |obf| < OBF_SIZE
      invariant out + obf + Encode(buf[pos..]) == Encode(buf)
    {
      var chars;
      pos, chars := EncodeGroup(buf, pos);
      Shift(out, obf, chars, Encode(buf[pos..]));
      obf := obf + chars;
      if |obf| >= OBF_SIZE {
        out := out + obf;
        obf := [];
      }
    }
    if |obf| > 0 {
      out := out + obf;
    }
    size := (|buf| + 2) / 3 * 4;
    EncodeLength(buf);
  }

  /** One round of the loop: the characters of the next group. */
  method EncodeGroup(buf: seq<byte>, start: nat) returns (pos: nat, cs: seq<byte>)
    requires start < |buf|
    ensures start < pos <= |buf|
    ensures Encode(buf[start..]) == cs + Encode(buf[pos..])
    ensures |cs| == 4
  {
    pos := start;
    var byte0: nat := buf[pos];
    pos := pos + 1;
    cs := [IntToChar(byte0 / 4)];
    MaskedBits(byte0);
    if pos == |buf| {
      cs := cs + [IntToChar(byte0 * 16 % 64), PAD, PAD];
    } else {
      var byte1: nat := buf[pos];
      pos := pos + 1;
      cs := cs + [IntToChar(byte0 * 16 % 64 + byte1 / 16)];
      MaskedBits(byte1);
      if pos == |buf| {
        cs := cs + [IntToChar(byte1 * 4 % 64), PAD];
      } else {
        var byte2: nat := buf[pos];
        pos := pos + 1;
        cs := cs + [IntToChar(byte1 * 4 % 64 + byte2 / 64), IntToChar(byte2 % 64)];
      }
    }
    EncodeStep(buf, start, pos, cs);
  }

  lemma MaskedBits(b: byte)
    ensures b * 16 % 64 == b % 4 * 16
    ensures b * 4 % 64 == b % 16 * 4
  {
  }

  lemma EncodeStep(buf: seq<byte>, start: nat, pos: nat, cs: seq<byte>)
    requires start < pos <= |buf| && pos == Min(start + 3, |buf|)
    requires cs == Group(buf[start..pos])
    ensures Encode(buf[start..]) == cs + Encode(buf[pos..])
  {
    hide Group;
    var rest := buf[start..];
    assert rest[..pos - start] == buf[start..pos] && rest[pos - start..] == buf[pos..];
  }

  /** What the decoder returns: the bytes and how many characters it took, or an exception. */
  datatype Decoded = Decoded(data: seq<byte>, used: nat) | SyntaxError

  /** The character at position `k`, or the end-of-stream marker. */
  function CharAt(cs: seq<byte>, k: nat): int {
    if k < |cs| then cs[k] else -1
  }

  /** The bytes packed into neighbouring sextets. */
  function First(n0: nat, n1: nat): byte
    requires n0 < 64 && n1 < 64
  {
    n0 * 4 + n1 / 16
  }

  function Second(n1: nat, n2: nat): byte
    requires n1 < 64 && n2 < 64
  {
    n1 % 16 * 16 + n2 / 4
  }

  function Third(n2: nat, n3: nat): byte
    requires n2 < 64 && n3 < 64
  {
    n2 % 4 * 64 + n3
  }

  /** One group: its bytes, fewer than three if it is padded. */
  function Ungroup(n0: nat, cs: seq<byte>): Decoded
    requires n0 < 64
  {
    var n1, n2, n3 := CharToInt(CharAt(cs, 1)), CharToInt(CharAt(cs, 2)), CharToInt(CharAt(cs, 3));
    if n1 < 0 then SyntaxError
    else if CharAt(cs, 2) == PAD then Decoded([First(n0, n1)], Min(4, |cs|))
    else if n2 < 0 then SyntaxError
    else if CharAt(cs, 3) == PAD then Decoded([First(n0, n1), Second(n1, n2)], 4)
    else if n3 < 0 then SyntaxError
    else Decoded([First(n0, n1), Second(n1, n2), Third(n2, n3)], 4)
  }

  /**
   The decoder with room for `size` bytes: group after group while there is room for three bytes,
   up to a padded group or to a character outside the alphabet, which is left unread.
   */
  function Decode64(cs: seq<byte>, size: nat): Decoded
    decreases size
  {
    var n0 := CharToInt(CharAt(cs, 0));
    if size < 3 || n0 < 0 then Decoded([], 0)
    else
      var g := Ungroup(n0, cs);
      if g.SyntaxError? || |g.data| < 3 then g
      else
        var rest := Decode64(cs[4..], size - 3);
        if rest.SyntaxError? then rest else Decoded(g.data + rest.data, 4 + rest.used)
  }

  /** A result that follows `data`, decoded from `used` characters. */
  function Joined(data: seq<byte>, used: nat, r: Decoded): Decoded {
    if r.SyntaxError? then r else Decoded(data + r.data, used + r.used)
  }

  /** The decoding loop, on the characters from position `start` on. */
  method ReadBase64(text: seq<byte>, start: nat, size: nat) returns (r: Decoded)
    requires size >= 3 && start <= |text|
    ensures r == Decode64(text[start..], size)
  {
    hide CharToInt, Ungroup;
    var pos := start;
    var buf: seq<byte> := [];
    while |buf| + 3 <= size
      invariant start <= pos <= |text| && |buf| <= size
      invariant Decode64(text[start..], size) == Joined(buf, pos - start, Decode64(text[pos..], size - |buf|))
      decreases size - |buf|
    {
      var n0 := CharToInt(CharAt(text, pos));
      assert CharAt(text[pos..], 0) == CharAt(text, pos);
      NoneBeyond(CharAt(text, pos));
      if n0 < 0 {
        break;
      }
      var g := ReadGroup(text, pos, n0);
      if g.SyntaxError? {
        return SyntaxError;
      }
      DecodeOn(text, start, pos, size, buf, g);
      buf := buf + g.data;
      pos := pos + g.used;
      if |g.data| < 3 {
        return Decoded(buf, pos - start);
      }
    }
    r := Decoded(buf, pos - start);
  }

  /** One round of the loop: three more characters, then the bytes they make. */
  method ReadGroup(text: seq<byte>, pos: nat, n0: nat) returns (r: Decoded)
    requires pos < |text| && n0 < 64
    ensures r == Ungroup(n0, text[pos..])
    ensures r.Decoded? ==> pos + r.used <= |text| && |r.data| <= 3 && (|r.data| < 3 || r.used == 4)
  {
    hide CharToInt;
    assert forall k: nat :: CharAt(text[pos..], k) == CharAt(text, pos + k);
    var ch1, ch2, ch3 := CharAt(text, pos + 1), CharAt(text, pos + 2), CharAt(text, pos + 3);
    var n1 := CharToInt(ch1);
    if n1 < 0 {
      return SyntaxError;
    }
    var buf := [First(n0, n1)];
    if ch2 == PAD {
      return Decoded(buf, Min(4, |text| - pos));
    }
    var n2 := CharToInt(ch2);
    if n2 < 0 {
      return SyntaxError;
    }
    buf := buf + [Second(n1, n2)];
    if ch3 == PAD {
      return Decoded(buf, 4);
    }
    var n3 := CharToInt(ch3);
    if n3 < 0 {
      return SyntaxError;
    }
    NoneBeyond(ch3);
    r := Decoded(buf + [Third(n2, n3)], 4);
  }

  lemma NoneBeyond(ch: int)
    ensures CharToInt(ch) >= 0 ==> ch >= 0
  {
  }

  lemma DecodeOn(text: seq<byte>, start: nat, pos: nat, size: nat, buf: seq<byte>, g: Decoded)
    requires start <= pos < |text| && |buf| + 3 <= size
    requires CharToInt(CharAt(text, pos)) >= 0
    requires g == Ungroup(CharToInt(CharAt(text, pos)), text[pos..]) && g.Decoded?
    requires pos + g.used <= |text| && (|g.data| < 3 || g.used == 4)
    requires Decode64(text[start..], size) == Joined(buf, pos - start, Decode64(text[pos..], size - |buf|))
    ensures
      Decode64(text[start..], size) ==
      Joined(buf + g.data, pos + g.used - start,
        if |g.data| < 3 then Decoded([], 0)
        else Decode64(text[pos + g.used..], size - |buf| - 3))
  {
    hide CharToInt, Ungroup, Decode64, Joined;
    var rest := if |g.data| < 3 then Decoded([], 0) else Decode64(text[pos..][4..], size - |buf| - 3);
    assert CharAt(text[pos..], 0) == CharAt(text, pos);
    DecodeRound(text[pos..], size - |buf|, g);
    AfterAfter(buf, pos - start, g.data, g.used, rest);
    assert |g.data| >= 3 ==> text[pos..][4..] == text[pos + 4..];
  }

  lemma DecodeRound(cs: seq<byte>, size: nat, g: Decoded)
    requires size >= 3 && CharToInt(CharAt(cs, 0)) >= 0
    requires g == Ungroup(CharToInt(CharAt(cs, 0)), cs) && g.Decoded? && (|g.data| >= 3 ==> g.used == 4 <= |cs|)
    ensures
      Decode64(cs, size) ==
      Joined(g.data, g.used, if |g.data| < 3 then Decoded([], 0) else Decode64(cs[4..], size - 3))
  {
    hide CharToInt, Ungroup;
  }

  lemma AfterAfter(a: seq<byte>, m: nat, b: seq<byte>, n: nat, r: Decoded)
    ensures Joined(a, m, Joined(b, n, r)) == Joined(a + b, m + n, r)
  {
    if r.Decoded? {
      assert a + (b + r.data) == a + b + r.data;
    }
  }

  /** A group decodes to its bytes, whatever follows. */
  lemma UngroupGroup(g: seq<byte>, rest: seq<byte>)
    requires 1 <= |g| <= 3
    ensures CharToInt((Group(g) + rest)[0]) >= 0
    ensures Ungroup(CharToInt((Group(g) + rest)[0]), Group(g) + rest) == Decoded(g, 4)
  {
    hide IntToChar, CharToInt, First, Second, Third;
    var cs := Group(g) + rest;
    var b1 := if |g| > 1 then g[1] else 0;
    var b2 := if |g| > 2 then g[2] else 0;
    Packed(g[0], b1, b2);
    SextetRead(g[0] / 4);
    SextetRead(g[0] % 4 * 16 + b1 / 16);
    SextetRead(b1 % 16 * 4 + b2 / 64);
    SextetRead(b2 % 64);
    PadIsNoSextet();
  }

  lemma SextetRead(n: nat)
    requires n < 64
    ensures CharToInt(IntToChar(n)) == n
  {
  }

  lemma PadIsNoSextet()
    ensures CharToInt(PAD) < 0
  {
  }

  /** Four sextets hold three bytes. */
  lemma Packed(b0: byte, b1: byte, b2: byte)
    ensures First(b0 / 4, b0 % 4 * 16 + b1 / 16) == b0
    ensures Second(b0 % 4 * 16 + b1 / 16, b1 % 16 * 4 + b2 / 64) == b1
    ensures Third(b1 % 16 * 4 + b2 / 64, b2 % 64) == b2
  {
  }

  /** The number of bytes that whole groups in `size` bytes of room take from `available`. */
  function Taken(available: nat, size: nat): (n: nat)
    ensures n <= available && n <= size
    ensures n % 3 == 0 || n == available
  {
    Min(available, size / 3 * 3)
  }

  lemma DecodeGroup(g: seq<byte>, cs: seq<byte>, size: nat)
    requires 1 <= |g| <= 3 <= size
    ensures
      Decode64(Group(g) + cs, size) ==
      if |g| < 3 then Decoded(g, 4)
      else
        var rest := Decode64(cs, size - 3);
        if rest.SyntaxError? then rest else Decoded(g + rest.data, 4 + rest.used)
  {
    hide Group, Ungroup;
    UngroupGroup(g, cs);
    assert (Group(g) + cs)[4..] == cs;
  }

  /**
   Round trip: from an encoded text followed by anything outside the alphabet, the decoder takes
   as many bytes as its buffer has whole groups for.
   */
  lemma {:induction false} DecodeEncoded(data: seq<byte>, rest: seq<byte>, size: nat)
    requires CharToInt(CharAt(rest, 0)) < 0
    ensures var n := Taken(|data|, size);
            Decode64(Encode(data) + rest, size) == Decoded(data[..n], TextSize(n))
    decreases |data|
  {
    hide CharToInt, CharAt, Taken, TextSize, Encode, Decode64, Group, Ungroup;
    if data == [] || size < 3 {
      DecodeNothing(data, rest, size);
    } else {
      EncodeFirst(data, rest);
      TakenStep(|data|, size);
      var k := Min(3, |data|);
      DecodeGroup(data[..k], Encode(data[k..]) + rest, size);
      if k == 3 {
        DecodeEncoded(data[3..], rest, size - 3);
        PrefixAfter(data, 3, Taken(|data| - 3, size - 3));
      } else {
        assert data[..k] == data;
      }
    }
  }

  lemma DecodeNothing(data: seq<byte>, rest: seq<byte>, size: nat)
    requires CharToInt(CharAt(rest, 0)) < 0
    requires data == [] || size < 3
    ensures Taken(|data|, size) == 0 && Decode64(Encode(data) + rest, size) == Decoded([], TextSize(0))
  {
    hide CharToInt;
    if data == [] {
      assert Encode(data) + rest == rest;
    }
  }

  lemma PrefixAfter<T>(s: seq<T>, k: nat, n: nat)
    requires k + n <= |s|
    ensures s[..k + n] == s[..k] + s[k..][..n]
  {
  }

  lemma EncodeFirst(data: seq<byte>, rest: seq<byte>)
    requires data != []
    ensures var k := Min(3, |data|);
            Encode(data) + rest == Group(data[..k]) + (Encode(data[k..]) + rest)
  {
    hide Group;
  }

  lemma TakenStep(available: nat, size: nat)
    ensures available == 0 || size < 3 ==> Taken(available, size) == 0
    ensures TextSize(0) == 0 && TextSize(1) == 4 && TextSize(2) == 4
    ensures 0 < available < 3 <= size ==> Taken(available, size) == available
    ensures
      available >= 3 && size >= 3 ==>
        && Taken(available, size) == 3 + Taken(available - 3, size - 3)
        && TextSize(Taken(available, size)) == 4 + TextSize(Taken(available - 3, size - 3))
  {
  }

  /** What the decoder leaves is the encoding of the bytes it left. */
  lemma DecodeLeaves(data: seq<byte>, rest: seq<byte>, size: nat)
    ensures var n := Taken(|data|, size);
            var text := Encode(data) + rest;
            TextSize(n) <= |text| && text[TextSize(n)..] == Encode(data[n..]) + rest
  {
    assert Encode([]) == [];
    hide Encode, TextSize, Taken;
    var n := Taken(|data|, size);
    if n == |data| {
      assert data[..n] == data && data[n..] == [];
    } else {
      EncodeConcat(data[..n], data[n..]);
      assert data == data[..n] + data[n..];
    }
    EncodeLength(data[..n]);
    DropFront(Encode(data[..n]), Encode(data[n..]), rest);
  }

  lemma DropFront(a: seq<byte>, b: seq<byte>, c: seq<byte>)
    ensures a + b + c == a + (b + c) && (a + b + c)[|a|..] == b + c
  {
  }
}
