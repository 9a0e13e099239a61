/**
 The integer scanning part of `str_to_double` (mdep.c): sign, decimal mantissa of at most 18
 digits, decimal exponent.
 */
module NumberScanning {
  import opened NumberPrinting

  predicate IsDigit(s: string, i: nat) {
    i < |s| && '0' <= s[i] <= '9'
  }

  function DigitValue(c: char): (d: nat)
    requires '0' <= c <= '9'
    ensures d < 10
  {
    c as nat - '0' as nat
  }

  /** `isspace` */
  predicate IsSpace(s: string, i: nat) {
    i < |s| && (s[i] == ' ' || '\t' <= s[i] <= '\r')
  }

  lemma Spaces(c: char)
    ensures IsSpace([c], 0) <==> c as int == 32 || 9 <= c as int <= 13
    ensures IsDigit([c], 0) <==> 48 <= c as int <= 57
  {
  }

  /** The mantissa: its value, how many digits are in it, the count of fraction digits, a position. */
  datatype Mantissa = Mantissa(val: nat, digits: nat, fraction: int, pos: nat)

  datatype Scanned = Scanned(neg: bool, val: nat, exponent: int, pos: nat)

  function SkipSpaces(s: string, i: nat): (j: nat)
    decreases |s| - i
  {
    if IsSpace(s, i) then SkipSpaces(s, i + 1) else i
  }

  /** One more mantissa digit; from the 19th on, digits only shift the exponent. */
  function TakeDigit(m: Mantissa, d: nat, afterPoint: bool): Mantissa {
    if m.digits < 18 then
      var v := m.val * 10 + d;
      Mantissa(v, if v != 0 then m.digits + 1 else m.digits,
               if afterPoint then m.fraction + 1 else m.fraction, m.pos + 1)
    else m.(fraction := if afterPoint then m.fraction else m.fraction - 1, pos := m.pos + 1)
  }

  function ScanDigits(s: string, m: Mantissa, afterPoint: bool): Mantissa
    decreases |s| - m.pos
  {
    if IsDigit(s, m.pos) then ScanDigits(s, TakeDigit(m, DigitValue(s[m.pos]), afterPoint), afterPoint) else m
  }

  function ScanExponent(s: string, i: nat, e: nat): (nat, nat)
    decreases |s| - i
  {
    if IsDigit(s, i) then ScanExponent(s, i + 1, e * 10 + DigitValue(s[i])) else (e, i)
  }

  predicate IsChar(s: string, i: nat, c: char) {
    i < |s| && s[i] == c
  }

  /** The whole scan: value, exponent and the position of the first character not used. */
  function Scan(s: string): Scanned {
    var i := SkipSpaces(s, 0);
    var neg := IsChar(s, i, '-');
    var i := if neg || IsChar(s, i, '+') then i + 1 else i;
    var m := ScanDigits(s, Mantissa(0, 0, 0, i), false);
    var m := if IsChar(s, m.pos, '.') then ScanDigits(s, m.(pos := m.pos + 1), true) else m;
    ScanRest(s, neg, m)
  }

  function ScanRest(s: string, neg: bool, m: Mantissa): Scanned {
    if IsChar(s, m.pos, 'E') || IsChar(s, m.pos, 'e') then
      var i := m.pos + 1;
      var negExp := IsChar(s, i, '-');
      var i := if negExp || IsChar(s, i, '+') then i + 1 else i;
      var (e, p) := ScanExponent(s, i, 0);
      Scanned(neg, m.val, if negExp then 0 - e - m.fraction else e - m.fraction, p)
    else
      Scanned(neg, m.val, -m.fraction, m.pos)
  }

  /** The mantissa loop: 64 bits are enough for 18 digits. */
  method ScanMantissa(s: string, i: nat, val: uint64, digits: nat, fraction: int, afterPoint: bool)
    returns (p: nat, val': uint64, digits': nat, fraction': int)
    requires digits <= 18 && val as int < Power(10, digits)
    ensures digits' <= 18 && val' as int < Power(10, digits')
    ensures Mantissa(val' as int, digits', fraction', p) ==
      ScanDigits(s, Mantissa(val as int, digits, fraction, i), afterPoint)
  {
    p, val', digits', fraction' := i, val, digits, fraction;
    while IsDigit(s, p)
      invariant digits' <= 18 && val' as int < Power(10, digits')
      invariant ScanDigits(s, Mantissa(val as int, digits, fraction, i), afterPoint) ==
        ScanDigits(s, Mantissa(val' as int, digits', fraction', p), afterPoint)
      decreases |s| - p
    {
      if digits' < 18 {
        PowerGrows(digits');
        val' := val' * 10 + DigitValue(s[p]) as uint64;
        if val' != 0 {
          digits' := digits' + 1;
        }
        if afterPoint {
          fraction' := fraction' + 1;
        }
      } else if !afterPoint {
        fraction' := fraction' - 1;
      }
      p := p + 1;
    }
  }

  lemma PowerGrows(n: nat)
    requires n < 18
    ensures 1 <= Power(10, n) && Power(10, n + 1) == 10 * Power(10, n) <= 1_000_000_000_000_000_000
  {
    assert Power(10, 6) == 1_000_000;
    assert Power(10, 12) == 1_000_000_000_000;
    assert Power(10, 18) == 1_000_000_000_000_000_000;
    PowerMonotone(0, n);
    PowerMonotone(n + 1, 18);
  }

  lemma {:induction false} PowerMonotone(a: nat, b: nat)
    requires a <= b
    ensures 1 <= Power(10, a) <= Power(10, b)
    decreases b
  {
    if b > 0 {
      if a < b {
        PowerMonotone(a, b - 1);
      } else {
        PowerMonotone(a - 1, b - 1);
      }
    }
  }

  /** Scan a number; what is left of the conversion is floating-point scaling. */
  method ScanNumber(s: string) returns (neg: bool, val: uint64, exponent: int, p: nat)
    ensures Scanned(neg, val as int, exponent, p) == Scan(s)
  {
    p := 0;
    while IsSpace(s, p)
      invariant SkipSpaces(s, 0) == SkipSpaces(s, p)
      decreases |s| - p
    {
      p := p + 1;
    }
    neg := IsChar(s, p, '-');
    if neg || IsChar(s, p, '+') {
      p := p + 1;
    }
    var digits, fraction;
    p, val, digits, fraction := ScanMantissa(s, p, 0, 0, 0, false);
    if IsChar(s, p, '.') {
      p, val, digits, fraction := ScanMantissa(s, p + 1, val, digits, fraction, true);
    }
    exponent, p := ScanExponentPart(s, p);
    exponent := exponent - fraction;
  }

  method ScanExponentPart(s: string, i: nat) returns (exponent: int, p: nat)
    ensures forall neg, m: Mantissa :: m.pos == i ==>
      ScanRest(s, neg, m) == Scanned(neg, m.val, exponent - m.fraction, p)
  {
    exponent, p := 0, i;
    if IsChar(s, p, 'E') || IsChar(s, p, 'e') {
      p := p + 1;
      var negExp := IsChar(s, p, '-');
      if negExp || IsChar(s, p, '+') {
        p := p + 1;
      }
      ghost var start := p;
      while IsDigit(s, p)
        invariant exponent >= 0 && ScanExponent(s, start, 0) == ScanExponent(s, p, exponent)
        decreases |s| - p
      {
        exponent := exponent * 10 + DigitValue(s[p]);
        p := p + 1;
      }
      if negExp {
        exponent := -exponent;
      }
    }
  }

  lemma DigitsAreDigits(n: nat)
    ensures forall i :: 0 <= i < |Digits(n)| ==> '0' <= Digits(n)[i] <= '9'
  {
  }

  /** The mantissa loop reads printed digits back. */
  lemma {:induction false} DigitsScanned(s: string, i: nat, n: nat)
    requires 0 < n && |Digits(n)| <= 18
    requires i + |Digits(n)| <= |s| && s[i..i + |Digits(n)|] == Digits(n)
    ensures ScanDigits(s, Mantissa(0, 0, 0, i), false) ==
      ScanDigits(s, Mantissa(n, |Digits(n)|, 0, i + |Digits(n)|), false)
  {
    var last := i + |Digits(n)| - 1;
    assert s[last] == Digits(n)[|Digits(n)| - 1] == DigitChar(n % 10);
    if n >= 10 {
      assert s[i..last] == s[i..last + 1][..last - i] == Digits(n / 10);
      DigitsScanned(s, i, n / 10);
    }
  }

  lemma {:induction false} ExponentScanned(s: string, i: nat, n: nat)
    requires i + |Digits(n)| <= |s| && s[i..i + |Digits(n)|] == Digits(n)
    ensures ScanExponent(s, i, 0) == ScanExponent(s, i + |Digits(n)|, n)
  {
    var last := i + |Digits(n)| - 1;
    assert s[last] == Digits(n)[|Digits(n)| - 1] == DigitChar(n % 10);
    if n >= 10 {
      assert s[i..last] == s[i..last + 1][..last - i] == Digits(n / 10);
      ExponentScanned(s, i, n / 10);
    }
  }

  lemma PrintedLayout(neg: bool, fraction: nat, exponent10: int)
    ensures var s, i := Printed(neg, fraction, exponent10), if neg then 1 else 0;
      var j := i + |Digits(fraction)|;
      && j <= |s| && s[i..j] == Digits(fraction) && s[j..] == ExponentPart(exponent10)
      && s[i] == Digits(fraction)[0] && (neg ==> s[0] == '-')
  {
    hide Digits, ExponentPart;
    var s, i := Printed(neg, fraction, exponent10), if neg then 1 else 0;
    assert s[i..] == Digits(fraction) + ExponentPart(exponent10);
    assert s[i] == s[i..][0];
  }

  /** Scanning what was printed gives back the sign, the mantissa and the exponent. */
  lemma ScanPrinted(neg: bool, fraction: nat, exponent10: int)
    requires 0 < fraction <= TWO53
    ensures Scan(Printed(neg, fraction, exponent10)) ==
      Scanned(neg, fraction, exponent10, |Printed(neg, fraction, exponent10)|)
  {
    hide Digits, Power, Printed, ExponentPart, ScanRest;
    PowerSixteen();
    DigitsLength(fraction, 16);
    DigitsAreDigits(fraction);
    var s := Printed(neg, fraction, exponent10);
    var i := if neg then 1 else 0;
    var j := i + |Digits(fraction)|;
    PrintedLayout(neg, fraction, exponent10);
    DigitsScanned(s, i, fraction);
    assert '0' <= s[i] <= '9';
    ExponentPartStart(exponent10);
    assert j < |s| ==> s[j] == s[j..][0];
    ExponentPartScanned(s, j, neg, exponent10, Mantissa(fraction, |Digits(fraction)|, 0, j));
  }

  lemma ExponentPartStart(exponent10: int)
    ensures ExponentPart(exponent10) != [] ==> ExponentPart(exponent10)[0] == 'E'
  {
  }

  lemma ExponentPartScanned(s: string, j: nat, neg: bool, exponent10: int, m: Mantissa)
    requires j <= |s| && s[j..] == ExponentPart(exponent10) && m.pos == j && m.fraction == 0
    ensures ScanRest(s, neg, m) == Scanned(neg, m.val, exponent10, |s|)
  {
    if exponent10 != 0 {
      var e := if exponent10 < 0 then -exponent10 else exponent10;
      var k := if exponent10 < 0 then j + 2 else j + 1;
      DigitsAreDigits(e);
      ExponentLayout(s, j, exponent10);
      hide Digits, ExponentPart;
      ExponentScanned(s, k, e);
    }
  }

  lemma ExponentLayout(s: string, j: nat, exponent10: int)
    requires j <= |s| && s[j..] == ExponentPart(exponent10) && exponent10 != 0
    ensures var e := if exponent10 < 0 then -exponent10 else exponent10;
      var k := if exponent10 < 0 then j + 2 else j + 1;
      && |s| == k + |Digits(e)| && s[k..k + |Digits(e)|] == Digits(e) && s[j] == 'E'
      && s[j + 1] == if exponent10 < 0 then '-' else Digits(e)[0]
  {
    hide Digits;
    var e := if exponent10 < 0 then -exponent10 else exponent10;
    var k := if exponent10 < 0 then j + 2 else j + 1;
    assert s[j] == s[j..][0] && s[j + 1] == s[j..][1];
    assert s[k..] == s[j..][k - j..] == Digits(e);
  }

  // ---------- Any text ----------

  predicate AllDigits(ds: string) {
    forall k :: 0 <= k < |ds| ==> '0' <= ds[k] <= '9'
  }

  predicate AllSpaces(sp: string) {
    forall k :: 0 <= k < |sp| ==> IsSpace(sp, k)
  }

  /** The number `n` continued by digits. */
  function Number(n: nat, ds: string): nat
    requires AllDigits(ds)
    decreases |ds|
  {
    if ds == "" then n else Number(n * 10 + DigitValue(ds[0]), ds[1..])
  }

  lemma {:induction false} NumberSnoc(n: nat, ds: string, c: char)
    requires AllDigits(ds) && '0' <= c <= '9'
    ensures AllDigits(ds + [c]) && Number(n, ds + [c]) == Number(n, ds) * 10 + DigitValue(c)
    decreases |ds|
  {
    if ds == "" {
      assert ds + [c] == [c] && [c][1..] == "";
    } else {
      assert (ds + [c])[1..] == ds[1..] + [c];
      NumberSnoc(n * 10 + DigitValue(ds[0]), ds[1..], c);
    }
  }

  /** The digits that are printed for a number stand for it. */
  lemma {:induction false} NumberOfDigits(n: nat)
    ensures AllDigits(Digits(n)) && Number(0, Digits(n)) == n
  {
    if n < 10 {
      assert Digits(n)[1..] == "";
    } else {
      NumberOfDigits(n / 10);
      NumberSnoc(0, Digits(n / 10), DigitChar(n % 10));
    }
  }

  lemma {:induction false} NumberGrows(n: nat, ds: string)
    requires AllDigits(ds)
    ensures Number(n, ds) >= n
    decreases |ds|
  {
    if ds != "" {
      NumberGrows(n * 10 + DigitValue(ds[0]), ds[1..]);
    }
  }

  /** What is kept of the digits read so far: at most 18, zeros in front not counted. */
  datatype Kept = Kept(val: nat, digits: nat, dropped: nat)

  function Keep(k: Kept, d: nat): Kept {
    if k.digits == 18 then k.(dropped := k.dropped + 1)
    else Kept(k.val * 10 + d, if k.val == 0 && d == 0 then 0 else k.digits + 1, 0)
  }

  function KeepAll(k: Kept, ds: string): Kept
    requires AllDigits(ds)
    decreases |ds|
  {
    if ds == "" then k else KeepAll(Keep(k, DigitValue(ds[0])), ds[1..])
  }

  predicate Keeps(k: Kept) {
    k.digits <= 18 && (k.val == 0 ==> k.digits == 0) && (k.digits < 18 ==> k.dropped == 0)
  }

  /** The number is the kept digits, scaled for the dropped ones and cut off. */
  ghost predicate Holds(k: Kept, n: nat) {
    && Keeps(k)
    && k.val * Power(10, k.dropped) <= n < (k.val + 1) * Power(10, k.dropped)
  }

  lemma KeepHolds(k: Kept, n: nat, d: nat)
    requires Holds(k, n) && d < 10
    ensures Holds(Keep(k, d), n * 10 + d)
  {
    hide Power;
    if k.digits == 18 {
      PowerStep(10, k.dropped + 1);
      TenFold(k.val, Power(10, k.dropped));
      TenFold(k.val + 1, Power(10, k.dropped));
    } else {
      PowerZero(10);
    }
  }

  lemma TenFold(v: int, p: int)
    ensures v * (10 * p) == 10 * (v * p)
  {
  }

  lemma {:induction false} KeepAllHolds(k: Kept, n: nat, ds: string)
    requires Holds(k, n) && AllDigits(ds)
    ensures Holds(KeepAll(k, ds), Number(n, ds))
    ensures k.dropped == 0 && k.digits + |ds| <= 18 ==> KeepAll(k, ds).dropped == 0
    decreases |ds|
  {
    hide Holds;
    if ds != "" {
      var d := DigitValue(ds[0]);
      KeepHolds(k, n, d);
      KeepAllHolds(Keep(k, d), n * 10 + d, ds[1..]);
    }
  }

  /** The text `t` stands at `i`. */
  predicate At(s: string, i: nat, t: string) {
    i + |t| <= |s| && s[i..i + |t|] == t
  }

  lemma AtFirst(s: string, i: nat, t: string)
    requires At(s, i, t) && t != ""
    ensures s[i] == t[0] && At(s, i + 1, t[1..])
  {
    assert s[i] == s[i..i + |t|][0];
    assert s[i + 1..i + |t|] == s[i..i + |t|][1..];
  }

  /** The mantissa loop keeps the digits at hand, and counts those behind the point, or those it drops. */
  lemma {:induction false} DigitsKept(s: string, m: Mantissa, afterPoint: bool, ds: string, k: Kept)
    requires At(s, m.pos, ds) && AllDigits(ds) && !IsDigit(s, m.pos + |ds|)
    requires k.val == m.val && k.digits == m.digits && Keeps(k)
    ensures
      var k' := KeepAll(k, ds);
      && k'.dropped >= k.dropped && Keeps(k')
      && ScanDigits(s, m, afterPoint) ==
         Mantissa(k'.val, k'.digits, m.fraction + (if afterPoint then |ds| else 0) - (k'.dropped - k.dropped),
                  m.pos + |ds|)
    decreases |ds|
  {
    if ds != "" {
      AtFirst(s, m.pos, ds);
      var d := DigitValue(ds[0]);
      DigitsKept(s, TakeDigit(m, d, afterPoint), afterPoint, ds[1..], Keep(k, d));
    }
  }

  lemma {:induction false} ExponentRead(s: string, i: nat, e: nat, ds: string)
    requires At(s, i, ds) && AllDigits(ds) && !IsDigit(s, i + |ds|)
    ensures ScanExponent(s, i, e) == (Number(e, ds), i + |ds|)
    decreases |ds|
  {
    if ds != "" {
      AtFirst(s, i, ds);
      ExponentRead(s, i + 1, e * 10 + DigitValue(ds[0]), ds[1..]);
    }
  }

  lemma {:induction false} SpacesSkipped(s: string, i: nat, sp: string)
    requires At(s, i, sp) && AllSpaces(sp) && !IsSpace(s, i + |sp|)
    ensures SkipSpaces(s, i) == i + |sp|
    decreases |sp|
  {
    if sp != "" {
      AtFirst(s, i, sp);
      assert IsSpace(sp, 0);
      assert forall k :: 0 <= k < |sp| - 1 ==> IsSpace(sp, k + 1) == IsSpace(sp[1..], k);
      SpacesSkipped(s, i + 1, sp[1..]);
    }
  }

  lemma {:induction false} KeepConcat(k: Kept, a: string, b: string)
    requires AllDigits(a) && AllDigits(b)
    ensures AllDigits(a + b) && KeepAll(k, a + b) == KeepAll(KeepAll(k, a), b)
    decreases |a|
  {
    if a == "" {
      assert a + b == b;
    } else {
      assert (a + b)[1..] == a[1..] + b;
      KeepConcat(Keep(k, DigitValue(a[0])), a[1..], b);
    }
  }

  /** A number as it may be written: only some of the parts need to be there. */
  datatype Numeral = Numeral(spaces: string, sign: string, whole: string, point: string, fraction: string,
                             mark: string, expSign: string, exponent: string)
  {
    predicate Spelled() {
      && AllSpaces(spaces) && (sign == "" || sign == "+" || sign == "-")
      && AllDigits(whole) && AllDigits(fraction) && (point == "." || (point == "" && fraction == ""))
      && (expSign == "" || expSign == "+" || expSign == "-") && AllDigits(exponent)
      && (mark == "E" || mark == "e" || (mark == "" && expSign == "" && exponent == ""))
    }

    /** The text from each part on. */
    function Tail(): string {
      mark + (expSign + exponent)
    }

    function FromPoint(): string {
      point + (fraction + Tail())
    }

    function FromSign(): string {
      sign + (whole + FromPoint())
    }

    function Text(): string {
      spaces + FromSign()
    }
  }

  /** The text `a` is next, and behind it `b`. */
  lemma Front(s: string, i: nat, a: string, b: string)
    requires i <= |s| && s[i..] == a + b
    ensures At(s, i, a) && s[i + |a|..] == b
  {
    assert s[i..i + |a|] == s[i..][..|a|];
    assert s[i + |a|..] == s[i..][|a|..];
  }

  lemma NextIs(s: string, i: nat, t: string)
    requires i <= |s| && s[i..] == t
    ensures IsDigit(s, i) <==> t != "" && '0' <= t[0] <= '9'
    ensures IsSpace(s, i) <==> t != "" && (t[0] == ' ' || '\t' <= t[0] <= '\r')
    ensures forall c :: IsChar(s, i, c) <==> t != "" && t[0] == c
  {
    assert t != "" ==> s[i] == s[i..][0];
  }

  /** The sign. */
  lemma ScanSign(n: Numeral, s: string, i: nat)
    requires n.Spelled() && i <= |s| && s[i..] == n.FromSign()
    ensures !IsSpace(s, i) && (IsChar(s, i, '-') <==> n.sign == "-") && (IsChar(s, i, '+') <==> n.sign == "+")
    ensures s[i + |n.sign|..] == n.whole + n.FromPoint()
  {
    NextIs(s, i, n.FromSign());
    Front(s, i, n.sign, n.whole + n.FromPoint());
    if n.sign == "" {
      assert n.FromSign() == n.whole + n.FromPoint();
    }
  }

  /** What ends the digits. */
  lemma Heads(n: Numeral)
    requires n.Spelled()
    ensures n.Tail() != "" ==> n.Tail()[0] == 'E' || n.Tail()[0] == 'e'
    ensures (n.Tail() != "" && n.mark != "") || (n.Tail() == "" && n.mark == "")
    ensures n.point == "." ==> n.FromPoint() != "" && n.FromPoint()[0] == '.'
    ensures n.point == "" ==> n.FromPoint() == n.Tail() && n.fraction == ""
  {
    assert "" + ("" + n.Tail()) == n.Tail();
  }

  lemma ScanWhole(n: Numeral, s: string, j: nat) returns (m: Mantissa)
    requires n.Spelled() && j <= |s| && s[j..] == n.whole + n.FromPoint()
    ensures m == ScanDigits(s, Mantissa(0, 0, 0, j), false)
    ensures
      var k := KeepAll(Kept(0, 0, 0), n.whole);
      && m == Mantissa(k.val, k.digits, 0 - k.dropped, j + |n.whole|) && Keeps(k)
      && m.pos <= |s| && s[m.pos..] == n.FromPoint()
  {
    hide KeepAll, ScanDigits, AllDigits, At, Numeral.FromPoint, Numeral.Tail;
    Heads(n);
    Front(s, j, n.whole, n.FromPoint());
    NextIs(s, j + |n.whole|, n.FromPoint());
    DigitsKept(s, Mantissa(0, 0, 0, j), false, n.whole, Kept(0, 0, 0));
    m := ScanDigits(s, Mantissa(0, 0, 0, j), false);
  }

  lemma ScanFraction(n: Numeral, s: string, m: Mantissa, k: Kept) returns (m': Mantissa)
    requires n.Spelled() && m.pos <= |s| && s[m.pos..] == n.FromPoint()
    requires m == Mantissa(k.val, k.digits, 0 - k.dropped, m.pos) && Keeps(k)
    ensures m' == if IsChar(s, m.pos, '.') then ScanDigits(s, m.(pos := m.pos + 1), true) else m
    ensures
      var k' := KeepAll(k, n.fraction);
      && m'.val == k'.val && m'.fraction == |n.fraction| - k'.dropped
      && m'.pos <= |s| && s[m'.pos..] == n.Tail()
  {
    hide KeepAll, ScanDigits, AllDigits, At, Numeral.Tail;
    Heads(n);
    NextIs(s, m.pos, n.FromPoint());
    if n.point == "." {
      var p := m.pos + 1;
      Front(s, m.pos, n.point, n.fraction + n.Tail());
      Front(s, p, n.fraction, n.Tail());
      NextIs(s, p + |n.fraction|, n.Tail());
      DigitsKept(s, m.(pos := p), true, n.fraction, k);
      m' := ScanDigits(s, m.(pos := p), true);
    } else {
      KeepNothing(k);
      m' := m;
    }
  }

  lemma KeepNothing(k: Kept)
    ensures KeepAll(k, "") == k
  {
  }

  lemma ScanTail(n: Numeral, s: string, m: Mantissa, neg: bool)
    requires n.Spelled() && m.pos <= |s| && s[m.pos..] == n.Tail()
    ensures
      var e: int := Number(0, n.exponent);
      ScanRest(s, neg, m) == Scanned(neg, m.val, (if n.expSign == "-" then -e else e) - m.fraction, |s|)
  {
    hide Number, ScanExponent, AllDigits, At;
    Heads(n);
    NextIs(s, m.pos, n.Tail());
    if n.mark != "" {
      var i := m.pos + 1;
      Front(s, m.pos, n.mark, n.expSign + n.exponent);
      ScanExpSign(n, s, i);
      ExponentRead(s, i + |n.expSign|, 0, n.exponent);
    } else {
      NoExponent();
    }
  }

  lemma ScanExpSign(n: Numeral, s: string, i: nat)
    requires n.Spelled() && i <= |s| && s[i..] == n.expSign + n.exponent
    ensures (IsChar(s, i, '-') <==> n.expSign == "-") && (IsChar(s, i, '+') <==> n.expSign == "+")
    ensures
      var p := i + |n.expSign|;
      At(s, p, n.exponent) && p + |n.exponent| == |s| && !IsDigit(s, p + |n.exponent|)
  {
    NextIs(s, i, n.expSign + n.exponent);
    Front(s, i, n.expSign, n.exponent);
    if n.expSign == "" {
      assert n.expSign + n.exponent == n.exponent;
    }
    assert n.exponent + "" == n.exponent;
    Front(s, i + |n.expSign|, n.exponent, "");
  }

  lemma NoExponent()
    ensures Number(0, "") == 0
  {
  }

  /**
   Every such text is scanned to its end: the sign, the first 18 digits without zeros in front, and
   an exponent that makes up for the digits behind the point and for those dropped.
   */
  lemma ScanText(n: Numeral)
    requires n.Spelled()
    ensures AllDigits(n.whole + n.fraction)
    ensures
      var k := KeepAll(Kept(0, 0, 0), n.whole + n.fraction);
      var e: int := Number(0, n.exponent);
      && Holds(k, Number(0, n.whole + n.fraction))
      && (|n.whole| + |n.fraction| <= 18 ==> k.dropped == 0)
      && Scan(n.Text()) ==
         Scanned(n.sign == "-", k.val, (if n.expSign == "-" then -e else e) + k.dropped - |n.fraction|, |n.Text()|)
  {
    hide KeepAll, Number, ScanDigits, ScanRest, Holds, SkipSpaces, AllDigits, AllSpaces, At, Keeps;
    hide Numeral.FromSign, Numeral.FromPoint, Numeral.Tail;
    var s, i := n.Text(), |n.spaces|;
    KeepConcat(Kept(0, 0, 0), n.whole, n.fraction);
    HoldsNothing();
    KeepAllHolds(Kept(0, 0, 0), 0, n.whole + n.fraction);
    assert s[0..] == s;
    Front(s, 0, n.spaces, n.FromSign());
    ScanSign(n, s, i);
    SpacesSkipped(s, 0, n.spaces);
    var m := ScanWhole(n, s, i + |n.sign|);
    var m' := ScanFraction(n, s, m, KeepAll(Kept(0, 0, 0), n.whole));
    ScanTail(n, s, m', n.sign == "-");
  }

  lemma HoldsNothing()
    ensures Holds(Kept(0, 0, 0), 0)
  {
    PowerZero(10);
  }

  /** One and a half, with all there may be in front. */
  lemma ScanOneAndAHalf()
    ensures Scan("1.5") == Scanned(false, 15, -1, 3)
    ensures Scan("\t +1.5e+2") == Scanned(false, 15, 1, 9)
  {
    hide Scan, KeepAll, Number;
    var short := Numeral("", "", "1", ".", "5", "", "", "");
    var long := Numeral("\t ", "+", "1", ".", "5", "e", "+", "2");
    OneAndFive();
    ScanText(short);
    ScanText(long);
    assert short.Text() == "1.5" && long.Text() == "\t +1.5e+2";
  }

  lemma OneAndFive()
    ensures "1" + "5" == "15" && KeepAll(Kept(0, 0, 0), "15") == Kept(15, 2, 0)
    ensures Number(0, "2") == 2 && Number(0, "") == 0
  {
    assert "15"[1..] == "5" && "5"[1..] == "" && "2"[1..] == "";
    assert KeepAll(Kept(1, 1, 0), "5") == KeepAll(Kept(15, 2, 0), "");
  }
}
