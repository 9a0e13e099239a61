/**
 Printing of a double in decimal with 64-bit integer arithmetic only, and the digit scanning of
 the reverse conversion (mdep.c).
 */
module NumberPrinting {

  const TWO52 := 0x10_0000_0000_0000
  const TWO53 := 0x20_0000_0000_0000
  const TWO60 := 0x1000_0000_0000_0000
  const TWO63 := 0x8000_0000_0000_0000
  const TWO64 := 0x1_0000_0000_0000_0000

  /** Unsigned 64-bit arithmetic: every operation is checked not to overflow. */
  newtype uint64 = x: int | 0 <= x < TWO64

  function Pow(b: int, e: int): (p: real)
    requires b > 0
    ensures p > 0.0
    decreases if e < 0 then -e else e
  {
    if e == 0 then 1.0
    else if e > 0 then Pow(b, e - 1) * b as real
    else Pow(b, e + 1) / b as real
  }

  lemma PowStep(b: int, e: int)
    requires b > 0
    ensures Pow(b, e + 1) == Pow(b, e) * b as real
  {
  }

  /** What the loop variables stand for: `fraction * 2**exponent2 * 10**exponent10`. */
  ghost function Value(fraction: uint64, exponent2: int, exponent10: int): real {
    Times(fraction as real, Scale(exponent2, exponent10))
  }

  ghost function Times(a: real, b: real): real {
    a * b
  }

  ghost function Scale(e2: int, e10: int): (s: real)
    ensures s > 0.0
  {
    ProductPositive(Pow(2, e2), Pow(10, e10));
    Pow(2, e2) * Pow(10, e10)
  }

  lemma ProductPositive(a: real, b: real)
    requires a > 0.0 && b > 0.0
    ensures a * b > 0.0
  {
  }

  lemma ScaleStep(e2: int, e10: int)
    ensures Scale(e2 + 1, e10) == 2.0 * Scale(e2, e10)
    ensures Scale(e2, e10 + 1) == 10.0 * Scale(e2, e10)
  {
    hide Pow;
    PowStep(2, e2);
    PowStep(10, e10);
    Commute(Pow(2, e2), Pow(10, e10));
  }

  lemma Commute(p: real, t: real)
    ensures (p * 2.0) * t == 2.0 * (p * t)
    ensures p * (t * 10.0) == 10.0 * (p * t)
  {
  }

  /** `cur` is within the relative error `k` of `exact`. */
  ghost predicate Near(cur: real, exact: real, k: real) {
    -(k * exact) <= cur - exact <= k * exact
  }

  /** The value stays the same in the steps that do not round. */
  lemma HalveEven(f: uint64, e2: int, e10: int)
    requires f % 2 == 0
    ensures Value(f / 2, e2 + 1, e10) == Value(f, e2, e10)
  {
    hide Scale;
    ScaleStep(e2, e10);
    assert f as real == 2.0 * (f / 2) as real;
  }

  lemma TimesFive(f: uint64, e2: int, e10: int)
    requires f <= 0x1000_0000_0000_0000
    ensures Value(f * 5, e2 + 1, e10 - 1) == Value(f, e2, e10)
  {
    hide Scale;
    ScaleStep(e2, e10 - 1);
  }

  lemma Double(f: uint64, e2: int, e10: int)
    requires f < 0x8000_0000_0000_0000
    ensures Value(f * 2, e2 - 1, e10) == Value(f, e2, e10)
  {
    HalveEven(f * 2, e2 - 1, e10);
  }

  lemma DropZero(f: uint64, e2: int, e10: int)
    requires f % 10 == 0
    ensures Value(f / 10, e2, e10 + 1) == Value(f, e2, e10)
  {
    hide Scale;
    ScaleStep(e2, e10);
    assert f as real == 10.0 * (f / 10) as real;
  }

  /** A change of at most `c` scale units of `f` is a relative error of `c / f`. */
  lemma StepError(f: real, s: real, cur: real, c: real)
    requires f > 0.0 && -(c * s) <= cur - Times(f, s) <= c * s
    ensures Near(cur, Times(f, s), c / f)
  {
    assert c / f * (f * s) == c / f * f * s;
    assert c / f * f == c;
  }

  /** Rounding `f` to `g` in a scale `b` times coarser, off by `d` units of the old scale. */
  lemma RoundReal(f: real, g: real, b: real, d: real, c: real, s: real, s': real)
    requires f > 0.0 && s > 0.0 && s' == b * s && g * b == f + d && -c <= d <= c
    ensures Near(Times(g, s'), Times(f, s), c / f)
  {
    hide Near;
    Regroup(g, b, s, f, d);
    Scaled(d, c, s);
    StepError(f, s, Times(g, s'), c);
  }

  lemma RoundValue(f: uint64, e2: int, e10: int, g: uint64, e2': int, e10': int, b: real, d: real, c: real)
    requires f > 0 && Scale(e2', e10') == b * Scale(e2, e10)
    requires g as real * b == f as real + d && -c <= d <= c
    ensures Near(Value(g, e2', e10'), Value(f, e2, e10), c / f as real)
  {
    hide Scale, Near, Times;
    RoundReal(f as real, g as real, b, d, c, Scale(e2, e10), Scale(e2', e10'));
  }

  lemma RoundHalf(f: uint64, e2: int, e10: int)
    requires f % 2 == 1 && f < 0xFFFF_FFFF_FFFF_FFFF
    ensures Near(Value((f + 1) / 2, e2 + 1, e10), Value(f, e2, e10), 1.0 / f as real)
  {
    hide Scale, Near, Value;
    ScaleStep(e2, e10);
    var g := (f + 1) / 2;
    Units(g as int, f as int, 2, 1);
    RoundValue(f, e2, e10, g, e2 + 1, e10, 2.0, 1.0, 1.0);
  }

  lemma RoundTenth(f: uint64, e2: int, e10: int)
    requires 0 < f <= 0xFFFF_FFFF_FFFF_FFFA
    ensures Near(Value((f + 5) / 10, e2, e10 + 1), Value(f, e2, e10), 5.0 / f as real)
  {
    hide Scale, Near, Value;
    ScaleStep(e2, e10);
    var g := (f + 5) / 10;
    var d := 10 * g as int - f as int;
    Units(g as int, f as int, 10, d);
    RoundValue(f, e2, e10, g, e2, e10 + 1, 10.0, d as real, 5.0);
  }

  lemma Units(g: int, f: int, b: int, d: int)
    requires b == 2 || b == 10
    requires d == b * g - f
    ensures g as real * b as real == f as real + d as real
  {
  }

  lemma Regroup(g: real, b: real, s: real, f: real, d: real)
    requires g * b == f + d
    ensures g * (b * s) == f * s + d * s
  {
    assert g * (b * s) == g * b * s;
  }

  lemma Scaled(d: real, c: real, s: real)
    requires -c <= d <= c && s > 0.0
    ensures -(c * s) <= d * s <= c * s
  {
    assert (c - d) * s >= 0.0 && (c + d) * s >= 0.0;
  }

  /** Relative errors add up, with a little to spare for the products of errors. */
  lemma ErrorsAdd(a: real, b: real, exact: real, k: real, d: real)
    requires exact > 0.0 && 0.0 <= k <= 0.001 && 0.0 <= d
    requires Near(a, exact, k) && Near(b, a, d)
    ensures Near(b, exact, k + 1.01 * d)
  {
    assert (0.001 - k) * exact >= 0.0;
    assert a <= 1.01 * exact;
    assert d * (1.01 * exact - a) >= 0.0;
    assert d * a <= 1.01 * d * exact;
    assert (k + 1.01 * d) * exact == k * exact + 1.01 * d * exact;
  }

  lemma DivLe(c: real, f: real, g: real)
    requires c >= 0.0 && 0.0 < g <= f
    ensures c / f <= c / g
  {
    assert c / g - c / f == c * (f - g) / (f * g);
    assert c * (f - g) >= 0.0 && f * g > 0.0;
  }

  /** Large values in the loop come from doubling, so they end in zero bits. */
  ghost predicate Aligned(f: uint64) {
    && (f >= 0x2000_0000_0000_0000 ==> f % 2 == 0)
    && (f >= 0x4000_0000_0000_0000 ==> f % 4 == 0)
    && (f >= 0x8000_0000_0000_0000 ==> f % 8 == 0)
  }

  lemma AlignedStep(f: uint64)
    requires 0 < f && Aligned(f)
    ensures f < 0x8000_0000_0000_0000 ==> Aligned(f * 2)
    ensures f >= 0x8000_0000_0000_0000 ==>
      f <= 0xFFFF_FFFF_FFFF_FFF8 && Aligned((f + 5) / 10) && 0 < (f + 5) / 10 < 0x8000_0000_0000_0000
  {
  }

  /** One step of the first loop: the fraction and binary exponent after it, and whether it rounded. */
  ghost function LoopStep(f: nat, e2: int): (n: (nat, int, bool))
    requires e2 != 0
    ensures if e2 < 0 then n.1 == e2 + 1 else n.1 == e2 - 1 || (n.1 == e2 && n.0 < f)
  {
    if e2 < 0 then
      if f % 2 == 0 then (f / 2, e2 + 1, false)
      else if f > TWO60 then ((f + 1) / 2, e2 + 1, true)
      else (f * 5, e2 + 1, false)
    else if f < TWO63 then (f * 2, e2 - 1, false)
    else ((f + 5) / 10, e2, true)
  }

  /** The whole first loop: the fraction after it, and how many of its steps rounded. */
  ghost function FirstLoop(f: nat, e2: int): (nat, nat)
    decreases if e2 < 0 then -e2 else e2, f
  {
    if e2 == 0 then (f, 0)
    else
      var step := LoopStep(f, e2);
      var rest := FirstLoop(step.0, step.1);
      (rest.0, if step.2 then rest.1 + 1 else rest.1)
  }

  /** Whether anything is rounded: in the first loop, or to get to 53 bits. */
  ghost predicate Rounds(f: nat, e2: int) {
    FirstLoop(f, e2).1 > 0 || FirstLoop(f, e2).0 > TWO53
  }

  lemma RoundsStep(f: nat, e: int)
    requires e != 0
    ensures var step := LoopStep(f, e); Rounds(f, e) <==> step.2 || Rounds(step.0, step.1)
  {
  }

  /**
   The exact condition, with `f * 2**e` in lowest terms: a fraction `m / 2**j` is `m * 5**j / 10**j`,
   and nothing is rounded just if that numerator is at most `2**53`.
   */
  lemma {:induction false} RoundsIff(f: nat, e: int, m: nat, k: nat, j: nat)
    requires f > 0 && e == -(k + j) && f == m * Power(2, k) && (m % 2 == 1 || j == 0)
    ensures Rounds(f, e) <==> m * Power(5, j) > TWO53
    decreases -e
  {
    hide Rounds, Power;
    if k > 0 {
      RoundsStep(f, e);
      PowerStep(2, k);
      HalfOf(m, Power(2, k - 1), f);
      RoundsIff(f / 2, e + 1, m, k - 1, j);
    } else if j > 0 {
      RoundsStep(f, e);
      PowerStep(5, j);
      PowerZero(2);
      if f > TWO60 {
        PowerPositive(5, j);
        Grows(m, Power(5, j));
      } else {
        Reassociate(m, 5, Power(5, j - 1));
        RoundsIff(f * 5, e + 1, m * 5, 0, j - 1);
      }
    } else {
      NoRounds(f);
      PowerZero(2);
      PowerZero(5);
    }
  }

  /** A number without a fractional part is not rounded just if it is at most `2**53`. */
  lemma {:induction false} WholeRoundsIff(f: nat, e: nat)
    requires f > 0
    ensures Rounds(f, e) <==> f * Power(2, e) > TWO53
    decreases e
  {
    hide Rounds, Power;
    if e == 0 {
      NoRounds(f);
      PowerZero(2);
    } else {
      RoundsStep(f, e);
      PowerStep(2, e);
      if f < TWO63 {
        Reassociate(f, 2, Power(2, e - 1));
        WholeRoundsIff(f * 2, e - 1);
      } else {
        PowerPositive(2, e);
        Grows(f, Power(2, e));
      }
    }
  }

  lemma NoRounds(f: nat)
    ensures Rounds(f, 0) <==> f > TWO53
  {
  }

  lemma Reassociate(m: int, b: int, p: int)
    ensures m * b * p == m * (b * p)
  {
  }

  lemma PowerZero(b: int)
    ensures Power(b, 0) == 1
  {
  }

  lemma PowerStep(b: int, e: int)
    requires e > 0
    ensures Power(b, e) == b * Power(b, e - 1)
  {
  }

  function Power(b: int, e: int): int {
    if e <= 0 then 1 else b * Power(b, e - 1)
  }

  lemma {:induction false} PowerPositive(b: int, e: int)
    requires b >= 1
    ensures Power(b, e) >= 1
    decreases e
  {
    if e > 0 {
      PowerPositive(b, e - 1);
      Grows(b, Power(b, e - 1));
    }
  }

  lemma Grows(n: nat, p: int)
    requires p >= 1
    ensures n <= n * p
  {
    assert n * (p - 1) >= 0;
  }

  lemma HalfOf(n: int, p: int, f: int)
    requires f == n * (2 * p)
    ensures f % 2 == 0 && f / 2 == n * p
  {
    assert f == 2 * (n * p);
  }

  // The relative error of one rounding step of the first loop, and of the second.
  const UNIT1: real := 1.01 / TWO60 as real
  const UNIT2: real := 5.05 / TWO53 as real

  /**
   A step while the binary exponent is negative: halve, rounding only when the fraction is large
   and odd; or trade a factor 1/2 for a factor 5/10.
   */
  method StepUp(f: uint64, e2: int, e10: int) returns (f': uint64, e2': int, e10': int, rounded: bool)
    requires 0 < f <= 0x5000_0000_0000_0000 && e2 < 0
    ensures 0 < f' <= 0x5000_0000_0000_0000 && e2' == e2 + 1 && e10 - 1 <= e10' <= e10
    ensures !rounded ==> Value(f', e2', e10') == Value(f, e2, e10)
    ensures rounded ==> Near(Value(f', e2', e10'), Value(f, e2, e10), 1.0 / TWO60 as real)
    ensures (f' as nat, e2', rounded) == LoopStep(f as nat, e2)
    ensures f % 2 == 0 ==> e10' == e10
  {
    hide Value, Near, Pow;
    f', e2', e10', rounded := f, e2 + 1, e10, false;
    if f % 2 == 0 {
      HalveEven(f, e2, e10);
      f' := f / 2;
    } else if f > 0x1000_0000_0000_0000 {
      RoundHalf(f, e2, e10);
      DivLe(1.0, f as real, TWO60 as real);
      ValuePositive(f, e2, e10);
      rounded := true;
      f' := (f + 1) / 2;
      NearMonotone(Value(f', e2', e10'), Value(f, e2, e10), 1.0 / f as real, 1.0 / TWO60 as real);
    } else {
      TimesFive(f, e2, e10);
      f' := f * 5;
      e10' := e10 - 1;
    }
  }

  lemma ValuePositive(f: uint64, e2: int, e10: int)
    requires f > 0
    ensures Value(f, e2, e10) > 0.0
  {
    hide Scale;
    ProductPositive(f as real, Scale(e2, e10));
  }

  lemma NearMonotone(cur: real, exact: real, k: real, k': real)
    requires Near(cur, exact, k) && 0.0 <= k <= k' && exact > 0.0
    ensures Near(cur, exact, k')
  {
    assert (k' - k) * exact >= 0.0;
  }

  /**
   A step while the binary exponent is positive: double, or when the fraction has no room left,
   divide by ten, rounding.
   */
  method StepDown(f: uint64, e2: int, e10: int) returns (f': uint64, e2': int, e10': int, rounded: bool)
    requires 0 < f && Aligned(f) && e2 > 0
    ensures 0 < f' && Aligned(f')
    ensures (f' as nat, e2', rounded) == LoopStep(f as nat, e2)
    ensures !rounded ==> e2' == e2 - 1 && e10' == e10 && Value(f', e2', e10') == Value(f, e2, e10)
    ensures rounded ==> f' < f && f' < 0x8000_0000_0000_0000 && e2' == e2 && e10' == e10 + 1 &&
                        Near(Value(f', e2', e10'), Value(f, e2, e10), 1.0 / TWO60 as real)
  {
    hide Value, Near, Pow, Aligned;
    AlignedStep(f);
    f', e2', e10' := f, e2, e10;
    if f < 0x8000_0000_0000_0000 {
      Double(f, e2, e10);
      f' := f * 2;
      e2' := e2 - 1;
      rounded := false;
    } else {
      RoundTenth(f, e2, e10);
      DivLe(5.0, f as real, TWO63 as real);
      rounded := true;
      f' := (f + 5) / 10;
      e10' := e10 + 1;
      ValuePositive(f, e2, e10);
      NearMonotone(Value(f', e2', e10'), Value(f, e2, e10), 5.0 / f as real, 1.0 / TWO60 as real);
    }
  }

  /** After `r` rounding steps of the first loop, of `steps` taken. */
  ghost predicate Approx(f: uint64, e2: int, e10: int, exact: real, r: nat, steps: nat) {
    && r <= steps <= 1074
    && exact > 0.0
    && Near(Value(f, e2, e10), exact, r as real * UNIT1)
    && (r == 0 ==> Value(f, e2, e10) == exact)
  }

  lemma ApproxStep(f: uint64, e2: int, e10: int, f': uint64, e2': int, e10': int, exact: real,
                   r: nat, steps: nat, rounded: bool)
    requires Approx(f, e2, e10, exact, r, steps) && steps < 1074
    requires !rounded ==> Value(f', e2', e10') == Value(f, e2, e10)
    requires rounded ==> Near(Value(f', e2', e10'), Value(f, e2, e10), 1.0 / TWO60 as real)
    ensures Approx(f', e2', e10', exact, if rounded then r + 1 else r, steps + 1)
  {
    hide Value;
    if rounded {
      ErrorsAdd(Value(f, e2, e10), Value(f', e2', e10'), exact, r as real * UNIT1, 1.0 / TWO60 as real);
    }
  }

  /** The state of the first loop while the binary exponent goes from `e0` to zero. */
  ghost predicate Scaling(f: uint64, e2: int, e10: int, exact: real, r: nat, e0: int) {
    && f > 0
    && if e0 <= 0 then
         && e0 <= e2 <= 0 && f <= 0x5000_0000_0000_0000 && e0 - e2 <= e10 <= 0
         && Approx(f, e2, e10, exact, r, e2 - e0)
       else
         && 0 <= e2 <= e0 && Aligned(f) && 0 <= e10 <= r <= e0 - e2
         && (f >= 0x8000_0000_0000_0000 ==> r < e0 - e2)
         && Approx(f, e2, e10, exact, r, e0 - e2)
  }

  /** Bring `f0 * 2**e0` to the form `fraction * 10**exponent10`. */
  method Rescale(f0: uint64, e0: int) returns (fraction: uint64, exponent10: int, ghost r: nat)
    requires 0 < f0 < 0x20_0000_0000_0000 && -1074 <= e0 <= 971
    ensures Scaling(fraction, 0, exponent10, Value(f0, e0, 0), r, e0)
    ensures (fraction as nat, r) == FirstLoop(f0 as nat, e0)
    ensures forall n: nat :: Whole(n, f0, e0) ==> fraction as int == n && exponent10 == 0
  {
    hide Value, Near;
    fraction, exponent10, r := f0, 0, 0;
    var exponent2 := e0;
    ghost var exact := Value(f0, e0, 0);
    ValuePositive(f0, e0, 0);
    NearSelf(exact);
    while exponent2 != 0
      invariant Scaling(fraction, exponent2, exponent10, exact, r, e0)
      invariant forall n: nat :: Whole(n, f0, e0) ==> Whole(n, fraction, exponent2) && exponent10 == 0
      invariant ToGo(f0 as nat, e0, r, fraction as nat, exponent2)
      decreases if e0 <= 0 then -exponent2 else exponent2, if e0 <= 0 then 0 else fraction as int
    {
      if exponent2 < 0 {
        fraction, exponent2, exponent10, r := RescaleUp(fraction, exponent2, exponent10, exact, r, e0, f0);
      } else {
        fraction, exponent2, exponent10, r := RescaleDown(fraction, exponent2, exponent10, exact, r, e0, f0);
      }
    }
  }

  /** Having rounded `r` times, the first loop is at `f` and `e2`. */
  ghost predicate ToGo(f0: nat, e0: int, r: nat, f: nat, e2: int) {
    FirstLoop(f0, e0) == (FirstLoop(f, e2).0, FirstLoop(f, e2).1 + r)
  }

  lemma ToGoStep(f0: nat, e0: int, r: nat, f: nat, e2: int)
    requires ToGo(f0, e0, r, f, e2) && e2 != 0
    ensures var step := LoopStep(f, e2); ToGo(f0, e0, if step.2 then r + 1 else r, step.0, step.1)
  {
    hide LoopStep;
  }

  /** `f * 2**e` is the whole number `n`. */
  ghost predicate Whole(n: nat, f: uint64, e: int) {
    e <= 0 && f as int == n * Power(2, -e)
  }

  lemma NearSelf(x: real)
    ensures Near(x, x, 0 as real * UNIT1)
  {
  }

  method RescaleUp(f: uint64, e2: int, e10: int, ghost exact: real, ghost r: nat, ghost e0: int, ghost f0: uint64)
    returns (f': uint64, e2': int, e10': int, ghost r': nat)
    requires Scaling(f, e2, e10, exact, r, e0) && e2 < 0 && e0 >= -1074
    requires forall n: nat :: Whole(n, f0, e0) ==> Whole(n, f, e2) && e10 == 0
    requires ToGo(f0 as nat, e0, r, f as nat, e2)
    ensures Scaling(f', e2', e10', exact, r', e0) && e2' == e2 + 1
    ensures forall n: nat :: Whole(n, f0, e0) ==> Whole(n, f', e2') && e10' == 0
    ensures ToGo(f0 as nat, e0, r', f' as nat, e2')
  {
    hide Value, Near, Approx, ToGo;
    var rounded;
    f', e2', e10', rounded := StepUp(f, e2, e10);
    ApproxStep(f, e2, e10, f', e2', e10', exact, r, e2 - e0, rounded);
    r' := if rounded then r + 1 else r;
    ToGoStep(f0 as nat, e0, r, f as nat, e2);
    forall n: nat | Whole(n, f0, e0)
      ensures Whole(n, f', e2') && e10' == 0
    {
      HalfOf(n, Power(2, -e2'), f as int);
    }
  }

  method RescaleDown(f: uint64, e2: int, e10: int, ghost exact: real, ghost r: nat, ghost e0: int, ghost f0: uint64)
    returns (f': uint64, e2': int, e10': int, ghost r': nat)
    requires Scaling(f, e2, e10, exact, r, e0) && e2 > 0 && e0 <= 971
    requires ToGo(f0 as nat, e0, r, f as nat, e2)
    ensures Scaling(f', e2', e10', exact, r', e0)
    ensures e2' == e2 - 1 || (e2' == e2 && f' < f)
    ensures ToGo(f0 as nat, e0, r', f' as nat, e2')
  {
    hide Value, Near, Approx, Aligned, ToGo;
    var rounded;
    f', e2', e10', rounded := StepDown(f, e2, e10);
    r' := if rounded then r + 1 else r;
    ToGoStep(f0 as nat, e0, r, f as nat, e2);
    ApproxDown(f, e2, e10, f', e2', e10', exact, r, e0 - e2, rounded);
  }

  lemma ApproxDown(f: uint64, e2: int, e10: int, f': uint64, e2': int, e10': int, exact: real,
                   r: nat, steps: nat, rounded: bool)
    requires Approx(f, e2, e10, exact, r, steps) && steps < 1074 && (rounded ==> r < steps)
    requires !rounded ==> Value(f', e2', e10') == Value(f, e2, e10)
    requires rounded ==> Near(Value(f', e2', e10'), Value(f, e2, e10), 1.0 / TWO60 as real)
    ensures Approx(f', e2', e10', exact, if rounded then r + 1 else r, if rounded then steps else steps + 1)
  {
    hide Value, Near;
    ApproxStep(f, e2, e10, f', e2', e10', exact, r, steps, rounded);
  }

  /** An upper bound of the fraction after `q` divisions by ten. */
  function Bound(q: nat): int {
    if q == 0 then 0xFFFF_FFFF_FFFF_FFF8 else (Bound(q - 1) + 5) / 10
  }

  /** The relative error `k` of the first loop, and `q` rounding steps of the second. */
  function Err(k: real, q: nat): real {
    k + q as real * UNIT2
  }

  /** Drop decimal digits, rounding, until the fraction has at most 53 bits. */
  method Shorten(f: uint64, e10: int, ghost exact: real, ghost k: real)
    returns (f': uint64, e10': int, ghost q: nat)
    requires 0 < f <= 0xFFFF_FFFF_FFFF_FFF8 && exact > 0.0 && 0.0 <= k <= 0.0001
    requires Near(Value(f, 0, e10), exact, Err(k, 0))
    ensures 0 < f' <= 0x20_0000_0000_0000 && q <= 4 && e10' == e10 + q
    ensures Near(Value(f', 0, e10'), exact, Err(k, q))
    ensures q == 0 <==> f <= 0x20_0000_0000_0000
    ensures q == 0 ==> f' == f
  {
    hide Value, Near, Bound, Err;
    f', e10', q := f, e10, 0;
    Bounds();
    while f' > 0x20_0000_0000_0000
      invariant 0 < f' && q <= 4 && f' as int <= Bound(q) && e10' == e10 + q
      invariant Near(Value(f', 0, e10'), exact, Err(k, q))
      invariant q == 0 ==> f' == f
      invariant q > 0 ==> f > 0x20_0000_0000_0000
    {
      ShortenStep(f', e10', exact, k, q);
      BoundStep(f' as int, q);
      f' := (f' + 5) / 10;
      e10' := e10' + 1;
      q := q + 1;
    }
  }

  lemma Bounds()
    ensures Bound(0) == 0xFFFF_FFFF_FFFF_FFF8 && Bound(4) < 0x20_0000_0000_0000
    ensures forall q :: 1 <= q <= 4 ==> Bound(q) <= 0x7FFF_FFFF_FFFF_FFFF
  {
    assert Bound(1) == 1844674407370955161 && Bound(2) == 184467440737095516;
    assert Bound(3) == 18446744073709552 && Bound(4) == 1844674407370955;
  }

  lemma BoundStep(f: int, q: nat)
    requires f <= Bound(q)
    ensures (f + 5) / 10 <= Bound(q + 1)
  {
  }

  lemma ShortenStep(f: uint64, e10: int, exact: real, k: real, q: nat)
    requires 0x20_0000_0000_0000 < f <= 0xFFFF_FFFF_FFFF_FFF8 && exact > 0.0
    requires 0.0 <= k <= 0.0001 && q <= 4 && Near(Value(f, 0, e10), exact, Err(k, q))
    ensures Near(Value((f + 5) / 10, 0, e10 + 1), exact, Err(k, q + 1))
  {
    hide Value, Near;
    RoundTenth(f, 0, e10);
    DivLe(5.0, f as real, TWO53 as real);
    ValuePositive(f, 0, e10);
    NearMonotone(Value((f + 5) / 10, 0, e10 + 1), Value(f, 0, e10), 5.0 / f as real, 5.0 / TWO53 as real);
    ErrorsAdd(Value(f, 0, e10), Value((f + 5) / 10, 0, e10 + 1), exact, Err(k, q), 5.0 / TWO53 as real);
  }

  /** Drop trailing zeros. */
  method StripZeros(f: uint64, e10: int) returns (f': uint64, e10': int)
    requires 0 < f
    ensures 0 < f' <= f && f' % 10 != 0 && e10' >= e10
    ensures Value(f', 0, e10') == Value(f, 0, e10)
    ensures f' as int * Power(10, e10' - e10) == f as int
    ensures f <= 0x20_0000_0000_0000 ==> e10' - e10 <= 15
  {
    hide Value;
    assert f <= 0x20_0000_0000_0000 ==> f as int < Power(10, 16) by { PowerSixteen(); }
    f', e10' := f, e10;
    while f' % 10 == 0
      decreases f'
      invariant 0 < f' <= f && e10' >= e10
      invariant Value(f', 0, e10') == Value(f, 0, e10)
      invariant f' as int * Power(10, e10' - e10) == f as int
      invariant f <= 0x20_0000_0000_0000 ==> e10' - e10 <= 15 && f' as int < Power(10, 16 - (e10' - e10))
    {
      DropZero(f', 0, e10');
      TenOf(f' as int / 10, Power(10, e10' - e10));
      f' := f' / 10;
      e10' := e10' + 1;
    }
  }

  lemma PowerSixteen()
    ensures Power(10, 16) == 10_000_000_000_000_000
  {
    assert Power(10, 4) == 10_000 && Power(10, 8) == 100_000_000 && Power(10, 12) == 1_000_000_000_000;
  }

  lemma TenOf(g: int, p: int)
    ensures g * (10 * p) == 10 * g * p
  {
  }

  const TWO48: real := 281474976710656.0

  /**
   The decimal form `fraction * 10**exponent10` of `f0 * 2**e0`: within the relative error
   2**-48, equal if nothing is rounded, and equal for whole numbers.
   */
  method ToDecimal(f0: uint64, e0: int) returns (fraction: uint64, exponent10: int)
    requires 0 < f0 < 0x20_0000_0000_0000 && -1074 <= e0 <= 971
    ensures 0 < fraction <= 0x20_0000_0000_0000 && fraction % 10 != 0 && -1074 <= exponent10 <= 990
    ensures Near(Value(fraction, 0, exponent10), Value(f0, e0, 0), 1.0 / TWO48)
    ensures !Rounds(f0 as nat, e0) ==> Value(fraction, 0, exponent10) == Value(f0, e0, 0)
    ensures forall n: nat :: Whole(n, f0, e0) ==> exponent10 >= 0 && fraction as int * Power(10, exponent10) == n
  {
    hide Value, Near, Scaling, FirstLoop;
    ghost var r, q, exact;
    exact := Value(f0, e0, 0);
    fraction, exponent10, r := Rescale(f0, e0);
    FirstLoopError(fraction, exponent10, exact, r, e0);
    ghost var f1, x1 := fraction, exponent10;
    fraction, exponent10, q := Shorten(fraction, exponent10, exact, 1074.0 * UNIT1);
    NearMonotone(Value(fraction, 0, exponent10), exact, Err(1074.0 * UNIT1, q), 1.0 / TWO48);
    WholeIsShort(f0, e0, f1);
    fraction, exponent10 := StripZeros(fraction, exponent10);
  }

  lemma FirstLoopError(f: uint64, e10: int, exact: real, r: nat, e0: int)
    requires Scaling(f, 0, e10, exact, r, e0) && -1074 <= e0 <= 971
    ensures 0 < f <= 0xFFFF_FFFF_FFFF_FFF8 && exact > 0.0 && -1074 <= e10 <= 971
    ensures Near(Value(f, 0, e10), exact, 1074.0 * UNIT1)
    ensures r == 0 ==> Value(f, 0, e10) == exact
  {
    hide Value, Near;
    NearMonotone(Value(f, 0, e10), exact, r as real * UNIT1, 1074.0 * UNIT1);
  }

  lemma WholeIsShort(f0: uint64, e0: int, f: uint64)
    requires f0 < 0x20_0000_0000_0000
    requires forall n: nat :: Whole(n, f0, e0) ==> f as int == n
    ensures forall n: nat :: Whole(n, f0, e0) ==> f < 0x20_0000_0000_0000
  {
    forall n: nat | Whole(n, f0, e0)
      ensures f < 0x20_0000_0000_0000
    {
      PowerPositive(2, -e0);
      Grows(n, Power(2, -e0));
    }
  }

  function DigitChar(d: int): char
    requires 0 <= d < 10
  {
    '0' + d as char
  }

  /** Decimal digits, without leading zeros. */
  function Digits(n: nat): (s: string)
    ensures |s| > 0
  {
    if n < 10 then [DigitChar(n)] else Digits(n / 10) + [DigitChar(n % 10)]
  }

  lemma {:induction false} DigitsLength(n: nat, k: nat)
    requires k > 0 && n < Power(10, k)
    ensures |Digits(n)| <= k
  {
    if n >= 10 {
      DigitsLength(n / 10, k - 1);
    }
  }

  function ExponentPart(exponent10: int): string {
    if exponent10 == 0 then ""
    else "E" + ((if exponent10 < 0 then "-" else "") + Digits(if exponent10 < 0 then -exponent10 else exponent10))
  }

  /** What is printed for a non-zero number. */
  function Printed(neg: bool, fraction: nat, exponent10: int): string {
    (if neg then "-" else "") + (Digits(fraction) + ExponentPart(exponent10))
  }

  /** Store the digits of `n` before position `i`. */
  method PutDigits(buf: array<char>, i: nat, n: nat) returns (p: nat)
    requires |Digits(n)| <= i <= buf.Length
    modifies buf
    ensures p == i - |Digits(n)|
    ensures buf[p..] == Digits(n) + old(buf[i..])
  {
    p := i;
    var k := n;
    ghost var tail := buf[i..];
    while true
      invariant 0 <= k && |Digits(k)| <= p <= i
      invariant Digits(k) + buf[p..] == Digits(n) + tail
      decreases k
    {
      ghost var rest := buf[p..];
      p := p - 1;
      buf[p] := DigitChar(k % 10);
      assert buf[p..] == [DigitChar(k % 10)] + rest;
      if k < 10 {
        assert Digits(k) + rest == buf[p..];
        break;
      }
      assert Digits(k) + rest == Digits(k / 10) + ([DigitChar(k % 10)] + rest);
      k := k / 10;
    }
  }

  function Biased(bits: uint64): int {
    bits as int / TWO52 % 0x800
  }

  function FractionBits(bits: uint64): int {
    bits as int % TWO52
  }

  /** The significand and the binary exponent of a finite double. */
  function Significand(bits: uint64): (f: uint64)
    ensures f < 0x20_0000_0000_0000
  {
    if Biased(bits) == 0 then FractionBits(bits) as uint64 else (FractionBits(bits) + TWO52) as uint64
  }

  function BinaryExponent(bits: uint64): int {
    (if Biased(bits) == 0 then 1 else Biased(bits)) - (1023 + 52)
  }

  // ---------- What a bit pattern stands for ----------

  function Field(bits: uint64): int {
    bits as int / 0x10_0000_0000_0000 % 0x800
  }

  function Rest(bits: uint64): int {
    bits as int % 0x8000_0000_0000_0000
  }

  const ULP: real := 1.0 / 0x10_0000_0000_0000 as real

  /** The absolute value of a finite double, as IEEE 754 has it: `1.fraction` scaled, or `0.fraction`. */
  ghost function Magnitude(bits: uint64): real {
    var fraction := (bits as int % 0x10_0000_0000_0000) as real * ULP;
    if Field(bits) == 0 then fraction * Pow(2, -1022) else (1.0 + fraction) * Pow(2, Field(bits) - 1023)
  }

  lemma {:induction false} PowPlus(e: int, k: nat)
    ensures Pow(2, e + k) == Power(2, k) as real * Pow(2, e)
    decreases k
  {
    hide Pow, Power;
    if k == 0 {
      PowerZero(2);
    } else {
      PowPlus(e, k - 1);
      PowStep(2, e + k - 1);
      PowerStep(2, k);
      Twice(Power(2, k - 1) as real, Pow(2, e));
    }
  }

  lemma Twice(a: real, b: real)
    ensures a * b * 2.0 == (2.0 * a) * b
  {
  }

  lemma PowerFiftyTwo()
    ensures Power(2, 52) == 0x10_0000_0000_0000
  {
    assert Power(2, 13) == 0x2000 && Power(2, 26) == 0x400_0000 && Power(2, 39) == 0x80_0000_0000;
  }

  /** The last place of a significand scaled by `2**e`. */
  lemma LastPlace(e: int)
    ensures ULP * Pow(2, e) == Pow(2, e - 52)
  {
    hide Pow, Power;
    PowPlus(e - 52, 52);
    PowerFiftyTwo();
    Cancel(0x10_0000_0000_0000 as real, Pow(2, e - 52));
  }

  lemma Cancel(d: real, p: real)
    requires d > 0.0
    ensures 1.0 / d * (d * p) == p
  {
    assert 1.0 / d * (d * p) == 1.0 / d * d * p;
  }

  lemma PowZero(b: int)
    requires b > 0
    ensures Pow(b, 0) == 1.0
  {
  }

  lemma OnlyTwo(f: uint64, e: int)
    ensures Value(f, e, 0) == f as real * Pow(2, e)
  {
    hide Pow;
    PowZero(10);
  }

  /** `(a + n * u) * p` where `u * p` is `v`. */
  lemma Distribute(a: real, n: real, u: real, p: real, v: real)
    requires u * p == v
    ensures (a + n * u) * p == a * p + n * v
  {
    assert (a + n * u) * p == a * p + n * u * p;
    assert n * u * p == n * (u * p);
  }

  /** The absolute value in units of the last place. */
  lemma Units52(bits: uint64)
    ensures
      var field := if Field(bits) == 0 then 1 else Field(bits);
      Magnitude(bits) == (if Field(bits) == 0 then 0.0 else Pow(2, field - 1023)) +
        (bits as int % 0x10_0000_0000_0000) as real * Pow(2, field - 1075)
  {
    hide Pow;
    var field := if Field(bits) == 0 then 1 else Field(bits);
    LastPlace(field - 1023);
    Distribute(if Field(bits) == 0 then 0.0 else 1.0, (bits as int % 0x10_0000_0000_0000) as real, ULP,
               Pow(2, field - 1023), Pow(2, field - 1075));
  }

  /** The significand and the binary exponent of the source stand for that value. */
  lemma SignificandValue(bits: uint64)
    requires Rest(bits) < 0x7FF0_0000_0000_0000
    ensures Value(Significand(bits), BinaryExponent(bits), 0) == Magnitude(bits)
  {
    hide Pow, Value, Power;
    var e := BinaryExponent(bits);
    Units52(bits);
    OnlyTwo(Significand(bits), e);
    PowPlus(e, 52);
    PowerFiftyTwo();
    Sum((bits as int % 0x10_0000_0000_0000) as real, 0x10_0000_0000_0000 as real, Pow(2, e));
  }

  lemma Sum(q: real, d: real, p: real)
    ensures (q + d) * p == d * p + q * p
  {
  }

  lemma RestIsZero(bits: uint64)
    ensures Rest(bits) == 0 <==> Field(bits) == 0 && bits as int % 0x10_0000_0000_0000 == 0
    ensures Rest(bits) < 0x7FF0_0000_0000_0000 <==> Field(bits) < 0x7FF
    ensures Rest(bits) == 0x7FF0_0000_0000_0000 <==> Field(bits) == 0x7FF && bits as int % 0x10_0000_0000_0000 == 0
  {
    assert Rest(bits) == 0x10_0000_0000_0000 * Field(bits) + bits as int % 0x10_0000_0000_0000;
  }

  lemma FieldNext(bits: uint64)
    requires Rest(bits) + 1 < 0x7FF0_0000_0000_0000
    ensures
      var q := bits as int % 0x10_0000_0000_0000;
      if q < 0xF_FFFF_FFFF_FFFF then Field(bits + 1) == Field(bits) && (bits + 1) as int % 0x10_0000_0000_0000 == q + 1
      else Field(bits + 1) == Field(bits) + 1 && (bits + 1) as int % 0x10_0000_0000_0000 == 0
  {
  }

  /** The absolute values of the patterns count up in units of the last place, */
  lemma MagnitudeNext(bits: uint64)
    requires Rest(bits) + 1 < 0x7FF0_0000_0000_0000
    ensures
      var field := bits as int / 0x10_0000_0000_0000 % 0x800;
      Magnitude(bits + 1) == Magnitude(bits) + Pow(2, (if field == 0 then 1 else field) - 1075)
  {
    hide Pow, Power, Magnitude;
    Units52(bits);
    Units52(bits + 1);
    FieldNext(bits);
    var field := if Field(bits) == 0 then 1 else Field(bits);
    PowPlus(field - 1075, 52);
    PowStep(2, field - 1023);
    PowerFiftyTwo();
    OneMore(bits as int % 0x10_0000_0000_0000, Pow(2, field - 1075));
  }

  lemma OneMore(q: int, u: real)
    ensures (q + 1) as real * u == q as real * u + u
  {
  }

  /** from zero, */
  lemma MagnitudeZero(bits: uint64)
    requires Rest(bits) < 0x7FF0_0000_0000_0000
    ensures Magnitude(bits) >= 0.0
    ensures Magnitude(bits) == 0.0 <==> bits as int % 0x8000_0000_0000_0000 == 0
  {
    hide Pow, Magnitude;
    Units52(bits);
    RestIsZero(bits);
    var q := bits as int % 0x10_0000_0000_0000;
    var p := Pow(2, (if Field(bits) == 0 then 1 else Field(bits)) - 1075);
    if q > 0 {
      ProductPositive(q as real, p);
    }
  }

  /** they double from one field to the next, */
  lemma MagnitudeDoubles(bits: uint64)
    requires 0x10_0000_0000_0000 <= Rest(bits) < 0x7FE0_0000_0000_0000
    ensures Magnitude(bits + 0x10_0000_0000_0000) == 2.0 * Magnitude(bits)
  {
    hide Pow;
    FieldUp(bits);
    PowStep(2, Field(bits) - 1023);
    var fraction := (bits as int % 0x10_0000_0000_0000) as real * ULP;
    Twice(1.0 + fraction, Pow(2, Field(bits) - 1023));
  }

  lemma FieldUp(bits: uint64)
    requires 0x10_0000_0000_0000 <= Rest(bits) < 0x7FE0_0000_0000_0000
    ensures bits as int + 0x10_0000_0000_0000 < TWO64
    ensures Field(bits) > 0 && Field(bits + 0x10_0000_0000_0000) == Field(bits) + 1
    ensures (bits + 0x10_0000_0000_0000) as int % 0x10_0000_0000_0000 == bits as int % 0x10_0000_0000_0000
  {
  }

  /** and one is among them. */
  lemma MagnitudeOne()
    ensures Magnitude(0x3FF0_0000_0000_0000) == 1.0 && Magnitude(0x3FF8_0000_0000_0000) == 1.5
  {
    hide Pow;
    PowZero(2);
    assert Field(0x3FF0_0000_0000_0000) == 0x3FF && Field(0x3FF8_0000_0000_0000) == 0x3FF;
    assert 0x8_0000_0000_0000 as real * ULP == 0.5;
  }

  // ---------- Which doubles are printed exactly ----------

  /** A decimal fraction with a numerator of at most `2**53`. */
  ghost predicate ShortDecimal(x: real) {
    exists a: nat, i: nat :: ShortAs(x, a, i)
  }

  ghost predicate ShortAs(x: real, a: nat, i: nat) {
    a <= TWO53 && x * Power(10, i) as real == a as real
  }

  /** A significand in lowest terms. */
  lemma {:induction false} Lowest(f: nat, d: nat) returns (m: nat, k: nat)
    requires f > 0
    ensures k <= d && f == m * Power(2, k) && m > 0 && (m % 2 == 1 || k == d)
    decreases d
  {
    if f % 2 == 1 || d == 0 {
      m, k := f, 0;
    } else {
      m, k := Lowest(f / 2, d - 1);
      Reassociate(m, 2, Power(2, k));
      k := k + 1;
      PowerStep(2, k);
    }
  }

  lemma {:induction false} PowerTen(i: nat)
    ensures Power(10, i) == Power(2, i) * Power(5, i)
  {
    if i > 0 {
      PowerTen(i - 1);
      TenTwoFive(Power(2, i - 1), Power(5, i - 1));
    }
  }

  lemma TenTwoFive(a: int, b: int)
    ensures 10 * (a * b) == (2 * a) * (5 * b)
  {
  }

  lemma {:induction false} PowerSum(b: int, i: nat, j: nat)
    ensures Power(b, i + j) == Power(b, i) * Power(b, j)
    decreases j
  {
    if j > 0 {
      PowerSum(b, i, j - 1);
      Reassociate(Power(b, i), b, Power(b, j - 1));
    } else {
      PowerZero(b);
    }
  }

  lemma {:induction false} OddPower(m: nat, i: nat)
    requires m % 2 == 1
    ensures m * Power(5, i) % 2 == 1
  {
    hide Power;
    if i == 0 {
      PowerZero(5);
    } else {
      OddPower(m, i - 1);
      PowerStep(5, i);
      FiveTimes(m, Power(5, i - 1));
    }
  }

  lemma FiveTimes(m: int, p: int)
    requires m * p % 2 == 1
    ensures m * (5 * p) % 2 == 1
  {
    var n := m * p;
    assert m * (5 * p) == 5 * n;
  }

  lemma CancelLeft(c: int, a: int, b: int)
    requires c > 0 && c * a == c * b
    ensures a == b
  {
    assert c * (a - b) == 0;
  }

  /** A fraction in lowest terms has the least numerator when its denominator is a power of ten. */
  lemma LeastNumerator(m: nat, j: nat, a: nat, i: nat)
    requires m > 0 && (m % 2 == 1 || j == 0) && m * Power(10, i) == a * Power(2, j)
    ensures m * Power(5, j) <= a
  {
    hide Power;
    PowerTen(i);
    PowerPositive(2, i);
    PowerPositive(2, j);
    if i >= j {
      PowerSum(2, j, i - j);
      PowerSum(5, j, i - j);
      PowerPositive(2, i - j);
      PowerPositive(5, i - j);
      Factors(m, Power(2, j), Power(2, i - j), Power(5, j), Power(5, i - j));
      CancelLeft(Power(2, j), m * Power(5, j) * Power(5, i - j) * Power(2, i - j), a);
      PowerPositive(5, j);
      GrowsTwice(m * Power(5, j), Power(5, i - j), Power(2, i - j));
    } else {
      PowerSum(2, i, j - i);
      FactorsLess(m, Power(5, i), Power(2, i), a, Power(2, j - i));
      CancelLeft(Power(2, i), m * Power(5, i), a * Power(2, j - i));
      PowerStep(2, j - i);
      OddPower(m, i);
      EvenProduct(a, Power(2, j - i - 1));
      assert false;
    }
  }

  lemma Factors(m: int, p: int, p': int, q: int, q': int)
    ensures m * (p * p' * (q * q')) == p * (m * q * q' * p')
  {
    assert m * (p * p' * (q * q')) == m * p * p' * q * q';
    assert p * (m * q * q' * p') == m * p * p' * q * q';
  }

  lemma FactorsLess(m: int, q: int, p: int, a: int, p': int)
    ensures m * (p * q) == p * (m * q)
    ensures a * (p * p') == p * (a * p')
  {
    assert m * (p * q) == m * p * q && a * (p * p') == a * p * p';
  }

  lemma EvenProduct(a: int, p: int)
    ensures a * (2 * p) % 2 == 0
  {
    assert a * (2 * p) == 2 * (a * p);
  }

  lemma GrowsTwice(n: int, p: int, q: int)
    requires n >= 0 && p >= 1 && q >= 1
    ensures n <= n * p * q
  {
    Grows(n, p);
    Grows(n * p, q);
  }

  /** A fraction in lowest terms is a short decimal just if its least numerator is small enough. */
  lemma ShortIff(x: real, m: nat, j: nat)
    requires m > 0 && (m % 2 == 1 || j == 0) && x * Power(2, j) as real == m as real
    ensures ShortDecimal(x) <==> m * Power(5, j) <= TWO53
  {
    hide Power;
    PowerTen(j);
    PowerPositive(5, j);
    Product(m, Power(5, j));
    if m * Power(5, j) <= TWO53 {
      TimesCast(x, Power(2, j), Power(5, j), m);
      assert ShortAs(x, m * Power(5, j), j);
    }
    if ShortDecimal(x) {
      var a: nat, i: nat :| ShortAs(x, a, i);
      CrossCast(x, Power(2, j), Power(10, i), m, a);
      LeastNumerator(m, j, a, i);
    }
  }

  lemma Product(m: nat, p: int)
    requires p >= 1
    ensures m * p >= 0
  {
  }

  lemma TimesCast(x: real, p: int, q: int, m: int)
    requires x * p as real == m as real
    ensures x * (p * q) as real == (m * q) as real
  {
    Casts(p, q);
    Casts(m, q);
    assert x * (p as real * q as real) == x * p as real * q as real;
  }

  lemma CrossCast(x: real, p: int, t: int, m: int, a: int)
    requires x * p as real == m as real && x * t as real == a as real
    ensures m * t == a * p
  {
    Casts(m, t);
    Casts(a, p);
    assert x * p as real * t as real == x * t as real * p as real;
    assert (m * t) as real == (a * p) as real;
  }

  lemma Casts(a: int, b: int)
    ensures (a * b) as real == a as real * b as real
  {
  }

  /** Nothing is rounded just if the number is a short decimal. */
  lemma RoundsUnless(f: uint64, e: int)
    requires f > 0
    ensures !Rounds(f as nat, e) <==> ShortDecimal(Value(f, e, 0))
  {
    hide Rounds, ShortDecimal, Pow, Power, Value;
    OnlyTwo(f, e);
    PowZero(2);
    if e >= 0 {
      PowPlus(0, e);
      WholeRoundsIff(f as nat, e);
      PowerPositive(2, e);
      Product(f as nat, Power(2, e));
      Casts(f as int, Power(2, e));
      PowerZero(2);
      PowerZero(5);
      Grows(f as nat, Power(2, e));
      ShortIff(Value(f, e, 0), f as nat * Power(2, e), 0);
    } else {
      var m, k := Lowest(f as nat, -e);
      var j := -e - k;
      RoundsIff(f as nat, e, m, k, j);
      PowPlus(e, k);
      PowPlus(-j, j);
      Casts(m, Power(2, k));
      InLowest(f as real, m as real, Power(2, k) as real, Pow(2, e), Pow(2, -j), Power(2, j) as real);
      ShortIff(Value(f, e, 0), m, j);
    }
  }

  lemma InLowest(f: real, m: real, p: real, q: real, r: real, t: real)
    requires f == m * p && r == p * q && t * r == 1.0
    ensures f * q * t == m
  {
    assert f * q * t == m * (p * q) * t == m * (t * r);
  }

  // ---------- Printing ----------

  /**
   Print the double with the given bit pattern.  What is printed for a finite number is within a
   relative error of `2**-48` of it, and is the number itself if it is a short decimal.
   */
  method DoubleToStr(bits: uint64) returns (s: string, ghost fraction: uint64, ghost exponent10: int)
    ensures Rest(bits) >= 0x7FF0_0000_0000_0000 ==>
      s == (if bits >= 0x8000_0000_0000_0000 then "-" else "+") +
           (if Rest(bits) > 0x7FF0_0000_0000_0000 then "NaN" else "Infinity")
    ensures Rest(bits) == 0 ==> s == if bits >= 0x8000_0000_0000_0000 then "-0." else "0"
    ensures 0 < Rest(bits) < 0x7FF0_0000_0000_0000 ==>
      && 0 < fraction <= 0x20_0000_0000_0000 && fraction % 10 != 0
      && s == Printed(bits >= 0x8000_0000_0000_0000, fraction as int, exponent10)
      && Near(Value(fraction, 0, exponent10), Magnitude(bits), 1.0 / TWO48)
      && (ShortDecimal(Magnitude(bits)) ==> Value(fraction, 0, exponent10) == Magnitude(bits))
      && forall n: nat :: Whole(n, Significand(bits), BinaryExponent(bits)) ==>
            exponent10 >= 0 && fraction as int * Power(10, exponent10) == n
    ensures |s| < 128
  {
    RestIsZero(bits);
    hide Value, Near, Rounds, Whole, Magnitude, ShortDecimal;
    fraction, exponent10 := 0, 0;
    var neg := bits >= 0x8000_0000_0000_0000;
    if Biased(bits) == 0x7FF {
      s := if FractionBits(bits) != 0 then (if neg then "-NaN" else "+NaN")
           else if neg then "-Infinity" else "+Infinity";
      return;
    }
    var f := Significand(bits);
    if f == 0 {
      s := if neg then "-0." else "0";
      return;
    }
    SignificandValue(bits);
    RoundsUnless(f, BinaryExponent(bits));
    var e10;
    f, e10 := ToDecimal(f, BinaryExponent(bits));
    fraction, exponent10 := f, e10;
    s := Print(neg, f as int, e10);
  }

  /** Fill a 128-byte buffer from its end: exponent, digits, sign. */
  method Print(neg: bool, fraction: nat, exponent10: int) returns (s: string)
    requires 0 < fraction <= TWO53 && -1074 <= exponent10 <= 990
    ensures s == Printed(neg, fraction, exponent10) && |s| < 128
  {
    hide Digits, Power;
    PowerSixteen();
    DigitsLength(fraction, 16);
    var buf := new char[127];
    var i := PutExponent(buf, exponent10);
    i := PutDigits(buf, i, fraction);
    if neg {
      i := PutChar(buf, i, '-');
    }
    s := buf[i..];
  }

  method PutExponent(buf: array<char>, exponent10: int) returns (i: nat)
    requires buf.Length == 127 && -1074 <= exponent10 <= 990
    modifies buf
    ensures 121 <= i <= 127 && buf[i..] == ExponentPart(exponent10)
  {
    i := buf.Length;
    if exponent10 != 0 {
      var e := if exponent10 < 0 then -exponent10 else exponent10;
      assert Power(10, 4) == 10_000;
      DigitsLength(e, 4);
      hide Digits, Power;
      i := PutDigits(buf, i, e);
      assert buf[i..] == Digits(e);
      if exponent10 < 0 {
        i := PutChar(buf, i, '-');
      }
      i := PutChar(buf, i, 'E');
    }
  }

  method PutChar(buf: array<char>, i: nat, c: char) returns (p: nat)
    requires 0 < i <= buf.Length
    modifies buf
    ensures p == i - 1 && buf[p..] == [c] + old(buf[i..])
  {
    p := i - 1;
    buf[p] := c;
  }

  lemma {:induction false} TenPlus(e: int, k: nat)
    ensures Pow(10, e + k) == Power(10, k) as real * Pow(10, e)
    decreases k
  {
    hide Pow, Power;
    if k == 0 {
      PowerZero(10);
    } else {
      TenPlus(e, k - 1);
      PowStep(10, e + k - 1);
      PowerStep(10, k);
      TenTimes(Power(10, k - 1) as real, Pow(10, e));
    }
  }

  lemma TenTimes(a: real, b: real)
    ensures a * b * 10.0 == (10.0 * a) * b
  {
  }

  /** Without trailing zeros a number has one decimal form. */
  lemma DecimalUnique(f: uint64, a: int, g: uint64, b: int)
    requires f % 10 != 0 && g % 10 != 0 && a <= b && Value(f, 0, a) == Value(g, 0, b)
    ensures f == g && a == b
  {
    hide Pow, Power;
    OnlyTen(f, a);
    OnlyTen(g, b);
    TenPlus(a, b - a);
    SameScale(f as int, g as int, Power(10, b - a), Pow(10, a));
    if a < b {
      PowerStep(10, b - a);
      TenOf(g as int, Power(10, b - a - 1));
      MultipleOfTen(g as int, Power(10, b - a - 1));
    } else {
      PowerZero(10);
    }
  }

  lemma MultipleOfTen(g: int, p: int)
    ensures 10 * g * p % 10 == 0
  {
    assert 10 * g * p == 10 * (g * p);
  }

  lemma OnlyTen(f: uint64, e: int)
    ensures Value(f, 0, e) == f as real * Pow(10, e)
  {
    hide Pow;
    PowZero(2);
  }

  lemma SameScale(f: int, g: int, p: int, s: real)
    requires s > 0.0 && f as real * s == g as real * (p as real * s)
    ensures f == g * p
  {
    Casts(g, p);
    assert g as real * (p as real * s) == (g * p) as real * s;
    assert (f as real - (g * p) as real) * s == 0.0;
  }

  /** One and a half. */
  method PrintOneAndAHalf() returns (s: string)
    ensures s == "15E-1"
  {
    hide Value, Near, Magnitude, Printed, Whole, Pow;
    ghost var fraction, exponent10;
    s, fraction, exponent10 := DoubleToStr(0x3FF8_0000_0000_0000);
    assert Rest(0x3FF8_0000_0000_0000) == 0x3FF8_0000_0000_0000;
    MagnitudeOne();
    assert ShortAs(1.5, 15, 1);
    ValueOfFifteen();
    if exponent10 <= -1 {
      DecimalUnique(fraction, exponent10, 15, -1);
    } else {
      DecimalUnique(15, -1, fraction, exponent10);
    }
    PrintedFifteen();
  }

  lemma ValueOfFifteen()
    ensures Value(15, 0, -1) == 1.5
  {
    OnlyTen(15, -1);
    PowStep(10, -1);
    PowZero(10);
  }

  lemma PrintedFifteen()
    ensures Printed(false, 15, -1) == "15E-1"
  {
    assert Digits(1) == "1" && Digits(15) == "15";
  }
}
