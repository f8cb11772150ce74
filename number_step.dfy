/**
 * The stepping rule of the number field, in the scaled-integer space the field
 * works in once decimals have been multiplied away (vaadin-number-field.js:298-303).
 * An absent bound stands for a JavaScript `undefined`: `== null` holds of it and
 * every ordering comparison with it is false.
 */
module NumberStep {
  import opened Optional

  /** JavaScript's `%`: the remainder takes the sign of the dividend. */
  function TruncRem(a: int, b: int): (r: int)
    requires b != 0
    ensures a >= 0 ==> 0 <= r < Abs(b)
    ensures a < 0 ==> 0 - Abs(b) < r <= 0
    ensures (a - r) % Abs(b) == 0
    ensures a >= 0 && b > 0 ==> r == a % b
  {
    var m := Abs(b);
    if a >= 0 then
      var q := a / m;
      assert a - a % m == q * m;
      MulModZero(q, m);
      a % m
    else
      var q := (-a) / m;
      assert a + (-a) % m == (-q) * m;
      MulModZero(-q, m);
      -((-a) % m)
  }

  function Abs(x: int): (r: int)
  {
    if x >= 0 then x else -x
  }

  lemma MulNonNeg(a: int, b: int)
    requires a >= 0 && b >= 0
    ensures a * b >= 0
  {
  }

  /** The only multiple of `b` strictly between `-b` and `b` is 0. */
  lemma SmallMultipleIsZero(j: int, b: int)
    requires b > 0 && 0 - b < j * b < b
    ensures j == 0
  {
  }

  lemma MulModZero(k: int, b: int)
    requires b > 0
    ensures (k * b) % b == 0
  {
    var x := k * b;
    assert x == b * (x / b) + x % b;
    assert (k - x / b) * b == x % b;
    SmallMultipleIsZero(k - x / b, b);
  }

  /** Dafny's remainder by a negative divisor is the remainder by its magnitude. */
  lemma ModAbs(d: int, s: int)
    requires s != 0
    ensures d % s == d % Abs(s)
  {
    if s < 0 {
      var b := -s;
      assert d == s * (d / s) + d % s;
      assert d == b * (d / b) + d % b;
      assert (d / b + d / s) * b == d % s - d % b;
      SmallMultipleIsZero(d / b + d / s, b);
    }
  }

  /** `this.step || 1`: a zero step falls back to one. */
  function EffectiveStep(step: int): (s: int)
    ensures s != 0
    ensures step != 0 ==> s == step
    ensures step == 0 ==> s == 1
  {
    if step == 0 then 1 else step
  }

  /** `this.min || 0`: an absent (or zero) minimum is the grid origin 0. */
  function GridBase(min: Option<int>): (b: int)
    ensures min.Some? ==> b == min.value
    ensures min.None? ==> b == 0
  {
    if min.Some? then min.value else 0
  }

  /** The k-th point of the grid `base + k * step`. */
  function GridPoint(base: int, step: int, k: int): (p: int)
  {
    base + k * step
  }

  /**
   * How `_getIncrement` measures the margin of a value above the grid point
   * below it: `AsWritten` with JavaScript's truncating `%`, as the code does,
   * so that a value below the grid base gets a negative margin; `Corrected`
   * with the floored remainder, which snaps values on either side of the base.
   */
  datatype Rule = AsWritten | Corrected

  /**
   * The margin of `d = v - base` above the grid point at or below it:
   * congruent to `d` modulo the step under either rule; the floored remainder
   * under the corrected rule; the usual remainder as written when `d` is not
   * negative.
   */
  function Margin(rule: Rule, d: int, s: int): (m: int)
    requires s != 0
    ensures (d - m) % Abs(s) == 0
    ensures rule.Corrected? ==> 0 <= m < Abs(s)
    ensures rule.AsWritten? && d >= 0 ==> m == d % Abs(s)
  {
    if rule.AsWritten? then
      TruncRem(d, s)
    else
      var b := Abs(s);
      ModAbs(d, s);
      assert d - d % b == (d / b) * b;
      MulModZero(d / b, b);
      d % s
  }

  /** Adding or taking away one step keeps a multiple of the step a multiple. */
  lemma ShiftMultiple(x: int, s: int)
    requires s != 0 && x % Abs(s) == 0
    ensures (x + s) % Abs(s) == 0 && (x - s) % Abs(s) == 0
  {
    var b := Abs(s);
    var q := x / b;
    assert x == q * b;
    if s > 0 {
      assert x + s == (q + 1) * b;
      assert x - s == (q - 1) * b;
    } else {
      assert x + s == (q - 1) * b;
      assert x - s == (q + 1) * b;
    }
    MulModZero(q + 1, b);
    MulModZero(q - 1, b);
  }

  /**
   * `_getIncrement(incr, v)`: the next grid point above `v` for a positive
   * `incr`, the previous one below it for a negative `incr`, and `v` itself
   * for zero. Only the sign of `incr` matters. Under either rule a step lands
   * on the grid; under the corrected rule it moves in the step's direction by
   * at most one step.
   */
  function GetIncrement(rule: Rule, incr: int, v: int, min: Option<int>, step: int): (r: int)
    ensures incr == 0 ==> r == v
    ensures incr != 0 ==> (r - GridBase(min)) % Abs(EffectiveStep(step)) == 0
    ensures rule.Corrected? && step >= 0 && incr > 0 ==> v < r <= v + EffectiveStep(step)
    ensures rule.Corrected? && step >= 0 && incr < 0 ==> v - EffectiveStep(step) <= r < v
  {
    var s := EffectiveStep(step);
    var base := GridBase(min);
    var margin := Margin(rule, v - base, s);
    ShiftMultiple(v - base - margin, s);
    if incr > 0 then v - margin + s
    else if incr < 0 then v - (if margin != 0 then margin else s)
    else v
  }

  lemma StayIsIdentity(rule: Rule, v: int, min: Option<int>, step: int)
    ensures GetIncrement(rule, 0, v, min, step) == v
  {
  }

  /** At or above the grid base the code as written and the corrected rule agree. */
  lemma AsWrittenAgreesAboveBase(incr: int, v: int, min: Option<int>, step: int)
    requires v >= GridBase(min)
    ensures GetIncrement(AsWritten, incr, v, min, step) == GetIncrement(Corrected, incr, v, min, step)
  {
    var s := EffectiveStep(step);
    var d := v - GridBase(min);
    ModAbs(d, s);
    assert Margin(AsWritten, d, s) == Margin(Corrected, d, s);
  }

  /** Splits `d` by a positive `s` into quotient and remainder (Euclidean division). */
  lemma DivMod(d: int, s: int)
    requires s > 0
    ensures d == (d / s) * s + d % s
    ensures 0 <= d % s < s
  {
  }

  /** Grid points are ordered like their indexes. */
  lemma {:induction false} GridOrder(base: int, s: int, j: int, k: int)
    requires s > 0
    ensures j <= k <==> GridPoint(base, s, j) <= GridPoint(base, s, k)
  {
    if j <= k {
      MulNonNeg(k - j, s);
      assert GridPoint(base, s, k) - GridPoint(base, s, j) == (k - j) * s;
    } else {
      MulNonNeg(j - k - 1, s);
      assert GridPoint(base, s, j) - GridPoint(base, s, k) == (j - k - 1) * s + s;
    }
  }

  /**
   * Stepping up lands on the least grid point strictly above `v`
   * (vaadin-number-field.js:305-308), for a non-negative step: for any `v`
   * under the corrected rule, and for `v` at or above the base as written.
   */
  lemma StepUpIsNextGridPoint(rule: Rule, v: int, min: Option<int>, step: int)
    requires step >= 0 && (rule.Corrected? || v >= GridBase(min))
    ensures var r := GetIncrement(rule, 1, v, min, step);
      var s := EffectiveStep(step);
      var base := GridBase(min);
      && r == GridPoint(base, s, (v - base) / s + 1)
      && v < r <= v + s
      && forall k :: GridPoint(base, s, k) > v ==> GridPoint(base, s, k) >= r
  {
    if rule.AsWritten? {
      AsWrittenAgreesAboveBase(1, v, min, step);
    }
    var s := EffectiveStep(step);
    var base := GridBase(min);
    var q := (v - base) / s;
    DivMod(v - base, s);
    var r := GetIncrement(Corrected, 1, v, min, step);
    assert r == GridPoint(base, s, q + 1) by {
      assert r == base + (q * s + s);
      assert q * s + s == (q + 1) * s;
    }
    forall k | GridPoint(base, s, k) > v
      ensures GridPoint(base, s, k) >= r
    {
      GridOrder(base, s, k, q);
      GridOrder(base, s, q + 1, k);
    }
  }

  /**
   * Stepping down lands on the greatest grid point strictly below `v`
   * (vaadin-number-field.js:305-310); a value on the grid moves down by
   * exactly one step. For any `v` under the corrected rule, and for `v` at or
   * above the base as written.
   */
  lemma StepDownIsPreviousGridPoint(rule: Rule, v: int, min: Option<int>, step: int)
    requires step >= 0 && (rule.Corrected? || v >= GridBase(min))
    ensures var r := GetIncrement(rule, -1, v, min, step);
      var s := EffectiveStep(step);
      var base := GridBase(min);
      && v - s <= r < v
      && r == GridPoint(base, s, if (v - base) % s == 0 then (v - base) / s - 1 else (v - base) / s)
      && ((v - base) % s == 0 ==> r == v - s)
      && forall k :: GridPoint(base, s, k) < v ==> GridPoint(base, s, k) <= r
  {
    if rule.AsWritten? {
      AsWrittenAgreesAboveBase(-1, v, min, step);
    }
    var s := EffectiveStep(step);
    var base := GridBase(min);
    var q := (v - base) / s;
    DivMod(v - base, s);
    var r := GetIncrement(Corrected, -1, v, min, step);
    var kr := if (v - base) % s == 0 then q - 1 else q;
    assert r == GridPoint(base, s, kr) by {
      if (v - base) % s == 0 {
        assert r == base + (q * s - s);
        assert q * s - s == (q - 1) * s;
      } else {
        assert r == base + q * s;
      }
    }
    forall k | GridPoint(base, s, k) < v
      ensures GridPoint(base, s, k) <= r
    {
      if (v - base) % s == 0 {
        GridOrder(base, s, q, k);
        GridOrder(base, s, k, q - 1);
      } else {
        GridOrder(base, s, q + 1, k);
        assert GridPoint(base, s, q + 1) == base + q * s + s;
        GridOrder(base, s, k, q);
      }
    }
  }

  /**
   * The code as written steps the wrong way below the grid base: with no
   * minimum (base 0) and step 3, ArrowDown on -4 yields -3, above the value,
   * and ArrowUp yields 0, skipping -3.
   */
  lemma AsWrittenStepsWrongWayBelowBase()
    ensures GetIncrement(AsWritten, -1, -4, None, 3) == -3 > -4
    ensures GetIncrement(AsWritten, 1, -4, None, 3) == 0
    ensures GetIncrement(Corrected, -1, -4, None, 3) == -6
    ensures GetIncrement(Corrected, 1, -4, None, 3) == -3
  {
  }

  /**
   * `_incrementIsInsideTheLimits`: whether stepping `v` in the direction of
   * `incr` stays within the defined bounds. An absent bound imposes no limit on
   * a step; for a zero step both bounds must be present, as every comparison
   * with `undefined` is false.
   */
  function IncrementIsInsideTheLimits(rule: Rule, incr: int, v: int, min: Option<int>, max: Option<int>, step: int): (ok: bool)
    ensures incr > 0 && max.None? ==> ok
    ensures incr < 0 && min.None? ==> ok
    ensures incr == 0 ==> (ok <==> max.Some? && min.Some? && min.value <= v <= max.value)
  {
    var n := GetIncrement(rule, incr, v, min, step);
    if incr < 0 then min.None? || n >= min.value
    else if incr > 0 then max.None? || n <= max.value
    else max.Some? && n <= max.value && min.Some? && n >= min.value
  }

  /**
   * What the limits check means on the grid: an upward step is inside the
   * limits iff there is no maximum or the next grid point above `v` is at most
   * the maximum; a downward step iff there is no minimum or the previous grid
   * point below `v` is at least the minimum; a zero step iff both bounds exist
   * and hold `v`.
   */
  lemma LimitsCheckIsNextGridPoint(rule: Rule, incr: int, v: int, min: Option<int>, max: Option<int>, step: int)
    requires step >= 0 && (rule.Corrected? || v >= GridBase(min))
    ensures var s := EffectiveStep(step);
      var base := GridBase(min);
      var ok := IncrementIsInsideTheLimits(rule, incr, v, min, max, step);
      && (incr > 0 ==> (ok <==> max.None? || GridPoint(base, s, (v - base) / s + 1) <= max.value))
      && (incr < 0 ==> (ok <==>
            min.None? || GridPoint(base, s, if (v - base) % s == 0 then (v - base) / s - 1 else (v - base) / s) >= min.value))
      && (incr == 0 ==> (ok <==> max.Some? && min.Some? && min.value <= v <= max.value))
  {
    var s := EffectiveStep(step);
    var base := GridBase(min);
    var n := GetIncrement(rule, incr, v, min, step);
    if incr > 0 {
      StepUpIsNextGridPoint(rule, v, min, step);
      assert n == GetIncrement(rule, 1, v, min, step);
      assert n == GridPoint(base, s, (v - base) / s + 1);
    } else if incr < 0 {
      StepDownIsPreviousGridPoint(rule, v, min, step);
      assert n == GetIncrement(rule, -1, v, min, step);
    }
  }

  /**
   * `_allowed(sign)`: whether the decrease (sign -1) or increase (sign 1)
   * button is enabled. An empty field always allows stepping; a disabled one
   * with a value never does; otherwise the step `sign * (step || 1)` must stay
   * inside the limits, so a negative step makes the increase button check the
   * minimum and the decrease button the maximum.
   */
  function Allowed(rule: Rule, sign: int, value: Option<int>, disabled: bool, min: Option<int>, max: Option<int>, step: int): (ok: bool)
    ensures value.None? ==> ok
    ensures value.Some? && disabled ==> !ok
    ensures value.Some? && !disabled && sign * EffectiveStep(step) > 0 ==>
      (ok <==> max.None? || GetIncrement(rule, 1, value.value, min, step) <= max.value)
    ensures value.Some? && !disabled && sign * EffectiveStep(step) < 0 ==>
      (ok <==> min.None? || GetIncrement(rule, -1, value.value, min, step) >= min.value)
    ensures value.Some? && !disabled && sign == 0 ==>
      (ok <==> max.Some? && min.Some? && min.value <= value.value <= max.value)
  {
    var incr := sign * EffectiveStep(step);
    value.None? || (!disabled && IncrementIsInsideTheLimits(rule, incr, value.value, min, max, step))
  }

  /**
   * Below the grid base the code as written disables a button the corrected
   * rule enables: no minimum, maximum -2, step 3, value -4. The increase
   * button checks 0 against the maximum instead of -3.
   */
  lemma AsWrittenDisablesIncreaseBelowBase()
    ensures !Allowed(AsWritten, 1, Some(-4), false, None, Some(-2), 3)
    ensures Allowed(Corrected, 1, Some(-4), false, None, Some(-2), 3)
  {
  }

  /** The index of the first occurrence of `c` in `s`, or -1 (`String.indexOf`). */
  function IndexOf(s: string, c: char): (i: int)
    ensures -1 <= i < |s|
    ensures i == -1 <==> c !in s
    ensures i >= 0 ==> s[i] == c && c !in s[..i]
  {
    if |s| == 0 then -1
    else if s[0] == c then 0
    else
      var j := IndexOf(s[1..], c);
      if j == -1 then -1 else j + 1
  }

  /**
   * `_getDecimalCount` on the number's string form: the count of characters
   * after the first '.', or 1 when there is no '.'.
   */
  function DecimalCount(s: string): (n: nat)
    ensures '.' !in s ==> n == 1
    ensures forall i :: 0 <= i < |s| && s[i] == '.' && '.' !in s[..i] ==> n == |s| - i - 1
  {
    var i := IndexOf(s, '.');
    if i == -1 then 1 else |s| - i - 1
  }

  /**
   * An integer's string form has no '.', so its decimal count, and with it the
   * multiplier `10 ** count`, is the same for every integer value.
   */
  lemma IntegerDecimalCount(n: int)
    ensures DecimalCount(NumberToString(n)) == 1
  {
    var d := NatToDigits(if n < 0 then -n else n);
    assert '.' !in d by {
      forall i | 0 <= i < |d| ensures d[i] != '.' {
        assert IsDigit(d[i]);
      }
    }
    if n < 0 {
      assert NumberToString(n) == "-" + d;
    }
  }

  predicate IsDigit(c: char)
  {
    '0' <= c <= '9'
  }

  /** The longest prefix of `s` made of decimal digits. */
  function LeadingDigits(s: string): (d: string)
    ensures |d| <= |s| && d == s[..|d|]
    ensures forall i :: 0 <= i < |d| ==> IsDigit(d[i])
    ensures |d| < |s| ==> !IsDigit(s[|d|])
  {
    if |s| == 0 || !IsDigit(s[0]) then [] else [s[0]] + LeadingDigits(s[1..])
  }

  /** The value of a string of decimal digits, most significant first. */
  function DigitsValue(d: string): int
  {
    if |d| == 0 then 0
    else DigitsValue(d[..|d| - 1]) * 10 + (d[|d| - 1] as int - '0' as int)
  }

  /**
   * `parseFloat` on the integer literals of the scaled space: an optional sign,
   * then the longest run of digits; nothing (NaN) when no digit follows.
   */
  function ParseNumber(s: string): (r: Option<int>)
    ensures r.None? <==>
      (|s| == 0 || (s[0] in "+-" && (|s| == 1 || !IsDigit(s[1]))) || (s[0] !in "+-" && !IsDigit(s[0])))
  {
    if |s| > 0 && s[0] in "+-" then
      var d := LeadingDigits(s[1..]);
      if |d| == 0 then None
      else if s[0] == '-' then Some(-DigitsValue(d)) else Some(DigitsValue(d))
    else
      var d := LeadingDigits(s);
      if |d| == 0 then None else Some(DigitsValue(d))
  }

  /** The decimal digits of a natural number, most significant first. */
  function NatToDigits(n: nat): (d: string)
    ensures |d| > 0
    ensures forall i :: 0 <= i < |d| ==> IsDigit(d[i])
  {
    if n < 10 then [('0' as int + n) as char]
    else NatToDigits(n / 10) + [('0' as int + n % 10) as char]
  }

  /** `String(n)` for an integer. */
  function NumberToString(n: int): string
  {
    if n < 0 then "-" + NatToDigits(-n) else NatToDigits(n)
  }

  lemma {:induction false} DigitsRoundTrip(n: nat)
    ensures DigitsValue(NatToDigits(n)) == n
  {
    if n >= 10 {
      var d := NatToDigits(n);
      assert d[..|d| - 1] == NatToDigits(n / 10);
      DigitsRoundTrip(n / 10);
    }
  }

  lemma {:induction false} AllDigitsAreLeading(d: string)
    requires forall i :: 0 <= i < |d| ==> IsDigit(d[i])
    ensures LeadingDigits(d) == d
  {
    if |d| > 0 {
      AllDigitsAreLeading(d[1..]);
    }
  }

  /** A run of digits parses to its value. */
  lemma ParseDigits(d: string)
    requires |d| > 0 && forall i :: 0 <= i < |d| ==> IsDigit(d[i])
    ensures ParseNumber(d) == Some(DigitsValue(d))
  {
    AllDigitsAreLeading(d);
    var c := d[0];
    assert IsDigit(c);
    assert c != '+' && c != '-';
    assert !(|d| > 0 && d[0] in "+-");
  }

  /** Text led by a minus sign parses to the negated value of the digits after it. */
  lemma ParseMinus(s: string, d: string)
    requires |s| > 0 && s[0] == '-' && LeadingDigits(s[1..]) == d && |d| > 0
    ensures ParseNumber(s) == Some(-DigitsValue(d))
  {
  }

  /** A minus sign followed by a run of digits parses to the negated value. */
  lemma ParseNegatedDigits(d: string)
    requires |d| > 0 && forall i :: 0 <= i < |d| ==> IsDigit(d[i])
    ensures ParseNumber("-" + d) == Some(-DigitsValue(d))
  {
    var m := "-" + d;
    assert m[1..] == d;
    AllDigitsAreLeading(d);
    ParseMinus(m, d);
  }

  /** Reading back the string the field writes (`String(parseFloat(value))`) gives the number. */
  lemma ParseNumberToString(n: int)
    ensures ParseNumber(NumberToString(n)) == Some(n)
  {
    if n < 0 {
      ParseNegatedDigits(NatToDigits(-n));
      DigitsRoundTrip(-n);
    } else {
      ParseDigits(NatToDigits(n));
      DigitsRoundTrip(n);
    }
  }
}
