/**
 * The number field's state and its keyboard stepping (vaadin-number-field.js),
 * in the scaled-integer space of module NumberStep. The field's value is
 * `None` when the field is empty (the empty string) and `Some(n)` otherwise.
 */
module NumberField {
  import opened Optional
  import opened NumberStep

  /** The empty-field start point and the step direction left after it (lines 248-272). */
  datatype Start = Start(value: int, incr: int)

  /**
   * Where stepping an empty field starts from: 0 when 0 lies inside the
   * bounds (staying there when a bound at 0 blocks the direction), the
   * minimum when it is positive, and the maximum (backed off one or two steps
   * so that the step lands under it) when it is negative.
   */
  function EmptyStart(rule: Rule, min: Option<int>, max: Option<int>, step: int, incr: int): (st: Start)
    ensures (min == Some(0) && incr < 0) || (max == Some(0) && incr > 0) || (max == Some(0) && min == Some(0))
      ==> st == Start(0, 0)
    ensures !(min == Some(0) && incr < 0) && !(max == Some(0) && incr > 0) && !(max == Some(0) && min == Some(0))
      && (max.None? || max.value >= 0) && (min.None? || min.value <= 0)
      ==> st == Start(0, incr)
    ensures (max.None? || max.value > 0 || (max.value == 0 && incr <= 0)) && min.Some? && min.value > 0
      ==> st == Start(min.value, 0)
  {
    if (min == Some(0) && incr < 0) || (max == Some(0) && incr > 0) || (max == Some(0) && min == Some(0)) then
      Start(0, 0)
    else if (max.None? || max.value >= 0) && (min.None? || min.value <= 0) then
      Start(0, incr)
    else if min.Some? && min.value > 0 then
      Start(if max.Some? && max.value < 0 && incr < 0 then max.value else min.value, 0)
    else
      // Here max < 0: the code carries a FIXME on this branch and is kept as written.
      if incr < 0 then Start(max.value, 0)
      else if GetIncrement(rule, 1, max.value - step, min, step) > max.value then Start(max.value - 2 * step, incr)
      else Start(max.value - step, incr)
  }

  /**
   * What one press of a stepping key writes into the field, or `None` when the
   * field is left as it is: an empty field is stepped from its start point; a
   * value outside the bounds is pulled back to the bound it crossed; an
   * in-range value is stepped when the result stays within the defined bounds.
   */
  function StepOutcome(rule: Rule, value: Option<int>, min: Option<int>, max: Option<int>, step: int, incr: int): (out: Option<int>)
    ensures value.None? ==> out.Some?
    ensures value.Some? && (incr == 0 || !InBounds(value.value, min, max)) ==> out.Some?
    ensures value.Some? && InBounds(value.value, min, max) && incr != 0 && out.Some? ==>
      (out.value - GridBase(min)) % Abs(EffectiveStep(step)) == 0
  {
    match value
    case None =>
      var st := EmptyStart(rule, min, max, step, incr);
      Some(GetIncrement(rule, st.incr, st.value, min, step))
    case Some(v) =>
      if min.Some? && v < min.value then Some(min.value)
      else if max.Some? && v > max.value then Some(max.value)
      else if incr == 0 || IncrementIsInsideTheLimits(rule, incr, v, min, max, step) then Some(GetIncrement(rule, incr, v, min, step))
      else None
  }

  /** The field's value after an outcome: the written value, or the old one. */
  function Written(out: Option<int>, current: Option<int>): Option<int>
  {
    if out.Some? then out else current
  }

  predicate InBounds(v: int, min: Option<int>, max: Option<int>)
  {
    (min.None? || min.value <= v) && (max.None? || v <= max.value)
  }

  /** A non-empty value below the minimum becomes the minimum (lines 273-275). */
  lemma BelowMinClampsToMin(rule: Rule, v: int, min: Option<int>, max: Option<int>, step: int, incr: int)
    requires min.Some? && v < min.value
    ensures StepOutcome(rule, Some(v), min, max, step, incr) == Some(min.value)
  {
  }

  /** A non-empty value above the maximum becomes the maximum (lines 276-279). */
  lemma AboveMaxClampsToMax(rule: Rule, v: int, min: Option<int>, max: Option<int>, step: int, incr: int)
    requires InBounds(v, min, None) && max.Some? && v > max.value
    ensures StepOutcome(rule, Some(v), min, max, step, incr) == Some(max.value)
  {
  }

  /**
   * Stepping an in-range value either writes a value that is still within the
   * defined bounds, on the next grid point in the step's direction, or leaves
   * the field alone exactly when that grid point lies beyond the bound in that
   * direction; an absent bound never blocks (lines 281-284, 331-339). This
   * holds for every in-range value under the corrected rule, and as written
   * when a minimum is set or the value is not negative (see
   * AsWrittenStepEscapesMax for the value it fails on otherwise).
   */
  lemma InRangeStepStaysInBounds(rule: Rule, v: int, min: Option<int>, max: Option<int>, step: int, incr: int)
    requires InBounds(v, min, max) && step >= 0 && incr != 0
    requires rule.Corrected? || v >= GridBase(min)
    ensures var out := StepOutcome(rule, Some(v), min, max, step, incr);
      var n := GetIncrement(rule, incr, v, min, step);
      && (out.Some? ==> out.value == n && InBounds(n, min, max))
      && (incr > 0 ==> (out.None? <==> max.Some? && n > max.value) && n > v)
      && (incr < 0 ==> (out.None? <==> min.Some? && n < min.value) && n < v)
  {
    if incr > 0 {
      StepUpIsNextGridPoint(rule, v, min, step);
      assert GetIncrement(rule, incr, v, min, step) == GetIncrement(rule, 1, v, min, step);
    } else {
      StepDownIsPreviousGridPoint(rule, v, min, step);
      assert GetIncrement(rule, incr, v, min, step) == GetIncrement(rule, -1, v, min, step);
    }
  }

  /**
   * An empty field whose bounds admit 0 is stepped from 0 (lines 248-253);
   * an empty field with a positive minimum and no negative maximum becomes
   * the minimum (lines 254-259).
   */
  lemma EmptyFieldStart(rule: Rule, min: Option<int>, max: Option<int>, step: int, incr: int)
    ensures (max.None? || max.value >= 0) && (min.None? || min.value <= 0) ==>
      StepOutcome(rule, None, min, max, step, incr) ==
        Some(if (min == Some(0) && incr < 0) || (max == Some(0) && incr > 0) then 0 else GetIncrement(rule, incr, 0, min, step))
    ensures (max.None? || max.value > 0 || (max.value == 0 && incr <= 0)) && min.Some? && min.value > 0 ==>
      StepOutcome(rule, None, min, max, step, incr) == Some(min.value)
  {
    StayIsIdentity(rule, 0, min, step);
    if min.Some? && min.value > 0 {
      StayIsIdentity(rule, min.value, min, step);
    }
  }

  /** Keys the field reacts to; anything else is passed on untouched (lines 409-419). */
  datatype Key = ArrowUp | ArrowDown | OtherKey

  class NumberFieldElement {
    var value: Option<int>
    var min: Option<int>
    var max: Option<int>
    var step: int
    var disabled: bool
    var readonly: bool
    /** How many `change` events `_setValue` has dispatched. */
    var changeEvents: nat

    constructor (min: Option<int>, max: Option<int>, step: int)
      ensures this.value.None? && this.min == min && this.max == max && this.step == step
      ensures !disabled && !readonly && changeEvents == 0
    {
      this.value := None;
      this.min := min;
      this.max := max;
      this.step := step;
      this.disabled := false;
      this.readonly := false;
      this.changeEvents := 0;
    }

    /**
     * `_incrementValue`: a disabled or read-only field is left alone; otherwise
     * the field takes the step outcome, and each write dispatches one `change`.
     */
    method IncrementValue(incr: int)
      modifies this`value, this`changeEvents
      ensures disabled || readonly ==> value == old(value) && changeEvents == old(changeEvents)
      ensures !disabled && !readonly ==>
        match StepOutcome(AsWritten, old(value), min, max, step, incr)
        case Some(n) => value == Some(n) && changeEvents == old(changeEvents) + 1
        case None => value == old(value) && changeEvents == old(changeEvents)
    {
      if disabled || readonly {
        return;
      }
      var incr := incr;
      var v: int;
      if value.None? {
        var st := EmptyStart(AsWritten, min, max, step, incr);
        v, incr := st.value, st.incr;
      } else if min.Some? && value.value < min.value {
        incr := 0;
        v := min.value;
      } else if max.Some? && value.value > max.value {
        incr := 0;
        v := max.value;
      } else {
        v := value.value;
      }
      StayIsIdentity(AsWritten, v, min, step);
      var newValue := GetIncrement(AsWritten, incr, v, min, step);
      if value.None? || incr == 0 || IncrementIsInsideTheLimits(AsWritten, incr, v, min, max, step) {
        SetValue(newValue);
      }
    }

    /** `_setValue`: writes the value and dispatches `change`. */
    method SetValue(n: int)
      modifies this`value, this`changeEvents
      ensures value == Some(n) && changeEvents == old(changeEvents) + 1
    {
      value := Some(n);
      changeEvents := changeEvents + 1;
    }

    /** ArrowUp increases, ArrowDown decreases, other keys leave the value alone. */
    method OnKeyDown(key: Key)
      modifies this`value, this`changeEvents
      ensures key == OtherKey ==> value == old(value) && changeEvents == old(changeEvents)
      ensures key == ArrowUp && !disabled && !readonly ==>
        match StepOutcome(AsWritten, old(value), min, max, step, 1)
        case Some(n) => value == Some(n) && changeEvents == old(changeEvents) + 1
        case None => value == old(value) && changeEvents == old(changeEvents)
      ensures key == ArrowDown && !disabled && !readonly ==>
        match StepOutcome(AsWritten, old(value), min, max, step, -1)
        case Some(n) => value == Some(n) && changeEvents == old(changeEvents) + 1
        case None => value == old(value) && changeEvents == old(changeEvents)
      ensures disabled || readonly ==> value == old(value) && changeEvents == old(changeEvents)
    {
      match key
      case ArrowUp => IncrementValue(1);
      case ArrowDown => IncrementValue(-1);
      case OtherKey =>
    }

    /**
     * The numeric guard of `_valueChanged`: a non-empty text that does not
     * parse as a number empties the field; otherwise the field holds the
     * number the text parses to.
     */
    method SetValueText(text: string)
      modifies this`value
      ensures text == "" || ParseNumber(text).None? ==> value.None?
      ensures text != "" && ParseNumber(text).Some? ==> value == ParseNumber(text)
    {
      if text == "" || ParseNumber(text).None? {
        value := None;
      } else {
        value := ParseNumber(text);
      }
    }
  }

  /**
   * Stepping keeps an in-range value in range: from a value within the
   * bounds, ArrowUp and ArrowDown never write a value outside them.
   */
  lemma StepKeepsInBounds(rule: Rule, v: int, min: Option<int>, max: Option<int>, step: int, incr: int)
    requires InBounds(v, min, max) && step >= 0
    requires rule.Corrected? || v >= GridBase(min)
    ensures var out := StepOutcome(rule, Some(v), min, max, step, incr);
      out.Some? ==> InBounds(out.value, min, max)
  {
    if incr != 0 {
      InRangeStepStaysInBounds(rule, v, min, max, step, incr);
    } else {
      StayIsIdentity(rule, v, min, step);
    }
  }

  /**
   * A non-empty value at or above the grid base is stepped the same way by
   * the code as written and by the corrected rule; with a minimum set this is
   * every value.
   */
  lemma StepOutcomeAgreesAboveBase(v: int, min: Option<int>, max: Option<int>, step: int, incr: int)
    requires min.Some? || v >= 0
    ensures StepOutcome(AsWritten, Some(v), min, max, step, incr) == StepOutcome(Corrected, Some(v), min, max, step, incr)
  {
    if InBounds(v, min, max) {
      AsWrittenAgreesAboveBase(incr, v, min, step);
    }
  }

  /**
   * As written, ArrowDown can write past the maximum: with no minimum,
   * maximum -4 and step 3, ArrowDown on -4 writes -3, while the corrected
   * rule writes -6.
   */
  lemma AsWrittenStepEscapesMax()
    ensures StepOutcome(AsWritten, Some(-4), None, Some(-4), 3, -1) == Some(-3)
    ensures !InBounds(-3, None, Some(-4))
    ensures StepOutcome(Corrected, Some(-4), None, Some(-4), 3, -1) == Some(-6)
    ensures InBounds(-6, None, Some(-4))
  {
  }
}
