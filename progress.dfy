/** app/progress.py: two process-wide progress counters, each kept between
    0 and 100. Every operation stores the new value of one counter and
    emits it to the window; the emitted value is the method's result.
    Increments and values may be Python floats; they are modelled as exact
    reals, and `int(x)` as truncation toward zero. */
module Progress {

  const Low := 0
  const High := 100

  /** Python's `int(x)` on a number: truncation toward zero. */
  function Trunc(x: real): (r: int)
    ensures x >= 0.0 ==> r as real <= x < r as real + 1.0
    ensures x < 0.0 ==> r as real - 1.0 < x <= r as real
  {
    if x >= 0.0 then x.Floor else -((-x).Floor)
  }

  function Min(a: int, b: int): int {
    if a <= b then a else b
  }

  function Max(a: int, b: int): int {
    if a >= b then a else b
  }

  /** `min(100, max(0, v))`. */
  function Clamp(v: int): int {
    Min(High, Max(Low, v))
  }

  /** The counter after `update_progress(increment)` from `current`. */
  function Updated(current: int, increment: real): int {
    Clamp(current + Trunc(increment))
  }

  function MinReal(a: real, b: real): real {
    if a <= b then a else b
  }

  function MaxReal(a: real, b: real): real {
    if a >= b then a else b
  }

  /** The counter after `set_progress(value)`: `int(max(0, min(100, value)))`. */
  function SetTo(value: real): int {
    Trunc(MaxReal(0.0, MinReal(100.0, value)))
  }

  /** The two counters and what the window was last sent. */
  class Counters {
    var value1: int
    var value2: int

    /** Both counters lie between 0 and 100. */
    ghost predicate Valid()
      reads this
    {
      Low <= value1 <= High && Low <= value2 <= High
    }

    /** Both counters start at 0. */
    constructor ()
      ensures value1 == 0 && value2 == 0
      ensures Valid()
    {
      value1 := 0;
      value2 := 0;
    }

    /** `update_progress(increment)`. */
    method UpdateProgress(increment: real) returns (emitted: int)
      requires Valid()
      modifies this
      ensures value1 == Updated(old(value1), increment)
      ensures value2 == old(value2)
      ensures emitted == value1
      ensures Valid()
    {
      value1 := Min(High, Max(Low, value1 + Trunc(increment)));
      UpdatedInRange(old(value1), increment);
      emitted := value1;
    }

    /** `update_progress_2(increment)`. */
    method UpdateProgress2(increment: real) returns (emitted: int)
      requires Valid()
      modifies this
      ensures value2 == Updated(old(value2), increment)
      ensures value1 == old(value1)
      ensures emitted == value2
      ensures Valid()
    {
      value2 := Min(High, Max(Low, value2 + Trunc(increment)));
      UpdatedInRange(old(value2), increment);
      emitted := value2;
    }

    /** `set_progress(value)`. */
    method SetProgress(value: real) returns (emitted: int)
      requires Valid()
      modifies this
      ensures value1 == SetTo(value)
      ensures value2 == old(value2)
      ensures emitted == value1
      ensures Valid()
    {
      value1 := Trunc(MaxReal(0.0, MinReal(100.0, value)));
      SetToInRange(value);
      emitted := value1;
    }

    /** `set_progress_2(value)`. */
    method SetProgress2(value: real) returns (emitted: int)
      requires Valid()
      modifies this
      ensures value2 == SetTo(value)
      ensures value1 == old(value1)
      ensures emitted == value2
      ensures Valid()
    {
      value2 := Trunc(MaxReal(0.0, MinReal(100.0, value)));
      SetToInRange(value);
      emitted := value2;
    }
  }

  // ---------------------------------------------------------------------------
  // What the operations promise

  /** Whatever the counter held and whatever the increment, the new value
      is between 0 and 100; it is the sum itself when that is in range,
      and the nearer bound otherwise. */
  lemma UpdatedInRange(current: int, increment: real)
    ensures Low <= Updated(current, increment) <= High
    ensures var sum := current + Trunc(increment);
      && (Low <= sum <= High ==> Updated(current, increment) == sum)
      && (sum < Low ==> Updated(current, increment) == Low)
      && (sum > High ==> Updated(current, increment) == High)
  {
  }

  /** A counter in range never goes down on a non-negative increment, goes
      up by the whole part of it until it reaches 100, and stays at 100
      from then on. */
  lemma UpdateMonotone(current: int, increment: real)
    requires Low <= current <= High && increment >= 0.0
    ensures current <= Updated(current, increment)
    ensures Updated(current, increment) == Min(High, current + increment.Floor)
    ensures current == High ==> Updated(current, increment) == High
  {
  }

  /** An integer increment is added as it is; a fractional one loses its
      fraction toward zero. */
  lemma IntegerIncrement(current: int, k: int)
    ensures Updated(current, k as real) == Clamp(current + k)
  {
    assert Trunc(k as real) == k;
  }

  /** Setting gives a value between 0 and 100 that does not depend on the
      counter before: the value itself, truncated, when it is in range. */
  lemma SetToInRange(value: real)
    ensures Low <= SetTo(value) <= High
    ensures 0.0 <= value <= 100.0 ==> SetTo(value) == value.Floor
    ensures value < 0.0 ==> SetTo(value) == 0
    ensures value > 100.0 ==> SetTo(value) == 100
  {
  }

  /** Setting a counter to the value it was just set to changes nothing, so
      `set_progress(v)` twice is `set_progress(v)` once. */
  lemma SetToIdempotent(value: real)
    ensures SetTo(SetTo(value) as real) == SetTo(value)
  {
    SetToInRange(value);
    var v := SetTo(value);
    assert (v as real).Floor == v;
  }
}
