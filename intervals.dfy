/**
 * The `Interval` of src/interval.rs: a pair of doubles bounding a range of
 * ray parameters or colour intensities. Bounds may be infinite, as in the
 * `EMPTY` and `UNIVERSE` constants, so they are extended reals.
 */
module Intervals {
  import opened Wrappers

  /** A double that is not NaN: a real number or one of the two infinities. */
  datatype Extended = NegInf | Finite(value: real) | PosInf {

    /** `this <= other`, as doubles compare. */
    predicate Le(other: Extended) {
      match (this, other)
      case (NegInf, _) => true
      case (_, PosInf) => true
      case (Finite(a), Finite(b)) => a <= b
      case _ => false
    }

    /** `this < other`, as doubles compare. */
    predicate Lt(other: Extended) {
      Le(other) && this != other
    }
  }

  /**
   * `a - b` on doubles. `None` stands for the NaN that IEEE subtraction
   * yields for two infinities of the same sign.
   */
  function Minus(a: Extended, b: Extended): (d: Option<Extended>)
    ensures a.Finite? && b.Finite? ==> d == Some(Finite(a.value - b.value))
    ensures d.None? <==> (a == b && !a.Finite?)
    ensures d.Some? ==> (Finite(0.0).Le(d.value) <==> b.Le(a))
  {
    match (a, b)
    case (Finite(x), Finite(y)) => Some(Finite(x - y))
    case (PosInf, PosInf) => None
    case (NegInf, NegInf) => None
    case (PosInf, _) => Some(PosInf)
    case (NegInf, _) => Some(NegInf)
    case (Finite(_), PosInf) => Some(NegInf)
    case (Finite(_), NegInf) => Some(PosInf)
  }

  datatype Interval = Interval(min: Extended, max: Extended) {

    /** `max - min`; non-negative exactly when the interval is not empty. */
    function Size(): (s: Option<Extended>)
      ensures min.Finite? && max.Finite? ==> s == Some(Finite(max.value - min.value))
      ensures s.Some? ==> (Finite(0.0).Le(s.value) <==> min.Le(max))
    {
      Minus(max, min)
    }

    /** Inclusive membership: `min <= x <= max`. */
    predicate Contains(x: real) {
      min.Le(Finite(x)) && Finite(x).Le(max)
    }

    /** Exclusive membership: `min < x < max`. */
    predicate Surrounds(x: real) {
      min.Lt(Finite(x)) && Finite(x).Lt(max)
    }

    /** The nearest of `min`, `x`, `max` as the source's if/else chain picks it. */
    function Clamp(x: real): (c: Extended)
      ensures c == min || c == max || c == Finite(x)
      ensures min.Finite? && max.Finite? ==> c.Finite?
    {
      if Finite(x).Lt(min) then min
      else if max.Lt(Finite(x)) then max
      else Finite(x)
    }
  }

  function New(min: Extended, max: Extended): (i: Interval)
    ensures i.min == min && i.max == max
  {
    Interval(min, max)
  }

  /** `Interval::new_empty`: the bounds are swapped infinities. */
  function NewEmpty(): (i: Interval)
    ensures i == Empty
  {
    Interval(PosInf, NegInf)
  }

  const Empty: Interval := Interval(PosInf, NegInf)
  const Universe: Interval := Interval(NegInf, PosInf)

  lemma ContainsFinite(i: Interval, x: real)
    requires i.min.Finite? && i.max.Finite?
    ensures i.Contains(x) <==> i.min.value <= x <= i.max.value
  {
  }

  lemma SurroundsFinite(i: Interval, x: real)
    requires i.min.Finite? && i.max.Finite?
    ensures i.Surrounds(x) <==> i.min.value < x < i.max.value
  {
  }

  /** Both finite endpoints of a non-empty interval are contained, neither is surrounded. */
  lemma EndpointsContainedNotSurrounded(i: Interval)
    requires i.min.Finite? && i.max.Finite? && i.min.Le(i.max)
    ensures i.Contains(i.min.value) && i.Contains(i.max.value)
    ensures !i.Surrounds(i.min.value) && !i.Surrounds(i.max.value)
  {
  }

  lemma SurroundsImpliesContains(i: Interval, x: real)
    requires i.Surrounds(x)
    ensures i.Contains(x)
  {
  }

  lemma EmptyContainsNothing(x: real)
    ensures !Empty.Contains(x) && !Empty.Surrounds(x)
    ensures Empty.Size() == Some(NegInf)
  {
  }

  lemma UniverseContainsEverything(x: real)
    ensures Universe.Contains(x) && Universe.Surrounds(x)
    ensures Universe.Size() == Some(PosInf)
  {
  }

  lemma ClampWithin(i: Interval, x: real)
    requires i.min.Le(i.max)
    ensures i.min.Le(i.Clamp(x)) && i.Clamp(x).Le(i.max)
  {
  }

  lemma ClampFixesContained(i: Interval, x: real)
    requires i.Contains(x)
    ensures i.Clamp(x) == Finite(x)
  {
  }

  /** Idempotence needs a non-empty interval: on [2, 1], 0 clamps to 2 and 2 to 1. */
  lemma ClampIdempotent(i: Interval, x: real)
    requires i.min.Le(i.max) && i.Clamp(x).Finite?
    ensures i.Clamp(i.Clamp(x).value) == i.Clamp(x)
  {
  }

  lemma ClampNotIdempotentWhenEmpty()
    ensures Interval(Finite(2.0), Finite(1.0)).Clamp(0.0) == Finite(2.0)
    ensures Interval(Finite(2.0), Finite(1.0)).Clamp(2.0) == Finite(1.0)
  {
  }

  lemma ClampMonotone(i: Interval, x: real, y: real)
    requires i.min.Le(i.max) && x <= y
    ensures i.Clamp(x).Le(i.Clamp(y))
  {
  }
}
