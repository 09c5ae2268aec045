/** The value side of the range generator: the (start, stop, step) triple,
    the construction-time validation that turns bad arguments into one of two
    errors, the arithmetic progression a valid range denotes, and the three
    convenience factories that supply default arguments.

    Everything here is over mathematical integers; the signed integer
    instantiation of the generator is the one modelled. */
module Ranges {

  /** The two ways construction fails; each stands for one fixed message. */
  datatype RangeError =
    | StepIsZero      // "Range step argument must not be zero"
    | NoTermination   // "Range arguments must result in termination"

  datatype Result<T> = Ok(value: T) | Err(error: RangeError)

  /** -1, 0 or 1 according to the sign of x. */
  function Sign(x: int): int {
    if x < 0 then -1 else if x > 0 then 1 else 0
  }

  /** Both numbers are nonzero and point in opposite directions. */
  predicate OppositeSigns(a: int, b: int) {
    Sign(a) != 0 && Sign(a) == -Sign(b)
  }

  /** An immutable range: all three fields are fixed once constructed. */
  datatype Range = Range(start: int, stop: int, step: int) {

    /** The invariant every constructed range satisfies. */
    predicate Valid() {
      step != 0 && !OppositeSigns(stop - start, step)
    }

    /** The k-th term of the progression, start + k*step. */
    function Nth(k: int): int {
      start + k * step
    }

    /** v lies strictly before stop when moving in the direction of step. */
    predicate Precedes(v: int) {
      (step > 0 && v < stop) || (step < 0 && v > stop)
    }

    /** |stop - start| */
    function Distance(): nat {
      if stop >= start then stop - start else start - stop
    }

    /** |step| */
    function Magnitude(): nat {
      if step >= 0 then step else -step
    }

    /** ceil(|stop - start| / |step|): how many values the range yields. */
    function Count(): nat
      requires Valid()
    {
      (Distance() + Magnitude() - 1) / Magnitude()
    }

    /** The values iteration produces, as an explicit sequence. */
    function Values(): seq<int>
      requires Valid()
    {
      seq(Count(), k => Nth(k))
    }

    /** The count is exactly the number of leading terms of the progression
        that lie strictly before stop: term k precedes stop iff k < Count(). */
    lemma {:induction false} CountCharacterisation(k: nat)
      requires Valid()
      ensures k < Count() <==> Precedes(Nth(k))
    {
      var d, m := Distance(), Magnitude();
      CeilDivision(d, m, k);
      if step > 0 {
        assert k * m == k * step;
      } else {
        assert k * step == -(k * m);
      }
    }

    /** Every produced value lies in [start, stop) when step > 0, and in
        (stop, start] when step < 0; consecutive values differ by step. */
    lemma ValuesStrictlyBeforeStop()
      requires Valid()
      ensures forall i :: 0 <= i < |Values()| ==>
        (step > 0 ==> start <= Values()[i] < stop) &&
        (step < 0 ==> stop < Values()[i] <= start)
      ensures forall i :: 0 < i < |Values()| ==> Values()[i] == Values()[i - 1] + step
    {
      forall i | 0 <= i < |Values()|
        ensures (step > 0 ==> start <= Values()[i] < stop) &&
                (step < 0 ==> stop < Values()[i] <= start)
      {
        CountCharacterisation(i);
        NonNegativeProduct(i, Magnitude());
        if step < 0 {
          assert i * step == -(i * Magnitude());
        }
      }
      forall i | 0 < i < |Values()| ensures Values()[i] == Values()[i - 1] + step {
        assert Nth(i) == Nth(i - 1) + step;
      }
    }

    /** The first term that does not precede stop is the one right after the
        last produced value: the sequence is the longest such prefix. */
    lemma NextTermReachesStop()
      requires Valid()
      ensures !Precedes(Nth(|Values()|))
      ensures |Values()| > 0 ==> Precedes(Values()[|Values()| - 1])
    {
      CountCharacterisation(Count());
      if Count() > 0 {
        CountCharacterisation(Count() - 1);
      }
    }

    /** A range whose start equals its stop is valid for every nonzero step
        and yields nothing. */
    lemma EmptyWhenStartIsStop()
      requires start == stop && step != 0
      ensures Valid() && Values() == []
    {
      assert Distance() == 0;
      assert (Magnitude() - 1) / Magnitude() == 0;
    }

    /** The first k steps, from start to Nth(k), cover stop (reach or pass it). */
    predicate Covers(k: int) {
      (start <= stop <= Nth(k)) || (Nth(k) <= stop <= start)
    }

    /** For a nonzero step, the validation check accepts exactly the ranges
        whose progression eventually reaches or passes stop. */
    lemma ValidIffReachable()
      requires step != 0
      ensures Valid() <==> exists k: nat :: Covers(k)
    {
      if Valid() {
        CountCharacterisation(Count());
        assert Covers(Count());
      } else {
        forall k: nat ensures !Covers(k) {
          NonNegativeProduct(k, Magnitude());
          if step > 0 {
            assert stop < start;
            assert k * step == k * Magnitude();
          } else {
            assert stop > start;
            assert k * step == -(k * Magnitude());
          }
        }
      }
    }
  }

  /** Construction: a zero step is reported first, whatever start and stop are;
      otherwise the exact difference stop - start must not point away from
      step; a range that passes keeps its arguments unchanged. */
  function MakeRange(start: int, stop: int, step: int): (r: Result<Range>)
    ensures step == 0 ==> r == Err(StepIsZero)
    ensures r == Err(NoTermination) <==> step != 0 && OppositeSigns(stop - start, step)
    ensures r.Ok? <==> Range(start, stop, step).Valid()
    ensures r.Ok? ==> r.value == Range(start, stop, step)
  {
    if step == 0 then
      Err(StepIsZero)
    else
      var difference := stop - start;
      if (difference < 0 && step > 0) || (difference > 0 && step < 0) then
        Err(NoTermination)
      else
        Ok(Range(start, stop, step))
  }

  /** range(stop): counts 0, 1, ..., stop - 1; a negative stop cannot be reached. */
  function RangeTo(stop: int): (r: Result<Range>)
    ensures r.Ok? <==> stop >= 0
    ensures r.Err? ==> r.error == NoTermination
    ensures r.Ok? ==> r.value.Valid() && r.value.Values() == seq(stop, k => k)
  {
    MakeRange(0, stop, 1)
  }

  /** range(start, stop): counts start, start + 1, ..., stop - 1. */
  function RangeBetween(start: int, stop: int): (r: Result<Range>)
    ensures r.Ok? <==> start <= stop
    ensures r.Err? ==> r.error == NoTermination
    ensures r.Ok? ==> r.value.Valid() && r.value.Values() == seq(stop - start, k => start + k)
  {
    MakeRange(start, stop, 1)
  }

  /** range(start, stop, step): the general form, which passes its arguments
      to construction unchanged and so fails or succeeds exactly as it does. */
  function RangeBy(start: int, stop: int, step: int): (r: Result<Range>)
    ensures r.Ok? <==> Range(start, stop, step).Valid()
    ensures r.Ok? ==> r.value == Range(start, stop, step)
    ensures r.Err? ==> r.error == if step == 0 then StepIsZero else NoTermination
  {
    MakeRange(start, stop, step)
  }

  /** The one- and two-argument forms are the three-argument form with the
      defaults start = 0 and step = 1, so they yield identical sequences and
      fail identically. */
  lemma DefaultArguments(start: int, stop: int)
    ensures RangeTo(stop) == RangeBy(0, stop, 1)
    ensures RangeBetween(start, stop) == RangeBy(start, stop, 1)
    ensures RangeTo(stop) == RangeBetween(0, stop)
  {
  }

  /** ceil(d / m), written (d + m - 1) / m, is the least n with n * m >= d. */
  lemma {:induction false} CeilDivision(d: nat, m: int, k: nat)
    requires m > 0
    ensures k * m < d <==> k < (d + m - 1) / m
  {
    var c := (d + m - 1) / m;
    assert c * m <= d + m - 1 < c * m + m;
    if k < c {
      ProductMonotone(k, c - 1, m);
      assert (c - 1) * m == c * m - m;
    } else {
      ProductMonotone(c, k, m);
    }
  }

  lemma ProductMonotone(a: int, b: int, m: int)
    requires a <= b && m >= 0
    ensures a * m <= b * m
  {
    NonNegativeProduct(b - a, m);
    assert b * m - a * m == (b - a) * m;
  }

  lemma NonNegativeProduct(a: int, b: int)
    requires a >= 0 && b >= 0
    ensures a * b >= 0
  {
  }
}
