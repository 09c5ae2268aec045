/** The 64-bit instantiation as the header writes it, where `stop_ - start_`
    and `value_ += step_` are computed in the element type itself. Signed
    overflow is undefined in C++; this module gives it the two's-complement
    wrap-around modulo 2^64 that common compilers produce. The rest of the
    model computes both exactly; this module shows the two inputs on which
    the wrapped arithmetic and the exact arithmetic part ways. */
module Int64Overflow {
  import opened Ranges

  const Int64Min: int := -0x8000_0000_0000_0000
  const Int64Max: int := 0x7FFF_FFFF_FFFF_FFFF
  const TwoTo64: int := 0x1_0000_0000_0000_0000

  predicate InInt64(x: int) {
    Int64Min <= x <= Int64Max
  }

  /** Two's-complement wrap-around of an exact result into 64 bits. */
  function Wrap64(x: int): (w: int)
    ensures InInt64(w)
    ensures (x - w) % TwoTo64 == 0
    ensures InInt64(x) ==> w == x
  {
    (x - Int64Min) % TwoTo64 + Int64Min
  }

  /** Construction with the difference stop - start taken in 64 bits. */
  function MakeRangeWrapped64(start: int, stop: int, step: int): (r: Result<Range>)
    requires InInt64(start) && InInt64(stop) && InInt64(step)
    ensures step == 0 ==> r == Err(StepIsZero)
    ensures r == Err(NoTermination) <==> step != 0 && OppositeSigns(Wrap64(stop - start), step)
    ensures r.Ok? <==> step != 0 && !OppositeSigns(Wrap64(stop - start), step)
    ensures r.Ok? ==> r.value == Range(start, stop, step)
  {
    if step == 0 then
      Err(StepIsZero)
    else
      var difference := Wrap64(stop - start);
      if (difference < 0 && step > 0) || (difference > 0 && step < 0) then
        Err(NoTermination)
      else
        Ok(Range(start, stop, step))
  }

  /** Whenever stop - start does not overflow, the 64-bit check decides
      exactly as the exact one. */
  lemma WrappedAgreesWithoutOverflow(start: int, stop: int, step: int)
    requires InInt64(start) && InInt64(stop) && InInt64(step)
    requires InInt64(stop - start)
    ensures MakeRangeWrapped64(start, stop, step) == MakeRange(start, stop, step)
  {
  }

  /** range(int64 1, INT64_MIN, 1): the exact difference is negative with a
      positive step, so construction must fail; the wrapped difference is
      INT64_MAX and the 64-bit check lets the range through. */
  lemma WrappedDifferenceAcceptsWrongDirection()
    ensures MakeRange(1, Int64Min, 1) == Err(NoTermination)
    ensures MakeRangeWrapped64(1, Int64Min, 1) == Ok(Range(1, Int64Min, 1))
  {
    assert Wrap64(Int64Min - 1) == Int64Max;
  }

  /** operator++ on a 64-bit value. */
  function Advance64(value: int, step: int): (v: int)
    requires InInt64(value) && InInt64(step)
    ensures InInt64(v)
    ensures InInt64(value + step) ==> v == value + step
  {
    Wrap64(value + step)
  }

  /** Every value a valid 64-bit range yields is itself a 64-bit value: the
      only term that can leave the type is the one after the last value. */
  lemma ValuesFitInInt64(r: Range)
    requires r.Valid() && InInt64(r.start) && InInt64(r.stop)
    ensures forall i :: 0 <= i < |r.Values()| ==> InInt64(r.Values()[i])
  {
    r.ValuesStrictlyBeforeStop();
  }

  /** range(INT64_MAX - 1, INT64_MAX, 2) yields the single value
      INT64_MAX - 1. The 64-bit step after it wraps to INT64_MIN, which is
      still before stop, so the loop does not stop there and reads a value
      far below start. */
  lemma WrappedStepOvershootsStop()
    ensures MakeRangeWrapped64(Int64Max - 1, Int64Max, 2).Ok?
    ensures Range(Int64Max - 1, Int64Max, 2).Values() == [Int64Max - 1]
    ensures Advance64(Int64Max - 1, 2) == Int64Min
    ensures Range(Int64Max - 1, Int64Max, 2).Precedes(Int64Min)
  {
    var r := Range(Int64Max - 1, Int64Max, 2);
    assert r.Count() == 1;
    assert Wrap64(Int64Max + 1) == Int64Min;
  }

  /** Every even 64-bit value precedes INT64_MAX (which is odd), and the
      wrapped step by 2 keeps a value even. Starting from the even value
      INT64_MAX - 1, the 64-bit loop over range(INT64_MAX - 1, INT64_MAX, 2)
      therefore finds `operator!=` true after every step: it never ends. */
  lemma WrappedLoopNeverEnds(v: int)
    requires InInt64(v) && v % 2 == 0
    ensures Range(Int64Max - 1, Int64Max, 2).Precedes(v)
    ensures Advance64(v, 2) % 2 == 0
  {
    if v + 2 > Int64Max {
      assert v == Int64Max - 1;
      assert Wrap64(v + 2) == Int64Min;
    }
  }
}
