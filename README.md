# cpp_range: a verified model of `range(start, stop, step)`

The library is one generic header, `include/range.h`. It provides a lazily
evaluated arithmetic progression in the style of Python's `range`.
`detail::Range<T>` validates a `(start, stop, step)` triple when it is
constructed. It throws `std::invalid_argument` with one of two messages:

- "Range step argument must not be zero";
- "Range arguments must result in termination".

Once built, a range hands out a forward `iterator` from `begin()` (at
`start`) and `end()` (at `stop`). `operator++` adds `step` to the iterator's
mutable value. The loop ends through the direction-aware `operator!=`, so a
step that does not divide `stop - start` still stops. Three `range(...)`
overloads supply the defaults `start = 0` and `step = 1`.

The model has three modules:

- `Ranges` (`range.dfy`) is the value side. It holds the error datatype, the
  immutable `Range` datatype, the construction check `MakeRange`, the
  sequence a valid range denotes (`Values`, `Count`), and the three
  factories.
- `RangeIteration` (`iteration.dfy`) is the imperative side. `Iterator` is a
  class with a mutable `value` and a constant `step`. `Begin`/`End` build
  fresh iterators. `Collect` is the range-based `for` loop, proved to yield
  exactly `Values()`.
- `Int64Overflow` (`int64_overflow.dfy`) models the 64-bit instantiation as
  written. Signed overflow is undefined in C++; the module gives it the
  two's-complement wrap-around that common compilers produce. It exhibits
  the two inputs listed under Findings.

All arithmetic in `Ranges` and `RangeIteration` is over unbounded integers.
The difference `stop - start` is therefore exact, and so is every step.

## Model

| member | source | states |
|---|---|---|
| `Ranges.MakeRange` | include/range.h:13-22 | A zero step gives `StepIsZero` whatever start and stop are. Otherwise `NoTermination` is returned exactly when the exact `stop - start` and `step` have strictly opposite signs. Success happens exactly when the range is `Valid()`, and the three arguments are then stored unchanged. |
| `Ranges.Range.ValidIffReachable` | include/range.h:17-19 | For a nonzero step, the construction check accepts exactly the triples for which some term `start + k*step` (k ≥ 0) reaches or passes `stop`; a wrong-direction step can never cover `stop`. |
| `Ranges.Range.CountCharacterisation` | include/range.h:37-38 | `Count() = ceil(|stop-start| / |step|)` is the number of leading terms strictly before `stop`: term k lies strictly before `stop` in the direction of travel iff `k < Count()`. |
| `Ranges.Range.ValuesStrictlyBeforeStop` | include/range.h:32-38 | Every produced value lies in `[start, stop)` for a positive step and in `(stop, start]` for a negative one, and consecutive values differ by exactly `step`. |
| `Ranges.Range.NextTermReachesStop` | include/range.h:35-38 | The sequence is the longest prefix of the progression before `stop`: its last value is still before `stop` and the next term is not. |
| `Ranges.Range.EmptyWhenStartIsStop` | include/range.h:18 | When `start == stop`, every nonzero step gives a valid range with no values. |
| `Ranges.RangeTo` | include/range.h:61-64 | `range(stop)` succeeds iff `stop >= 0` and then yields `0, 1, …, stop-1`; otherwise it fails with `NoTermination`. |
| `Ranges.RangeBetween` | include/range.h:66-69 | `range(start, stop)` succeeds iff `start <= stop` and then yields `start, start+1, …, stop-1`; otherwise it fails with `NoTermination`. |
| `Ranges.RangeBy` | include/range.h:71-74 | `range(start, stop, step)` succeeds exactly for valid triples and stores them unchanged. Otherwise it fails with `StepIsZero` for a zero step and with `NoTermination` for any other rejection. |
| `Ranges.DefaultArguments` | include/range.h:61-74 | The one- and two-argument forms equal the three-argument form with `start = 0` and `step = 1`, so they succeed, fail and iterate identically. |
| `RangeIteration.Iterator.constructor` | include/range.h:31 | A new iterator holds the given value and step. |
| `RangeIteration.Iterator.Advance` | include/range.h:32 | `operator++` increases the value by exactly `step`, leaves `step` as it was, and returns a copy of the advanced iterator. |
| `RangeIteration.Iterator.Current` | include/range.h:33 | `operator*` returns the value the iterator currently stands at. |
| `RangeIteration.Iterator.Equal` | include/range.h:35-36 | For a nonzero step, `operator==` holds exactly when this iterator's value no longer lies strictly before `rhs`'s value in the direction of its own step. A zero step compares as `value <= rhs.value`. |
| `RangeIteration.Iterator.NotEqual` | include/range.h:35-38 | `operator!=` is the logical complement of `operator==` for any two iterators, so exactly one of them holds. |
| `RangeIteration.Begin` | include/range.h:45-47 | `begin()` returns a fresh iterator at `start` with the range's step. |
| `RangeIteration.End` | include/range.h:49-51 | `end()` returns a fresh iterator at `stop` with the range's step. |
| `RangeIteration.Collect` | include/range.h:32-51 | Driving `begin()` up to `end()` with `operator!=`, `operator*` and `operator++` terminates for every valid range. It yields exactly `Values()`, the terms `start + k*step` for `k < Count()`. |
| `RangeIteration.TraverseTwice` | include/range.h:45-56 | Iterating the same range twice yields the same sequence, `Count()` values long. The range is an immutable value that iteration never changes. |
| `Int64Overflow.Wrap64` | include/range.h:17 | Reducing to 64 bits gives a value in the int64 range, congruent to the exact one modulo 2^64, and equal to it when it already fits. |
| `Int64Overflow.MakeRangeWrapped64` | include/range.h:13-22 | This is construction with `stop_ - start_` computed in 64 bits. A zero step still fails first. `NoTermination` is returned exactly when the wrapped difference and `step` have strictly opposite signs, success happens exactly when the step is nonzero and they do not, and a success stores the arguments unchanged. |
| `Int64Overflow.WrappedAgreesWithoutOverflow` | include/range.h:17 | When `stop - start` fits in 64 bits, the 64-bit check and the exact check decide alike. |
| `Int64Overflow.WrappedDifferenceAcceptsWrongDirection` | include/range.h:17-19 | On `range(1, INT64_MIN, 1)` the exact check fails with `NoTermination`, but the 64-bit check accepts the range. |
| `Int64Overflow.Advance64` | include/range.h:32 | `operator++` on a 64-bit value stays in range and equals the exact sum when that sum fits. |
| `Int64Overflow.ValuesFitInInt64` | include/range.h:32-38 | Every value that a valid range with 64-bit bounds yields is itself a 64-bit value. |
| `Int64Overflow.WrappedStepOvershootsStop` | include/range.h:32-38 | `range(INT64_MAX-1, INT64_MAX, 2)` should yield only `INT64_MAX-1`. The 64-bit step after that value wraps to `INT64_MIN`, which is still before `stop`. |
| `Int64Overflow.WrappedLoopNeverEnds` | include/range.h:32-38 | Every even 64-bit value lies before `INT64_MAX`, and the wrapped step by 2 keeps a value even. So the 64-bit loop over `range(INT64_MAX-1, INT64_MAX, 2)`, which starts at an even value, never ends. |

## Left out

- The floating-point instantiations (`float`, `double`) are not modelled.
  Their output depends on IEEE rounding during repeated addition. Only the
  signed integer instantiation is modelled.
- The C++ iterator-trait typedefs (`iterator_category`, `value_type`,
  `reference`, `pointer`) and `operator->` are type plumbing with no
  behaviour of their own.
- Unsigned instantiations as wide as `unsigned int` or wider (`unsigned`,
  `size_t`, `uint64_t`) are not modelled. There `stop_ - start_` and
  `step_` can never be negative, so the direction check never rejects. A
  start above stop then gives an empty range instead of an error, and an
  unsigned step that wraps past `stop` can make the loop run forever (for
  example `range(0u, UINT_MAX, 2u)`).
- `operator*` is modelled as `Iterator.Current()`, which reads the value.
  The reference it returns is not modelled, and neither is writing through
  it.
- Dereferencing an exhausted iterator is left undefined by the iterator
  concept. `Current()` returns the value on any iterator, as the header's
  `operator*` does, and `Collect` reads it only while `operator!=` holds
  against `end()`.
- The exception messages are represented by the two constructors of
  `RangeError`, not by their strings.
- `Ranges` and `RangeIteration` use exact integers. Fixed-width overflow
  appears only in `Int64Overflow`, for 64-bit values. Other integer widths
  are not modelled.

## Findings

| source | as written | input that shows it | evidently intended | confidence | as-written member | corrected member |
|---|---|---|---|---|---|---|
| include/range.h:17-18 | `stop_ - start_` is computed in `T`, so for `int64_t` it wraps and can flip the sign of the difference | `range(int64_t{1}, INT64_MIN, int64_t{1})`: the difference wraps to `INT64_MAX`, so the range is accepted | reject with "Range arguments must result in termination", as the library's own wrap-around test expects | not executed; signed overflow is undefined in C++, and wrap-around is what common compilers produce | `Int64Overflow.WrappedDifferenceAcceptsWrongDirection` | `Ranges.MakeRange` |
| include/range.h:32, 37-38 | `value_ += step_` is computed in `T`, so the step after the last value can wrap past the end of the type | `range(INT64_MAX - 1, INT64_MAX, 2)`: after `INT64_MAX - 1` the value wraps to `INT64_MIN`, which still compares below `stop`; every later value stays even and below `INT64_MAX`, so the loop never ends | yield `INT64_MAX - 1` and stop | not executed; signed overflow is undefined in C++, and wrap-around is what common compilers produce | `Int64Overflow.WrappedLoopNeverEnds` | `RangeIteration.Collect` |
