/** The traversal side of the range generator: a forward iterator holding a
    mutable current value and a constant step, the begin/end pair a range
    hands out, and the loop that drives begin up to end. */
module RangeIteration {
  import opened Ranges

  /** A cursor over a range. It keeps its own copy of the step and does not
      refer back to the range it came from. */
  class Iterator {
    var value: int
    const step: int

    constructor (value: int, step: int)
      ensures this.value == value && this.step == step
    {
      this.value := value;
      this.step := step;
    }

    /** operator++: advance by exactly one step and hand back a copy of the
        advanced iterator. */
    method Advance() returns (copy: Iterator)
      modifies this
      ensures value == old(value) + step
      ensures fresh(copy) && copy.value == value && copy.step == step
    {
      value := value + step;
      copy := new Iterator(value, step);
    }

    /** operator*: the value the iterator stands at. */
    function Current(): (v: int)
      reads this
      ensures v == value
    {
      value
    }

    /** operator==: this iterator has reached or passed rhs in the direction
        of its own step, i.e. its value no longer precedes the end of the
        range that runs from here to rhs. A zero step compares as a
        descending one. */
    function Equal(rhs: Iterator): (eq: bool)
      reads this, rhs
      ensures step != 0 ==> (eq <==> !Range(value, rhs.value, step).Precedes(value))
      ensures step == 0 ==> (eq <==> value <= rhs.value)
    {
      if step > 0 then value >= rhs.value else value <= rhs.value
    }

    /** operator!=: this iterator is still strictly before rhs; always the
        logical complement of operator==. */
    function NotEqual(rhs: Iterator): (ne: bool)
      reads this, rhs
      ensures ne <==> !Equal(rhs)
    {
      if step > 0 then value < rhs.value else value > rhs.value
    }
  }

  /** begin(): a fresh iterator at start; the range itself is a value and is
      left as it is. */
  method Begin(r: Range) returns (it: Iterator)
    ensures fresh(it) && it.value == r.start && it.step == r.step
  {
    it := new Iterator(r.start, r.step);
  }

  /** end(): a fresh iterator at stop. */
  method End(r: Range) returns (it: Iterator)
    ensures fresh(it) && it.value == r.stop && it.step == r.step
  {
    it := new Iterator(r.stop, r.step);
  }

  /** The range-based for loop: start at begin(), and while the cursor is
      not equal to end(), read it and advance it. For every validly
      constructed range the loop terminates, and it yields exactly the
      values start + k*step that lie strictly before stop. */
  method Collect(r: Range) returns (xs: seq<int>)
    requires r.Valid()
    ensures xs == r.Values()
  {
    var it := Begin(r);
    var last := End(r);
    xs := [];
    ghost var k: nat := 0;
    while it.NotEqual(last)
      invariant last.value == r.stop && last.step == r.step && it.step == r.step
      invariant k <= r.Count()
      invariant it.value == r.Nth(k)
      invariant xs == r.Values()[..k]
      decreases r.Count() - k
    {
      r.CountCharacterisation(k);
      xs := xs + [it.Current()];
      var _ := it.Advance();
      assert r.Nth(k) + r.step == r.Nth(k + 1);
      k := k + 1;
    }
    r.CountCharacterisation(k);
  }

  /** A range can be traversed any number of times: each traversal starts
      from a fresh iterator, and two traversals yield the same values. */
  method TraverseTwice(r: Range) returns (first: seq<int>, second: seq<int>)
    requires r.Valid()
    ensures first == second
    ensures |first| == r.Count()
  {
    first := Collect(r);
    second := Collect(r);
  }
}
