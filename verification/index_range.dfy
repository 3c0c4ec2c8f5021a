/** `ArrayIndexRange`: an inclusive range of array indices, a single index,
    or the whole array.

    The Java class has a private constructor and three factories, so every
    range a program can hold is one of the three shapes below. Its bounds
    are boxed `Integer`s and may be null; `length()` unboxes them. */
module IndexRanges {
  import opened Results
  import opened Numbers

  datatype IndexRange = IndexRange(start: Option<Int32>, end: Option<Int32>, all: bool) {

    predicate IsAll() {
      all
    }

    /** `length()`: `end - start + 1` in 32-bit arithmetic; a null bound
        throws when it is unboxed. */
    function Length(): (r: Result<Int32>)
      ensures r.Err? <==> start.None? || end.None?
      ensures r.Err? ==> r.error == NullPointer
      ensures r.Ok? && -0x8000_0000 <= end.value - start.value + 1 < 0x8000_0000 ==>
        r.value == end.value - start.value + 1
    {
      if start.None? || end.None? then Err(NullPointer)
      else Ok(Wrap32(end.value - start.value + 1))
    }
  }

  /** `ALL`. */
  const All: IndexRange := IndexRange(None, None, true)

  /** `value(i)`: a single index, recorded as a start without an end. */
  function Value(index: Int32): (r: IndexRange)
    ensures !r.IsAll() && r.start == Some(index) && r.end.None?
  {
    IndexRange(Some(index), None, false)
  }

  /** `range(s, e)`: the bounds as given, inclusive at both ends. */
  function Range(start: Option<Int32>, end: Option<Int32>): (r: IndexRange)
    ensures !r.IsAll() && r.start == start && r.end == end
  {
    IndexRange(start, end, false)
  }

  /** The ranges the three factories can build. */
  ghost predicate Constructible(r: IndexRange) {
    r == All || (exists i :: r == Value(i)) || (exists s, e :: r == Range(s, e))
  }

  /** `ALL` is the only constructible range that is all, and it has neither
      bound; every other constructible range is not all. */
  lemma OnlyAllIsAll(r: IndexRange)
    requires Constructible(r)
    ensures r.IsAll() <==> r == All
    ensures r.IsAll() ==> r.start.None? && r.end.None?
  {
  }

  /** The length of a range with both bounds counts its indices. */
  lemma RangeLength(s: Int32, e: Int32)
    requires s <= e + 1 && e - s + 1 < 0x8000_0000
    ensures Range(Some(s), Some(e)).Length() == Ok(e - s + 1)
  {
  }

  /** A single-index range has no length: asking for one throws. */
  lemma ValueHasNoLength(i: Int32)
    ensures Value(i).Length() == Err(NullPointer)
  {
  }
}
