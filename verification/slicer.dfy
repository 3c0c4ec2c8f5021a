/** `UnnaturalArraySlicer`: the sub-array a Natural array reference with an
    index range denotes.

    Arrays are sequences here; an `int[]` pads with `0` and an object array
    with `null`, so both overloads become one generic function taking the
    padding value. */
module Slicer {
  import opened Results
  import opened Numbers
  import opened IndexRanges

  function Pad<T>(n: nat, pad: T): (r: seq<T>)
    ensures |r| == n && forall k :: 0 <= k < n ==> r[k] == pad
  {
    seq(n, _ => pad)
  }

  /** `Arrays.copyOfRange(original, from, to)`: `to - from` elements (in
      32-bit arithmetic) starting at `from`, padded past the end of the
      original. A negative length, a negative `from` or a `from` past the
      end throws. */
  function CopyOfRange<T>(original: seq<T>, from: Int32, to: Int32, pad: T): (r: Result<seq<T>>)
    ensures r.Ok? <==> 0 <= Wrap32(to - from) && 0 <= from <= |original|
    ensures Wrap32(to - from) < 0 ==> r == Err(IllegalArgument)
    ensures r.Ok? ==> |r.value| == Wrap32(to - from)
    ensures r.Ok? ==> forall k :: 0 <= k < |r.value| ==>
      r.value[k] == if from + k < |original| then original[from + k] else pad
  {
    var newLength := Wrap32(to - from);
    if newLength < 0 then Err(IllegalArgument)
    else if from < 0 || from > |original| then Err(IndexOutOfBounds)
    else
      var copied := if |original| - from < newLength then |original| - from else newLength;
      Ok(original[from..from + copied] + Pad(newLength - copied, pad))
  }

  /** `slice(array, range)`: `ALL` gives the array itself; a single-index
      range throws; a range gives the elements from its start to its end
      inclusive. */
  function Slice<T>(source: seq<T>, range: IndexRange, pad: T): (r: Result<seq<T>>)
    ensures range.IsAll() ==> r == Ok(source)
    ensures !range.IsAll() && range.end.None? ==> r == Err(NaturalException(ScalarSlice))
    ensures !range.IsAll() && range.end.Some? && range.start.None? ==> r == Err(NullPointer)
    ensures !range.IsAll() && range.start.Some? && range.end.Some? && |source| < 0x8000_0000 ==>
      var s, e := range.start.value, range.end.value;
      0 <= s <= e < |source| ==> r == Ok(source[s..e + 1])
  {
    if range.IsAll() then Ok(source)
    else if range.end.None? then Err(NaturalException(ScalarSlice))
    else if range.start.None? then Err(NullPointer)
    else
      var s, e := range.start.value, range.end.value;
      var r := CopyOfRange(source, s, Wrap32(e + 1), pad);
      assert 0 <= s <= e < |source| < 0x8000_0000 ==> r.Ok? && r.value == source[s..e + 1];
      r
  }

  /** Slicing the two halves of a range and joining them gives the slice of
      the whole range. */
  lemma SliceSplit<T>(source: seq<T>, s: Int32, m: Int32, e: Int32, pad: T)
    requires 0 <= s <= m < e < |source| < 0x8000_0000
    ensures Slice(source, Range(Some(s), Some(e)), pad).Ok?
    ensures Slice(source, Range(Some(s), Some(e)), pad).value
         == Slice(source, Range(Some(s), Some(m)), pad).value
          + Slice(source, Range(Some(m + 1), Some(e)), pad).value
  {
    assert source[s..e + 1] == source[s..m + 1] + source[m + 1..e + 1];
  }

  /** A range that runs past the end of the source is padded rather than
      refused, as long as it starts inside the source. */
  lemma SlicePastEndPads<T>(source: seq<T>, s: Int32, e: Int32, pad: T)
    requires 0 <= s <= |source| && |source| <= e && e + 1 < 0x8000_0000
    ensures Slice(source, Range(Some(s), Some(e)), pad)
         == Ok(source[s..] + Pad(e + 1 - |source|, pad))
  {
    var r := Slice(source, Range(Some(s), Some(e)), pad);
    assert r.Ok?;
    assert r.value == source[s..] + Pad(e + 1 - |source|, pad);
  }

  /** A range whose end is before its start (by more than one) throws. */
  lemma ReversedRangeThrows<T>(source: seq<T>, s: Int32, e: Int32, pad: T)
    requires e + 1 < s && e >= -1
    ensures Slice(source, Range(Some(s), Some(e)), pad) == Err(IllegalArgument)
  {
  }

  // ---------------------------------------------------------------------
  // Two dimensions.

  /** What the two-dimensional slice works out before it copies anything:
      the shape of the result, the source rows it walks (`rowStart` up to,
      not including, `rowEnd`) and the source columns it copies. */
  datatype Plan = Plan(rows: int, columns: int, rowStart: int, rowEnd: int, columnStart: int)

  function PlanFor<T>(source: seq<seq<T>>, one: IndexRange, two: IndexRange): (r: Result<Plan>)
    ensures r.Ok? ==> r.value.rows >= 0 && r.value.columns >= 0
    ensures r.Ok? && one.IsAll() ==> r.value.rows == |source| && r.value.rowStart == 0 && r.value.rowEnd == |source|
    ensures r.Ok? && two.IsAll() ==> |source| > 0 && r.value.columns == |source[0]| && r.value.columnStart == 0
    ensures r.Ok? && !one.IsAll() ==>
      && one.Length().Ok?
      && r.value.rows == one.Length().value && r.value.rowStart == one.start.value
      && r.value.rowEnd == Wrap32(one.end.value + 1)
    ensures r.Ok? && !two.IsAll() ==> two.Length().Ok? && r.value.columns == two.Length().value && r.value.columnStart == two.start.value
    ensures (one.Length().Err? && !one.IsAll()) || (two.Length().Err? && !two.IsAll()) ==> r == Err(NullPointer)
  {
    var rows :- if one.IsAll() then Ok(|source|) else one.Length();
    var columns :- if two.IsAll() then
        if |source| == 0 then Err(IndexOutOfBounds) else Ok(|source[0]|)
      else two.Length();
    var rowStart := if one.IsAll() then 0 else one.start.value;
    var rowEnd := if one.IsAll() then |source| else Wrap32(one.end.value + 1);
    var columnStart := if two.IsAll() then 0 else two.start.value;
    if rows < 0 || columns < 0 then Err(NegativeArraySize)
    else Ok(Plan(rows, columns, rowStart, rowEnd, columnStart))
  }

  /** The number of elements each row copy moves, `end + 1 - start` in
      32-bit arithmetic, is the column count the result was allocated with. */
  lemma CopyLengthIsColumns(two: IndexRange)
    requires !two.IsAll() && two.Length().Ok?
    ensures Wrap32(Wrap32(two.end.value + 1) - two.start.value) == two.Length().value
  {
    var a := Wrap32(two.end.value + 1) - two.start.value;
    var b := two.end.value - two.start.value + 1;
    assert (a - b) % TwoTo32 == 0 by {
      assert a - b == Wrap32(two.end.value + 1) - (two.end.value + 1);
    }
  }

  /** A row copy of the two-dimensional slice is what the one-dimensional
      slice of that source row with the column range gives. */
  lemma RowIsSlice<T>(line: seq<T>, two: IndexRange, pad: T, copied: seq<T>)
    requires !two.IsAll() && two.Length().Ok? && two.Length().value >= 0
    requires 0 <= two.start.value && two.start.value + two.Length().value <= |line|
    requires |copied| == two.Length().value
    requires forall j :: 0 <= j < |copied| ==> copied[j] == line[two.start.value + j]
    ensures Slice(line, two, pad) == Ok(copied)
  {
    CopyLengthIsColumns(two);
    var sliced := Slice(line, two, pad);
    assert sliced.Ok?;
    assert sliced.value == copied;
  }

  /** The rows a plan walks are all inside the source, fit the result, and
      each holds the columns to copy. */
  predicate PlanFits<T>(source: seq<seq<T>>, p: Plan) {
    p.rowEnd <= p.rowStart ||
      (&& 0 <= p.rowStart && p.rowEnd <= |source|
       && p.rowEnd - p.rowStart <= p.rows
       && 0 <= p.columnStart
       && forall i :: p.rowStart <= i < p.rowEnd ==> p.columnStart + p.columns <= |source[i]|)
  }

  /** `slice(array, rangeOne, rangeTwo)`: a fresh `rows` by `columns` array
      whose row `i` holds, from column 0, the columns of source row
      `rowStart + i` from `columnStart` on; rows it never reaches keep the
      padding value. */
  method Slice2<T>(source: seq<seq<T>>, one: IndexRange, two: IndexRange, pad: T) returns (r: Result<seq<seq<T>>>)
    ensures PlanFor(source, one, two).Err? ==> r == Err(PlanFor(source, one, two).error)
    ensures PlanFor(source, one, two).Ok? ==> (r.Ok? <==> PlanFits(source, PlanFor(source, one, two).value))
    ensures r.Err? ==> r.error != NaturalException(ScalarSlice)
    ensures r.Ok? ==> var p := PlanFor(source, one, two).value;
      && |r.value| == p.rows
      && (forall i :: 0 <= i < p.rows ==> |r.value[i]| == p.columns)
      && (forall i, j :: 0 <= i < p.rows && i < p.rowEnd - p.rowStart && 0 <= j < p.columns ==>
            && p.rowStart + i < |source| && p.columnStart + j < |source[p.rowStart + i]|
            && r.value[i][j] == source[p.rowStart + i][p.columnStart + j])
      && (forall i, j :: 0 <= i < p.rows && p.rowEnd - p.rowStart <= i && 0 <= j < p.columns ==>
            r.value[i][j] == pad)
    ensures r.Ok? && !two.IsAll() ==> var p := PlanFor(source, one, two).value;
      forall i :: 0 <= i < p.rows && i < p.rowEnd - p.rowStart ==>
        Slice(source[p.rowStart + i], two, pad) == Ok(r.value[i])
  {
    var plan := PlanFor(source, one, two);
    if plan.Err? {
      return Err(plan.error);
    }
    var p := plan.value;
    r := CopyRows(source, p, pad);
    if r.Ok? && !two.IsAll() {
      CopiedRowsAreSlices(source, two, pad, p, r.value);
    }
  }

  /** Every row the copy reaches is the one-dimensional slice of its source
      row. */
  lemma CopiedRowsAreSlices<T>(source: seq<seq<T>>, two: IndexRange, pad: T, p: Plan, rows: seq<seq<T>>)
    requires !two.IsAll() && two.Length().Ok? && p.columns == two.Length().value && p.columnStart == two.start.value
    requires p.rows >= 0 && p.columns >= 0 && PlanFits(source, p)
    requires |rows| == p.rows && forall i :: 0 <= i < p.rows ==> |rows[i]| == p.columns
    requires forall i, j :: 0 <= i < p.rows && i < p.rowEnd - p.rowStart && 0 <= j < p.columns ==>
      && p.rowStart + i < |source| && p.columnStart + j < |source[p.rowStart + i]|
      && rows[i][j] == source[p.rowStart + i][p.columnStart + j]
    ensures forall i :: 0 <= i < p.rows && i < p.rowEnd - p.rowStart ==>
      Slice(source[p.rowStart + i], two, pad) == Ok(rows[i])
  {
    forall i | 0 <= i < p.rows && i < p.rowEnd - p.rowStart
      ensures Slice(source[p.rowStart + i], two, pad) == Ok(rows[i])
    {
      RowIsSlice(source[p.rowStart + i], two, pad, rows[i]);
    }
  }

  /** The copying loop of `slice`: rows `rowStart` up to `rowEnd` of the
      source go to rows 0 on of a padded `rows` by `columns` array. It
      throws exactly when a row it reaches is outside the source or the
      result, or too short for the columns. */
  method CopyRows<T>(source: seq<seq<T>>, p: Plan, pad: T) returns (r: Result<seq<seq<T>>>)
    requires p.rows >= 0 && p.columns >= 0
    ensures r.Ok? <==> PlanFits(source, p)
    ensures r.Err? ==> r.error == IndexOutOfBounds
    ensures r.Ok? ==>
      && |r.value| == p.rows
      && (forall i :: 0 <= i < p.rows ==> |r.value[i]| == p.columns)
      && (forall i, j :: 0 <= i < p.rows && i < p.rowEnd - p.rowStart && 0 <= j < p.columns ==>
            && p.rowStart + i < |source| && p.columnStart + j < |source[p.rowStart + i]|
            && r.value[i][j] == source[p.rowStart + i][p.columnStart + j])
      && (forall i, j :: 0 <= i < p.rows && p.rowEnd - p.rowStart <= i && 0 <= j < p.columns ==>
            r.value[i][j] == pad)
  {
    var copy := seq(p.rows, _ => Pad(p.columns, pad));
    var row := p.rowStart;
    while row < p.rowEnd
      invariant p.rowStart <= row && (row == p.rowStart || row <= p.rowEnd)
      invariant row > p.rowStart ==> 0 <= p.rowStart && row - p.rowStart <= p.rows && 0 <= p.columnStart
      invariant row > p.rowStart ==> forall i :: p.rowStart <= i < row ==> i < |source| && p.columnStart + p.columns <= |source[i]|
      invariant |copy| == p.rows
      invariant forall i :: 0 <= i < p.rows ==> |copy[i]| == p.columns
      invariant forall i, j :: 0 <= i < p.rows && i < row - p.rowStart && 0 <= j < p.columns ==>
        && p.rowStart + i < |source| && p.columnStart + j < |source[p.rowStart + i]|
        && copy[i][j] == source[p.rowStart + i][p.columnStart + j]
      invariant forall i, j :: 0 <= i < p.rows && row - p.rowStart <= i && 0 <= j < p.columns ==>
        copy[i][j] == pad
      decreases p.rowEnd - row
    {
      if row < 0 || row >= |source| || row - p.rowStart >= p.rows
         || p.columnStart < 0 || p.columnStart + p.columns > |source[row]| {
        return Err(IndexOutOfBounds);
      }
      var target := row - p.rowStart;
      copy := copy[target := source[row][p.columnStart..p.columnStart + p.columns]];
      row := row + 1;
    }
    if row > p.rowStart {
      assert row - 1 < |source| && p.columnStart + p.columns <= |source[row - 1]|;
    }
    return Ok(copy);
  }
}
