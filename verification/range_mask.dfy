/** Range mode: a mask whose whole text is `digits:digits`.

    Such a mask does not describe positions; it checks the input as an
    unbounded integer against an inclusive interval. */
module RangeMask {
  import opened Results
  import opened Numbers
  import DateMask

  /** The two bound texts when the whole mask has the shape `\d+:\d+`. */
  function RangeBounds(text: string): (r: Option<(string, string)>)
    ensures r.Some? ==> text == r.value.0 + ":" + r.value.1
    ensures r.Some? ==> |r.value.0| > 0 && |r.value.1| > 0 && AllDigits(r.value.0) && AllDigits(r.value.1)
  {
    var colon := DateMask.IndexOf(text, ":");
    if colon > 0 && AllDigits(text[..colon]) && colon + 1 < |text| && AllDigits(text[colon + 1..]) then
      assert text == text[..colon] + ":" + text[colon + 1..];
      Some((text[..colon], text[colon + 1..]))
    else None
  }

  /** Every text of the shape `\d+:\d+` is recognised, and split at its colon. */
  lemma RangeShapeRecognised(low: string, high: string)
    requires |low| > 0 && |high| > 0 && AllDigits(low) && AllDigits(high)
    ensures RangeBounds(low + ":" + high) == Some((low, high))
  {
    var text := low + ":" + high;
    var colon := DateMask.IndexOf(text, ":");
    assert DateMask.OccursAt(text, ":", |low|);
    forall k | 0 <= k < |low| ensures !DateMask.OccursAt(text, ":", k) {
      assert text[k..k + 1] == [low[k]];
    }
    assert colon == |low|;
    assert text[..|low|] == low;
    assert text[|low| + 1..] == high;
  }

  /** `strMatchesNumericRange`: the bounds are digit runs and always parse;
      an input that is not integer text throws instead of answering false. */
  function StrMatchesNumericRange(input: string, bounds: (string, string)): (r: Result<bool>)
    requires |bounds.0| > 0 && |bounds.1| > 0 && AllDigits(bounds.0) && AllDigits(bounds.1)
    ensures r.Err? <==> ParseInteger(input).None?
    ensures r.Err? ==> r.error == NumberFormat
    ensures r.Ok? ==>
      (r.value <==> DigitsValue(bounds.0) <= ParseInteger(input).value <= DigitsValue(bounds.1))
  {
    var from := ParseInteger(bounds.0).value;
    var to := ParseInteger(bounds.1).value;
    match ParseInteger(input)
    case None => Err(NumberFormat)
    case Some(value) => Ok(from <= value && value <= to)
  }
}
