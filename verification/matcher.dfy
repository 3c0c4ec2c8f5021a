/** `Unnatural.matchesMask`: the single entry point of the edit-mask check.

    A null input fails the match; a dynamic mask throws; a mask whose whole
    text is `digits:digits` is a range check; any other mask is compiled
    positionally, and a positional success is post-checked for date
    components. */
module Matcher {
  import opened Results
  import opened Chars
  import opened Numbers
  import opened Masks
  import opened MaskCompiler
  import opened DateMask
  import opened RangeMask

  function MatchesMask(input: Option<string>, mask: Mask, today: Today): (r: Result<bool>)
    ensures input.None? ==> r == Ok(false)
    ensures input.Some? && mask.IsDynamicMask() ==> r == Err(NaturalException(UnsupportedDynamicMask))
    ensures r == Ok(true) && RangeBounds(mask.GetConstant()).None? ==>
      Compile(mask.GetConstant()).Ok? && MatchesClasses(Compile(mask.GetConstant()).value, input.value)
  {
    if input.None? then Ok(false)
    else if mask.IsDynamicMask() then Err(NaturalException(UnsupportedDynamicMask))
    else
      var text := mask.GetConstant();
      match RangeBounds(text)
      case Some(bounds) => StrMatchesNumericRange(input.value, bounds)
      case None =>
        var classes :- Compile(text);
        if !MatchesClasses(classes, input.value) then Ok(false)
        else ValidateDateComponents(text, input.value, today)
  }

  /** The `int` overload matches the number's decimal text. As that text is
      always integer text, range mode never throws for it. */
  function MatchesMaskInt(number: Int32, mask: Mask, today: Today): (r: Result<bool>)
    ensures mask.IsDynamicMask() ==> r.Err?
    ensures !mask.IsDynamicMask() && RangeBounds(mask.GetConstant()).Some? ==>
      var bounds := RangeBounds(mask.GetConstant()).value;
      r == Ok(DigitsValue(bounds.0) <= number <= DigitsValue(bounds.1))
  {
    MatchesMask(Some(IntToString(number)), mask, today)
  }

  /** The `BigDecimal` overload is a stub that never matches and never
      throws, even for a dynamic mask. */
  function MatchesMaskDecimal(mask: Mask, today: Today): (r: Result<bool>)
    ensures r == Ok(false)
  {
    Ok(false)
  }

  /** Range mode: exactly the masks of shape `digits:digits`, inclusive at
      both ends over unbounded integers; an input that is not integer text
      throws rather than failing the match. */
  lemma RangeMode(low: string, high: string, input: string, today: Today)
    requires |low| > 0 && |high| > 0 && AllDigits(low) && AllDigits(high)
    ensures MatchesMask(Some(input), StaticMask(low + ":" + high), today)
         == match ParseInteger(input)
            case None => Err(NumberFormat)
            case Some(v) => Ok(DigitsValue(low) <= v <= DigitsValue(high))
  {
    RangeShapeRecognised(low, high);
  }

  /** For a static mask outside range mode: a compile error is thrown, a
      positional failure is false, and a positional success is answered by
      the date check. */
  lemma PositionalUnfold(text: string, input: string, today: Today)
    requires RangeBounds(text).None?
    ensures MatchesMask(Some(input), StaticMask(text), today) ==
      if Compile(text).Err? then Err(Compile(text).error)
      else if !MatchesClasses(Compile(text).value, input) then Ok(false)
      else ValidateDateComponents(text, input, today)
  {
  }

  /** A text that does not contain any of the date tokens. */
  predicate NoDateTokens(text: string) {
    IndexOf(text, "DD") < 0 && IndexOf(text, "MM") < 0 && IndexOf(text, "YY") < 0
  }

  /** Positional mode on a mask without date tokens is exactly the compiled
      pattern: at least one input character per position, each in its
      position's class, and no line terminator after the last position. */
  lemma PositionalMode(text: string, input: string, today: Today)
    requires RangeBounds(text).None? && Compile(text).Ok? && NoDateTokens(text)
    ensures MatchesMask(Some(input), StaticMask(text), today) == Ok(MatchesClasses(Compile(text).value, input))
  {
    var yyyy := IndexOf(text, "YYYY");
    if yyyy >= 0 {
      FourYearsHoldTwo(text, yyyy);
    }
    NoTokensNoCheck(text, input, today);
    PositionalUnfold(text, input, today);
  }

  /** Where `YYYY` occurs, so does `YY`. */
  lemma FourYearsHoldTwo(text: string, k: int)
    requires OccursAt(text, "YYYY", k)
    ensures OccursAt(text, "YY", k)
  {
    assert text[k..k + 2] == text[k..k + 4][..2];
  }

  /** The same, phrased on the raw mask text: see `MatchesByMaskCharacter`. */
  lemma PositionalModeByMaskCharacter(text: string, input: string, today: Today)
    requires RangeBounds(text).None? && NoDateTokens(text)
    requires forall j :: 0 <= j < |text| ==> !BadAt(text, false, j)
    ensures MatchesMask(Some(input), StaticMask(text), today) == Ok(MatchesByMaskCharacter(text, input))
  {
    ScanReference(text, false);
    PositionalMode(text, input, today);
    CompiledMatchByMaskCharacter(text, input);
  }

  /** A malformed mask throws for every non-null input, whether or not the
      input would have matched. */
  lemma MalformedMaskThrows(text: string, input: string, today: Today)
    requires RangeBounds(text).None? && Compile(text).Err?
    ensures MatchesMask(Some(input), StaticMask(text), today).Err?
  {
  }

  /** Date checks run only after a positional success: a positional failure
      is a plain false, and a success is answered by the date check. */
  lemma DateCheckOnlyAfterPositionalSuccess(text: string, input: string, today: Today)
    requires RangeBounds(text).None? && Compile(text).Ok?
    ensures !MatchesClasses(Compile(text).value, input) ==>
      MatchesMask(Some(input), StaticMask(text), today) == Ok(false)
    ensures MatchesClasses(Compile(text).value, input) ==>
      MatchesMask(Some(input), StaticMask(text), today) == ValidateDateComponents(text, input, today)
  {
  }

  /** A mask of `N`s accepts every input that starts with that many digits
      and has no line terminator after them. */
  lemma AllDigitMask(count: nat, input: string, today: Today)
    requires |input| >= count
    requires forall i :: 0 <= i < count ==> IsDigit(input[i])
    requires forall i :: count <= i < |input| ==> !IsLineTerminator(input[i])
    ensures MatchesMask(Some(input), StaticMask(Ns(count)), today) == Ok(true)
  {
    NsShape(count);
    CompileNs(count);
    PositionalMode(Ns(count), input, today);
  }

  function Ns(count: nat): string {
    seq(count, _ => 'N')
  }

  lemma NsShape(count: nat)
    ensures RangeBounds(Ns(count)).None? && NoDateTokens(Ns(count))
  {
    FirstCharAbsent(Ns(count), ":");
    FirstCharAbsent(Ns(count), "DD");
    FirstCharAbsent(Ns(count), "MM");
    FirstCharAbsent(Ns(count), "YY");
  }

  function DigitPositions(count: nat): seq<CharClass> {
    seq(count, _ => AnyDigit)
  }

  lemma {:induction false} CompileNs(count: nat)
    ensures Compile(Ns(count)) == Ok(DigitPositions(count))
  {
    if count > 0 {
      assert Ns(count)[1..] == Ns(count - 1);
      CompileNs(count - 1);
      assert Ns(count)[0] == 'N';
      assert Compile(Ns(count)) == Prepend(AnyDigit, Scan(Ns(count - 1), false));
      assert DigitPositions(count) == [AnyDigit] + DigitPositions(count - 1);
    } else {
      assert Ns(count) == [];
      assert DigitPositions(count) == [];
    }
  }
}
