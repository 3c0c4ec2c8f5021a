/** The date-component check that follows a positional match.

    After the input has passed the positional pattern, the matcher looks for
    the tokens DD, MM, YYYY and YY in the RAW mask text (apostrophes and
    literal characters included), each at its first occurrence, and reads the
    input at that same offset. Each component found must parse as an `int`
    and lie within its bounds; when a day is present, the components must
    together name a real date, with today's month and year standing in for
    missing ones. */
module DateMask {
  import opened Results
  import opened Numbers
  import opened Calendar
  import DateNumbers

  /** The clock reading the check depends on, passed in explicitly. */
  datatype Today = Today(year: int, month: int)

  /** `NATURAL_MIN_YEAR` and `NATURAL_MAX_YEAR`. */
  const NaturalMinYear: int := 1582
  const NaturalMaxYear: int := 2699

  /** A date token and the inclusive bounds of its value. */
  datatype Component = Component(token: string, low: int, high: int)

  const Day: Component := Component("DD", 1, 31)
  const Month: Component := Component("MM", 1, 12)
  const YearWithCentury: Component := Component("YYYY", NaturalMinYear, NaturalMaxYear)
  const YearWithoutCentury: Component := Component("YY", 0, 99)

  /** What was read for a component found in the mask. A slice that does not
      parse reads as invalid with value 0. */
  datatype Reading = Reading(valid: bool, value: int)

  predicate OccursAt(text: string, pattern: string, k: int) {
    0 <= k && k + |pattern| <= |text| && text[k..k + |pattern|] == pattern
  }

  function IndexFrom(text: string, pattern: string, from: nat): (r: int)
    decreases |text| - from
    ensures r == -1 || (from <= r && OccursAt(text, pattern, r))
    ensures r == -1 ==> forall k :: from <= k ==> !OccursAt(text, pattern, k)
    ensures r != -1 ==> forall k :: from <= k < r ==> !OccursAt(text, pattern, k)
  {
    if from + |pattern| > |text| then -1
    else if text[from..from + |pattern|] == pattern then from
    else IndexFrom(text, pattern, from + 1)
  }

  /** `String.indexOf`: the first offset at which `pattern` occurs, or -1. */
  function IndexOf(text: string, pattern: string): (r: int)
    ensures r == -1 || OccursAt(text, pattern, r)
    ensures forall k :: 0 <= k && (r == -1 || k < r) ==> !OccursAt(text, pattern, k)
  {
    IndexFrom(text, pattern, 0)
  }

  /** A pattern whose first character does not occur in the text is not
      found. */
  lemma FirstCharAbsent(text: string, pattern: string)
    requires |pattern| > 0 && forall i :: 0 <= i < |text| ==> text[i] != pattern[0]
    ensures IndexOf(text, pattern) == -1
  {
    forall k | 0 <= k
      ensures !OccursAt(text, pattern, k)
    {
      if k + |pattern| <= |text| {
        assert text[k..k + |pattern|][0] == text[k];
      }
    }
  }

  /** The input slice a component found at offset `start` is read from. */
  predicate SliceFits(c: Component, maskText: string, input: string) {
    var start := IndexOf(maskText, c.token);
    start < 0 || start + |c.token| <= |input|
  }

  /** `extractOptionalMaskComponent`: `None` when the token is absent from
      the mask; an index-out-of-bounds error when the input is too short for
      the slice (that exception is not caught). */
  function Extract(c: Component, maskText: string, input: string): (r: Result<Option<Reading>>)
    ensures r == Ok(None) <==> IndexOf(maskText, c.token) < 0
    ensures r.Err? <==> !SliceFits(c, maskText, input)
    ensures r.Err? ==> r.error == IndexOutOfBounds
    ensures r.Ok? && r.value.Some? ==>
      var start := IndexOf(maskText, c.token);
      var parsed := ParseInt32(input[start..start + |c.token|]);
      && (r.value.value.valid <==> parsed.Some? && c.low <= parsed.value <= c.high)
      && (parsed.Some? ==> r.value.value.value == parsed.value)
  {
    var start := IndexOf(maskText, c.token);
    if start < 0 then Ok(None)
    else if start + |c.token| > |input| then Err(IndexOutOfBounds)
    else
      match ParseInt32(input[start..start + |c.token|])
      case None => Ok(Some(Reading(false, 0)))
      case Some(n) => Ok(Some(Reading(c.low <= n <= c.high, n)))
  }

  predicate ValidIfPresent(r: Option<Reading>) {
    r.None? || r.value.valid
  }

  function ValueOr(r: Option<Reading>, default: int): int {
    if r.Some? then r.value.value else default
  }

  /** `validateForDateComponents`: a `NumberFormatException` is caught and
      makes the answer false, so the only exception that escapes is the
      `substring` of a component slice that runs past the input. */
  function ValidateDateComponents(maskText: string, input: string, today: Today): (r: Result<bool>)
    ensures r.Err? ==> r.error == IndexOutOfBounds
  {
    var day :- Extract(Day, maskText, input);
    var month :- Extract(Month, maskText, input);
    var yearWithCentury :- Extract(YearWithCentury, maskText, input);
    var yearWithoutCentury :- Extract(YearWithoutCentury, maskText, input);
    if !(ValidIfPresent(day) && ValidIfPresent(month)
         && ValidIfPresent(yearWithCentury) && ValidIfPresent(yearWithoutCentury)) then
      Ok(false)
    else if day.Some? then
      var monthValue := ValueOr(month, today.month);
      var yearValue := ValueOr(yearWithCentury, ValueOr(yearWithoutCentury, today.year));
      Ok(IsValidDate(ExpandYear(yearValue, today), monthValue, day.value.value))
    else
      Ok(true)
  }

  // ---------------------------------------------------------------------
  // What the check promises, stated from the components' point of view.

  /** The component's token is in the mask, its slice fits, parses, and is
      within its bounds; or the token is absent. */
  predicate ComponentAcceptable(c: Component, maskText: string, input: string) {
    var start := IndexOf(maskText, c.token);
    start < 0 ||
      (start + |c.token| <= |input|
       && var parsed := ParseInt32(input[start..start + |c.token|]);
          parsed.Some? && c.low <= parsed.value <= c.high)
  }

  predicate AllSlicesFit(maskText: string, input: string) {
    && SliceFits(Day, maskText, input)
    && SliceFits(Month, maskText, input)
    && SliceFits(YearWithCentury, maskText, input)
    && SliceFits(YearWithoutCentury, maskText, input)
  }

  predicate AllAcceptable(maskText: string, input: string) {
    && ComponentAcceptable(Day, maskText, input)
    && ComponentAcceptable(Month, maskText, input)
    && ComponentAcceptable(YearWithCentury, maskText, input)
    && ComponentAcceptable(YearWithoutCentury, maskText, input)
  }

  /** The value parsed for a component whose token is present and acceptable. */
  function ValueOf(c: Component, maskText: string, input: string): int
    requires IndexOf(maskText, c.token) >= 0 && ComponentAcceptable(c, maskText, input)
  {
    var start := IndexOf(maskText, c.token);
    ParseInt32(input[start..start + |c.token|]).value
  }

  predicate Present(c: Component, maskText: string) {
    IndexOf(maskText, c.token) >= 0
  }

  /** A mask without date tokens adds nothing to the positional check. */
  lemma NoTokensNoCheck(maskText: string, input: string, today: Today)
    requires !Present(Day, maskText) && !Present(Month, maskText)
    requires !Present(YearWithCentury, maskText) && !Present(YearWithoutCentury, maskText)
    ensures ValidateDateComponents(maskText, input, today) == Ok(true)
  {
  }

  /** The check throws exactly when one of the four slices runs past the end
      of the input. */
  lemma ErrorIffSliceOverruns(maskText: string, input: string, today: Today)
    ensures ValidateDateComponents(maskText, input, today).Err? <==> !AllSlicesFit(maskText, input)
  {
  }

  /** Every component found must parse and respect its bounds; a failure in
      any one makes the answer false, whatever the others read. */
  lemma AcceptedComponentsInBounds(maskText: string, input: string, today: Today)
    requires ValidateDateComponents(maskText, input, today) == Ok(true)
    ensures AllAcceptable(maskText, input)
  {
  }

  lemma OutOfBoundsRejected(c: Component, maskText: string, input: string, today: Today)
    requires c in [Day, Month, YearWithCentury, YearWithoutCentury]
    requires AllSlicesFit(maskText, input)
    requires !ComponentAcceptable(c, maskText, input)
    ensures ValidateDateComponents(maskText, input, today) == Ok(false)
  {
    ErrorIffSliceOverruns(maskText, input, today);
    if ValidateDateComponents(maskText, input, today) == Ok(true) {
      AcceptedComponentsInBounds(maskText, input, today);
    }
  }

  /** Without a day token only the bound checks apply. */
  lemma NoDayMeansBoundsOnly(maskText: string, input: string, today: Today)
    requires !Present(Day, maskText)
    requires AllSlicesFit(maskText, input)
    ensures ValidateDateComponents(maskText, input, today) == Ok(AllAcceptable(maskText, input))
  {
  }

  /** The year the joint check uses: YYYY, else YY, else the current year;
      below 100 it is raised by the current year modulo 100 (not by a
      century base). */
  function JointYear(maskText: string, input: string, today: Today): int
    requires AllAcceptable(maskText, input)
  {
    var y :=
      if Present(YearWithCentury, maskText) then ValueOf(YearWithCentury, maskText, input)
      else if Present(YearWithoutCentury, maskText) then ValueOf(YearWithoutCentury, maskText, input)
      else today.year;
    ExpandYear(y, today)
  }

  function JointMonth(maskText: string, input: string, today: Today): int
    requires AllAcceptable(maskText, input)
  {
    if Present(Month, maskText) then ValueOf(Month, maskText, input) else today.month
  }

  /** With a day token and every component in bounds, the answer is whether
      the day, month and year together name a real calendar date. */
  lemma DayMeansCalendarCheck(maskText: string, input: string, today: Today)
    requires Present(Day, maskText)
    requires AllSlicesFit(maskText, input) && AllAcceptable(maskText, input)
    ensures ValidateDateComponents(maskText, input, today)
         == Ok(IsValidDate(JointYear(maskText, input, today), JointMonth(maskText, input, today),
                           ValueOf(Day, maskText, input)))
  {
  }

  /** A mask whose YYYY token is present makes the joint check use a year in
      the runtime's supported range. */
  lemma FourDigitYearUsedAsIs(maskText: string, input: string, today: Today)
    requires Present(YearWithCentury, maskText) && AllAcceptable(maskText, input)
    ensures NaturalMinYear <= JointYear(maskText, input, today) <= NaturalMaxYear
  {
  }

  /** A two-digit year is shifted by the current year modulo 100. */
  lemma TwoDigitYearShift(maskText: string, input: string, today: Today)
    requires !Present(YearWithCentury, maskText) && Present(YearWithoutCentury, maskText)
    requires AllAcceptable(maskText, input)
    ensures JointYear(maskText, input, today)
         == ValueOf(YearWithoutCentury, maskText, input) + JavaRem(today.year, 100)
  {
  }

  // ---------------------------------------------------------------------
  // Widening a two-digit year.

  /** The year a date component gives: a year below 100 is raised by
      `getCurrentCentury()`, which as written is the current year modulo
      100, so by less than a century; a larger one is used as it is. */
  function ExpandYear(y: int, today: Today): (r: int)
    ensures y >= 100 ==> r == y
    ensures 0 <= today.year && y < 100 ==> y <= r < y + 100
  {
    if y < 100 then y + JavaRem(today.year, 100) else y
  }

  /** As written, the widened year keeps the two digits read only in a year
      that is a multiple of 100, and it never leaves the first two centuries:
      in 2026, `24` becomes the year 50. */
  lemma ExpandYearAsWritten(yy: int, today: Today)
    requires 0 <= yy < 100 && 0 <= today.year
    ensures 0 <= ExpandYear(yy, today) < 199
    ensures ExpandYear(yy, today) % 100 == yy <==> today.year % 100 == 0
    ensures ExpandYear(24, Today(2026, 10)) == 50
  {
    assert JavaRem(today.year, 100) == today.year % 100;
    assert JavaRem(2026, 100) == 26;
  }

  /** The widening as evidently intended: the base of the current century,
      its leading digits times 100, plus the two digits read. */
  function ExpandYearIntended(y: int, today: Today): int {
    if y < 100 then JavaDiv(today.year, 100) * 100 + y else y
  }

  /** With the intended base, a two-digit year read in a year of the common
      era is the year of the current century that ends in those digits. */
  lemma ExpandYearKeepsDigits(yy: int, today: Today)
    requires 0 <= yy < 100 && 0 <= today.year
    ensures ExpandYearIntended(yy, today) % 100 == yy
    ensures ExpandYearIntended(yy, today) / 100 == today.year / 100
    ensures ExpandYearIntended(24, Today(2026, 10)) == 2024
  {
    var c := today.year / 100;
    assert JavaDiv(today.year, 100) == c;
    DivModUnique(c * 100 + yy, 100, c, yy);
    assert JavaDiv(2026, 100) == 20;
  }
}
