/** The outcomes the runtime's unit tests pin down, and the quirks of the
    date post-check, on concrete masks and inputs. */
module MatcherExamples {
  import opened Results
  import opened Chars
  import opened Numbers
  import opened Masks
  import opened MaskCompiler
  import opened Calendar
  import opened DateMask
  import opened RangeMask
  import opened Matcher

  // ---------------------------------------------------------------------
  // Evaluation helpers.

  /** The classes of a mask made of position tokens only. */
  function TokenClasses(text: string): (ks: seq<CharClass>)
    requires forall i :: 0 <= i < |text| ==> TokenMeaning(text[i]).Position?
    ensures |ks| == |text|
  {
    seq(|text|, i requires 0 <= i < |text| => TokenMeaning(text[i]).k)
  }

  lemma {:induction false} CompileTokens(text: string)
    requires forall i :: 0 <= i < |text| ==> TokenMeaning(text[i]).Position?
    ensures Scan(text, false) == Ok(TokenClasses(text))
  {
    if text == [] {
      assert TokenClasses(text) == [];
    } else {
      CompileTokens(text[1..]);
      assert TokenClasses(text) == [TokenMeaning(text[0]).k] + TokenClasses(text[1..]);
    }
  }

  /** The date letters are all position tokens. */
  lemma DateLettersArePositions(text: string)
    requires forall i :: 0 <= i < |text| ==> text[i] in "YMD"
    ensures forall i :: 0 <= i < |text| ==> TokenMeaning(text[i]).Position?
  {
    forall i | 0 <= i < |text| ensures TokenMeaning(text[i]).Position? {
      assert text[i] == 'Y' || text[i] == 'M' || text[i] == 'D';
    }
  }

  /** A run of one position token is all position tokens. */
  lemma SamePositionToken(text: string, c: char)
    requires TokenMeaning(c).Position?
    requires forall i :: 0 <= i < |text| ==> text[i] == c
    ensures forall i :: 0 <= i < |text| ==> TokenMeaning(text[i]).Position?
  {
  }

  /** A closed literal in the middle of a mask compiles to its characters. */
  lemma CompileWithLiteral(prefix: string, literal: string, suffix: string)
    requires forall i :: 0 <= i < |prefix| ==> TokenMeaning(prefix[i]).Position?
    requires forall i :: 0 <= i < |literal| ==> literal[i] != '\'' && literal[i] != '\\'
    requires forall i :: 0 <= i < |suffix| ==> TokenMeaning(suffix[i]).Position?
    ensures Compile(prefix + "'" + literal + "'" + suffix)
         == Ok(TokenClasses(prefix) + Literals(literal) + TokenClasses(suffix))
  {
    CompileTokens(prefix);
    CompileTokens(suffix);
    NoQuotes(prefix);
    UnterminatedLiteralAccepted(prefix, literal);
    var open := prefix + "'" + literal;
    CountQuotesConcatAll(prefix, literal);
    ScanAppend(open, "'" + suffix, false);
    assert ("'" + suffix)[1..] == suffix;
    assert open + ("'" + suffix) == prefix + "'" + literal + "'" + suffix;
  }

  lemma NoQuotes(text: string)
    requires forall i :: 0 <= i < |text| ==> TokenMeaning(text[i]).Position?
    ensures CountQuotes(text) == 0
  {
    if text != [] {
      NoQuotes(text[1..]);
    }
  }

  lemma CountQuotesConcatAll(prefix: string, literal: string)
    requires CountQuotes(prefix) == 0
    requires forall i :: 0 <= i < |literal| ==> literal[i] != '\'' && literal[i] != '\\'
    ensures CountQuotes(prefix + "'" + literal) == 1
  {
    CountQuotesConcat(prefix, "'" + literal);
    assert ("'" + literal)[1..] == literal;
    LiteralHasNoQuotes(literal);
    assert prefix + "'" + literal == prefix + ("'" + literal);
  }

  lemma LiteralHasNoQuotes(s: string)
    requires forall i :: 0 <= i < |s| ==> s[i] != '\''
    ensures CountQuotes(s) == 0
  {
    if s != [] {
      LiteralHasNoQuotes(s[1..]);
    }
  }

  lemma DigitsValue1(c: char)
    requires IsDigit(c)
    ensures AllDigits([c]) && DigitsValue([c]) == DigitValue(c)
  {
    assert [c][..0] == [];
  }

  lemma DigitsValue2(s: string)
    requires |s| == 2 && AllDigits(s)
    ensures DigitsValue(s) == 10 * DigitValue(s[0]) + DigitValue(s[1])
  {
    assert s[..1] == [s[0]];
    DigitsValue1(s[0]);
  }

  lemma DigitsValue4(s: string)
    requires |s| == 4 && AllDigits(s)
    ensures DigitsValue(s) == 100 * DigitsValue(s[..2]) + DigitsValue(s[2..])
  {
    DigitsValueAppend(s[..2], s[2..]);
    assert s[..2] + s[2..] == s;
    assert Pow10(2) == 100;
  }

  // ---------------------------------------------------------------------
  // The examples.

  const Today2026: Today := Today(2026, 10)

  /** Trailing input is ignored. */
  lemma TrailingInputIgnored()
    ensures MatchesMask(Some("1111"), StaticMask("NN"), Today2026) == Ok(true)
  {
    assert Ns(2) == "NN";
    AllDigitMask(2, "1111", Today2026);
  }

  /** A mask longer than the input fails. */
  lemma ShortInputFails()
    ensures MatchesMask(Some("1111"), StaticMask("NNNNN"), Today2026) == Ok(false)
  {
    assert Ns(5) == "NNNNN";
    NsShape(5);
    CompileNs(5);
    PositionalMode("NNNNN", "1111", Today2026);
  }

  /** A digit in a letter position fails. */
  lemma WrongClassFails()
    ensures MatchesMask(Some("A123"), StaticMask("UU"), Today2026) == Ok(false)
  {
    PlainMask("UU");
    SamePositionToken("UU", 'U');
    CompileTokens("UU");
    PositionalMode("UU", "A123", Today2026);
    assert !InClass("A123"[1], TokenClasses("UU")[1]);
  }

  /** A closed literal is matched verbatim. */
  lemma LiteralMatchedVerbatim()
    ensures MatchesMask(Some("24ABC"), StaticMask("NN'ABC'"), Today2026) == Ok(true)
  {
    PlainMask("NN'ABC'");
    MatchesNNABC();
    PositionalMode("NN'ABC'", "24ABC", Today2026);
  }

  lemma MatchesNNABC()
    ensures Compile("NN'ABC'").Ok? && MatchesClasses(Compile("NN'ABC'").value, "24ABC")
  {
    var ks := [AnyDigit, AnyDigit, Exactly('A'), Exactly('B'), Exactly('C')];
    CompileNNABC();
    assert MatchesClasses(ks, "24ABC");
  }

  lemma CompileNNABC()
    ensures Compile("NN'ABC'") == Ok([AnyDigit, AnyDigit, Exactly('A'), Exactly('B'), Exactly('C')])
  {
    SamePositionToken("NN", 'N');
    PlainLiteral("ABC");
    CompileWithLiteral("NN", "ABC", "");
    assert "NN" + "'" + "ABC" + "'" + "" == "NN'ABC'";
    NNABCClasses();
  }

  lemma PlainLiteral(literal: string)
    requires forall i :: 0 <= i < |literal| ==> literal[i] in "ABC"
    ensures forall i :: 0 <= i < |literal| ==> literal[i] != '\'' && literal[i] != '\\'
  {
  }

  lemma NNABCClasses()
    ensures TokenClasses("NN") + Literals("ABC") + TokenClasses("")
         == [AnyDigit, AnyDigit, Exactly('A'), Exactly('B'), Exactly('C')]
  {
    assert TokenClasses("NN") == [AnyDigit, AnyDigit];
    assert TokenClasses("") == [];
    assert Literals("ABC") == [Exactly('A'), Exactly('B'), Exactly('C')];
  }

  /** A mask without a colon and without date letters is neither a range
      nor subject to the date check. */
  lemma PlainMask(text: string)
    requires forall k :: 0 <= k < |text| ==> text[k] !in ":DMY"
    ensures RangeBounds(text).None? && NoDateTokens(text)
  {
    FirstCharAbsent(text, ":");
    FirstCharAbsent(text, "DD");
    FirstCharAbsent(text, "MM");
    FirstCharAbsent(text, "YY");
  }

  /** The lower end of a range is included. */
  lemma RangeIncludesLow()
    ensures MatchesMask(Some("1000"), StaticMask("1000:3000"), Today2026) == Ok(true)
  {
    assert "1000" + ":" + "3000" == "1000:3000";
    RangeMode("1000", "3000", "1000", Today2026);
    Thousands("1000");
    Thousands("3000");
  }

  /** The upper end of a range is included. */
  lemma RangeIncludesHigh()
    ensures MatchesMask(Some("3000"), StaticMask("1000:3000"), Today2026) == Ok(true)
  {
    assert "1000" + ":" + "3000" == "1000:3000";
    RangeMode("1000", "3000", "3000", Today2026);
    Thousands("1000");
    Thousands("3000");
  }

  /** A number above the range fails. */
  lemma RangeExcludesAbove()
    ensures MatchesMask(Some("5000"), StaticMask("1000:3000"), Today2026) == Ok(false)
  {
    assert "1000" + ":" + "3000" == "1000:3000";
    RangeMode("1000", "3000", "5000", Today2026);
    Thousands("1000");
    Thousands("3000");
    Thousands("5000");
  }

  /** Non-numeric input against a range mask throws. */
  lemma RangeThrowsOnText()
    ensures MatchesMask(Some("1e3"), StaticMask("1000:3000"), Today2026) == Err(NumberFormat)
  {
    assert "1000" + ":" + "3000" == "1000:3000";
    RangeMode("1000", "3000", "1e3", Today2026);
    NotIntegerText();
  }

  lemma Thousands(s: string)
    requires |s| == 4 && IsDigit(s[0]) && s[1] == s[2] == s[3] == '0'
    ensures AllDigits(s) && ParseInteger(s) == Some(1000 * DigitValue(s[0]))
    ensures DigitsValue(s) == 1000 * DigitValue(s[0])
  {
    DigitsValue4(s);
    DigitsValue2(s[..2]);
    DigitsValue2(s[2..]);
  }

  lemma NotIntegerText()
    ensures ParseInteger("1e3") == None
  {
    assert !IsDigit("1e3"[1]);
  }

  /** The first occurrence of a pattern, located by its first character. */
  lemma FoundAt(text: string, pattern: string, k: nat)
    requires |pattern| > 0 && OccursAt(text, pattern, k)
    requires forall j :: 0 <= j < k ==> text[j] != pattern[0]
    ensures IndexOf(text, pattern) == k
  {
    forall j | 0 <= j < k ensures !OccursAt(text, pattern, j) {
      if j + |pattern| <= |text| {
        assert text[j..j + |pattern|][0] == text[j];
      }
    }
  }

  lemma ParseTwo(s: string)
    requires |s| == 2 && AllDigits(s)
    ensures ParseInt32(s) == Some(10 * DigitValue(s[0]) + DigitValue(s[1]))
    ensures 0 <= ParseInt32(s).value <= 99
  {
    DigitsValue2(s);
    assert IsDigit(s[0]) && IsDigit(s[1]);
  }

  lemma ParseFour(s: string)
    requires |s| == 4 && AllDigits(s)
    ensures ParseInt32(s) == Some(100 * (10 * DigitValue(s[0]) + DigitValue(s[1])) + 10 * DigitValue(s[2]) + DigitValue(s[3]))
  {
    DigitsValue4(s);
    DigitsValue2(s[..2]);
    DigitsValue2(s[2..]);
  }

  /** `YYYYMMDD`: each component is read at its own offset, and the date is
      then checked against the calendar. */
  lemma FullDateAccepted()
    ensures MatchesMask(Some("20201020"), StaticMask("YYYYMMDD"), Today2026) == Ok(true)
  {
    OctoberParts();
    FullDateVerdict("20201020", 2020, 10, 20);
    assert IsValidDate(2020, 10, 20);
  }

  /** A day past the end of its month fails although every component is
      within its own bounds. */
  lemma FullDateRejected()
    ensures MatchesMask(Some("20200231"), StaticMask("YYYYMMDD"), Today2026) == Ok(false)
  {
    assert !IsValidDate(2020, 2, 31) by { assert DaysInMonth(2020, 2) <= 29; }
    FebruaryParts();
    FullDateVerdict("20200231", 2020, 2, 31);
  }

  /** Eight digits against `YYYYMMDD`: the answer is whether the year,
      month and day they spell form a real date. */
  lemma FullDateVerdict(input: string, year: int, month: int, day: int)
    requires |input| == 8 && AllDigits(input)
    requires ParseInt32(input[0..4]) == Some(year) && 1582 <= year <= 2699
    requires ParseInt32(input[4..6]) == Some(month) && 1 <= month <= 12
    requires ParseInt32(input[6..8]) == Some(day) && 1 <= day <= 31
    ensures MatchesMask(Some(input), StaticMask("YYYYMMDD"), Today2026) == Ok(IsValidDate(year, month, day))
  {
    FullDateMaskCompiles(input);
    FullDateChecked(input, year, month, day);
  }

  lemma FullDateChecked(input: string, year: int, month: int, day: int)
    requires |input| == 8 && AllDigits(input)
    requires ParseInt32(input[0..4]) == Some(year) && 1582 <= year <= 2699
    requires ParseInt32(input[4..6]) == Some(month) && 1 <= month <= 12
    requires ParseInt32(input[6..8]) == Some(day) && 1 <= day <= 31
    ensures ValidateDateComponents("YYYYMMDD", input, Today2026) == Ok(IsValidDate(year, month, day))
  {
    FullDateRead(input, year, month, day);
    DayMeansCalendarCheck("YYYYMMDD", input, Today2026);
  }

  /** Every component of `YYYYMMDD` fits and is in bounds, and together they
      name the date read from the input. */
  lemma FullDateRead(input: string, year: int, month: int, day: int)
    requires |input| == 8 && AllDigits(input)
    requires ParseInt32(input[0..4]) == Some(year) && 1582 <= year <= 2699
    requires ParseInt32(input[4..6]) == Some(month) && 1 <= month <= 12
    requires ParseInt32(input[6..8]) == Some(day) && 1 <= day <= 31
    ensures Present(Day, "YYYYMMDD")
    ensures AllSlicesFit("YYYYMMDD", input) && AllAcceptable("YYYYMMDD", input)
    ensures JointYear("YYYYMMDD", input, Today2026) == year
    ensures JointMonth("YYYYMMDD", input, Today2026) == month
    ensures ValueOf(Day, "YYYYMMDD", input) == day
  {
    FullDateMaskComponents();
    var yy := TwoDigitYear(input);
    EightDigitLayoutRead("YYYYMMDD", input, Today2026, year, month, day, yy);
  }

  /** The first two digits of an eight-digit input read as a two-digit
      year. */
  lemma TwoDigitYear(input: string) returns (yy: int)
    requires |input| == 8 && AllDigits(input)
    ensures ParseInt32(input[0..2]) == Some(yy) && 0 <= yy <= 99
  {
    ParseTwo(input[0..2]);
    yy := ParseInt32(input[0..2]).value;
  }

  /** A mask laid out as `YYYYMMDD`: with every slice in bounds, the check
      reads the year, month and day at their offsets. */
  lemma EightDigitLayoutRead(text: string, input: string, today: Today, year: int, month: int, day: int, yy: int)
    requires IndexOf(text, "DD") == 6 && IndexOf(text, "MM") == 4
    requires IndexOf(text, "YYYY") == 0 && IndexOf(text, "YY") == 0 && |input| == 8
    requires ParseInt32(input[0..4]) == Some(year) && NaturalMinYear <= year <= NaturalMaxYear && year >= 100
    requires ParseInt32(input[4..6]) == Some(month) && 1 <= month <= 12
    requires ParseInt32(input[6..8]) == Some(day) && 1 <= day <= 31
    requires ParseInt32(input[0..2]) == Some(yy) && 0 <= yy <= 99
    ensures Present(Day, text)
    ensures AllSlicesFit(text, input) && AllAcceptable(text, input)
    ensures JointYear(text, input, today) == year
    ensures JointMonth(text, input, today) == month
    ensures ValueOf(Day, text, input) == day
  {
    ComponentRead(Day, text, input, 6, day);
    ComponentRead(Month, text, input, 4, month);
    ComponentRead(YearWithCentury, text, input, 0, year);
    ComponentRead(YearWithoutCentury, text, input, 0, yy);
  }

  /** A component found at `start` whose slice parses within its bounds. */
  lemma ComponentRead(c: Component, text: string, input: string, start: nat, value: int)
    requires IndexOf(text, c.token) == start && start + |c.token| <= |input|
    requires ParseInt32(input[start..start + |c.token|]) == Some(value) && c.low <= value <= c.high
    ensures Present(c, text) && SliceFits(c, text, input) && ComponentAcceptable(c, text, input)
    ensures ValueOf(c, text, input) == value
  {
  }

  lemma FullDateMaskComponents()
    ensures IndexOf("YYYYMMDD", "DD") == 6
    ensures IndexOf("YYYYMMDD", "MM") == 4
    ensures IndexOf("YYYYMMDD", "YYYY") == 0
    ensures IndexOf("YYYYMMDD", "YY") == 0
  {
    FullDateDay();
    FullDateMonth();
    assert "YYYYMMDD"[0..4] == "YYYY";
    FoundAt("YYYYMMDD", "YYYY", 0);
    assert "YYYYMMDD"[0..2] == "YY";
    FoundAt("YYYYMMDD", "YY", 0);
  }

  lemma FullDateDay()
    ensures IndexOf("YYYYMMDD", "DD") == 6
  {
    var text := "YYYYMMDD";
    assert text[6..8] == "DD";
    assert forall j :: 0 <= j < 6 ==> text[j] != 'D' by {
      assert text[..6] == "YYYYMM";
    }
    FoundAt(text, "DD", 6);
  }

  lemma FullDateMonth()
    ensures IndexOf("YYYYMMDD", "MM") == 4
  {
    var text := "YYYYMMDD";
    assert text[4..6] == "MM";
    assert forall j :: 0 <= j < 4 ==> text[j] != 'M' by {
      assert text[..4] == "YYYY";
    }
    FoundAt(text, "MM", 4);
  }

  lemma OctoberParts()
    ensures ParseInt32("20201020"[0..4]) == Some(2020)
    ensures ParseInt32("20201020"[4..6]) == Some(10)
    ensures ParseInt32("20201020"[6..8]) == Some(20)
  {
    ParseFour("2020");
    ParseTwo("10");
    ParseTwo("20");
    assert "20201020"[0..4] == "2020";
    assert "20201020"[4..6] == "10" && "20201020"[6..8] == "20";
  }

  lemma FebruaryParts()
    ensures ParseInt32("20200231"[0..4]) == Some(2020)
    ensures ParseInt32("20200231"[4..6]) == Some(2)
    ensures ParseInt32("20200231"[6..8]) == Some(31)
  {
    ParseFour("2020");
    ParseTwo("02");
    ParseTwo("31");
    assert "20200231"[0..4] == "2020";
    assert "20200231"[4..6] == "02" && "20200231"[6..8] == "31";
  }

  lemma FullDateMaskCompiles(input: string)
    requires |input| == 8 && AllDigits(input)
    ensures MatchesMask(Some(input), StaticMask("YYYYMMDD"), Today2026)
         == ValidateDateComponents("YYYYMMDD", input, Today2026)
  {
    FullDatePositions(input);
    DateCheckOnlyAfterPositionalSuccess("YYYYMMDD", input, Today2026);
  }

  /** The positional pattern of `YYYYMMDD` is eight digits, and the mask
      has no range. */
  lemma FullDatePositions(input: string)
    requires |input| == 8 && AllDigits(input)
    ensures RangeBounds("YYYYMMDD").None? && Compile("YYYYMMDD").Ok?
    ensures MatchesClasses(Compile("YYYYMMDD").value, input)
  {
    DateLettersMatchDigits("YYYYMMDD", input);
  }

  /** A mask of date letters only has no range, compiles to one digit class
      per letter, and so matches any digit run of its length. */
  lemma DateLettersMatchDigits(text: string, input: string)
    requires forall i :: 0 <= i < |text| ==> text[i] in "YMD"
    requires |input| == |text| && AllDigits(input)
    ensures RangeBounds(text).None? && Compile(text).Ok?
    ensures MatchesClasses(Compile(text).value, input)
  {
    FirstCharAbsent(text, ":");
    DateLettersArePositions(text);
    CompileTokens(text);
    var ks := TokenClasses(text);
    forall i | 0 <= i < |text| ensures InClass(input[i], ks[i]) {
      assert text[i] == 'Y' || text[i] == 'M' || text[i] == 'D';
    }
  }

  /** Component offsets count the mask's quote characters: after a literal
      the day's slice runs past the input and the match throws. */
  lemma OffsetCountsQuotes()
    ensures MatchesMask(Some("A12"), StaticMask("'A'DD"), Today2026) == Err(IndexOutOfBounds)
  {
    QuotedDayCompiles();
    var ks := [Exactly('A'), AnyDigit, AnyDigit];
    assert IsDigit("A12"[1]) && IsDigit("A12"[2]);
    assert MatchesClasses(ks, "A12");
    QuotedDayFound();
    DateCheckOnlyAfterPositionalSuccess("'A'DD", "A12", Today2026);
  }

  lemma QuotedDayCompiles()
    ensures Compile("'A'DD") == Ok([Exactly('A'), AnyDigit, AnyDigit])
  {
    SamePositionToken("DD", 'D');
    assert "A"[0] != '\'' && "A"[0] != '\\';
    CompileWithLiteral("", "A", "DD");
    assert "" + "'" + "A" + "'" + "DD" == "'A'DD";
    var ks := TokenClasses("") + Literals("A") + TokenClasses("DD");
    assert TokenClasses("DD")[0] == AnyDigit && TokenClasses("DD")[1] == AnyDigit;
    assert ks == [Exactly('A'), AnyDigit, AnyDigit];
  }

  lemma QuotedDayFound()
    ensures RangeBounds("'A'DD").None?
    ensures IndexOf("'A'DD", "DD") == 3
  {
    FirstCharAbsent("'A'DD", ":");
    assert "'A'DD"[3..5] == "DD";
    FoundAt("'A'DD", "DD", 3);
  }

  /** A two-digit year is shifted by the current year's last two digits, not
      by a century: in 2026, `24` stands for the year 50, which is not a
      leap year. */
  lemma TwoDigitYearShiftedByCurrentYear()
    ensures MatchesMask(Some("240229"), StaticMask("YYMMDD"), Today2026) == Ok(false)
  {
    ShortDatePositions();
    DateCheckOnlyAfterPositionalSuccess("YYMMDD", "240229", Today2026);
    ShortDateChecked();
  }

  /** The same input under the intended widening: `24` read in 2026 is
      2024, a leap year, so 29 February would be a real date. */
  lemma TwoDigitYearIntended()
    ensures ExpandYearIntended(24, Today2026) == 2024 && IsValidDate(2024, 2, 29)
    ensures ExpandYear(24, Today2026) == 50 && !IsValidDate(50, 2, 29)
  {
    ExpandYearKeepsDigits(24, Today2026);
    ExpandYearAsWritten(24, Today2026);
    assert IsLeapYear(2024) && !IsLeapYear(50);
  }

  lemma ShortDatePositions()
    ensures RangeBounds("YYMMDD").None? && Compile("YYMMDD").Ok?
    ensures MatchesClasses(Compile("YYMMDD").value, "240229")
  {
    DateLettersMatchDigits("YYMMDD", "240229");
  }

  lemma ShortDateChecked()
    ensures ValidateDateComponents("YYMMDD", "240229", Today2026) == Ok(false)
  {
    ShortDateRead();
    NoLeapDayIn50("YYMMDD", "240229", Today2026);
  }

  /** Components that name 29 February of the year 50 fail the calendar
      check. */
  lemma NoLeapDayIn50(text: string, input: string, today: Today)
    requires Present(Day, text)
    requires AllSlicesFit(text, input) && AllAcceptable(text, input)
    requires JointYear(text, input, today) == 50 && JointMonth(text, input, today) == 2
    requires ValueOf(Day, text, input) == 29
    ensures ValidateDateComponents(text, input, today) == Ok(false)
  {
    DayMeansCalendarCheck(text, input, today);
    assert !IsLeapYear(50);
  }

  /** Every component of `YYMMDD` fits and is in bounds on `240229`; the year
      `24` is raised by 26 in 2026. */
  lemma ShortDateRead()
    ensures Present(Day, "YYMMDD")
    ensures AllSlicesFit("YYMMDD", "240229") && AllAcceptable("YYMMDD", "240229")
    ensures JointYear("YYMMDD", "240229", Today2026) == 50
    ensures JointMonth("YYMMDD", "240229", Today2026) == 2
    ensures ValueOf(Day, "YYMMDD", "240229") == 29
  {
    ShortDateFits();
    TwoDigitYearShift("YYMMDD", "240229", Today2026);
    assert JavaRem(2026, 100) == 26;
  }

  /** The components of `YYMMDD` on `240229`: day 29, month 2 and the
      two-digit year 24, each in bounds; there is no four-digit year. */
  lemma ShortDateFits()
    ensures Present(Day, "YYMMDD") && Present(YearWithoutCentury, "YYMMDD") && !Present(YearWithCentury, "YYMMDD")
    ensures AllSlicesFit("YYMMDD", "240229") && AllAcceptable("YYMMDD", "240229")
    ensures ValueOf(Day, "YYMMDD", "240229") == 29 && ValueOf(YearWithoutCentury, "YYMMDD", "240229") == 24
    ensures JointMonth("YYMMDD", "240229", Today2026) == 2
  {
    ShortDateComponent(Day, 4, 29);
    ShortDateComponent(Month, 2, 2);
    ShortDateComponent(YearWithoutCentury, 0, 24);
    ShortDateMaskComponents();
  }

  /** One component of `YYMMDD` on `240229`, read at its offset. */
  lemma ShortDateComponent(c: Component, start: nat, value: int)
    requires (c, start, value) in {(Day, 4, 29), (Month, 2, 2), (YearWithoutCentury, 0, 24)}
    ensures Present(c, "YYMMDD") && SliceFits(c, "YYMMDD", "240229") && ComponentAcceptable(c, "YYMMDD", "240229")
    ensures ValueOf(c, "YYMMDD", "240229") == value
  {
    ShortDateMaskComponents();
    ShortDateParts();
    if c == Day {
      ComponentRead(Day, "YYMMDD", "240229", 4, 29);
    } else if c == Month {
      ComponentRead(Month, "YYMMDD", "240229", 2, 2);
    } else {
      ComponentRead(YearWithoutCentury, "YYMMDD", "240229", 0, 24);
    }
  }

  lemma ShortDateParts()
    ensures ParseInt32("240229"[0..2]) == Some(24)
    ensures ParseInt32("240229"[2..4]) == Some(2)
    ensures ParseInt32("240229"[4..6]) == Some(29)
  {
    ParseTwo("24");
    ParseTwo("02");
    ParseTwo("29");
    assert "240229"[0..2] == "24" && "240229"[2..4] == "02" && "240229"[4..6] == "29";
  }

  lemma ShortDateMaskComponents()
    ensures IndexOf("YYMMDD", "DD") == 4
    ensures IndexOf("YYMMDD", "MM") == 2
    ensures IndexOf("YYMMDD", "YYYY") == -1
    ensures IndexOf("YYMMDD", "YY") == 0
  {
    assert "YYMMDD"[4..6] == "DD";
    FoundAt("YYMMDD", "DD", 4);
    assert "YYMMDD"[2..4] == "MM";
    FoundAt("YYMMDD", "MM", 2);
    assert "YYMMDD"[0..2] == "YY";
    FoundAt("YYMMDD", "YY", 0);
    forall k | 0 <= k && k + 4 <= 6 ensures !OccursAt("YYMMDD", "YYYY", k) {
      assert "YYMMDD"[k..k + 4][2] == "YYMMDD"[k + 2];
    }
  }
}
