# unnatural-runtime core, modelled in Dafny

`unnatural-runtime` is the Java support library for programs translated from
Software AG's Natural language. This project models its core as pure Dafny
functions and proves properties of them. The core is:

- **Mask matching.** `Unnatural.matchesMask` decides whether a string fits a
  Natural mask. A numeric range such as `1000:3000` compares the input as an
  integer. A positional mask such as `NN'/'UU` is compiled to a regular
  expression. Day, month and year tokens (`DD`, `MM`, `YYYY`, `YY`) then get a
  bounds check and a calendar check.
- **`Mask`.** The mask value itself: a static text, or dynamic when it has an
  operand.
- **Pure helpers of `Unnatural`.** String truncation, padding and trimming;
  `setSubstring`; finding the n-th match in an array; filling, chunking and
  unpacking string arrays; `setArrayValues`; the string edit masks
  `XXXX'/'XXXX`; and `int` formatting with the `yyyymmdd` date packing.
- **`UnicodeBinaryEncode`.** Packs a `long` into four UTF-16 code units and
  unpacks it again.
- **`ArrayIndexRange` and `UnnaturalArraySlicer`.** One- and two-dimensional
  array slices over inclusive index ranges.
- **`UnnaturalMapRenderer`.** Lays out an 80-column text screen row by row.
- **`AdabasStore`.** An in-memory record store keyed by ISN, the internal
  sequence number.
- **`PFKey` and `SetKeyCommand`.** Enums read from their Natural spelling.

How Java constructs are modelled:

- A Java exception is an `Err` of `Result`, and `null` is `None` of `Option`.
- A Java `int` is `Int32`. Where the modelled code's `int` arithmetic can
  overflow, it wraps through `Wrap32`; the one exception is listed under
  "Left out". Truncating `/` and `%` are `JavaDiv` and `JavaRem`.
- A `long` and a UTF-16 code unit are `bv64` and `bv16`.
- Java arrays are sequences. An operation that fills an array returns the new
  contents.
- The clock is a `Today(year, month)` parameter.

## Model

| member | source | states |
|---|---|---|
| `Masks.StaticMask` | src/main/java/com/github/unnatural/runtime/Mask.java:78-81 | a mask built from a text alone is never dynamic and keeps that text |
| `Masks.MaskWithOperand` | src/main/java/com/github/unnatural/runtime/Mask.java:74-89 | a mask is dynamic exactly when a non-null operand was given |
| `RangeMask.RangeBounds` | src/main/java/com/github/unnatural/runtime/Unnatural.java:319-322 | range mode is chosen only for a text made of two non-empty digit runs around one colon, and the two bounds are those runs |
| `RangeMask.RangeShapeRecognised` | src/main/java/com/github/unnatural/runtime/Unnatural.java:56 | every text of the shape `\d+:\d+` is taken as a range |
| `RangeMask.StrMatchesNumericRange` | src/main/java/com/github/unnatural/runtime/Unnatural.java:310-317 | throws NumberFormatException exactly when the input is not integer text in ASCII digits; otherwise true iff low <= value <= high, both ends included |
| `MaskCompiler.Matches` | src/main/java/com/github/unnatural/runtime/Unnatural.java:238-239 | the compiled pattern plus `.*` accepts exactly an input with one character in each position's class, followed by no line terminator |
| `MaskCompiler.ScanReference` | src/main/java/com/github/unnatural/runtime/Unnatural.java:324-370 | compiling succeeds iff no character is refused; the pattern has one position per non-apostrophe mask character, in order, with the class that character demands |
| `MaskCompiler.Scan` | src/main/java/com/github/unnatural/runtime/Unnatural.java:328-366 | a successful scan yields one pattern position per mask character that is not an apostrophe |
| `MaskCompiler.Compile` | src/main/java/com/github/unnatural/runtime/Unnatural.java:324-370 | a compiled mask has one position per non-apostrophe character; a refused mask names one of its own characters in the exception |
| `MaskCompiler.ScanRefusesOwnCharacter` | src/main/java/com/github/unnatural/runtime/Unnatural.java:328-366 | the character a scan refuses always comes from the scanned text |
| `MaskCompiler.ScanOkReference` | src/main/java/com/github/unnatural/runtime/Unnatural.java:328-366 | the compiler throws exactly when some character is refused in its lexical state, i.e. a backslash inside quotes or an unknown letter outside them |
| `MaskCompiler.ScanContentsReference` | src/main/java/com/github/unnatural/runtime/Unnatural.java:328-366 | the k-th position of the pattern comes from the k-th non-apostrophe mask character and has the class that character demands |
| `MaskCompiler.ScanAppend` | src/main/java/com/github/unnatural/runtime/Unnatural.java:327-366 | compiling a concatenation compiles the second part in the quote state the first leaves; the leftmost refused character wins |
| `MaskCompiler.ScanOpenLiteral` | src/main/java/com/github/unnatural/runtime/Unnatural.java:330-337 | inside quotes, characters other than `'` and `\` are matched verbatim |
| `MaskCompiler.UnterminatedLiteralAccepted` | src/main/java/com/github/unnatural/runtime/Unnatural.java:328-369 | a literal left open at the end of the mask is accepted, not refused |
| `MaskCompiler.BackslashInLiteralRejected` | src/main/java/com/github/unnatural/runtime/Unnatural.java:333-334 | a backslash inside quotes always makes the mask fail to compile |
| `MaskCompiler.UnknownTokenRejected` | src/main/java/com/github/unnatural/runtime/Unnatural.java:362-363 | outside quotes, a character missing from the token table always makes the mask fail to compile |
| `MaskCompiler.DocumentedTokensUnsupported` | src/main/java/com/github/unnatural/runtime/Mask.java:21-68 | the documented tokens A, H, J, L, S, X, Z, the wildcards `. ? _` and the `n1-n2` form are refused by the compiler |
| `MaskCompiler.CompiledMatchByMaskCharacter` | src/main/java/com/github/unnatural/runtime/Unnatural.java:324-370 | the compiled pattern accepts exactly what the raw mask text describes, character by character |
| `Matcher.MatchesMask` | src/main/java/com/github/unnatural/runtime/Unnatural.java:227-243 | a null input gives false; a non-null input with a dynamic mask throws; in positional mode a true answer means the compiled pattern matched |
| `Matcher.MatchesMaskInt` | src/main/java/com/github/unnatural/runtime/Unnatural.java:555-557 | the `int` overload throws on a dynamic mask and, in range mode, never throws and answers low <= number <= high |
| `Matcher.MatchesMaskDecimal` | src/main/java/com/github/unnatural/runtime/Unnatural.java:551-553 | the `BigDecimal` overload always answers false, even for a dynamic mask |
| `Matcher.RangeMode` | src/main/java/com/github/unnatural/runtime/Unnatural.java:234-235 | a range mask compares the input as an integer, and throws when the input is not integer text in ASCII digits |
| `Matcher.PositionalUnfold` | src/main/java/com/github/unnatural/runtime/Unnatural.java:236-242 | a non-range mask's answer is: the compile error, or false when the pattern fails, or else the date check |
| `Matcher.PositionalMode` | src/main/java/com/github/unnatural/runtime/Unnatural.java:236-242 | without date tokens the answer is exactly whether the compiled pattern matches |
| `Matcher.PositionalModeByMaskCharacter` | src/main/java/com/github/unnatural/runtime/Unnatural.java:324-370 | without date tokens a well-formed mask accepts exactly what its characters describe, position by position |
| `Matcher.MalformedMaskThrows` | src/main/java/com/github/unnatural/runtime/Unnatural.java:238 | a mask that does not compile throws for every non-null input |
| `Matcher.DateCheckOnlyAfterPositionalSuccess` | src/main/java/com/github/unnatural/runtime/Unnatural.java:239-241 | a positional failure is a plain false; only a positional success runs the date check, whose answer is returned |
| `Matcher.AllDigitMask` | src/main/java/com/github/unnatural/runtime/Unnatural.java:341-342 | a mask of n `N`s accepts any input that starts with n digits and has no line terminator after them |
| `DateMask.IndexOf` | src/main/java/com/github/unnatural/runtime/Unnatural.java:296 | the token is located at its first occurrence in the mask text, or reported absent when it occurs nowhere |
| `DateMask.Extract` | src/main/java/com/github/unnatural/runtime/Unnatural.java:293-308 | an absent token gives no reading; a slice past the input's end throws; otherwise the reading is valid iff the slice parses within the bounds, and holds the parsed value |
| `DateMask.ValidateDateComponents` | src/main/java/com/github/unnatural/runtime/Unnatural.java:245-276 | the only exception that escapes is the `substring` of a slice past the input; a NumberFormatException becomes a false answer |
| `DateMask.NoTokensNoCheck` | src/main/java/com/github/unnatural/runtime/Unnatural.java:245-276 | a mask without date tokens adds nothing to the positional check |
| `DateMask.ErrorIffSliceOverruns` | src/main/java/com/github/unnatural/runtime/Unnatural.java:293-308 | the date check throws exactly when a token's slice runs past the end of the input |
| `DateMask.AcceptedComponentsInBounds` | src/main/java/com/github/unnatural/runtime/Unnatural.java:251-258 | a true answer means every token present parsed within its bounds |
| `DateMask.OutOfBoundsRejected` | src/main/java/com/github/unnatural/runtime/Unnatural.java:251-258 | one out-of-bounds or unparsable component makes the answer false, whatever the others read |
| `DateMask.NoDayMeansBoundsOnly` | src/main/java/com/github/unnatural/runtime/Unnatural.java:251-275 | without a day token, only the bounds are checked |
| `DateMask.DayMeansCalendarCheck` | src/main/java/com/github/unnatural/runtime/Unnatural.java:260-273 | with a day token and all bounds met, the answer is whether day, month and year name a real date; a missing month or year comes from the clock |
| `DateMask.FourDigitYearUsedAsIs` | src/main/java/com/github/unnatural/runtime/Unnatural.java:248-267 | a YYYY token supplies the year, within 1582..2699, and it is not shifted |
| `DateMask.TwoDigitYearShift` | src/main/java/com/github/unnatural/runtime/Unnatural.java:264-280 | a lone YY year is raised by the current year modulo 100 |
| `DateMask.ExpandYear` | src/main/java/com/github/unnatural/runtime/Unnatural.java:264-280 | a year of 100 or more is used as it is; a smaller one is raised, by less than a century |
| `DateMask.ExpandYearAsWritten` | src/main/java/com/github/unnatural/runtime/Unnatural.java:278-280 | as written, a widened two-digit year keeps its digits only in years divisible by 100, and stays below 199 |
| `DateMask.ExpandYearKeepsDigits` | src/main/java/com/github/unnatural/runtime/Unnatural.java:265-267 | with the intended century base, the widened year is in the current century and ends in the two digits read |
| `Calendar.DaysInMonth` | src/main/java/com/github/unnatural/runtime/Unnatural.java:269 | the month lengths `LocalDate.of` checks a day against are 28 to 31 days |
| `Calendar.LeapDay` | src/main/java/com/github/unnatural/runtime/Unnatural.java:268-273 | 29 February passes the calendar check exactly in Gregorian leap years |
| `Numbers.ParseInt32` | src/main/java/com/github/unnatural/runtime/Unnatural.java:298 | `Integer.parseInt` accepts exactly the ASCII-digit integer text whose value fits an `int`, and returns that value |
| `Numbers.ParseInteger` | src/main/java/com/github/unnatural/runtime/Unnatural.java:315 | empty text and a lone sign are refused; an accepted value is negative only after a `-`, and a `-` never gives a positive value |
| `Numbers.ParseIntegerSpelling` | src/main/java/com/github/unnatural/runtime/Unnatural.java:315 | every accepted text is an optional sign, then leading zeros, then the shortest digits of its value |
| `Numbers.ParseIntegerAccepts` | src/main/java/com/github/unnatural/runtime/Unnatural.java:315 | conversely, every such text is accepted and read as that value, negated after a `-` |
| `Numbers.IntToString` | src/main/java/com/github/unnatural/runtime/Unnatural.java:556 | `Integer.toString` is signed like the number and reads back as it |
| `Numbers.JavaRem` | src/main/java/com/github/unnatural/runtime/Unnatural.java:780-782 | Java's `%` and `/` split the dividend, with the remainder taking the dividend's sign and lying strictly inside (-b, b) |
| `Numbers.Wrap32` | src/main/java/com/github/unnatural/runtime/Unnatural.java:793-794 | `int` arithmetic gives the value modulo 2^32, and is exact while in range |
| `DateNumbers.FormatIntegerToString` | src/main/java/com/github/unnatural/runtime/Unnatural.java:738-740 | a width below 1 throws; otherwise the text has length max(width, digits), reads back as the number, and carries a sign only for negatives |
| `DateNumbers.FormatUnique` | src/main/java/com/github/unnatural/runtime/Unnatural.java:738-740 | exactly one text meets that contract, so the contract determines the result |
| `DateNumbers.FieldWidth` | src/main/java/com/github/unnatural/runtime/Unnatural.java:738-740 | a number in [0, 10^w) is zero-padded to exactly w digits of the same value |
| `DateNumbers.NumberToDateComponents` | src/main/java/com/github/unnatural/runtime/Unnatural.java:779-784 | a non-negative number gives a day and month in [0, 100) and a non-negative year; a negative number gives components that are all non-positive |
| `DateNumbers.DateComponentsRoundTrip` | src/main/java/com/github/unnatural/runtime/Unnatural.java:779-795 | splitting any `int` into date components and joining them again gives the same `int` |
| `DateNumbers.DateComponentsReverseRoundTrip` | src/main/java/com/github/unnatural/runtime/Unnatural.java:779-795 | components of at most two digits for day and month, with a year that cannot overflow, come back from their packed integer |
| `DateNumbers.DateComponentsToInteger` | src/main/java/com/github/unnatural/runtime/Unnatural.java:792-795 | components that fit their digits pack into a non-negative `int` whose decimal digits are the year, then two of month, then two of day |
| `DateNumbers.DateComponentsToString` | src/main/java/com/github/unnatural/runtime/Unnatural.java:786-790 | in-range components give eight digits, read back as year, month and day fields and as the packed integer |
| `DateNumbers.DateComponentsToStringExample` | src/test/java/com/github/unnatural/runtime/UnnaturalTest.java:207-210 | day 10, month 20 and year 2020 give `20202010` |
| `Strings.Truncate` | src/main/java/com/github/unnatural/runtime/Unnatural.java:72-74 | a negative length throws; otherwise the result is the prefix of length min(length, size) |
| `Strings.RightJustify` | src/main/java/com/github/unnatural/runtime/Unnatural.java:76-80 | a negative length throws; otherwise exactly `length` characters, with the cut source at the right and blanks on the left |
| `Strings.PadString` | src/main/java/com/github/unnatural/runtime/Unnatural.java:812-827 | exactly `desiredLength` characters: blanks for null; a long value is cut; a short one is padded on the side its alignment leaves; a negative length throws |
| `Strings.PadRightAligned` | src/main/java/com/github/unnatural/runtime/Unnatural.java:808-810 | the result has the desired length, and a value that fits ends it |
| `Strings.PadLeftAligned` | src/main/java/com/github/unnatural/runtime/Unnatural.java:829-831 | the result has the desired length, and a value that fits starts it |
| `Strings.RightJustifyIsPadRightAligned` | src/main/java/com/github/unnatural/runtime/Unnatural.java:76-80 | `rightJustify` equals right-aligned padding, errors included |
| `Strings.PadLeftIsTruncateThenBlanks` | src/main/java/com/github/unnatural/runtime/Unnatural.java:812-831 | left-aligned padding is truncation followed by blanks |
| `Strings.PadToOwnLength` | src/main/java/com/github/unnatural/runtime/Unnatural.java:824-826 | padding to a value's own length returns it unchanged |
| `Strings.TrimEnd` | src/main/java/com/github/unnatural/runtime/Unnatural.java:915-919 | the result is the prefix that ends in non-whitespace, and everything removed is whitespace |
| `Strings.TrimRight` | src/main/java/com/github/unnatural/runtime/Unnatural.java:911-920 | null stays null; otherwise trailing whitespace is removed |
| `Strings.TrimEndUnique` | src/main/java/com/github/unnatural/runtime/Unnatural.java:911-920 | exactly one prefix meets the trim contract |
| `Strings.TrimEndIdempotent` | src/main/java/com/github/unnatural/runtime/Unnatural.java:911-920 | trimming twice is trimming once |
| `Strings.TrimEndAfterPadding` | src/main/java/com/github/unnatural/runtime/Unnatural.java:829-831 | the blanks added by left-aligned padding are trimmed away again |
| `Strings.SetSubstring` | src/main/java/com/github/unnatural/runtime/Unnatural.java:521-533 | throws unless 0 <= start <= end <= length; otherwise only [start, end) changes, to the value cut or blank-padded to fit |
| `Strings.SetSubstringExactFit` | src/test/java/com/github/unnatural/runtime/UnnaturalTest.java:113-119 | a value exactly the size of the area is written as given |
| `EditMask.RemoveSeparatorsEmpty` | src/main/java/com/github/unnatural/runtime/Unnatural.java:838 | removing the quoted separators leaves nothing exactly when the text is made of quoted separators only |
| `EditMask.SupportedPositions` | src/main/java/com/github/unnatural/runtime/Unnatural.java:838-841 | a mask that passes the check walks only `X` and `/` positions once its apostrophes are gone |
| `EditMask.QuotedXSupported` | src/main/java/com/github/unnatural/runtime/Unnatural.java:838 | the check runs after the `X`s are removed, so `'X/'` passes it and walks `X` then `/` |
| `EditMask.TargetWalk` | src/main/java/com/github/unnatural/runtime/Unnatural.java:843-851 | the walk throws exactly when a `/` position meets another character; otherwise it keeps the characters under `X`s |
| `EditMask.ApplyForTarget` | src/main/java/com/github/unnatural/runtime/Unnatural.java:833-853 | an unsupported mask throws; a supported one throws iff a `/` position meets another character, and otherwise returns the characters under the `X`s |
| `EditMask.ApplyForSource` | src/main/java/com/github/unnatural/runtime/Unnatural.java:855-876 | throws exactly for an unsupported mask; otherwise the result is the positions up to where writing stops, each `X` holding the next value character and each `/` kept; writing stops after the `X` that takes the last value character, or at the end of the mask when the value is longer, and an empty value writes nothing; read back, it gives the value cut to the number of `X`s |
| `EditMask.SourceWalkWritesThrough` | src/main/java/com/github/unnatural/runtime/Unnatural.java:866-874 | the loop writes the value through the positions as `WrittenThrough` describes |
| `EditMask.WrittenThroughUnique` | src/main/java/com/github/unnatural/runtime/Unnatural.java:866-874 | that description fixes the result: two texts that both meet it are equal |
| `EditMask.SourceThenTarget` | src/main/java/com/github/unnatural/runtime/Unnatural.java:833-876 | writing a value through a mask and reading it back through the same mask gives the value, cut to the mask's `X` count |
| `EditMask.SplitMaskPositions` | src/main/java/com/github/unnatural/runtime/Unnatural.java:838-841 | every mask of the form `X..X'/'X..X` is supported and walks its `X`s, one `/`, then its `X`s |
| `EditMask.TargetSplitMask` | src/test/java/com/github/unnatural/runtime/UnnaturalTest.java:259-264 | against `X..X'/'X..X`, `Some/thing` reads as `Something`, trailing characters cut to the second run |
| `EditMask.SourceSplitMask` | src/test/java/com/github/unnatural/runtime/UnnaturalTest.java:266-271 | against `X..X'/'X..X`, `Something` writes as `Some/thing`, trailing characters cut to the second run; a value that only fills the first run gets no `/` |
| `IndexRanges.Value` | src/main/java/com/github/unnatural/runtime/ArrayIndexRange.java:37-39 | a single index is a start without an end, and is not `ALL` |
| `IndexRanges.Range` | src/main/java/com/github/unnatural/runtime/ArrayIndexRange.java:41-44 | a range keeps its two bounds as given, and is not `ALL` |
| `IndexRanges.IndexRange.Length` | src/main/java/com/github/unnatural/runtime/ArrayIndexRange.java:50-52 | a missing bound throws NullPointerException; otherwise, within the `int` range, the length is end - start + 1 |
| `IndexRanges.OnlyAllIsAll` | src/main/java/com/github/unnatural/runtime/ArrayIndexRange.java:24-48 | among the ranges the factories build, only `ALL` answers `isAll()`, and it has no bounds |
| `IndexRanges.RangeLength` | src/main/java/com/github/unnatural/runtime/ArrayIndexRange.java:50-52 | an inclusive range of two bounds has end - start + 1 elements |
| `IndexRanges.ValueHasNoLength` | src/main/java/com/github/unnatural/runtime/ArrayIndexRange.java:50-52 | asking a single-index range for its length throws NullPointerException |
| `ArrayHelpers.FindIndexOfMatch` | src/main/java/com/github/unnatural/runtime/Unnatural.java:441-457 | the result is the index where the match count first reaches `matchNumber`, or -1 when it never does; for a positive number the element found matches and is that match; a match number of 0 finds index 0 when the first element does not match and -1 otherwise, and a negative one finds -1 |
| `ArrayHelpers.FindIndexOfMatchInStringArray` | src/main/java/com/github/unnatural/runtime/Unnatural.java:433-435 | the string overload finds the `matchNumber`-th element equal to the text, null matching null, and answers a match number of 0 or less as the general search does |
| `ArrayHelpers.FillStringArray` | src/main/java/com/github/unnatural/runtime/Unnatural.java:717-724 | element i holds the width-sized piece starting at i * width when that is below `min(length, array length * width)`, the product wrapping as an `int`, and is empty otherwise; a negative width with a positive product throws, and so does a piece whose end `pos + width` passes the top of the `int` range, before that piece is stored: the pieces before it stay written and its element stays empty; without wrap-around the elements join back to the part of the string that fitted |
| `ArrayHelpers.OverflowingPieceNotStored` | src/main/java/com/github/unnatural/runtime/Unnatural.java:720-723 | with five elements of width 2^30 + 1 over 2^30 + 5 characters, the first piece is stored, the second piece's `substring` throws on its wrapped end, and that element and those after it stay empty |
| `ArrayHelpers.WrappedCapacityWritesNothing` | src/main/java/com/github/unnatural/runtime/Unnatural.java:717-724 | two elements of width 2^30 give the product 2^31, which wraps to -2^31, so nothing is written |
| `ArrayHelpers.FillCharArray` | src/main/java/com/github/unnatural/runtime/Unnatural.java:714-716 | one character per element, then empty strings |
| `ArrayHelpers.UnpackStartsWithFirst` | src/main/java/com/github/unnatural/runtime/Unnatural.java:726-733 | the join of a non-empty array begins with the first element's text, `null` for a null element |
| `ArrayHelpers.UnpackAppend` | src/main/java/com/github/unnatural/runtime/Unnatural.java:726-733 | joining two arrays one after the other is joining each and concatenating |
| `ArrayHelpers.UnpackPieces` | src/main/java/com/github/unnatural/runtime/Unnatural.java:726-733 | `unpackCharArray` undoes `fillStringArray` up to the array's capacity |
| `ArrayHelpers.ChunkStringIntoParts` | src/main/java/com/github/unnatural/runtime/Unnatural.java:797-806 | throws exactly when the string needs more pieces than there are parts; otherwise the needed parts hold the whole string in non-empty pieces, and later parts are untouched |
| `ArrayHelpers.ChunkIsFill` | src/main/java/com/github/unnatural/runtime/Unnatural.java:797-806 | when the string fits, chunking writes the same pieces as `fillStringArray` |
| `ArrayHelpers.SetArrayValues` | src/main/java/com/github/unnatural/runtime/Unnatural.java:493-499 | a missing bound throws before anything is written; `ALL` writes the leading values over the array and throws when there are too few; a range writes value k at start + k for every write before the first index outside either array, which throws, and leaves every other element as it was |
| `ArrayHelpers.PartialWriteKept` | src/main/java/com/github/unnatural/runtime/Unnatural.java:493-499 | with three elements, ten values and the range 1..4, elements 1 and 2 are written before index 3 throws |
| `ArrayHelpers.SetThenSlice` | src/main/java/com/github/unnatural/runtime/Unnatural.java:493-499 | slicing the range just written gives back the values written |
| `Slicer.CopyOfRange` | src/main/java/com/github/unnatural/runtime/UnnaturalArraySlicer.java:43 | a negative length throws; so does a start outside the array; otherwise the copy has the requested length, padded past the end |
| `Slicer.Slice` | src/main/java/com/github/unnatural/runtime/UnnaturalArraySlicer.java:36-44 | `ALL` gives the array itself; a single index throws; a range inside the array gives its elements, both ends included |
| `Slicer.SliceSplit` | src/main/java/com/github/unnatural/runtime/UnnaturalArraySlicer.java:36-44 | slicing two adjacent ranges and joining them equals slicing their union |
| `Slicer.SlicePastEndPads` | src/main/java/com/github/unnatural/runtime/UnnaturalArraySlicer.java:36-44 | a range past the end of the array is padded with the default value, not refused |
| `Slicer.ReversedRangeThrows` | src/main/java/com/github/unnatural/runtime/UnnaturalArraySlicer.java:36-44 | a range whose end is more than one before its start throws |
| `Slicer.PlanFor` | src/main/java/com/github/unnatural/runtime/UnnaturalArraySlicer.java:71-76 | the result's dimensions are the ranges' lengths, or the source's own for `ALL`; a missing bound throws |
| `Slicer.Slice2` | src/main/java/com/github/unnatural/runtime/UnnaturalArraySlicer.java:71-97 | a rows-by-columns array whose row i is source row start+i from the column start on, default values in rows it never reaches; each copied row is the 1-D slice of its source row |
| `Slicer.CopyRows` | src/main/java/com/github/unnatural/runtime/UnnaturalArraySlicer.java:82-94 | the row copies succeed exactly when every source row reached exists and holds the columns; they fill the result row by row |
| `Slicer.CopyLengthIsColumns` | src/main/java/com/github/unnatural/runtime/UnnaturalArraySlicer.java:88-92 | each row copy moves exactly as many elements as the result has columns, even with 32-bit wrap-around |
| `Slicer.RowIsSlice` | src/main/java/com/github/unnatural/runtime/UnnaturalArraySlicer.java:36-44 | a row copied by the 2-D slice is the 1-D slice of that source row |
| `MapRenderer.AdvanceToRow` | src/main/java/com/github/unnatural/runtime/UnnaturalMapRenderer.java:36-40 | moving to a later row emits the pending line and one blank line per skipped row; an earlier or equal row changes nothing |
| `MapRenderer.Overlay` | src/main/java/com/github/unnatural/runtime/UnnaturalMapRenderer.java:42-46 | writing text at a column succeeds iff it fits the line; it replaces exactly those characters and keeps the line's length |
| `MapRenderer.AddText` | src/main/java/com/github/unnatural/runtime/UnnaturalMapRenderer.java:61-66 | advances first, then overwrites only the text's columns on the current line; the emitted lines never change; when the text does not fit, it throws and keeps the advance |
| `MapRenderer.AddField` | src/main/java/com/github/unnatural/runtime/UnnaturalMapRenderer.java:68-75 | a null field still advances the rows but writes nothing; otherwise it is `addText` |
| `MapRenderer.AddNumericField` | src/main/java/com/github/unnatural/runtime/UnnaturalMapRenderer.java:77-82 | the numeric field is `addText` of `Integer.toString`, and when it fits, the characters written read back as the number |
| `MapRenderer.Finish` | src/main/java/com/github/unnatural/runtime/UnnaturalMapRenderer.java:52-54 | finishing appends the current line and a newline to the output |
| `MapRenderer.InitialValid` | src/main/java/com/github/unnatural/runtime/UnnaturalMapRenderer.java:22-28 | a new renderer has emitted nothing and holds a blank 80-column line |
| `MapRenderer.AdvanceKeepsValid` | src/main/java/com/github/unnatural/runtime/UnnaturalMapRenderer.java:30-40 | advancing keeps one emitted line per row passed, each 80 columns wide |
| `MapRenderer.AddTextKeepsValid` | src/main/java/com/github/unnatural/runtime/UnnaturalMapRenderer.java:61-66 | writing text keeps every line 80 columns wide, whether the call succeeds or throws |
| `MapRenderer.AddTextOnScreen` | src/main/java/com/github/unnatural/runtime/UnnaturalMapRenderer.java:42-66 | on a screen line, text fits iff col + length <= 80, and a row just moved to starts out blank |
| `MapRenderer.AddFieldKeepsValid` | src/main/java/com/github/unnatural/runtime/UnnaturalMapRenderer.java:68-75 | writing a field keeps every line 80 columns wide |
| `MapRenderer.FlattenShape` | src/main/java/com/github/unnatural/runtime/UnnaturalMapRenderer.java:30-31 | 80-column lines joined with newlines place line k at offset 81k, followed by a newline |
| `MapRenderer.OutputShape` | src/main/java/com/github/unnatural/runtime/UnnaturalMapRenderer.java:26-50 | the output is one 81-character line per row passed, holding that row's text |
| `MapRenderer.AdvanceOutput` | src/main/java/com/github/unnatural/runtime/UnnaturalMapRenderer.java:36-40 | what was output before stays a prefix; the pending line and the blank rows follow |
| `MapRenderer.NoGoingBack` | src/main/java/com/github/unnatural/runtime/UnnaturalMapRenderer.java:61-66 | writing to the current or an earlier row emits nothing and does not move the row |
| `MapRenderer.TwoRowsExample` | src/main/java/com/github/unnatural/runtime/UnnaturalMapRenderer.java:52-66 | text on rows 0 and 2 gives three lines: the text over blanks, a blank row, then the second text |
| `Adabas.Store` | src/main/java/com/github/unnatural/runtime/AdabasStore.java:65-69 | the record is stored under the ISN returned, which is the counter plus one; below the top of the range it is new and every other record is kept |
| `Adabas.StoreWrapsAtTop` | src/main/java/com/github/unnatural/runtime/AdabasStore.java:31-69 | at the top of the `int` range the ISN counter wraps to the most negative `int` |
| `Adabas.Update` | src/main/java/com/github/unnatural/runtime/AdabasStore.java:33-39 | throws exactly when no record holds the ISN; otherwise only that record is replaced |
| `Adabas.Delete` | src/main/java/com/github/unnatural/runtime/AdabasStore.java:61-63 | removes exactly that ISN, keeps the other records and leaves the counter alone |
| `Adabas.GetByIsnAsWritten` | src/main/java/com/github/unnatural/runtime/AdabasStore.java:41-47 | as written, the lookup throws for every ISN |
| `Adabas.GetByIsn` | src/main/java/com/github/unnatural/runtime/AdabasStore.java:41-47 | as intended, the lookup returns the record held under the ISN, and throws only when there is none |
| `Adabas.StoreThenGet` | src/main/java/com/github/unnatural/runtime/AdabasStore.java:29-47 | a record just stored is not found by the lookup as written, but is found by the intended one |
| `Adabas.EmptyValid` | src/main/java/com/github/unnatural/runtime/AdabasStore.java:29-31 | a new store holds nothing and meets the ISN invariant |
| `Adabas.FirstIsns` | src/main/java/com/github/unnatural/runtime/AdabasStore.java:65-69 | successive stores into a new store hand out ISNs 1, 2 and 3 |
| `Adabas.UpdateDeleteKeepValid` | src/main/java/com/github/unnatural/runtime/AdabasStore.java:33-63 | update and delete keep every ISN held between 1 and the counter |
| `Adabas.IsnsNeverReused` | src/main/java/com/github/unnatural/runtime/AdabasStore.java:31-69 | until the counter wraps, any sequence of calls keeps the store valid, and it hands out strictly increasing, fresh ISNs |
| `Lookup.FirstWith` | src/main/java/com/github/unnatural/runtime/PFKey.java:36 | `findFirst` gives the first key in declaration order with exactly that text, or nothing when no key has it |
| `PFKeys.FromNatural` | src/main/java/com/github/unnatural/runtime/PFKey.java:35-41 | the key returned has the text asked for; it throws exactly when no key has that text |
| `PFKeys.ToJava` | src/main/java/com/github/unnatural/runtime/PFKey.java:43-45 | the Java expression is `PFKey.` followed by the constant's name |
| `PFKeys.ToJavaInjective` | src/main/java/com/github/unnatural/runtime/PFKey.java:43-45 | no two keys share a Java expression |
| `PFKeys.RoundTripExceptPf12` | src/main/java/com/github/unnatural/runtime/PFKey.java:25-41 | every key but PF12 is read back from its own natural text |
| `PFKeys.Pf12Unreachable` | src/main/java/com/github/unnatural/runtime/PFKey.java:25-41 | as written, no text gives PF12; `"PF12"` throws, and PF12's own text gives PF2 |
| `PFKeys.FromNaturalIntended` | src/main/java/com/github/unnatural/runtime/PFKey.java:35-41 | with PF12 declared as `"PF12"`, the key has the text asked for, or the call throws when none has it |
| `PFKeys.RoundTripIntended` | src/main/java/com/github/unnatural/runtime/PFKey.java:25-41 | with PF12 declared as `"PF12"`, every key is read back from its natural text |
| `SetKeyCommands.FromNatural` | src/main/java/com/github/unnatural/runtime/SetKeyCommand.java:34-40 | the command returned has the text asked for; it throws exactly when no command has that text |
| `SetKeyCommands.ToJava` | src/main/java/com/github/unnatural/runtime/SetKeyCommand.java:42-44 | the Java expression is `SetKeyCommand.` followed by the constant's name |
| `SetKeyCommands.NaturalValueInjective` | src/main/java/com/github/unnatural/runtime/SetKeyCommand.java:25-26 | no two commands share a natural text |
| `SetKeyCommands.RoundTrip` | src/main/java/com/github/unnatural/runtime/SetKeyCommand.java:25-40 | every command is read back from its natural text |
| `SetKeyCommands.ExactMatch` | src/main/java/com/github/unnatural/runtime/SetKeyCommand.java:34-40 | the match is exact: other letter case, extra spaces or the Java name are refused |
| `SetKeyCommands.Refused` | src/main/java/com/github/unnatural/runtime/SetKeyCommand.java:34-40 | any text other than the seven natural texts throws |
| `Codec.UnitOffset` | src/main/java/com/github/unnatural/runtime/UnicodeBinaryEncode.java:26-28 | a chunk up to 0xFEFF becomes one code unit, 0x100 higher; every larger chunk becomes the lone high surrogate 0xD800 |
| `Codec.Encode` | src/main/java/com/github/unnatural/runtime/UnicodeBinaryEncode.java:23-31 | four code units; unit i encodes bits 16i to 16i+15 |
| `Codec.Decode` | src/main/java/com/github/unnatural/runtime/UnicodeBinaryEncode.java:34-48 | text of any length other than four throws |
| `Codec.EncodedUnitsFit` | src/main/java/com/github/unnatural/runtime/UnicodeBinaryEncode.java:23-31 | when every chunk leaves room for the offset, each unit is its chunk plus 0x100 |
| `Codec.RoundTrip` | src/main/java/com/github/unnatural/runtime/UnicodeBinaryEncode.java:23-48 | decoding an encoded `long` gives it back when every 16-bit chunk is at most 0xFEFF |
| `Codec.ReverseRoundTrip` | src/main/java/com/github/unnatural/runtime/UnicodeBinaryEncode.java:23-48 | encoding decoded text gives it back when every unit is at least 0x100 |
| `Codec.HighChunkLost` | src/main/java/com/github/unnatural/runtime/UnicodeBinaryEncode.java:26-28 | a chunk of 0xFF00 or more does not come back: 0xFF00 decodes as 0xD700, and -1 as 0xD700 in every chunk |
| `Codec.LowUnitSetsHighBits` | src/main/java/com/github/unnatural/runtime/UnicodeBinaryEncode.java:42-45 | a first unit below 0x100 sets every bit above the first chunk |
| `MatcherExamples.CompileWithLiteral` | src/main/java/com/github/unnatural/runtime/Unnatural.java:330-361 | a quoted literal between position tokens compiles to its characters, in place |
| `MatcherExamples.TrailingInputIgnored` | src/test/java/com/github/unnatural/runtime/UnnaturalTest.java:66 | `1111` matches `NN`: input after the last position is ignored |
| `MatcherExamples.ShortInputFails` | src/test/java/com/github/unnatural/runtime/UnnaturalTest.java:75 | `1111` does not match `NNNNN`: a mask longer than the input fails |
| `MatcherExamples.WrongClassFails` | src/test/java/com/github/unnatural/runtime/UnnaturalTest.java:77 | `A123` does not match `UU` |
| `MatcherExamples.LiteralMatchedVerbatim` | src/test/java/com/github/unnatural/runtime/UnnaturalTest.java:72 | `24ABC` matches `NN'ABC'` |
| `MatcherExamples.RangeIncludesLow` | src/test/java/com/github/unnatural/runtime/UnnaturalTest.java:85 | `1000` matches `1000:3000` |
| `MatcherExamples.RangeIncludesHigh` | src/test/java/com/github/unnatural/runtime/UnnaturalTest.java:86 | `3000` matches `1000:3000` |
| `MatcherExamples.RangeExcludesAbove` | src/test/java/com/github/unnatural/runtime/UnnaturalTest.java:88 | `5000` does not match `1000:3000` |
| `MatcherExamples.RangeThrowsOnText` | src/main/java/com/github/unnatural/runtime/Unnatural.java:315 | non-integer input against a range mask throws instead of answering false |
| `MatcherExamples.FullDateAccepted` | src/test/java/com/github/unnatural/runtime/UnnaturalTest.java:93 | `20201020` matches `YYYYMMDD` |
| `MatcherExamples.FullDateRejected` | src/test/java/com/github/unnatural/runtime/UnnaturalTest.java:98 | `20200231` does not match `YYYYMMDD`, although each component is within its bounds |
| `MatcherExamples.FullDateChecked` | src/main/java/com/github/unnatural/runtime/Unnatural.java:245-273 | for `YYYYMMDD` with components in bounds, the date check answers exactly whether the date exists |
| `MatcherExamples.FullDateMaskCompiles` | src/main/java/com/github/unnatural/runtime/Unnatural.java:236-242 | for eight digits against `YYYYMMDD`, the answer is the date check's |
| `MatcherExamples.OffsetCountsQuotes` | src/main/java/com/github/unnatural/runtime/Unnatural.java:296-298 | component offsets count the mask's apostrophes, so `A12` against `'A'DD` throws IndexOutOfBounds |
| `MatcherExamples.TwoDigitYearShiftedByCurrentYear` | src/main/java/com/github/unnatural/runtime/Unnatural.java:264-280 | in 2026, `240229` does not match `YYMMDD`: `24` becomes the year 50, which is not a leap year |
| `MatcherExamples.TwoDigitYearIntended` | src/main/java/com/github/unnatural/runtime/Unnatural.java:264-280 | with the intended century base, `24` in 2026 is 2024, and 29 February 2024 exists |

## Left out

- Regular-expression engine: the compiled pattern is modelled by what it matches, one character class per position plus the `.*` suffix. Inside a quoted literal the source does not escape regex metacharacters, so a literal `.`, `[` or `*` would be read as regex syntax. The model matches every literal character verbatim.
- Unicode: Java strings are modelled as sequences of Unicode scalar values. Character classes are the ASCII ones that Java's `\d`, `\s` and `\w` use by default. Only the codec works on UTF-16 code units (`bv16`), because `encodeLong` can produce lone surrogates.
- Non-ASCII digits: `Integer.parseInt` and `new BigInteger(String)` read digits with `Character.digit`, which takes every Unicode decimal digit (Arabic-Indic, Devanagari, fullwidth and so on). The model reads only `0` to `9`, because the table of decimal digits depends on the JDK's Unicode version. The members below are stated for ASCII digits.
- `Numbers.ParseInteger`: text written in non-ASCII decimal digits is refused; `new BigInteger` reads it.
- `Numbers.ParseInt32`: the same for `Integer.parseInt`.
- `RangeMask.StrMatchesNumericRange`: an input in non-ASCII digits throws in the model, while Java compares it; `matchesMask("١٥٠٠", new Mask("1000:3000"))` is true in Java.
- `Matcher.RangeMode`: the same difference, seen through `matchesMask`.
- `DateMask.Extract`: a component slice meets non-ASCII digits only when apostrophes shift it past the positions the pattern checked (mask `''NDD`, input `123١٥`). Java reads day 15 there; the model answers false.
- `DateNumbers.FormatIntegerToString`: `String.format("%0Nd")` writes the default locale's digits. The model assumes a locale with ASCII digits.
- Clock: the current year and month come from the `Today` parameter, not from `LocalDate.now()`.
- `BigDecimal` operations are not modelled, because they need decimal arithmetic: `truncate` and `round` on decimals, `formatNaturalNumericToString`, `parseNaturalNumericString`.
- Date-time formatting and parsing are not modelled, because they are `DateTimeFormatter` library code: `parseDate`, `parseDateTime`, `formatDate`, and `encodeTimeAsNaturalString`/`decodeNaturalStringToTime` around the codec.
- Reflection, printing, console input and stubs that return constants are not modelled: the remaining `Unnatural` methods, the query stubs of `AdabasStore` (lines 49-59), and the empty `setArrayValues` overloads (lines 501-511).
- `ArrayHelpers.ChunkStringIntoParts`: the number of chunks is exact ceiling division. The source computes it through a `float`, which can round wrongly for strings longer than 2^24 characters. For the same very long strings, the `int` product `(chunk + 1) * chunkLength` can also wrap, and that is not modelled either.
- Null arguments where the source would throw `NullPointerException` are not modelled. This covers a null `String` passed to `truncate`, `setSubstring`, `addText` or the edit masks, and null array elements outside `unpackCharArray` and the match search.
- `AdabasStore`: a record's ISN is passed beside it as an `int` rather than read through `AdabasRecord.getIsn()`. The `viewName` parameter of `store` is unused in the source and left out.
- `addDataAreaToCurrentRow` is private and never called in `UnnaturalMapRenderer`, so it is not modelled.
- `Matcher.MatchesMask`: its own contract states the null, dynamic-mask and positional-success cases only. The complete answer is stated by `Matcher.RangeMode`, `Matcher.PositionalUnfold` and `Matcher.DateCheckOnlyAfterPositionalSuccess`.
- `Matcher.MatchesMaskInt`: its contract states the dynamic and range cases. The positional case is `Matcher.MatchesMask` on the number's decimal text.
- `Codec.Decode`: its own contract states only the length check. Decoded values are stated by `Codec.RoundTrip`, `Codec.ReverseRoundTrip`, `Codec.HighChunkLost` and `Codec.LowUnitSetsHighBits`.
- `Slicer.Slice`: its own contract fixes the elements only for ranges inside the array. Padding past the end and the errors of `Arrays.copyOfRange` are stated by `Slicer.CopyOfRange`, `Slicer.SlicePastEndPads` and `Slicer.ReversedRangeThrows`.
- `DateNumbers.NumberToDateComponents`: its contract bounds the components. Their exact values are pinned by `DateNumbers.DateComponentsRoundTrip`.
- `DateNumbers.DateComponentsReverseRoundTrip`: proved only for years below 214748, where `year * 10000` cannot overflow an `int`.
- `DateNumbers.DateComponentsToString`: its contract covers components of at most four and two digits. Wider or negative components make the source emit longer fields, which are not stated.
- `Calendar.DaysInMonth`: `LocalDate.of` is modelled by its month lengths and its year range only.

## Findings

The matcher, store and key models follow the code as written. Each corrected definition sits beside its as-written counterpart, with the intended property proved.

| source | as written | input that shows it | evidently intended | confidence | as-written member | corrected member |
|---|---|---|---|---|---|---|
| src/main/java/com/github/unnatural/runtime/PFKey.java:27 | `PF12` is declared with the natural text `"PF2"` | `fromNatural("PF12")` throws, and `fromNatural("PF2")` gives `PF2`, so `PF12` is never returned | `PF12("PF12")` | high; not executed | `PFKeys.Pf12Unreachable` | `PFKeys.RoundTripIntended` |
| src/main/java/com/github/unnatural/runtime/AdabasStore.java:41-47 | `getByISN` passes a `BigDecimal` to `get` on a map keyed by `Integer`; the keys never equal it | `store` a record (ISN 1), then `getByISN(BigDecimal.ONE)` throws "Record not found" | look the record up under `isn.intValue()` | high; not executed | `Adabas.StoreThenGet` | `Adabas.GetByIsn` |
| src/main/java/com/github/unnatural/runtime/Unnatural.java:278-280 | `getCurrentCentury` returns the current year modulo 100 | in 2026, `matchesMask("240229", new Mask("YYMMDD"))` is false: `24` becomes year 50, which is not a leap year, although 29 February 2024 exists | add the century base, `(year / 100) * 100` | high; not executed | `DateMask.ExpandYearAsWritten` | `DateMask.ExpandYearKeepsDigits` |
