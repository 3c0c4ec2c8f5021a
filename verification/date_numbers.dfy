/** Zero-padded decimal text and the `yyyyMMdd` integer form of a date.

    `formatIntegerToString(n, w)` is `String.format("%0" + w + "d", n)`: the
    decimal text of `n`, its sign first, zero-filled on the left to at least
    `w` characters. A date is held either as three separate `int`s or as
    the single number `year * 10000 + month * 100 + day`. */
module DateNumbers {
  import opened Results
  import opened Numbers
  import opened Chars

  function Max(a: int, b: int): int {
    if a < b then b else a
  }

  function Abs(n: int): nat {
    if n < 0 then -n else n
  }

  /** Where the digits start in the text of `n`: after the sign, if any. */
  function SignLength(n: int): nat {
    if n < 0 then 1 else 0
  }

  /** `formatIntegerToString`: a width below one makes the format text
      malformed (`%00d` repeats the zero flag, `%0-5d` combines it with `-`),
      which `String.format` refuses. */
  function FormatIntegerToString(integer: Int32, numDigits: int): (r: Result<string>)
    ensures r.Err? <==> numDigits < 1
    ensures r.Err? ==> r.error == IllegalFormat
    ensures r.Ok? ==> |r.value| == Max(numDigits, |IntToString(integer)|)
    ensures r.Ok? ==> ParseInteger(r.value) == Some(integer as int)
    ensures r.Ok? ==> |r.value| > 0 && (r.value[0] == '-' <==> integer < 0)
    ensures r.Ok? ==> AllDigits(r.value[SignLength(integer)..])
  {
    if numDigits < 1 then Err(IllegalFormat)
    else
      PaddedReads(integer, numDigits);
      Ok(Padded(integer, numDigits))
  }

  /** The sign, then zeros up to the width, then the digits of the
      magnitude. */
  function Padded(integer: int, width: int): string {
    var digits := NatToString(Abs(integer));
    var sign := if integer < 0 then "-" else "";
    sign + Zeros(Max(width - (|sign| + |digits|), 0)) + digits
  }

  lemma PaddedReads(integer: int, width: int)
    ensures |Padded(integer, width)| == Max(width, |IntToString(integer)|)
    ensures ParseInteger(Padded(integer, width)) == Some(integer)
    ensures |Padded(integer, width)| > 0 && (Padded(integer, width)[0] == '-' <==> integer < 0)
    ensures AllDigits(Padded(integer, width)[SignLength(integer)..])
  {
    if integer < 0 {
      PaddedNegative(integer, width);
    } else {
      PaddedNonNegative(integer, width);
    }
  }

  lemma PaddedNonNegative(integer: int, width: int)
    requires integer >= 0
    ensures |Padded(integer, width)| == Max(width, |IntToString(integer)|)
    ensures ParseInteger(Padded(integer, width)) == Some(integer)
    ensures |Padded(integer, width)| > 0 && Padded(integer, width)[0] != '-'
    ensures AllDigits(Padded(integer, width))
  {
    var digits := NatToString(integer);
    var body := Zeros(Max(width - |digits|, 0)) + digits;
    assert Padded(integer, width) == body;
    LeadingZeros(Max(width - |digits|, 0), digits);
    ParseUnsigned(body);
    assert IsDigit(body[0]);
  }

  lemma PaddedNegative(integer: int, width: int)
    requires integer < 0
    ensures |Padded(integer, width)| == Max(width, |IntToString(integer)|)
    ensures ParseInteger(Padded(integer, width)) == Some(integer)
    ensures |Padded(integer, width)| > 0 && Padded(integer, width)[0] == '-'
    ensures AllDigits(Padded(integer, width)[1..])
  {
    var digits := NatToString(-integer);
    var body := Zeros(Max(width - (1 + |digits|), 0)) + digits;
    var r := "-" + body;
    assert Padded(integer, width) == r;
    assert r[1..] == body;
    LeadingZeros(Max(width - (1 + |digits|), 0), digits);
    ParseNegative(r);
    assert IntToString(integer) == "-" + digits;
  }

  /** Two digit runs of one length with one value are the same text. */
  lemma {:induction false} DigitsUnique(a: string, b: string)
    requires AllDigits(a) && AllDigits(b) && |a| == |b|
    requires DigitsValue(a) == DigitsValue(b)
    ensures a == b
  {
    if a != [] {
      var n := |a|;
      var la, lb := a[n - 1], b[n - 1];
      DivMod10(DigitsValue(a[..n - 1]), DigitValue(la));
      DivMod10(DigitsValue(b[..n - 1]), DigitValue(lb));
      DigitsUnique(a[..n - 1], b[..n - 1]);
      assert la == lb;
      assert a == a[..n - 1] + [la] && b == b[..n - 1] + [lb];
    }
  }

  /** The last decimal digit and the rest of a number, recovered. */
  lemma DivMod10(q: nat, d: nat)
    requires d < 10
    ensures (q * 10 + d) / 10 == q && (q * 10 + d) % 10 == d
  {
  }

  /** How `ParseInteger` reads a run of digits and a `-` followed by one. */
  lemma ParseUnsigned(s: string)
    requires |s| > 0 && AllDigits(s)
    ensures ParseInteger(s) == Some(DigitsValue(s) as int)
  {
    assert IsDigit(s[0]);
  }

  lemma ParseNegative(s: string)
    requires |s| > 1 && s[0] == '-' && AllDigits(s[1..])
    ensures ParseInteger(s) == Some(-(DigitsValue(s[1..]) as int))
  {
  }

  /** A text is signed like `n`, digits after the sign and reads as `n`. */
  ghost predicate SignedText(s: string, n: int) {
    && |s| > 0
    && (s[0] == '-' <==> n < 0)
    && AllDigits(s[SignLength(n)..])
    && ParseInteger(s) == Some(n)
  }

  /** Two such texts of one length are the same text. */
  lemma SignedTextUnique(s: string, r: string, n: int)
    requires SignedText(s, n) && SignedText(r, n) && |s| == |r|
    ensures s == r
  {
    var k := SignLength(n);
    if n < 0 {
      ParseNegative(s);
      ParseNegative(r);
      DigitsUnique(s[1..], r[1..]);
      assert s == [s[0]] + s[1..] && r == [r[0]] + r[1..];
    } else {
      ParseUnsigned(s);
      ParseUnsigned(r);
      DigitsUnique(s, r);
    }
  }

  /** The formatted text is the only text of its length that reads as the
      number, carries a sign exactly when the number is negative, and is
      digits after it: the contract above pins the result down. */
  lemma FormatUnique(integer: Int32, numDigits: int, s: string)
    requires numDigits >= 1
    requires |s| == Max(numDigits, |IntToString(integer)|)
    requires SignedText(s, integer as int)
    ensures FormatIntegerToString(integer, numDigits) == Ok(s)
  {
    var r := FormatIntegerToString(integer, numDigits).value;
    SignedTextUnique(s, r, integer as int);
  }

  /** `DateComponents`: a day, a month and a year, not checked against the
      calendar. */
  datatype DateComponents = DateComponents(day: Int32, month: Int32, year: Int32)

  /** `numberToDateComponents`: the last two decimal digits are the day, the
      two before them the month, the rest the year; Java's `/` and `%`
      truncate toward zero, so every part of a negative number is negative
      or zero. */
  function NumberToDateComponents(n: Int32): (c: DateComponents)
    ensures n >= 0 ==> 0 <= c.day < 100 && 0 <= c.month < 100 && 0 <= c.year
    ensures n < 0 ==> -100 < c.day <= 0 && -100 < c.month <= 0 && c.year <= 0
  {
    var day := JavaRem(n, 100);
    var low := JavaRem(n, 10000);
    JavaDivShrinks(low, 100);
    JavaDivShrinks(n, 10000);
    var month := JavaDiv(low, 100);
    var year := JavaDiv(n, 10000);
    assert -100 < month < 100;
    DateComponents(day, month, year)
  }

  /** `dateComponentsToInteger`: `year * 10000 + month * 100 + day` in
      32-bit arithmetic. */
  function DateComponentsToInteger(c: DateComponents): (r: Int32)
    ensures 0 <= c.day < 100 && 0 <= c.month < 100 && 0 <= c.year < 214748 ==>
      && 0 <= r
      && r / 10000 == c.year && (r % 10000) / 100 == c.month && r % 100 == c.day
  {
    if 0 <= c.day < 100 && 0 <= c.month < 100 && 0 <= c.year < 214748 then
      PackedDigits(c);
      Wrap32(c.year * 10000 + c.month * 100 + c.day)
    else Wrap32(c.year * 10000 + c.month * 100 + c.day)
  }

  /** Components that fit their digits pack into an `int` whose decimal
      digits are the year, then two of month, then two of day. */
  lemma PackedDigits(c: DateComponents)
    requires 0 <= c.day < 100 && 0 <= c.month < 100 && 0 <= c.year < 214748
    ensures var n := c.year * 10000 + c.month * 100 + c.day;
      && 0 <= n < 0x8000_0000
      && n / 10000 == c.year && (n % 10000) / 100 == c.month && n % 100 == c.day
  {
    var low := c.month * 100 + c.day;
    var n := c.year * 10000 + low;
    assert 0 <= low < 10000 by {
      MulBounds(c.month, 100, 99);
    }
    assert 0 <= n < 0x8000_0000 by {
      MulBounds(c.year, 10000, 214747);
    }
    DivModUnique(n, 10000, c.year, low);
    DivModUnique(low, 100, c.month, c.day);
    assert n == (c.year * 100 + c.month) * 100 + c.day;
    DivModUnique(n, 100, c.year * 100 + c.month, c.day);
  }

  /** Truncating division moves toward zero and keeps the sign. */
  lemma JavaDivShrinks(a: int, b: int)
    requires b > 1
    ensures Abs(JavaDiv(a, b)) <= Abs(a)
    ensures Abs(JavaDiv(a, b)) * b <= Abs(a) < (Abs(JavaDiv(a, b)) + 1) * b
    ensures a >= 0 ==> JavaDiv(a, b) >= 0
    ensures a < 0 ==> JavaDiv(a, b) <= 0
  {
    var m := Abs(a) / b;
    assert Abs(JavaDiv(a, b)) == m;
    Euclid(Abs(a), b);
  }

  lemma Euclid(x: nat, b: int)
    requires b > 1
    ensures (x / b) * b <= x < (x / b + 1) * b
    ensures x / b <= x
  {
    var m, rem := x / b, x % b;
    assert x == m * b + rem && 0 <= rem < b;
    assert (m + 1) * b == m * b + b;
    MulAtLeast(m, b);
  }

  lemma MulAtLeast(m: nat, b: int)
    requires b > 1
    ensures m <= m * b
  {
    assert m * b == m + m * (b - 1);
  }

  /** The last two digits of the last four digits are the last two digits. */
  lemma JavaRemNested(n: int)
    ensures JavaRem(JavaRem(n, 10000), 100) == JavaRem(n, 100)
  {
    var a := Abs(n);
    assert a % 10000 % 100 == a % 100 by {
      var q := a / 10000;
      assert a == 10000 * q + a % 10000;
      assert a == 100 * (100 * q + (a % 10000) / 100) + a % 10000 % 100;
    }
  }

  /** Splitting a number into date components and joining them again gives
      the number back, for every `int`. */
  lemma DateComponentsRoundTrip(n: Int32)
    ensures DateComponentsToInteger(NumberToDateComponents(n)) == n
  {
    var c := NumberToDateComponents(n);
    var low := JavaRem(n, 10000);
    assert n == 10000 * c.year + low;
    assert low == 100 * c.month + JavaRem(low, 100);
    JavaRemNested(n);
    assert c.year * 10000 + c.month * 100 + c.day == n;
  }

  /** Joining components that each fit their digits and splitting the number
      again gives the components back. */
  lemma DateComponentsReverseRoundTrip(c: DateComponents)
    requires 0 <= c.day < 100 && 0 <= c.month < 100 && 0 <= c.year < 214748
    ensures NumberToDateComponents(DateComponentsToInteger(c)) == c
  {
    var low := c.month * 100 + c.day;
    var n := c.year * 10000 + low;
    assert 0 <= low < 10000 by {
      MulBounds(c.month, 100, 99);
    }
    assert 0 <= n < 0x8000_0000 by {
      MulBounds(c.year, 10000, 214747);
    }
    assert DateComponentsToInteger(c) == n;
    DivModUnique(n, 10000, c.year, low);
    DivModUnique(low, 100, c.month, c.day);
    assert n == (c.year * 100 + c.month) * 100 + c.day;
    DivModUnique(n, 100, c.year * 100 + c.month, c.day);
  }

  lemma MulBounds(x: nat, b: nat, top: nat)
    requires x <= top
    ensures 0 <= x * b <= top * b
  {
  }

  /** `dateComponentsToString`: the year in four digits, then the month and
      the day in two each. For components that fit those widths the text is
      eight digits, each field readable at its place, and the whole reads
      as the integer form of the same components. */
  function DateComponentsToString(c: DateComponents): (r: string)
    ensures 0 <= c.day < 100 && 0 <= c.month < 100 && 0 <= c.year < 10000 ==>
      && |r| == 8 && AllDigits(r)
      && ParseInteger(r[..4]) == Some(c.year as int)
      && ParseInteger(r[4..6]) == Some(c.month as int)
      && ParseInteger(r[6..]) == Some(c.day as int)
      && ParseInteger(r) == Some(DateComponentsToInteger(c) as int)
  {
    if 0 <= c.day < 100 && 0 <= c.month < 100 && 0 <= c.year < 10000 then
      FieldsReadParts(c);
      PackedValue(c);
      Fields(c)
    else Fields(c)
  }

  /** The year, month and day through `formatIntegerToString` with widths
      4, 2 and 2; a positive width always formats, to `Padded`. */
  function Fields(c: DateComponents): string {
    Padded(c.year as int, 4) + Padded(c.month as int, 2) + Padded(c.day as int, 2)
  }

  /** The joined fields read back field by field, and as a whole as the
      packed value computed without wrap-around. */
  lemma FieldsReadParts(c: DateComponents)
    requires 0 <= c.day < 100 && 0 <= c.month < 100 && 0 <= c.year < 10000
    ensures var r := Fields(c);
      && |r| == 8 && AllDigits(r)
      && ParseInteger(r[..4]) == Some(c.year as int)
      && ParseInteger(r[4..6]) == Some(c.month as int)
      && ParseInteger(r[6..]) == Some(c.day as int)
      && ParseInteger(r) == Some(c.year * 10000 + c.month * 100 + c.day)
  {
    var y, m, d := Padded(c.year as int, 4), Padded(c.month as int, 2), Padded(c.day as int, 2);
    FieldWidth(c.year, 4);
    FieldWidth(c.month, 2);
    FieldWidth(c.day, 2);
    ReadBack(y, m, d, c.year as int, c.month as int, c.day as int);
  }

  /** Four, two and two digits joined read back field by field and as a
      whole. */
  lemma ReadBack(y: string, m: string, d: string, year: int, month: int, day: int)
    requires |y| == 4 && |m| == 2 && |d| == 2
    requires AllDigits(y) && AllDigits(m) && AllDigits(d)
    requires DigitsValue(y) == year && DigitsValue(m) == month && DigitsValue(d) == day
    ensures var r := y + m + d;
      && |r| == 8 && AllDigits(r)
      && ParseInteger(r[..4]) == Some(year)
      && ParseInteger(r[4..6]) == Some(month)
      && ParseInteger(r[6..]) == Some(day)
      && ParseInteger(r) == Some(year * 10000 + month * 100 + day)
  {
    FieldsSplit(y, m, d);
    WholeRead(y, m, d);
    JoinValue(y, m, d);
  }

  /** Eight digits read as a whole give the packed value of their fields. */
  lemma WholeRead(y: string, m: string, d: string)
    requires |y| == 4 && |m| == 2 && |d| == 2
    requires AllDigits(y) && AllDigits(m) && AllDigits(d)
    ensures ParseInteger(y + m + d) == Some(DigitsValue(y) * 10000 + DigitsValue(m) * 100 + DigitsValue(d))
  {
    JoinValue(y, m, d);
    ParseUnsigned(y + m + d);
  }

  /** Components that fit their digits pack without wrap-around. */
  lemma PackedValue(c: DateComponents)
    requires 0 <= c.day < 100 && 0 <= c.month < 100 && 0 <= c.year < 10000
    ensures DateComponentsToInteger(c) as int == c.year * 10000 + c.month * 100 + c.day
  {
    PackedDigits(c);
  }

  /** The three fields, read back from their places in the joined text. */
  lemma FieldsSplit(y: string, m: string, d: string)
    requires |y| == 4 && |m| == 2 && |d| == 2
    requires AllDigits(y) && AllDigits(m) && AllDigits(d)
    ensures ParseInteger((y + m + d)[..4]) == Some(DigitsValue(y) as int)
    ensures ParseInteger((y + m + d)[4..6]) == Some(DigitsValue(m) as int)
    ensures ParseInteger((y + m + d)[6..]) == Some(DigitsValue(d) as int)
  {
    assert (y + m + d)[..4] == y && (y + m + d)[4..6] == m && (y + m + d)[6..] == d;
    ParseUnsigned(y);
    ParseUnsigned(m);
    ParseUnsigned(d);
  }

  /** Eight digits read as four, two and two digit fields. */
  lemma JoinValue(y: string, m: string, d: string)
    requires AllDigits(y) && AllDigits(m) && AllDigits(d) && |m| == 2 && |d| == 2
    ensures AllDigits(y + m + d)
    ensures DigitsValue(y + m + d) == DigitsValue(y) * 10000 + DigitsValue(m) * 100 + DigitsValue(d)
  {
    assert Pow10(2) == 100;
    DigitsValueAppend(y, m);
    DigitsValueAppend(y + m, d);
  }

  /** A non-negative number below `10^width` fills exactly `width` digits. */
  lemma FieldWidth(n: Int32, width: nat)
    requires 0 <= n < Pow10(width) && width >= 1
    ensures |Padded(n as int, width)| == width
    ensures AllDigits(Padded(n as int, width))
    ensures DigitsValue(Padded(n as int, width)) == n as int
  {
    var digits := NatToString(n);
    if |digits| > width {
      DigitsLeadingNonZero(digits);
      PowMonotone(width, |digits| - 1);
    }
    var fill := width - |digits|;
    assert Padded(n, width) == Zeros(fill) + digits;
    LeadingZeros(fill, digits);
  }

  /** Digit runs with a non-zero first digit are at least `10^(length - 1)`. */
  lemma {:induction false} DigitsLeadingNonZero(s: string)
    requires AllDigits(s) && |s| > 0 && s[0] != '0'
    ensures DigitsValue(s) >= Pow10(|s| - 1)
  {
    if |s| > 1 {
      DigitsLeadingNonZero(s[..|s| - 1]);
    } else {
      assert DigitValue(s[0]) >= 1;
    }
  }

  lemma {:induction false} PowMonotone(a: nat, b: nat)
    requires a <= b
    ensures Pow10(a) <= Pow10(b)
    decreases b
  {
    if a < b {
      PowMonotone(a, b - 1);
    }
  }

  /** The example of the runtime's own unit test: day 10, month 20, year
      2020. */
  lemma DateComponentsToStringExample()
    ensures DateComponentsToString(DateComponents(10, 20, 2020)) == "20202010"
  {
    YearField();
    TwoDigitField(20, '2', '0');
    TwoDigitField(10, '1', '0');
    assert Fields(DateComponents(10, 20, 2020)) == "2020" + "20" + "10";
  }

  lemma YearField()
    ensures Padded(2020, 4) == "2020"
  {
    Value2020();
    FieldIs(2020, 4, "2020");
  }

  lemma TwoDigitField(n: Int32, a: char, b: char)
    requires IsDigit(a) && IsDigit(b) && n as int == DigitValue(a) * 10 + DigitValue(b)
    ensures Padded(n as int, 2) == [a, b]
  {
    TwoDigitValue(a, b);
    FieldIs(n, 2, [a, b]);
  }

  lemma Value2020()
    ensures AllDigits("2020") && DigitsValue("2020") == 2020
  {
    assert "2020"[..3] == "202" && "202"[..2] == "20" && "20"[..1] == "2" && "2"[..0] == "";
  }

  lemma TwoDigitValue(a: char, b: char)
    requires IsDigit(a) && IsDigit(b)
    ensures AllDigits([a, b]) && DigitsValue([a, b]) == DigitValue(a) * 10 + DigitValue(b)
  {
    assert [a, b][..1] == [a] && [a][..0] == [];
    assert DigitsValue([a]) == DigitValue(a);
    assert DigitsValue([a, b]) == DigitsValue([a]) * 10 + DigitValue(b);
  }

  lemma FieldIs(n: Int32, width: nat, text: string)
    requires 0 <= n < Pow10(width) && width >= 1
    requires |text| == width && AllDigits(text) && DigitsValue(text) == n
    ensures Padded(n as int, width) == text
  {
    FieldWidth(n, width);
    DigitsUnique(text, Padded(n as int, width));
  }
}
