/** Decimal text and Java integer arithmetic.

    Covers what the runtime borrows from the JDK for numbers: the text forms
    accepted by `Integer.parseInt` and `new BigInteger(String)` when written
    in the ASCII digits `0`..`9`, the text produced by `Integer.toString`,
    Java's truncating `/` and `%`, and the 32-bit wrap-around of `int`
    arithmetic. */
module Numbers {
  import opened Results
  import opened Chars

  /** Java's `int`. */
  type Int32 = n: int | -0x8000_0000 <= n < 0x8000_0000

  const TwoTo32: int := 0x1_0000_0000

  predicate AllDigits(s: string) {
    forall i :: 0 <= i < |s| ==> IsDigit(s[i])
  }

  function DigitValue(c: char): (d: nat)
    requires IsDigit(c)
    ensures d < 10
  {
    (c as int) - ('0' as int)
  }

  function DigitChar(d: nat): (c: char)
    requires d < 10
    ensures IsDigit(c) && DigitValue(c) == d
  {
    (('0' as int) + d) as char
  }

  function Pow10(n: nat): (p: nat)
    ensures p >= 1
  {
    if n == 0 then 1 else 10 * Pow10(n - 1)
  }

  /** The value of a run of decimal digits, most significant digit first. */
  function DigitsValue(s: string): nat
    requires AllDigits(s)
  {
    if s == [] then 0 else DigitsValue(s[..|s| - 1]) * 10 + DigitValue(s[|s| - 1])
  }

  lemma {:induction false} DigitsValueBound(s: string)
    requires AllDigits(s)
    ensures DigitsValue(s) < Pow10(|s|)
  {
    if s != [] {
      DigitsValueBound(s[..|s| - 1]);
    }
  }

  /** Reading `a + b` is reading `a` shifted left by `|b|` places plus `b`. */
  lemma {:induction false} DigitsValueAppend(a: string, b: string)
    requires AllDigits(a) && AllDigits(b)
    ensures AllDigits(a + b)
    ensures DigitsValue(a + b) == DigitsValue(a) * Pow10(|b|) + DigitsValue(b)
  {
    if b != [] {
      var ab := a + b;
      var front := b[..|b| - 1];
      assert ab[..|ab| - 1] == a + front;
      DigitsValueAppend(a, front);
      var x, p, y, d := DigitsValue(a), Pow10(|b| - 1), DigitsValue(front), DigitValue(b[|b| - 1]);
      assert DigitsValue(ab) == DigitsValue(a + front) * 10 + d;
      assert DigitsValue(b) == y * 10 + d;
      assert Pow10(|b|) == 10 * p;
      ShiftDigit(x, p, y, d);
    } else {
      assert a + b == a;
    }
  }

  lemma ShiftDigit(x: int, p: int, y: int, d: int)
    ensures (x * p + y) * 10 + d == x * (10 * p) + (y * 10 + d)
  {
  }

  /** A run of zeros reads as 0. */
  lemma {:induction false} ZerosValue(n: nat)
    ensures AllDigits(Zeros(n)) && DigitsValue(Zeros(n)) == 0
  {
    if n > 0 {
      assert Zeros(n)[..n - 1] == Zeros(n - 1);
      ZerosValue(n - 1);
    }
  }

  function Zeros(n: nat): (z: string)
    ensures |z| == n
    ensures forall i :: 0 <= i < n ==> z[i] == '0'
  {
    seq(n, _ => '0')
  }

  /** Leading zeros do not change the value of a digit run. */
  lemma LeadingZeros(n: nat, s: string)
    requires AllDigits(s)
    ensures AllDigits(Zeros(n) + s) && DigitsValue(Zeros(n) + s) == DigitsValue(s)
  {
    ZerosValue(n);
    DigitsValueAppend(Zeros(n), s);
  }

  function Magnitude(n: int): nat {
    if n < 0 then -n else n
  }

  /** The text after an optional leading `-` or `+`. */
  function Unsigned(s: string): string {
    if |s| > 0 && (s[0] == '-' || s[0] == '+') then s[1..] else s
  }

  /** The text forms accepted by `new BigInteger(String)` and, within the
      `int` range, by `Integer.parseInt`: an optional `-` or `+` followed by
      one or more decimal digits, with a value whose sign agrees with the
      text's. `ParseIntegerSpelling` and `ParseIntegerAccepts` pin the
      accepted texts exactly. */
  function ParseInteger(s: string): (r: Option<int>)
    ensures s == "" || s == "-" || s == "+" ==> r.None?
    ensures r.Some? ==> |s| > 0 && (r.value < 0 ==> s[0] == '-') && (s[0] == '-' ==> r.value <= 0)
  {
    if |s| > 0 && (s[0] == '-' || s[0] == '+') then
      var digits := s[1..];
      if |digits| > 0 && AllDigits(digits) then
        var magnitude: int := DigitsValue(digits);
        Some(if s[0] == '-' then -magnitude else magnitude)
      else None
    else if |s| > 0 && AllDigits(s) then Some(DigitsValue(s))
    else None
  }

  /** An accepted text is its value's shortest digits behind leading
      zeros, after the optional sign. */
  lemma ParseIntegerSpelling(s: string)
    requires ParseInteger(s).Some?
    ensures var digits, body := NatToString(Magnitude(ParseInteger(s).value)), Unsigned(s);
      |digits| <= |body| && body == Zeros(|body| - |digits|) + digits
  {
    var body := Unsigned(s);
    CanonicalDigits(body);
    assert Magnitude(ParseInteger(s).value) == DigitsValue(body);
  }

  /** Every optional sign, run of zeros and shortest digits of a number is
      read as that number, negated after a `-`. */
  lemma ParseIntegerAccepts(sign: string, zeros: nat, n: nat)
    requires sign == "" || sign == "-" || sign == "+"
    ensures ParseInteger(sign + Zeros(zeros) + NatToString(n)) == Some(if sign == "-" then -(n as int) else n)
  {
    var digits := NatToString(n);
    var body := Zeros(zeros) + digits;
    LeadingZeros(zeros, digits);
    assert sign + Zeros(zeros) + digits == sign + body;
    SignedDigits(sign, body);
  }

  /** A digit run behind an optional sign reads as its value, negated after
      a `-`. */
  lemma SignedDigits(sign: string, body: string)
    requires sign == "" || sign == "-" || sign == "+"
    requires body != [] && AllDigits(body)
    ensures ParseInteger(sign + body) == Some(if sign == "-" then -(DigitsValue(body) as int) else DigitsValue(body))
  {
    assert IsDigit(body[0]);
    if sign != "" {
      assert (sign + body)[0] == sign[0];
      assert (sign + body)[1..] == body;
    } else {
      assert sign + body == body;
    }
  }

  /** A digit run holding the value 0 is all zeros. */
  lemma {:induction false} ZerosOnly(d: string)
    requires AllDigits(d) && DigitsValue(d) == 0
    ensures d == Zeros(|d|)
  {
    if d != [] {
      var front := d[..|d| - 1];
      ZerosOnly(front);
      assert d[|d| - 1] == '0';
      assert d == front + [d[|d| - 1]];
    }
  }

  /** A non-empty digit run is leading zeros followed by the shortest
      digits of its value. */
  lemma {:induction false} CanonicalDigits(d: string)
    requires AllDigits(d) && d != []
    ensures |NatToString(DigitsValue(d))| <= |d|
    ensures d == Zeros(|d| - |NatToString(DigitsValue(d))|) + NatToString(DigitsValue(d))
  {
    var front, last := d[..|d| - 1], d[|d| - 1];
    var high, low := DigitsValue(front), DigitValue(last);
    var v := DigitsValue(d);
    assert v == high * 10 + low;
    assert DigitChar(low) == last;
    assert d == front + [last];
    if high == 0 {
      ZerosOnly(front);
      assert NatToString(v) == [last];
    } else {
      CanonicalDigits(front);
      assert v / 10 == high && v % 10 == low;
      assert NatToString(v) == NatToString(high) + [last];
    }
  }

  /** `Integer.parseInt`: the same text forms, refused outside `int`. */
  function ParseInt32(s: string): (r: Option<Int32>)
    ensures r.Some? <==> ParseInteger(s).Some? && -0x8000_0000 <= ParseInteger(s).value < 0x8000_0000
    ensures r.Some? ==> r.value == ParseInteger(s).value
  {
    match ParseInteger(s)
    case Some(n) => if -0x8000_0000 <= n < 0x8000_0000 then Some(n as Int32) else None
    case None => None
  }

  /** The shortest decimal text of a natural number. */
  function NatToString(n: nat): (r: string)
    ensures |r| > 0 && AllDigits(r) && DigitsValue(r) == n
    ensures |r| > 1 ==> r[0] != '0'
  {
    if n < 10 then [DigitChar(n)]
    else
      var prefix := NatToString(n / 10);
      var r := prefix + [DigitChar(n % 10)];
      assert r[..|r| - 1] == prefix;
      r
  }

  /** `Integer.toString` and `Long.toString`: a `-` for negative values, then
      the shortest decimal text of the magnitude. */
  function IntToString(n: int): (r: string)
    ensures ParseInteger(r) == Some(n)
    ensures |r| > 0 && (r[0] == '-' <==> n < 0)
  {
    if n < 0 then
      var r := "-" + NatToString(-n);
      assert r[1..] == NatToString(-n);
      r
    else NatToString(n)
  }

  /** Java's `/` on integers: the quotient truncated toward zero. */
  function JavaDiv(a: int, b: int): (q: int)
    requires b != 0
  {
    var q := (if a < 0 then -a else a) / (if b < 0 then -b else b);
    if (a < 0) == (b < 0) then q else -q
  }

  /** Java's `%` on integers: the remainder takes the sign of the dividend. */
  function JavaRem(a: int, b: int): (r: int)
    requires b > 0
    ensures a == b * JavaDiv(a, b) + r
    ensures r == 0 || (r < 0 <==> a < 0)
    ensures -b < r < b
  {
    var m := (if a < 0 then -a else a) % (if b < 0 then -b else b);
    if a < 0 then -m else m
  }

  /** The two's-complement wrap-around of `int` arithmetic. */
  function Wrap32(n: int): (r: Int32)
    ensures (n - r) % TwoTo32 == 0
    ensures -0x8000_0000 <= n < 0x8000_0000 ==> r == n
  {
    var m := n % TwoTo32;
    if m < 0x8000_0000 then m else m - TwoTo32
  }

  /** Division with remainder has one answer. */
  lemma DivModUnique(n: int, b: int, q: int, r: int)
    requires b > 0 && 0 <= r < b && n == q * b + r
    ensures n / b == q && n % b == r
  {
    var d := n / b - q;
    assert d * b == r - n % b;
    if d >= 1 {
      MulAtLeastOne(d, b);
    } else if d <= -1 {
      MulAtLeastOne(-d, b);
    }
  }

  lemma MulAtLeastOne(d: int, b: int)
    requires d >= 1 && b > 0
    ensures d * b >= b
  {
    assert d * b == b + (d - 1) * b;
  }
}
