/** The runtime's fixed-width string helpers: truncation, justification,
    padding, right trimming and overwriting part of a string.

    Java's `substring` throws `StringIndexOutOfBoundsException` for bounds
    outside the string and `String.repeat` throws `IllegalArgumentException`
    for a negative count; both become `Err` here. */
module Strings {
  import opened Results
  import opened Chars

  function Spaces(n: nat): (r: string)
    ensures |r| == n && Blank(r)
  {
    seq(n, _ => ' ')
  }

  predicate Blank(s: string) {
    forall i :: 0 <= i < |s| ==> s[i] == ' '
  }

  function Min(a: int, b: int): int {
    if a < b then a else b
  }

  /** `truncate(int, String)`: the first `length` characters, or all of
      them; a negative length throws. */
  function Truncate(length: int, source: string): (r: Result<string>)
    ensures r.Err? <==> length < 0
    ensures r.Err? ==> r.error == IndexOutOfBounds
    ensures r.Ok? ==> |r.value| == Min(|source|, length) && r.value <= source
  {
    var n := Min(|source|, length);
    if n < 0 then Err(IndexOutOfBounds) else Ok(source[..n])
  }

  /** `rightJustify`: exactly `length` characters, the source (cut to
      `length`) at the right and blanks on the left. */
  function RightJustify(length: int, source: string): (r: Result<string>)
    ensures r.Err? <==> length < 0
    ensures r.Err? ==> r.error == IndexOutOfBounds
    ensures r.Ok? ==> |r.value| == length
    ensures r.Ok? ==> var kept := Min(|source|, length);
      r.value[length - kept..] == source[..kept] && Blank(r.value[..length - kept])
  {
    if |source| > length then
      if length < 0 then Err(IndexOutOfBounds) else Ok(source[..length])
    else
      Ok(Spaces(length - |source|) + source)
  }

  /** `padString`: a null value becomes `desiredLength` blanks; a shorter
      value is blank-padded on the left (right-aligned) or on the right
      (left-aligned); a longer one is cut to its first `desiredLength`
      characters. */
  function PadString(value: Option<string>, desiredLength: int, rightAligned: bool): (r: Result<string>)
    ensures r.Err? <==> desiredLength < 0
    ensures r.Err? ==> r.error == (if value.None? then IllegalArgument else IndexOutOfBounds)
    ensures r.Ok? ==> |r.value| == desiredLength
    ensures r.Ok? && value.None? ==> Blank(r.value)
    ensures r.Ok? && value.Some? && |value.value| >= desiredLength ==> r.value == value.value[..desiredLength]
    ensures r.Ok? && value.Some? && |value.value| < desiredLength && rightAligned ==>
      var gap := desiredLength - |value.value|;
      r.value[gap..] == value.value && Blank(r.value[..gap])
    ensures r.Ok? && value.Some? && |value.value| < desiredLength && !rightAligned ==>
      r.value[..|value.value|] == value.value && Blank(r.value[|value.value|..])
  {
    match value
    case None => if desiredLength < 0 then Err(IllegalArgument) else Ok(Spaces(desiredLength))
    case Some(s) =>
      if |s| < desiredLength then
        if rightAligned then Ok(Spaces(desiredLength - |s|) + s)
        else Ok(s + Spaces(desiredLength - |s|))
      else if |s| > desiredLength then
        if desiredLength < 0 then Err(IndexOutOfBounds) else Ok(s[..desiredLength])
      else Ok(s)
  }

  /** `padRightAlignedString`: a value that fits ends the result. */
  function PadRightAligned(value: Option<string>, desiredLength: int): (r: Result<string>)
    ensures r.Ok? ==> |r.value| == desiredLength
    ensures r.Ok? && value.Some? && |value.value| <= desiredLength ==>
      r.value[desiredLength - |value.value|..] == value.value
  {
    PadString(value, desiredLength, true)
  }

  /** `padLeftAlignedString`: a value that fits starts the result. */
  function PadLeftAligned(value: Option<string>, desiredLength: int): (r: Result<string>)
    ensures r.Ok? ==> |r.value| == desiredLength
    ensures r.Ok? && value.Some? && |value.value| <= desiredLength ==>
      r.value[..|value.value|] == value.value
  {
    PadString(value, desiredLength, false)
  }

  /** `rightJustify` is the right-aligned `padString`, errors included. */
  lemma RightJustifyIsPadRightAligned(length: int, source: string)
    ensures RightJustify(length, source) == PadRightAligned(Some(source), length)
  {
  }

  /** Left-aligned padding is truncation followed by blanks. */
  lemma PadLeftIsTruncateThenBlanks(value: string, desiredLength: int)
    requires desiredLength >= 0
    ensures PadLeftAligned(Some(value), desiredLength)
         == Ok(Truncate(desiredLength, value).value + Spaces(desiredLength - Min(|value|, desiredLength)))
  {
    var r := PadLeftAligned(Some(value), desiredLength).value;
    var t := Truncate(desiredLength, value).value;
    var b := Spaces(desiredLength - Min(|value|, desiredLength));
    assert r == t + b by {
      assert |r| == |t + b|;
      forall i | 0 <= i < |r| ensures r[i] == (t + b)[i] {
        if i < |t| {
          if |value| < desiredLength {
            assert r[i] == r[..|value|][i];
          }
        }
      }
    }
  }

  /** Padding is idempotent: a value already of the desired length is
      returned unchanged. */
  lemma PadToOwnLength(value: string, rightAligned: bool)
    ensures PadString(Some(value), |value|, rightAligned) == Ok(value)
  {
  }

  // ---------------------------------------------------------------------
  // trimRight

  /** The longest prefix that does not end in whitespace. */
  function TrimEnd(s: string): (t: string)
    ensures t <= s
    ensures forall k :: |t| <= k < |s| ==> IsJavaWhitespace(s[k])
    ensures |t| > 0 ==> !IsJavaWhitespace(t[|t| - 1])
  {
    if s == [] || !IsJavaWhitespace(s[|s| - 1]) then s
    else TrimEnd(s[..|s| - 1])
  }

  /** `trimRight`: null stays null; otherwise trailing whitespace goes. */
  function TrimRight(value: Option<string>): (r: Option<string>)
    ensures r.None? <==> value.None?
    ensures r.Some? ==> r.value == TrimEnd(value.value)
  {
    match value
    case None => None
    case Some(s) => Some(TrimEnd(s))
  }

  /** The characterization above pins the trimmed text down: any prefix
      that leaves only whitespace behind and does not itself end in
      whitespace is the trimmed text. */
  lemma TrimEndUnique(s: string, t: string)
    requires t <= s
    requires forall k :: |t| <= k < |s| ==> IsJavaWhitespace(s[k])
    requires |t| > 0 ==> !IsJavaWhitespace(t[|t| - 1])
    ensures TrimEnd(s) == t
  {
  }

  /** Trimming is idempotent, and trailing blanks added by left-aligned
      padding are trimmed away again. */
  lemma TrimEndIdempotent(s: string)
    ensures TrimEnd(TrimEnd(s)) == TrimEnd(s)
  {
    TrimEndUnique(TrimEnd(s), TrimEnd(s));
  }

  lemma TrimEndAfterPadding(s: string, n: nat)
    requires n >= |s|
    ensures TrimEnd(PadLeftAligned(Some(s), n).value) == TrimEnd(s)
  {
    var padded := PadLeftAligned(Some(s), n).value;
    var t := TrimEnd(s);
    assert padded[..|s|] == s;
    assert t <= padded;
    forall k | |t| <= k < |padded| ensures IsJavaWhitespace(padded[k]) {
      if k < |s| {
        assert padded[k] == padded[..|s|][k];
      } else {
        assert padded[k] == padded[|s|..][k - |s|];
      }
    }
    TrimEndUnique(padded, t);
  }

  // ---------------------------------------------------------------------
  // setSubstring

  /** `setSubstring`: replaces the characters in `[start, end)` by `value`,
      cut or blank-padded to fit that area exactly; every other character
      keeps its place. */
  function SetSubstring(s: string, start: int, end: int, value: string): (r: Result<string>)
    ensures r.Ok? <==> 0 <= start <= end <= |s|
    ensures r.Err? ==> r.error == IndexOutOfBounds
    ensures r.Ok? ==>
      && |r.value| == |s|
      && r.value[..start] == s[..start]
      && r.value[end..] == s[end..]
      && r.value[start..end] == PadLeftAligned(Some(value), end - start).value
  {
    var area := end - start;
    var fitted :-
      if |value| > area then
        if area < 0 then Err(IndexOutOfBounds) else Ok(value[..area])
      else if |value| < area then Ok(value + Spaces(area - |value|))
      else Ok(value);
    if 0 <= start <= |s| && 0 <= end <= |s| then
      var r := s[..start] + fitted + s[end..];
      assert r[start..end] == fitted;
      Ok(r)
    else Err(IndexOutOfBounds)
  }

  /** A value exactly the size of the area is written as it is. */
  lemma SetSubstringExactFit(s: string, start: int, value: string)
    requires 0 <= start && start + |value| <= |s|
    ensures SetSubstring(s, start, start + |value|, value).Ok?
    ensures SetSubstring(s, start, start + |value|, value).value[start..start + |value|] == value
  {
    PadToOwnLength(value, false);
  }
}
