/** The positional half of the edit-mask matcher.

    The runtime translates a mask into a regular expression, one atom per
    mask position followed by `.*`, and matches the whole input against it.
    Here the compiled pattern is the sequence of per-position character
    classes, and `MatchesClasses` is what `Pattern.matches` decides for such
    a pattern: one input character per position, in that position's class,
    then any characters except line terminators.

    The mask text is scanned left to right in one of two lexical states:
    token state, where each character is looked up in the token table, and
    literal state, entered and left by an apostrophe, where every character
    except a backslash stands for itself. */
module MaskCompiler {
  import opened Results
  import opened Chars

  /** The class of characters one mask position accepts. */
  datatype CharClass =
    | UpperLetter          // U: [A-Z]
    | AnyDigit             // N, Y, M, D, 1..9: \d or [0-9]
    | LetterDigitOrSpace   // C: [A-Za-z\s\d]
    | WordOrSpace          // P: [\w\s]
    | Exactly(c: char)     // '/', '0' and every literal character

  predicate InClass(c: char, k: CharClass) {
    match k
    case UpperLetter => IsUpper(c)
    case AnyDigit => IsDigit(c)
    case LetterDigitOrSpace => IsLetter(c) || IsRegexSpace(c) || IsDigit(c)
    case WordOrSpace => IsWordChar(c) || IsRegexSpace(c)
    case Exactly(x) => c == x
  }

  /** What a mask character means in token state. */
  datatype Token = Position(k: CharClass) | Quote | Unsupported

  /** The token table, in the order the runtime tests the characters. */
  function TokenMeaning(c: char): Token {
    if c == 'U' then Position(UpperLetter)
    else if c == 'N' || c == 'Y' || c == 'M' || c == 'D' then Position(AnyDigit)
    else if c == 'C' then Position(LetterDigitOrSpace)
    else if c == '/' then Position(Exactly('/'))
    else if c == '0' then Position(Exactly('0'))
    else if '1' <= c <= '9' then Position(AnyDigit)
    else if c == 'P' then Position(WordOrSpace)
    else if c == '\'' then Quote
    else Unsupported
  }

  function Prepend(k: CharClass, rest: Result<seq<CharClass>>): Result<seq<CharClass>> {
    match rest
    case Ok(ks) => Ok([k] + ks)
    case Err(e) => Err(e)
  }

  /** Scans `text` starting in literal state when `inLiteral` holds. The
      first offending character, from the left, is the one reported. */
  function Scan(text: string, inLiteral: bool): (r: Result<seq<CharClass>>)
    ensures r.Ok? ==> |r.value| + CountQuotes(text) == |text|
  {
    if text == [] then Ok([])
    else
      var c := text[0];
      if inLiteral then
        if c == '\'' then Scan(text[1..], false)
        else if c == '\\' then Err(NaturalException(UnsupportedMaskValue(c)))
        else Prepend(Exactly(c), Scan(text[1..], true))
      else
        match TokenMeaning(c)
        case Position(k) => Prepend(k, Scan(text[1..], false))
        case Quote => Scan(text[1..], true)
        case Unsupported => Err(NaturalException(UnsupportedMaskValue(c)))
  }

  /** Compiles a static mask text; scanning starts in token state and an
      unterminated literal at the end is accepted as it stands. */
  function Compile(text: string): (r: Result<seq<CharClass>>)
    ensures r.Ok? ==> |r.value| == |text| - CountQuotes(text)
    ensures r.Err? ==> RefusesOneOf(r, text)
  {
    ScanRefusesOwnCharacter(text, false);
    Scan(text, false)
  }

  /** Scanning only ever refuses a character of the text itself. */
  lemma {:induction false} ScanRefusesOwnCharacter(text: string, inLiteral: bool)
    ensures Scan(text, inLiteral).Err? ==> RefusesOneOf(Scan(text, inLiteral), text)
  {
    if text != [] {
      ScanRefusesOwnCharacter(text[1..], inLiteral);
      ScanRefusesOwnCharacter(text[1..], !inLiteral);
    }
  }

  /** A refusal that names one of the characters of `text` as unsupported. */
  predicate RefusesOneOf(r: Result<seq<CharClass>>, text: string) {
    && r.Err? && r.error.NaturalException? && r.error.reason.UnsupportedMaskValue?
    && r.error.reason.c in text
  }

  /** What `Pattern.matches` decides for the compiled pattern followed by `.*`. */
  predicate MatchesClasses(classes: seq<CharClass>, input: string) {
    && |input| >= |classes|
    && (forall i :: 0 <= i < |classes| ==> InClass(input[i], classes[i]))
    && (forall i :: |classes| <= i < |input| ==> !IsLineTerminator(input[i]))
  }

  /** Runs the compiled pattern over the input, one position at a time. */
  method Matches(classes: seq<CharClass>, input: string) returns (accepted: bool)
    ensures accepted <==> MatchesClasses(classes, input)
  {
    if |input| < |classes| {
      return false;
    }
    var i := 0;
    while i < |classes|
      invariant 0 <= i <= |classes|
      invariant forall j :: 0 <= j < i ==> InClass(input[j], classes[j])
    {
      if !InClass(input[i], classes[i]) {
        return false;
      }
      i := i + 1;
    }
    while i < |input|
      invariant |classes| <= i <= |input|
      invariant forall j :: |classes| <= j < i ==> !IsLineTerminator(input[j])
    {
      if IsLineTerminator(input[i]) {
        return false;
      }
      i := i + 1;
    }
    return true;
  }

  // ---------------------------------------------------------------------
  // A position-by-position reference for the scanner.

  /** The apostrophes in `s`. */
  function CountQuotes(s: string): nat {
    Occurrences(s, '\'')
  }

  /** Every apostrophe toggles the lexical state, in either state, and no
      other character changes it; so the state in front of `text[j]` is the
      starting state flipped once per apostrophe before `j`. */
  predicate LiteralAt(text: string, inLiteral: bool, j: nat)
    requires j <= |text|
  {
    inLiteral != (CountQuotes(text[..j]) % 2 == 1)
  }

  /** The character at `j` makes the scanner throw. */
  predicate BadAt(text: string, inLiteral: bool, j: nat)
    requires j < |text|
  {
    if LiteralAt(text, inLiteral, j) then text[j] == '\\'
    else TokenMeaning(text[j]).Unsupported?
  }

  /** The class the (non-apostrophe) character at `j` demands. */
  function ClassAt(text: string, inLiteral: bool, j: nat): CharClass
    requires j < |text| && text[j] != '\'' && !BadAt(text, inLiteral, j)
  {
    if LiteralAt(text, inLiteral, j) then Exactly(text[j])
    else TokenMeaning(text[j]).k
  }

  lemma CountQuotesPrefix(text: string, j: nat)
    requires 0 < j <= |text|
    ensures CountQuotes(text[..j]) == (if text[0] == '\'' then 1 else 0) + CountQuotes(text[1..][..j - 1])
  {
    assert text[..j][1..] == text[1..][..j - 1];
  }

  lemma CountQuotesBound(text: string, j: nat)
    requires j <= |text|
    ensures CountQuotes(text[..j]) <= j
  {
    if j > 0 {
      CountQuotesPrefix(text, j);
      CountQuotesBound(text[1..], j - 1);
    }
  }

  /** The lexical state in front of `text[j]`, for `j >= 1`, is the state in
      front of `text[1..][j - 1]` once the first character has been read. */
  lemma LiteralAtShift(text: string, inLiteral: bool, j: nat)
    requires 0 < j <= |text|
    ensures LiteralAt(text, inLiteral, j) == LiteralAt(text[1..], inLiteral != (text[0] == '\''), j - 1)
  {
    CountQuotesPrefix(text, j);
  }

  /** The scanner agrees with the reference: it succeeds exactly when no
      character is bad in the state it is read in, it yields one class per
      non-apostrophe character, and the character at raw offset `j` fills
      position `j` minus the apostrophes in front of it. */
  lemma ScanReference(text: string, inLiteral: bool)
    ensures Scan(text, inLiteral).Ok? <==> forall j :: 0 <= j < |text| ==> !BadAt(text, inLiteral, j)
    ensures Scan(text, inLiteral).Ok? ==>
      && |Scan(text, inLiteral).value| == |text| - CountQuotes(text)
      && forall j :: 0 <= j < |text| && text[j] != '\'' ==>
           CountQuotes(text[..j]) <= j
           && j - CountQuotes(text[..j]) < |Scan(text, inLiteral).value|
           && Scan(text, inLiteral).value[j - CountQuotes(text[..j])] == ClassAt(text, inLiteral, j)
  {
    ScanOkReference(text, inLiteral);
    if Scan(text, inLiteral).Ok? {
      ScanContentsReference(text, inLiteral);
    }
  }

  /** Reading the first character shifts the badness of every later one by
      one position. */
  lemma BadAtShift(text: string, inLiteral: bool)
    requires text != []
    ensures forall j :: 0 < j < |text| ==>
      BadAt(text, inLiteral, j) == BadAt(text[1..], inLiteral != (text[0] == '\''), j - 1)
  {
    forall j | 0 < j < |text|
      ensures BadAt(text, inLiteral, j) == BadAt(text[1..], inLiteral != (text[0] == '\''), j - 1)
    {
      LiteralAtShift(text, inLiteral, j);
    }
  }

  lemma {:induction false} ScanOkReference(text: string, inLiteral: bool)
    ensures Scan(text, inLiteral).Ok? <==> forall j :: 0 <= j < |text| ==> !BadAt(text, inLiteral, j)
  {
    if text != [] {
      var rest := text[1..];
      var next := inLiteral != (text[0] == '\'');
      ScanOkReference(rest, next);
      assert text[..0] == [];
      BadAtShift(text, inLiteral);
      if !BadAt(text, inLiteral, 0) {
        if forall j :: 0 <= j < |rest| ==> !BadAt(rest, next, j) {
          forall j | 0 <= j < |text| ensures !BadAt(text, inLiteral, j) {
            if j > 0 {
              assert !BadAt(rest, next, j - 1);
            }
          }
        }
        if forall j :: 0 <= j < |text| ==> !BadAt(text, inLiteral, j) {
          forall j | 0 <= j < |rest| ensures !BadAt(rest, next, j) {
            assert !BadAt(text, inLiteral, j + 1);
          }
        }
      }
    }
  }

  lemma {:induction false} ScanContentsReference(text: string, inLiteral: bool)
    requires Scan(text, inLiteral).Ok?
    ensures forall j :: 0 <= j < |text| ==> !BadAt(text, inLiteral, j)
    ensures |Scan(text, inLiteral).value| == |text| - CountQuotes(text)
    ensures forall j :: 0 <= j < |text| && text[j] != '\'' ==>
      CountQuotes(text[..j]) <= j
      && j - CountQuotes(text[..j]) < |Scan(text, inLiteral).value|
      && Scan(text, inLiteral).value[j - CountQuotes(text[..j])] == ClassAt(text, inLiteral, j)
  {
    ScanOkReference(text, inLiteral);
    if text != [] {
      var c := text[0];
      var rest := text[1..];
      var next := inLiteral != (c == '\'');
      assert text[..0] == [];
      assert !BadAt(text, inLiteral, 0);
      assert Scan(rest, next).Ok?;
      ScanContentsReference(rest, next);
      var ks := Scan(text, inLiteral).value;
      var rs := Scan(rest, next).value;
      assert ks == (if c == '\'' then rs else [ClassAt(text, inLiteral, 0)] + rs);
      forall j | 0 <= j < |text| && text[j] != '\''
        ensures CountQuotes(text[..j]) <= j
        ensures j - CountQuotes(text[..j]) < |ks|
        ensures ks[j - CountQuotes(text[..j])] == ClassAt(text, inLiteral, j)
      {
        CountQuotesBound(text, j);
        if j > 0 {
          ScanContentsStep(text, inLiteral, j);
        }
      }
    }
  }

  /** One later position of the contents: its class and where it lands
      follow from the scan of the rest. */
  lemma ScanContentsStep(text: string, inLiteral: bool, j: nat)
    requires 0 < j < |text| && text[j] != '\''
    requires !BadAt(text, inLiteral, j)
    ensures text[1..][j - 1] == text[j]
    ensures && text[1..][j - 1] != '\''
            && !BadAt(text[1..], inLiteral != (text[0] == '\''), j - 1)
            && ClassAt(text, inLiteral, j) == ClassAt(text[1..], inLiteral != (text[0] == '\''), j - 1)
    ensures j - CountQuotes(text[..j])
         == (j - 1 - CountQuotes(text[1..][..j - 1])) + 1 - (if text[0] == '\'' then 1 else 0)
  {
    CountQuotesPrefix(text, j);
    LiteralAtShift(text, inLiteral, j);
  }

  /** Characters left in an open literal are matched verbatim. */
  function Literals(s: string): (ks: seq<CharClass>)
    ensures |ks| == |s|
    ensures forall i :: 0 <= i < |s| ==> ks[i] == Exactly(s[i])
  {
    seq(|s|, i requires 0 <= i < |s| => Exactly(s[i]))
  }

  /** The result of scanning one character given the result of scanning
      the rest; an error at the character wins over the rest. */
  function Step(c: char, inLiteral: bool, rest: Result<seq<CharClass>>): Result<seq<CharClass>> {
    if inLiteral then
      if c == '\'' then rest
      else if c == '\\' then Err(NaturalException(UnsupportedMaskValue(c)))
      else Prepend(Exactly(c), rest)
    else
      match TokenMeaning(c)
      case Position(k) => Prepend(k, rest)
      case Quote => rest
      case Unsupported => Err(NaturalException(UnsupportedMaskValue(c)))
  }

  /** Two scan results joined: the first error wins, otherwise the classes
      concatenate. */
  function Then(first: Result<seq<CharClass>>, second: Result<seq<CharClass>>): Result<seq<CharClass>> {
    match first
    case Err(e) => Err(e)
    case Ok(ka) =>
      match second
      case Err(e) => Err(e)
      case Ok(kb) => Ok(ka + kb)
  }

  /** One character of scanning, with the state it leaves for the rest. */
  lemma ScanUnfold(text: string, inLiteral: bool)
    requires text != []
    ensures Scan(text, inLiteral) == Step(text[0], inLiteral, Scan(text[1..], inLiteral != (text[0] == '\'')))
  {
  }

  /** Stepping over one character commutes with joining the later results. */
  lemma StepThen(c: char, inLiteral: bool, first: Result<seq<CharClass>>, second: Result<seq<CharClass>>)
    ensures Step(c, inLiteral, Then(first, second)) == Then(Step(c, inLiteral, first), second)
  {
    match first
    case Err(e) =>
    case Ok(ka) =>
      match second
      case Err(e) =>
      case Ok(kb) =>
        assert [Exactly(c)] + (ka + kb) == ([Exactly(c)] + ka) + kb;
        if !inLiteral && TokenMeaning(c).Position? {
          assert [TokenMeaning(c).k] + (ka + kb) == ([TokenMeaning(c).k] + ka) + kb;
        }
  }

  /** The first character flips the parity of the apostrophe count exactly
      when it is an apostrophe. */
  lemma QuoteParity(a: string)
    requires a != []
    ensures (CountQuotes(a) % 2 == 1) == ((a[0] == '\'') != (CountQuotes(a[1..]) % 2 == 1))
  {
  }

  /** Scanning a concatenation scans the second part in the state the first
      part leaves behind; the leftmost error wins. */
  lemma {:induction false} ScanAppend(a: string, b: string, inLiteral: bool)
    ensures Scan(a + b, inLiteral) ==
      match Scan(a, inLiteral)
      case Err(e) => Err(e)
      case Ok(ka) =>
        match Scan(b, inLiteral != (CountQuotes(a) % 2 == 1))
        case Err(e) => Err(e)
        case Ok(kb) => Ok(ka + kb)
  {
    var after := inLiteral != (CountQuotes(a) % 2 == 1);
    assert Then(Scan(a, inLiteral), Scan(b, after)) ==
      match Scan(a, inLiteral)
      case Err(e) => Err(e)
      case Ok(ka) =>
        match Scan(b, after)
        case Err(e) => Err(e)
        case Ok(kb) => Ok(ka + kb);
    if a == [] {
      assert a + b == b;
      match Scan(b, inLiteral)
      case Err(e) =>
      case Ok(kb) => assert [] + kb == kb;
    } else {
      assert (a + b)[0] == a[0];
      assert (a + b)[1..] == a[1..] + b;
      var next := inLiteral != (a[0] == '\'');
      ScanAppend(a[1..], b, next);
      QuoteParity(a);
      assert Scan(a[1..] + b, next) == Then(Scan(a[1..], next), Scan(b, after));
      ScanUnfold(a + b, inLiteral);
      ScanUnfold(a, inLiteral);
      StepThen(a[0], inLiteral, Scan(a[1..], next), Scan(b, after));
    }
  }

  /** Inside a literal, a run free of apostrophes and backslashes is copied
      verbatim, whether or not a closing apostrophe ever follows. */
  lemma {:induction false} ScanOpenLiteral(s: string)
    requires forall i :: 0 <= i < |s| ==> s[i] != '\'' && s[i] != '\\'
    ensures Scan(s, true) == Ok(Literals(s))
  {
    if s != [] {
      ScanOpenLiteral(s[1..]);
      assert Literals(s) == [Exactly(s[0])] + Literals(s[1..]);
    }
  }

  /** A literal left open at the end of the mask is not an error: after a
      mask prefix that compiles and ends in token state, an apostrophe and
      any run of plain characters compile to those characters verbatim. */
  lemma UnterminatedLiteralAccepted(prefix: string, s: string)
    requires Compile(prefix).Ok? && CountQuotes(prefix) % 2 == 0
    requires forall i :: 0 <= i < |s| ==> s[i] != '\'' && s[i] != '\\'
    ensures Compile(prefix + "'" + s) == Ok(Compile(prefix).value + Literals(s))
  {
    ScanAppend(prefix, "'" + s, false);
    assert ("'" + s)[1..] == s;
    ScanOpenLiteral(s);
    assert prefix + "'" + s == prefix + ("'" + s);
  }

  /** A backslash inside a literal always makes compilation fail. */
  lemma BackslashInLiteralRejected(prefix: string, s: string)
    requires CountQuotes(prefix) % 2 == 1
    ensures Compile(prefix + "\\" + s).Err?
  {
    var text := prefix + "\\" + s;
    ScanReference(text, false);
    assert text[..|prefix|] == prefix;
    assert BadAt(text, false, |prefix|);
  }

  /** Outside a literal, a character missing from the token table always
      makes compilation fail. */
  lemma UnknownTokenRejected(prefix: string, c: char, s: string)
    requires CountQuotes(prefix) % 2 == 0
    requires TokenMeaning(c).Unsupported?
    ensures Compile(prefix + [c] + s).Err?
  {
    var text := prefix + [c] + s;
    ScanReference(text, false);
    assert text[..|prefix|] == prefix;
    assert BadAt(text, false, |prefix|);
  }

  /** Tokens the mask grammar documents but the compiler has no entry for:
      alphabetic, hexadecimal, Julian-day, lower-case, special, operand and
      half-byte checks, and the unchecked-position and wildcard marks. The
      `n1-n2` range form fails on its `-`. */
  lemma DocumentedTokensUnsupported(c: char)
    requires c in "AHJLSXZ.?_*%-"
    ensures TokenMeaning(c).Unsupported?
    ensures Compile([c]).Err?
  {
  }

  /** The accepted inputs, read off the raw mask text: at least as long as
      the mask without its apostrophes, the character at position
      `j - (apostrophes before j)` in the class the mask character at raw
      offset `j` demands in the state it is read in, and no line terminator
      after the last position. */
  predicate MatchesByMaskCharacter(text: string, input: string)
    requires forall j :: 0 <= j < |text| ==> !BadAt(text, false, j)
  {
    && |input| >= |text| - CountQuotes(text)
    && (forall j :: 0 <= j < |text| && text[j] != '\'' && j - CountQuotes(text[..j]) < |input| ==>
          CountQuotes(text[..j]) <= j
          && InClass(input[j - CountQuotes(text[..j])], ClassAt(text, false, j)))
    && (forall i :: |text| - CountQuotes(text) <= i < |input| ==> !IsLineTerminator(input[i]))
  }

  /** The compiled pattern accepts exactly what the raw mask text describes. */
  lemma CompiledMatchByMaskCharacter(text: string, input: string)
    requires forall j :: 0 <= j < |text| ==> !BadAt(text, false, j)
    ensures Compile(text).Ok?
    ensures MatchesClasses(Compile(text).value, input) == MatchesByMaskCharacter(text, input)
  {
    ScanReference(text, false);
    var ks := Compile(text).value;
    forall j | 0 <= j < |text| ensures CountQuotes(text[..j]) <= j {
      CountQuotesBound(text, j);
    }
    if MatchesByMaskCharacter(text, input) {
      forall p | 0 <= p < |ks| ensures InClass(input[p], ks[p]) {
        var j := RawOffsetOf(text, p);
        assert ks[j - CountQuotes(text[..j])] == ClassAt(text, false, j);
      }
    }
  }

  /** The raw offset of the `p`-th non-apostrophe character. */
  function RawOffsetOf(text: string, p: nat): (j: nat)
    requires p < |text| - CountQuotes(text)
    ensures j < |text| && text[j] != '\'' && j - CountQuotes(text[..j]) == p
  {
    assert text[..0] == [];
    RawOffsetFrom(text, p, 0, 0)
  }

  function RawOffsetFrom(text: string, p: nat, j: nat, quotes: nat): (r: nat)
    requires j < |text| && quotes == CountQuotes(text[..j]) && quotes <= j
    requires j - quotes <= p < |text| - CountQuotes(text)
    ensures r < |text| && text[r] != '\'' && r - CountQuotes(text[..r]) == p
    decreases |text| - j
  {
    CountQuotesAppendOne(text, j);
    CountQuotesWhole(text);
    if text[j] != '\'' && j - quotes == p then j
    else RawOffsetFrom(text, p, j + 1, quotes + (if text[j] == '\'' then 1 else 0))
  }

  lemma CountQuotesWhole(text: string)
    ensures CountQuotes(text[..|text|]) == CountQuotes(text)
  {
    assert text[..|text|] == text;
  }

  lemma {:induction false} CountQuotesAppendOne(text: string, j: nat)
    requires j < |text|
    ensures CountQuotes(text[..j + 1]) == CountQuotes(text[..j]) + (if text[j] == '\'' then 1 else 0)
  {
    CountQuotesConcat(text[..j], [text[j]]);
    assert text[..j + 1] == text[..j] + [text[j]];
  }

  lemma {:induction false} CountQuotesConcat(a: string, b: string)
    ensures CountQuotes(a + b) == CountQuotes(a) + CountQuotes(b)
  {
    if a == [] {
      assert a + b == b;
    } else {
      assert (a + b)[1..] == a[1..] + b;
      CountQuotesConcat(a[1..], b);
    }
  }
}
