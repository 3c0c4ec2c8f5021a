/** The runtime's array helpers: finding the n-th match in a string array,
    spreading a string over an array of fixed-width pieces and joining it
    back, chunking a string into parts, and copying values into an index
    range.

    A Java `String[]` may hold nulls, so its elements are `Option<string>`;
    arrays are sequences and a helper that writes into its argument returns
    the updated sequence. */
module ArrayHelpers {
  import opened Results
  import opened Numbers
  import opened Strings
  import opened IndexRanges
  import Slicer

  // ---------------------------------------------------------------------
  // findIndexOfMatchInStringArray

  /** How many of the first `k` elements of `a` the accessor maps to
      `toFind`. Two nulls match, as do two equal strings; a string never
      equals null. */
  function Seen<T>(a: seq<T>, accessor: T -> Option<string>, toFind: Option<string>, k: nat): (n: nat)
    requires k <= |a|
    ensures n <= k
  {
    if k == 0 then 0
    else Seen(a, accessor, toFind, k - 1) + (if accessor(a[k - 1]) == toFind then 1 else 0)
  }

  /** `findIndexOfMatchInStringArray`: the first index at which the number of
      matches seen so far, that index included, equals `matchNumber`; `-1`
      if there is none. For a positive match number that is the index of
      the `matchNumber`-th match. */
  method FindIndexOfMatch<T>(a: seq<T>, accessor: T -> Option<string>, toFind: Option<string>, matchNumber: int)
    returns (index: int)
    ensures -1 <= index < |a|
    ensures index >= 0 ==> Seen(a, accessor, toFind, index + 1) == matchNumber
    ensures index >= 0 ==> forall k :: 0 < k <= index ==> Seen(a, accessor, toFind, k) != matchNumber
    ensures index == -1 ==> forall k :: 0 < k <= |a| ==> Seen(a, accessor, toFind, k) != matchNumber
    ensures matchNumber >= 1 ==> (index == -1 <==> Seen(a, accessor, toFind, |a|) < matchNumber)
    ensures matchNumber >= 1 && index >= 0 ==>
      accessor(a[index]) == toFind && Seen(a, accessor, toFind, index) == matchNumber - 1
    ensures matchNumber <= 0 ==>
      index == if matchNumber == 0 && |a| > 0 && accessor(a[0]) != toFind then 0 else -1
  {
    var found := 0;
    index := 0;
    while index < |a|
      invariant 0 <= index <= |a|
      invariant found == Seen(a, accessor, toFind, index)
      invariant forall k :: 0 < k <= index ==> Seen(a, accessor, toFind, k) != matchNumber
      invariant matchNumber >= 1 ==> found < matchNumber
      invariant matchNumber == 0 && index > 0 ==> found >= 1 && accessor(a[0]) == toFind
    {
      if accessor(a[index]) == toFind {
        found := found + 1;
      }
      if found == matchNumber {
        SeenMonotone(a, accessor, toFind, index + 1, |a|);
        return;
      }
      index := index + 1;
    }
    index := -1;
  }

  /** The string-array overload: the elements themselves are compared. */
  method FindIndexOfMatchInStringArray(a: seq<Option<string>>, toFind: Option<string>, matchNumber: int)
    returns (index: int)
    ensures -1 <= index < |a|
    ensures matchNumber >= 1 ==> (index == -1 <==> Seen(a, x => x, toFind, |a|) < matchNumber)
    ensures matchNumber >= 1 && index >= 0 ==>
      a[index] == toFind && Seen(a, x => x, toFind, index) == matchNumber - 1
    ensures matchNumber <= 0 ==> index == if matchNumber == 0 && |a| > 0 && a[0] != toFind then 0 else -1
  {
    index := FindIndexOfMatch(a, x => x, toFind, matchNumber);
  }

  // ---------------------------------------------------------------------
  // fillStringArray, fillCharArray, unpackCharArray

  /** `i * width`, the offset of piece `i`, written as repeated addition so
      that reasoning about it stays linear. */
  function Offset(i: nat, width: int): int {
    if i == 0 then 0 else Offset(i - 1, width) + width
  }

  lemma {:induction false} OffsetIsProduct(i: nat, width: int)
    ensures Offset(i, width) == i * width
  {
    if i > 0 {
      OffsetIsProduct(i - 1, width);
    }
  }

  lemma {:induction false} OffsetMonotone(i: nat, j: nat, width: int)
    requires i <= j && width > 0
    ensures Offset(i, width) <= Offset(j, width)
    ensures i < j ==> Offset(i, width) + width <= Offset(j, width)
    decreases j
  {
    if i < j {
      OffsetMonotone(i, j - 1, width);
    }
  }

  /** Element `i` after `fillStringArray(array, string, width)` on an array
      of `n` elements: the `i`-th `width`-character piece of the string
      (the last one possibly shorter) while the string and the array last,
      and the empty string after that. */
  function Piece(s: string, width: int, n: nat, i: nat): (p: string)
    ensures width <= 0 ==> p == ""
    ensures |p| <= (if width > 0 then width else 0)
  {
    var at := Offset(i, width);
    if width > 0 && at < Min(|s|, Offset(n, width)) then
      assert 0 <= at by { OffsetMonotone(0, i, width); }
      s[at..Min(at + width, |s|)]
    else ""
  }

  function Pieces(s: string, width: int, n: nat): (r: seq<string>)
    ensures |r| == n
  {
    seq(n, i requires 0 <= i < n => Piece(s, width, n, i))
  }

  /** Where `fillStringArray` stops writing: the string's length or the
      array's capacity, whichever is smaller. The capacity
      `length * numCharsPerArrayItem` is an `int` product and wraps. */
  function EndLength(n: nat, s: string, width: int): (e: int)
    ensures e <= |s|
    ensures 0 <= n * width < 0x8000_0000 ==> e == Min(|s|, n * width)
    ensures 0 <= n * width ==> e <= n * width
  {
    Min(|s|, Wrap32(n * width))
  }

  /** Element `i` after `fillStringArray` stops at `end`: the `i`-th
      `width`-character piece of the string when it starts before `end`, and
      the empty string otherwise. A piece that starts before `end` is not
      cut there, only at the end of the string. */
  function PieceBefore(s: string, width: int, end: int, i: nat): (p: string)
    ensures width <= 0 ==> p == ""
    ensures |p| <= (if width > 0 then width else 0)
  {
    var at := Offset(i, width);
    if width > 0 && at < Min(end, |s|) then
      assert 0 <= at by { OffsetMonotone(0, i, width); }
      s[at..Min(at + width, |s|)]
    else ""
  }

  /** `fillStringArray(array, string, width)` on an array of `n` elements:
      blank every element, then write the pieces that start before
      `EndLength`. With a negative width and a positive (wrapped) capacity
      the first `substring` throws. With a positive width, the piece whose
      end `pos + width` passes the top of the `int` range wraps to a
      negative end, so its `substring` throws before the store: that
      element stays empty, and only the last piece can be that one. The
      pieces written before a throw stay written. While the capacity does
      not wrap, the elements are `Pieces` and join back to the part of the
      string that fitted. */
  method FillStringArray(n: nat, s: string, width: Int32) returns (r: seq<string>, thrown: Option<Error>)
    ensures |r| == n
    ensures var e := EndLength(n, s, width);
      forall i :: 0 <= i < n ==>
        r[i] == if thrown.Some? && 0 < width && 0 < e && i == CeilDiv(e, width) - 1 then "" else PieceBefore(s, width, e, i)
    ensures thrown.Some? ==> thrown.value == IndexOutOfBounds
    ensures var e := EndLength(n, s, width);
      thrown.Some? <==> 0 < e && (width < 0 || (width > 0 && Offset(CeilDiv(e, width), width) >= 0x8000_0000))
    ensures 0 < width && n * width < 0x8000_0000 ==>
      && thrown == None
      && r == Pieces(s, width, n)
      && Unpack(Boxed(r)) == s[..Min(|s|, n * width)]
  {
    r := seq(n, _ => "");
    thrown := None;
    var endLength := EndLength(n, s, width);
    if width <= 0 {
      if endLength > 0 {
        thrown := Some(IndexOutOfBounds);
      }
      return;
    }
    var pos, index := 0, 0;
    while pos < endLength
      invariant 0 <= index <= n && pos == Offset(index, width) < 0x8000_0000
      invariant index > 0 ==> Offset(index - 1, width) < endLength
      invariant |r| == n
      invariant forall i :: 0 <= i < n ==> r[i] == if i < index then PieceBefore(s, width, endLength, i) else ""
    {
      PieceStartsInArray(n, s, width, index);
      if pos + width >= 0x8000_0000 {
        thrown := Some(IndexOutOfBounds);
        break;
      }
      r := r[index := s[pos..Min(pos + width, |s|)]];
      pos, index := pos + width, index + 1;
    }
    if thrown.Some? {
      StoppedByOverflow(n, s, width, endLength, index);
    } else {
      StoppedAtEnd(n, s, width, endLength, index);
    }
    if n * width < 0x8000_0000 {
      OffsetIsProduct(n, width);
      NoWrapStops(n, endLength, width);
      NoWrapFill(n, s, width, r);
    }
  }

  /** Five elements of width 2^30 + 1 over a string of 2^30 + 5
      characters: the capacity wraps to 2^30 + 5, so two pieces start
      before it. The second piece's end passes the top of the `int` range,
      so it is never stored and the fill throws. */
  method OverflowingPieceNotStored(s: string) returns (r: seq<string>, thrown: Option<Error>)
    requires |s| == 0x4000_0005
    ensures thrown == Some(IndexOutOfBounds)
    ensures |r| == 5 && r[0] == s[..0x4000_0001]
    ensures forall i :: 1 <= i < 5 ==> r[i] == ""
  {
    var width := 0x4000_0001;
    r, thrown := FillStringArray(5, s, width);
    var e := EndLength(5, s, width);
    assert e == 0x4000_0005 by {
      assert Wrap32(5 * width) == 5 * width - TwoTo32;
    }
    assert CeilDiv(e, width) == 2;
    assert Offset(2, width) == 2 * width;
    forall i | 2 <= i < 5 ensures PieceBefore(s, width, e, i) == "" {
      OffsetMonotone(2, i, width);
    }
  }

  /** The fill stops at piece `k` because its end passes the top of the
      `int` range: `k` is the last piece, and nothing after it is written. */
  lemma StoppedByOverflow(n: nat, s: string, width: int, e: int, k: nat)
    requires 0 < width && k < n && 0 <= Offset(k, width) < e < 0x8000_0000
    requires Offset(k, width) + width >= 0x8000_0000
    ensures k == CeilDiv(e, width) - 1
    ensures Offset(CeilDiv(e, width), width) >= 0x8000_0000
    ensures forall i :: k < i < n ==> PieceBefore(s, width, e, i) == ""
  {
    LastIndex(e, width, k + 1);
    forall i | k < i < n ensures PieceBefore(s, width, e, i) == "" {
      OffsetMonotone(k + 1, i, width);
    }
  }

  /** The fill stops at piece `k` because its start reached the end:
      every piece before the end is written and the last one ends inside
      the `int` range. */
  lemma StoppedAtEnd(n: nat, s: string, width: int, e: int, k: nat)
    requires 0 < width && k <= n && e <= Offset(k, width) < 0x8000_0000
    requires k > 0 ==> Offset(k - 1, width) < e
    ensures 0 < e ==> k == CeilDiv(e, width) && Offset(CeilDiv(e, width), width) < 0x8000_0000
    ensures forall i :: k <= i < n ==> PieceBefore(s, width, e, i) == ""
  {
    forall i | k <= i < n ensures PieceBefore(s, width, e, i) == "" {
      OffsetMonotone(k, i, width);
    }
    if 0 < e {
      LastIndex(e, width, k);
    }
  }

  /** A piece that starts before the end length belongs to the array. */
  lemma PieceStartsInArray(n: nat, s: string, width: int, i: nat)
    requires width > 0 && Offset(i, width) < EndLength(n, s, width)
    ensures i < n
  {
    OffsetIsProduct(n, width);
    OffsetMonotone(0, n, width);
    if i >= n {
      OffsetMonotone(n, i, width);
    }
  }

  /** The count of pieces that start before a positive end is its ceiling
      quotient by the width. */
  lemma LastIndex(e: nat, width: int, k: nat)
    requires 0 < e && width > 0 && k > 0 && Offset(k - 1, width) < e <= Offset(k, width)
    ensures k == CeilDiv(e, width)
  {
    var q := CeilDiv(e, width);
    CeilDivOffsets(e, width);
    if q < k {
      OffsetMonotone(q, k - 1, width);
    } else if q > k {
      OffsetMonotone(k, q - 1, width);
    }
  }

  /** While the capacity does not wrap, the elements are `Pieces`, they join
      back to the part of the string that fitted, and the position never
      passes the top of the `int` range. */
  lemma NoWrapFill(n: nat, s: string, width: int, r: seq<string>)
    requires 0 < width && n * width < 0x8000_0000
    requires |r| == n && forall i :: 0 <= i < n ==> r[i] == PieceBefore(s, width, EndLength(n, s, width), i)
    ensures r == Pieces(s, width, n)
    ensures Unpack(Boxed(r)) == s[..Min(|s|, n * width)]
    ensures var e := EndLength(n, s, width); 0 < e ==> Offset(CeilDiv(e, width), width) < 0x8000_0000
  {
    OffsetIsProduct(n, width);
    NoWrapPieces(n, s, width, r);
    UnpackPieces(s, width, n);
    NoWrapStops(n, EndLength(n, s, width), width);
  }

  lemma NoWrapPieces(n: nat, s: string, width: int, r: seq<string>)
    requires 0 < width && 0 <= Offset(n, width) < 0x8000_0000 && Offset(n, width) == n * width
    requires |r| == n && forall i :: 0 <= i < n ==> r[i] == PieceBefore(s, width, EndLength(n, s, width), i)
    ensures r == Pieces(s, width, n)
  {
    assert EndLength(n, s, width) == Min(|s|, Offset(n, width));
  }

  lemma NoWrapStops(n: nat, e: int, width: int)
    requires 0 < width && e <= Offset(n, width) < 0x8000_0000
    ensures 0 < e ==> Offset(CeilDiv(e, width), width) < 0x8000_0000
  {
    if 0 < e {
      var q := CeilDiv(e, width);
      CeilDivOffsets(e, width);
      if q > n {
        OffsetMonotone(n, q - 1, width);
      }
      OffsetMonotone(q, n, width);
    }
  }

  /** With the width 2^30 an array of two elements has the capacity 2^31,
      which wraps to the most negative `int`: nothing is written. */
  lemma WrappedCapacityWritesNothing()
    ensures EndLength(2, "abc", 0x4000_0000) == -0x8000_0000
    ensures forall i :: 0 <= i < 2 ==> PieceBefore("abc", 0x4000_0000, EndLength(2, "abc", 0x4000_0000), i) == ""
  {
    assert EndLength(2, "abc", 0x4000_0000) == -0x8000_0000;
    forall i | 0 <= i < 2 ensures PieceBefore("abc", 0x4000_0000, -0x8000_0000, i) == "" {
      OffsetMonotone(0, i, 0x4000_0000);
    }
  }

  /** `fillCharArray`: one character per element. A Java array has fewer
      than 2^31 elements, so the capacity does not wrap and nothing
      throws. */
  method FillCharArray(n: nat, s: string) returns (r: seq<string>)
    requires n < 0x8000_0000
    ensures |r| == n
    ensures forall i :: 0 <= i < n ==> r[i] == if i < |s| then [s[i]] else ""
    ensures Unpack(Boxed(r)) == s[..Min(|s|, n)]
  {
    var thrown;
    r, thrown := FillStringArray(n, s, 1);
    assert n * 1 == n;
    assert r == Pieces(s, 1, n);
    forall i | 0 <= i < n ensures r[i] == if i < |s| then [s[i]] else "" {
      CharPiece(s, n, i);
    }
  }

  lemma CharPiece(s: string, n: nat, i: nat)
    requires i < n
    ensures Piece(s, 1, n, i) == if i < |s| then [s[i]] else ""
  {
    OffsetIsProduct(i, 1);
    OffsetIsProduct(n, 1);
  }

  function Boxed(a: seq<string>): (r: seq<Option<string>>)
    ensures |r| == |a| && forall i :: 0 <= i < |a| ==> r[i] == Some(a[i])
  {
    seq(|a|, i requires 0 <= i < |a| => Some(a[i]))
  }

  /** What `StringBuilder.append` writes for an element: a null element is
      the text `null`. */
  function Text(e: Option<string>): string {
    match e
    case Some(t) => t
    case None => "null"
  }

  /** `unpackCharArray`: the elements' texts joined in order. */
  function Unpack(a: seq<Option<string>>): string {
    if a == [] then "" else Unpack(a[..|a| - 1]) + Text(a[|a| - 1])
  }

  /** The join of a non-empty array begins with its first element's text,
      `null` for a null element. */
  lemma UnpackStartsWithFirst(a: seq<Option<string>>)
    requires |a| > 0
    ensures Text(a[0]) <= Unpack(a)
  {
    assert a == [a[0]] + a[1..];
    UnpackAppend([a[0]], a[1..]);
    assert [a[0]][..0] == [];
  }

  /** Joining splits at any element. */
  lemma {:induction false} UnpackAppend(a: seq<Option<string>>, b: seq<Option<string>>)
    ensures Unpack(a + b) == Unpack(a) + Unpack(b)
    decreases |b|
  {
    if b == [] {
      assert a + b == a;
    } else {
      var front := b[..|b| - 1];
      assert (a + b)[..|a + b| - 1] == a + front;
      assert (a + b)[|a + b| - 1] == b[|b| - 1];
      UnpackAppend(a, front);
      assert Unpack(a + b) == Unpack(a + front) + Text(b[|b| - 1]);
      assert Unpack(b) == Unpack(front) + Text(b[|b| - 1]);
    }
  }

  /** Joining the pieces gives back the part of the string that fitted:
      `unpackCharArray` undoes `fillStringArray`. */
  lemma {:induction false} UnpackPieces(s: string, width: int, n: nat)
    requires width > 0
    ensures 0 <= Offset(n, width)
    ensures Unpack(Boxed(Pieces(s, width, n))) == s[..Min(|s|, Offset(n, width))]
    decreases n
  {
    OffsetMonotone(0, n, width);
    if n == 0 {
      assert Boxed(Pieces(s, width, n)) == [];
    } else {
      var prev := Boxed(Pieces(s, width, n - 1));
      var last := Piece(s, width, n, n - 1);
      var lo := Min(|s|, Offset(n - 1, width));
      var hi := Min(|s|, Offset(n, width));
      LastPiece(s, width, n);
      calc {
        Unpack(Boxed(Pieces(s, width, n)));
        { BoxedPiecesSnoc(s, width, n); }
        Unpack(prev + [Some(last)]);
        { UnpackSnoc(prev, last); }
        Unpack(prev) + last;
        { UnpackPieces(s, width, n - 1); }
        s[..lo] + s[lo..hi];
        s[..hi];
      }
    }
  }

  /** The boxed pieces of an array one longer: those of the shorter array,
      then the new last piece. */
  lemma BoxedPiecesSnoc(s: string, width: int, n: nat)
    requires width > 0 && n > 0
    ensures Boxed(Pieces(s, width, n)) == Boxed(Pieces(s, width, n - 1)) + [Some(Piece(s, width, n, n - 1))]
  {
    PiecesStable(s, width, n);
  }

  lemma UnpackSnoc(a: seq<Option<string>>, last: string)
    ensures Unpack(a + [Some(last)]) == Unpack(a) + last
  {
    assert (a + [Some(last)])[..|a|] == a;
  }

  /** The last piece runs from where the one before it stops to the end of
      the string or of the array. */
  lemma LastPiece(s: string, width: int, n: nat)
    requires width > 0 && n > 0
    ensures 0 <= Min(|s|, Offset(n - 1, width)) <= Min(|s|, Offset(n, width)) <= |s|
    ensures Piece(s, width, n, n - 1) == s[Min(|s|, Offset(n - 1, width))..Min(|s|, Offset(n, width))]
  {
    OffsetMonotone(0, n - 1, width);
    assert Offset(n, width) == Offset(n - 1, width) + width;
  }

  /** The first `n - 1` pieces do not depend on how long the array is. */
  lemma PiecesStable(s: string, width: int, n: nat)
    requires width > 0 && n > 0
    ensures Pieces(s, width, n)[..n - 1] == Pieces(s, width, n - 1)
  {
    forall i | 0 <= i < n - 1 ensures Piece(s, width, n, i) == Piece(s, width, n - 1, i) {
      OffsetMonotone(i, n - 1, width);
    }
    assert Pieces(s, width, n)[..n - 1] == Pieces(s, width, n - 1);
  }

  // ---------------------------------------------------------------------
  // chunkStringIntoParts

  function CeilDiv(a: nat, b: int): (q: nat)
    requires b > 0
    ensures (q - 1) * b < a <= q * b
  {
    (a + b - 1) / b
  }

  /** The pieces before the last needed one end inside the string, and the
      needed pieces cover it. */
  lemma CeilDivOffsets(a: nat, b: int)
    requires b > 0
    ensures CeilDiv(a, b) > 0 ==> Offset(CeilDiv(a, b) - 1, b) < a
    ensures a <= Offset(CeilDiv(a, b), b)
  {
    var q := CeilDiv(a, b);
    OffsetIsProduct(q, b);
    if q > 0 {
      OffsetIsProduct(q - 1, b);
    }
  }

  /** `chunkStringIntoParts`: the string split into `chunkLength`-character
      pieces written from the first part on; the parts after them are left
      as they were. It throws when more pieces are needed than there are
      parts. A zero chunk length needs infinitely many pieces for a
      non-empty string; a negative one, or an empty string with a zero
      chunk length, needs none. */
  function ChunkStringIntoParts(s: string, chunkLength: int, parts: seq<Option<string>>): (r: Result<seq<Option<string>>>)
    ensures r.Err? <==>
      (chunkLength > 0 && CeilDiv(|s|, chunkLength) > |parts|) || (chunkLength == 0 && |s| > 0)
    ensures r.Err? ==> r.error == NaturalException(StringDoesNotFitParts)
    ensures r.Ok? ==> |r.value| == |parts|
    ensures r.Ok? && chunkLength <= 0 ==> r.value == parts
    ensures r.Ok? && chunkLength > 0 ==>
      var needed := CeilDiv(|s|, chunkLength);
      && Unpack(r.value[..needed]) == s
      && r.value[needed..] == parts[needed..]
      && (forall i :: 0 <= i < needed ==> r.value[i].Some? && 0 < |r.value[i].value| <= chunkLength)
  {
    if chunkLength == 0 then
      if |s| > 0 then Err(NaturalException(StringDoesNotFitParts)) else Ok(parts)
    else if chunkLength < 0 then Ok(parts)
    else
      var needed := CeilDiv(|s|, chunkLength);
      if needed > |parts| then Err(NaturalException(StringDoesNotFitParts))
      else
        var pieces := Pieces(s, chunkLength, needed);
        var r := Boxed(pieces) + parts[needed..];
        ChunkFacts(s, chunkLength, needed);
        assert r[..needed] == Boxed(pieces);
        Ok(r)
  }

  /** With exactly as many pieces as the string needs, the pieces hold all
      of it and none is empty. */
  lemma ChunkFacts(s: string, chunkLength: int, needed: nat)
    requires chunkLength > 0 && needed == CeilDiv(|s|, chunkLength)
    ensures Unpack(Boxed(Pieces(s, chunkLength, needed))) == s
    ensures forall i :: 0 <= i < needed ==> 0 < |Piece(s, chunkLength, needed, i)|
  {
    CeilDivOffsets(|s|, chunkLength);
    PiecesCover(s, chunkLength, needed);
    PiecesNonEmpty(s, chunkLength, needed);
  }

  lemma PiecesCover(s: string, width: int, n: nat)
    requires width > 0 && |s| <= Offset(n, width)
    ensures Unpack(Boxed(Pieces(s, width, n))) == s
  {
    UnpackPieces(s, width, n);
    assert s[..Min(|s|, Offset(n, width))] == s;
  }

  lemma PiecesNonEmpty(s: string, width: int, n: nat)
    requires width > 0
    requires n > 0 ==> Offset(n - 1, width) < |s|
    ensures forall i :: 0 <= i < n ==> 0 < |Piece(s, width, n, i)|
  {
    forall i | 0 <= i < n ensures 0 < |Piece(s, width, n, i)| {
      OffsetMonotone(i, n - 1, width);
      OffsetMonotone(i, n, width);
      var at := Offset(i, width);
      assert 0 <= at by { OffsetMonotone(0, i, width); }
      assert at < Min(|s|, Offset(n, width));
      assert Piece(s, width, n, i) == s[at..Min(at + width, |s|)];
    }
  }

  /** Matches are only ever added: the count is monotone in the prefix. */
  lemma {:induction false} SeenMonotone<T>(a: seq<T>, accessor: T -> Option<string>, toFind: Option<string>, j: nat, k: nat)
    requires j <= k <= |a|
    ensures Seen(a, accessor, toFind, j) <= Seen(a, accessor, toFind, k)
    decreases k - j
  {
    if j < k {
      SeenMonotone(a, accessor, toFind, j, k - 1);
    }
  }

  /** When the string fits, chunking writes the same pieces as filling an
      array of exactly as many parts. */
  lemma ChunkIsFill(s: string, chunkLength: int, parts: seq<Option<string>>)
    requires chunkLength > 0 && CeilDiv(|s|, chunkLength) <= |parts|
    ensures ChunkStringIntoParts(s, chunkLength, parts).value[..CeilDiv(|s|, chunkLength)]
         == Boxed(Pieces(s, chunkLength, CeilDiv(|s|, chunkLength)))
  {
  }

  // ---------------------------------------------------------------------
  // setArrayValues(Object[], ArrayIndexRange, Object[])

  /** An array after a helper that writes into it in place, and the
      exception it threw, if any; the writes made before a throw stay. */
  datatype Written<T> = Written(contents: seq<T>, thrown: Option<Error>)

  /** How many of the writes `array[s + j] = value[j]`, `j = 0, 1, ...`,
      `s + j <= e`, succeed before one reads or writes outside its array. */
  function WriteCount(s: int, e: int, arrayLength: nat, valueLength: nat): (k: nat)
    ensures s < 0 || e < s ==> k == 0
    ensures k <= valueLength && (k > 0 ==> s + k <= arrayLength && s + k <= e + 1)
  {
    if s < 0 || e < s then 0
    else
      var room := if arrayLength < s then 0 else arrayLength - s;
      Min(Min(e - s + 1, room), valueLength)
  }

  /** `setArrayValues`: copies `value[0]`, `value[1]`, ... into the range's
      indices (every index for `ALL`) in order, writing the array in place.
      Unboxing a null bound throws before anything is written; the first
      index outside either array throws and leaves the earlier writes in
      place. */
  function SetArrayValues<T>(a: seq<T>, range: IndexRange, value: seq<T>): (w: Written<T>)
    ensures |w.contents| == |a|
    ensures !range.IsAll() && (range.start.None? || range.end.None?) ==> w == Written(a, Some(NullPointer))
    ensures w.thrown.Some? ==> w.thrown.value == NullPointer || w.thrown.value == IndexOutOfBounds
    ensures range.IsAll() ==>
      && (w.thrown.None? <==> |a| <= |value|)
      && (w.thrown.Some? ==> w.thrown.value == IndexOutOfBounds)
      && forall i :: 0 <= i < |a| ==> w.contents[i] == if i < |value| then value[i] else a[i]
    ensures !range.IsAll() && range.start.Some? && range.end.Some? ==>
      var s, e := range.start.value, range.end.value;
      && (w.thrown.None? <==> e < s || (0 <= s && e < |a| && e - s + 1 <= |value|))
      && (w.thrown.Some? ==> w.thrown.value == IndexOutOfBounds)
      && forall i :: 0 <= i < |a| ==>
           w.contents[i] == if 0 <= s <= i <= e && i - s < |value| then value[i - s] else a[i]
  {
    if !range.IsAll() && (range.start.None? || range.end.None?) then Written(a, Some(NullPointer))
    else
      var s, e := if range.IsAll() then 0 else range.start.value, if range.IsAll() then |a| - 1 else range.end.value;
      var k := WriteCount(s, e, |a|, |value|);
      var written := if k == 0 then a else a[..s] + value[..k] + a[s + k..];
      Written(written, if e < s || k == e - s + 1 then None else Some(IndexOutOfBounds))
  }

  /** In an array of three elements, writing ten values into [1, 4] sets
      elements 1 and 2 and then throws at index 3. */
  lemma PartialWriteKept(a: seq<int>, value: seq<int>)
    requires |a| == 3 && |value| == 10
    ensures SetArrayValues(a, Range(Some(1), Some(4)), value) == Written([a[0], value[0], value[1]], Some(IndexOutOfBounds))
  {
    assert a[..1] + value[..2] + a[3..] == [a[0], value[0], value[1]];
  }

  /** Reading back the range just written gives the values written. */
  lemma SetThenSlice<T>(a: seq<T>, s: Int32, e: Int32, value: seq<T>, pad: T)
    requires 0 <= s <= e < |a| < 0x8000_0000 && e - s + 1 <= |value|
    ensures SetArrayValues(a, Range(Some(s), Some(e)), value).thrown.None?
    ensures Slicer.Slice(SetArrayValues(a, Range(Some(s), Some(e)), value).contents, Range(Some(s), Some(e)), pad)
         == Ok(value[..e - s + 1])
  {
    var written := SetArrayValues(a, Range(Some(s), Some(e)), value).contents;
    assert written[s..e + 1] == value[..e - s + 1];
  }
}
