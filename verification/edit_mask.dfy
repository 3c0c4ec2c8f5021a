/** String edit masks: the partial support the runtime has for masks made
    of `X` positions and quoted `'/'` separators, such as `XXXX'/'XXXXX`.

    Reading from a field (`applyStringEditMaskForTarget`) copies the
    characters under `X` and checks that a `/` stands under every `/`;
    writing to a field (`applyStringEditMaskForSource`) copies the value's
    characters into the `X` positions and inserts the `/`s. Both walk the
    mask with its apostrophes removed. */
module EditMask {
  import opened Results
  import opened Chars

  /** `s.replaceAll(c, "")` for a single non-special character. */
  function RemoveChar(s: string, c: char): (r: string)
    ensures |r| <= |s|
    ensures forall k :: 0 <= k < |r| ==> r[k] != c
  {
    if s == [] then []
    else (if s[0] == c then [] else [s[0]]) + RemoveChar(s[1..], c)
  }

  lemma {:induction false} RemoveCharKeeps(s: string, c: char, i: nat)
    requires i < |s| && s[i] != c
    ensures s[i] in RemoveChar(s, c)
  {
    if i > 0 {
      RemoveCharKeeps(s[1..], c, i - 1);
    }
  }

  lemma {:induction false} RemoveCharFrom(s: string, c: char, k: nat)
    requires k < |RemoveChar(s, c)|
    ensures RemoveChar(s, c)[k] in s
  {
    if s[0] == c {
      RemoveCharFrom(s[1..], c, k);
    } else if k > 0 {
      RemoveCharFrom(s[1..], c, k - 1);
    }
  }

  const Separator: string := "'/'"

  /** `s.replaceAll("'/'", "")`: every occurrence found scanning left to
      right, the scan resuming after each one, is removed. */
  function RemoveSeparators(s: string): (r: string)
    ensures |r| <= |s|
  {
    if s == [] then []
    else if |s| >= 3 && s[..3] == Separator then RemoveSeparators(s[3..])
    else [s[0]] + RemoveSeparators(s[1..])
  }

  /** Text made only of quoted separators, one after the other. */
  predicate SeparatorsOnly(s: string) {
    s == [] || (|s| >= 3 && s[..3] == Separator && SeparatorsOnly(s[3..]))
  }

  /** Removing the separators leaves nothing exactly when there was nothing
      else. */
  lemma {:induction false} RemoveSeparatorsEmpty(s: string)
    ensures RemoveSeparators(s) == [] <==> SeparatorsOnly(s)
  {
    if s != [] && |s| >= 3 && s[..3] == Separator {
      RemoveSeparatorsEmpty(s[3..]);
    }
  }

  lemma {:induction false} SeparatorsOnlyChars(s: string, k: nat)
    requires SeparatorsOnly(s) && k < |s|
    ensures s[k] == '\'' || s[k] == '/'
  {
    if k >= 3 {
      SeparatorsOnlyChars(s[3..], k - 3);
    } else {
      assert s[k] == Separator[k];
    }
  }

  /** The check both directions start with: with the `X`s removed and then
      the `'/'`s, nothing may remain. */
  predicate Supported(mask: string) {
    RemoveSeparators(RemoveChar(mask, 'X')) == []
  }

  /** The mask walked by both directions: the supported mask without its
      apostrophes. */
  function Positions(mask: string): string {
    RemoveChar(mask, '\'')
  }

  /** A supported mask is made of `X`, `'` and `/` only, so its positions
      are all `X` or `/`. */
  lemma SupportedPositions(mask: string)
    requires Supported(mask)
    ensures forall k :: 0 <= k < |Positions(mask)| ==> Positions(mask)[k] in "X/"
  {
    var stripped := RemoveChar(mask, 'X');
    RemoveSeparatorsEmpty(stripped);
    forall i | 0 <= i < |mask| ensures mask[i] in "X'/" {
      if mask[i] != 'X' {
        RemoveCharKeeps(mask, 'X', i);
        var k :| 0 <= k < |stripped| && stripped[k] == mask[i];
        SeparatorsOnlyChars(stripped, k);
      }
    }
    forall k | 0 <= k < |Positions(mask)| ensures Positions(mask)[k] in "X/" {
      RemoveCharFrom(mask, '\'', k);
    }
  }

  /** A supported mask need not keep `/` inside its quotes: the check runs
      after the `X`s are gone, so `'X/'` passes it. */
  lemma QuotedXSupported()
    ensures Supported("'X/'")
    ensures Positions("'X/'") == "X/"
  {
    assert RemoveChar("'X/'", 'X') == "'/'" by {
      assert "'X/'"[1..] == "X/'" && "X/'"[1..] == "/'" && "/'"[1..] == "'" && "'"[1..] == "";
    }
    assert RemoveSeparators("'/'") == "" by {
      assert "'/'"[..3] == Separator && "'/'"[3..] == "";
    }
    assert Positions("'X/'") == "X/" by {
      assert "'X/'"[1..] == "X/'" && "X/'"[1..] == "/'" && "/'"[1..] == "'" && "'"[1..] == "";
    }
  }

  // ---------------------------------------------------------------------
  // Reading a field through the mask.

  /** A position `ch` where the mask demands `/` and the value has something
      else, both within reach of the walk. */
  predicate Mismatch(positions: string, value: string, ch: int) {
    0 <= ch < |positions| && ch < |value| && positions[ch] == '/' && value[ch] != '/'
  }

  /** The characters of `value` that stand under `X`s of the positions, as
      far as both reach. */
  function Copied(positions: string, value: string): (r: string)
    ensures |r| <= |value|
  {
    if positions == [] || value == [] then []
    else (if positions[0] == 'X' then [value[0]] else []) + Copied(positions[1..], value[1..])
  }

  /** The loop of `applyStringEditMaskForTarget` after the check: position
      and value are walked in step; a `/` position must meet a `/`. */
  function TargetWalk(positions: string, value: string): (r: Result<string>)
    ensures r.Err? <==> exists ch :: Mismatch(positions, value, ch)
    ensures r.Err? ==> r.error == NaturalException(InputDoesNotMatchEditMask)
    ensures r.Ok? ==> r.value == Copied(positions, value)
  {
    if positions == [] || value == [] then Ok([])
    else if positions[0] == '/' && value[0] != '/' then
      assert Mismatch(positions, value, 0);
      Err(NaturalException(InputDoesNotMatchEditMask))
    else
      var rest := TargetWalk(positions[1..], value[1..]);
      MismatchShift(positions, value);
      if rest.Err? then rest
      else Ok((if positions[0] == 'X' then [value[0]] else []) + rest.value)
  }

  lemma MismatchShift(positions: string, value: string)
    requires positions != [] && value != []
    requires !(positions[0] == '/' && value[0] != '/')
    ensures (exists ch :: Mismatch(positions, value, ch))
        <==> (exists ch :: Mismatch(positions[1..], value[1..], ch))
  {
    if exists ch :: Mismatch(positions, value, ch) {
      var ch :| Mismatch(positions, value, ch);
      assert Mismatch(positions[1..], value[1..], ch - 1);
    }
    if exists ch :: Mismatch(positions[1..], value[1..], ch) {
      var ch :| Mismatch(positions[1..], value[1..], ch);
      assert Mismatch(positions, value, ch + 1);
    }
  }

  /** `applyStringEditMaskForTarget`: an unsupported mask throws; otherwise
      the value's characters under `X` positions, the value cut to the mask
      and the mask cut to the value. */
  function ApplyForTarget(mask: string, value: string): (r: Result<string>)
    ensures !Supported(mask) ==> r == Err(NaturalException(UnsupportedStringEditMask))
    ensures Supported(mask) ==>
      (r.Err? <==> exists ch :: Mismatch(Positions(mask), value, ch))
    ensures Supported(mask) && r.Err? ==> r.error == NaturalException(InputDoesNotMatchEditMask)
    ensures r.Ok? ==> r.value == Copied(Positions(mask), value)
  {
    if !Supported(mask) then Err(NaturalException(UnsupportedStringEditMask))
    else TargetWalk(Positions(mask), value)
  }

  // ---------------------------------------------------------------------
  // Writing a field through the mask.

  /** The `X` positions, each of which takes one value character. */
  function CountX(positions: string): nat {
    Occurrences(positions, 'X')
  }

  /** The loop of `applyStringEditMaskForSource` after the check: the
      positions are walked while the value lasts; an `X` takes the next
      value character and a `/` writes one. */
  function SourceWalk(positions: string, value: string): (r: string)
  {
    if positions == [] || value == [] then []
    else if positions[0] == 'X' then [value[0]] + SourceWalk(positions[1..], value[1..])
    else if positions[0] == '/' then "/" + SourceWalk(positions[1..], value)
    else SourceWalk(positions[1..], value)
  }

  /** `w` is what writing `v` through the positions `p` gives: `p` up to
      where the writing stops, each `X` replaced by the next character of
      `v` and every other position kept. The writing stops right after the
      `X` that takes the last character of `v`, or at the end of `p` when
      `v` has more characters than `p` has `X`s; an empty `v` writes
      nothing. `WrittenThroughUnique` shows this fixes `w`. */
  predicate WrittenThrough(p: string, v: string, w: string) {
    && |w| <= |p|
    && (|v| > CountX(p) ==> |w| == |p|)
    && (v == [] ==> w == [])
    && (0 < |v| <= CountX(p) ==> 0 < |w| && p[|w| - 1] == 'X' && CountX(p[..|w|]) == |v|)
    && forall i :: 0 <= i < |w| ==>
         if p[i] == 'X' then CountX(p[..i]) < |v| && w[i] == v[CountX(p[..i])] else w[i] == p[i]
  }

  /** `applyStringEditMaskForSource`: an unsupported mask throws; otherwise
      the value written through the mask's positions, which reads back as
      the value cut to the number of `X`s. */
  function ApplyForSource(mask: string, value: string): (r: Result<string>)
    ensures !Supported(mask) <==> r.Err?
    ensures r.Err? ==> r.error == NaturalException(UnsupportedStringEditMask)
    ensures r.Ok? ==> WrittenThrough(Positions(mask), value, r.value)
    ensures r.Ok? ==> Copied(Positions(mask), r.value) == value[..Min(|value|, CountX(Positions(mask)))]
  {
    if !Supported(mask) then Err(NaturalException(UnsupportedStringEditMask))
    else
      var positions := Positions(mask);
      SupportedPositions(mask);
      SourceThenCopied(positions, value);
      SourceWalkWritesThrough(positions, value);
      Ok(SourceWalk(positions, value))
  }

  /** The `X`s of a prefix one longer than `i` positions from the front. */
  lemma CountXPrefix(p: string, i: nat)
    requires 0 < i <= |p|
    ensures CountX(p[..i]) == (if p[0] == 'X' then 1 else 0) + CountX(p[1..][..i - 1])
  {
    assert p[..i][1..] == p[1..][..i - 1];
  }

  /** The source walk writes the value through the positions. */
  lemma {:induction false} SourceWalkWritesThrough(p: string, v: string)
    requires OnlyXAndSlash(p)
    ensures WrittenThrough(p, v, SourceWalk(p, v))
  {
    var w := SourceWalk(p, v);
    if p != [] && v != [] {
      var rest := p[1..];
      assert OnlyXAndSlash(rest) by {
        forall k | 0 <= k < |rest| ensures rest[k] in "X/" {
          assert rest[k] == p[k + 1];
        }
      }
      var skip := if p[0] == 'X' then 1 else 0;
      var v' := v[skip..];
      var w' := SourceWalk(rest, v');
      SourceWalkWritesThrough(rest, v');
      assert w == [if p[0] == 'X' then v[0] else '/'] + w';
      assert CountX(p) == skip + CountX(rest);
      if 0 < |v| <= CountX(p) {
        StepStops(p, v, w');
      }
      StepCells(p, v, w');
    }
  }

  /** One step of the walk, when the value runs out inside the positions:
      the writing still stops right after the `X` taking its last
      character. */
  lemma StepStops(p: string, v: string, w': string)
    requires |p| > 0 && (p[0] == 'X' || p[0] == '/') && v != []
    requires WrittenThrough(p[1..], v[if p[0] == 'X' then 1 else 0..], w')
    requires |v| <= CountX(p)
    ensures var w := [if p[0] == 'X' then v[0] else '/'] + w';
      p[|w| - 1] == 'X' && CountX(p[..|w|]) == |v|
  {
    var w := [if p[0] == 'X' then v[0] else '/'] + w';
    assert CountX(p) == (if p[0] == 'X' then 1 else 0) + CountX(p[1..]);
    CountXPrefix(p, |w|);
    if w' == [] {
      assert p[0] == 'X';
    }
  }

  /** One step of the walk: the first position written in front of the
      rest's writing keeps every cell of the rest in place. */
  lemma StepCells(p: string, v: string, w': string)
    requires |p| > 0 && (p[0] == 'X' || p[0] == '/') && v != []
    requires WrittenThrough(p[1..], v[if p[0] == 'X' then 1 else 0..], w')
    ensures var w := [if p[0] == 'X' then v[0] else '/'] + w';
      forall i :: 0 <= i < |w| ==>
        if p[i] == 'X' then CountX(p[..i]) < |v| && w[i] == v[CountX(p[..i])] else w[i] == p[i]
  {
    var w := [if p[0] == 'X' then v[0] else '/'] + w';
    forall i | 0 <= i < |w|
      ensures if p[i] == 'X' then CountX(p[..i]) < |v| && w[i] == v[CountX(p[..i])] else w[i] == p[i]
    {
      if i > 0 {
        CountXPrefix(p, i);
        assert w[i] == w'[i - 1] && p[i] == p[1..][i - 1];
      }
    }
  }

  /** Later prefixes that end in an `X` hold more `X`s. */
  lemma CountXGrows(p: string, i: nat, j: nat)
    requires i < j <= |p| && p[j - 1] == 'X'
    ensures CountX(p[..i]) < CountX(p[..j])
  {
    assert p[..j] == p[..i] + p[i..j - 1] + [p[j - 1]];
    OccurrencesAppend(p[..i] + p[i..j - 1], [p[j - 1]], 'X');
    OccurrencesAppend(p[..i], p[i..j - 1], 'X');
    assert Occurrences([p[j - 1]], 'X') == 1;
  }

  /** At most one text is the value written through given positions. */
  lemma WrittenThroughUnique(p: string, v: string, w1: string, w2: string)
    requires WrittenThrough(p, v, w1) && WrittenThrough(p, v, w2)
    ensures w1 == w2
  {
    if 0 < |v| <= CountX(p) {
      if |w1| < |w2| {
        CountXGrows(p, |w1|, |w2|);
      } else if |w2| < |w1| {
        CountXGrows(p, |w2|, |w1|);
      }
    }
    assert |w1| == |w2|;
    forall i | 0 <= i < |w1| ensures w1[i] == w2[i] {
    }
  }

  function Min(a: int, b: int): int {
    if a < b then a else b
  }

  predicate OnlyXAndSlash(positions: string) {
    forall k :: 0 <= k < |positions| ==> positions[k] in "X/"
  }

  /** What the source walk writes lines up with the positions, `/` under
      every `/`, and reading it back takes exactly the value characters the
      walk consumed. */
  lemma {:induction false} SourceThenCopied(positions: string, value: string)
    requires OnlyXAndSlash(positions)
    ensures |SourceWalk(positions, value)| <= |positions|
    ensures forall ch :: !Mismatch(positions, SourceWalk(positions, value), ch)
    ensures Copied(positions, SourceWalk(positions, value)) == value[..Min(|value|, CountX(positions))]
  {
    var w := SourceWalk(positions, value);
    if positions == [] || value == [] {
    } else {
      var rest := positions[1..];
      assert OnlyXAndSlash(rest) by {
        forall k | 0 <= k < |rest| ensures rest[k] in "X/" {
          assert rest[k] == positions[k + 1];
        }
      }
      if positions[0] == 'X' {
        SourceThenCopied(rest, value[1..]);
        assert w == [value[0]] + SourceWalk(rest, value[1..]);
        forall ch ensures !Mismatch(positions, w, ch) {
          if ch > 0 && Mismatch(positions, w, ch) {
            assert Mismatch(rest, w[1..], ch - 1);
          }
        }
        assert w[1..] == SourceWalk(rest, value[1..]);
        assert value[..Min(|value|, CountX(positions))]
            == [value[0]] + value[1..][..Min(|value| - 1, CountX(rest))];
      } else {
        assert positions[0] == '/';
        SourceThenCopied(rest, value);
        assert w == "/" + SourceWalk(rest, value);
        forall ch ensures !Mismatch(positions, w, ch) {
          if ch > 0 && Mismatch(positions, w, ch) {
            assert Mismatch(rest, w[1..], ch - 1);
          }
        }
        assert w[1..] == SourceWalk(rest, value);
      }
    }
  }

  /** Writing a value through a mask and reading it back through the same
      mask gives the value, cut to the mask's `X` positions. */
  lemma SourceThenTarget(mask: string, value: string)
    requires Supported(mask)
    ensures ApplyForSource(mask, value).Ok?
    ensures ApplyForTarget(mask, ApplyForSource(mask, value).value)
         == Ok(value[..Min(|value|, CountX(Positions(mask)))])
  {
    SupportedPositions(mask);
    SourceThenCopied(Positions(mask), value);
  }

  // ---------------------------------------------------------------------
  // Masks of the form `XX...X'/'XX...X`.

  function Xs(n: nat): (r: string)
    ensures |r| == n && forall k :: 0 <= k < n ==> r[k] == 'X'
  {
    seq(n, _ => 'X')
  }

  lemma {:induction false} RemoveCharAppend(s: string, t: string, c: char)
    ensures RemoveChar(s + t, c) == RemoveChar(s, c) + RemoveChar(t, c)
    decreases |s|
  {
    if s != [] {
      assert (s + t)[1..] == s[1..] + t;
      RemoveCharAppend(s[1..], t, c);
    } else {
      assert s + t == t;
    }
  }

  lemma {:induction false} RemoveCharXs(n: nat)
    ensures RemoveChar(Xs(n), 'X') == []
    ensures RemoveChar(Xs(n), '\'') == Xs(n)
  {
    if n > 0 {
      assert Xs(n)[1..] == Xs(n - 1);
      RemoveCharXs(n - 1);
    }
  }

  /** `X` positions copy the value's characters one for one. */
  lemma {:induction false} CopiedXs(n: nat, rest: string, u: string, v: string)
    requires |u| == n
    ensures Copied(Xs(n) + rest, u + v) == u + Copied(rest, v)
  {
    if n > 0 {
      assert (Xs(n) + rest)[1..] == Xs(n - 1) + rest;
      assert (u + v)[1..] == u[1..] + v;
      CopiedXs(n - 1, rest, u[1..], v);
      assert u == [u[0]] + u[1..];
    } else {
      assert Xs(n) + rest == rest && u + v == v;
    }
  }

  lemma {:induction false} CopiedAllXs(n: nat, w: string)
    ensures Copied(Xs(n), w) == w[..Min(|w|, n)]
  {
    if n > 0 && w != [] {
      assert Xs(n)[1..] == Xs(n - 1);
      CopiedAllXs(n - 1, w[1..]);
      assert w[..Min(|w|, n)] == [w[0]] + w[1..][..Min(|w| - 1, n - 1)];
    }
  }

  /** `a` positions, one quoted separator and `b` positions: the shape of
      the masks the runtime supports. */
  function SplitMask(a: nat, b: nat): string {
    Xs(a) + Separator + Xs(b)
  }

  lemma SplitMaskPositions(a: nat, b: nat)
    ensures Supported(SplitMask(a, b))
    ensures Positions(SplitMask(a, b)) == Xs(a) + "/" + Xs(b)
  {
    RemoveCharAppend(Xs(a) + Separator, Xs(b), 'X');
    RemoveCharAppend(Xs(a), Separator, 'X');
    RemoveCharAppend(Xs(a) + Separator, Xs(b), '\'');
    RemoveCharAppend(Xs(a), Separator, '\'');
    RemoveCharXs(a);
    RemoveCharXs(b);
    assert RemoveChar(Separator, 'X') == Separator by {
      assert Separator[1..] == "/'" && "/'"[1..] == "'" && "'"[1..] == "";
    }
    assert RemoveChar(Separator, '\'') == "/" by {
      assert Separator[1..] == "/'" && "/'"[1..] == "'" && "'"[1..] == "";
    }
    assert RemoveSeparators(Separator) == "" by {
      assert Separator[..3] == Separator && Separator[3..] == "";
    }
  }

  /** Reading `u/w` through `X..X'/'X..X`, with `u` filling the first
      positions, drops the separator and cuts `w` to the second positions,
      as the runtime's own tests expect (`Some/thing` gives `Something`). */
  lemma TargetSplitMask(a: nat, b: nat, u: string, w: string)
    requires |u| == a
    ensures ApplyForTarget(SplitMask(a, b), u + "/" + w) == Ok(u + w[..Min(|w|, b)])
  {
    SplitMaskPositions(a, b);
    var p, v := Xs(a) + "/" + Xs(b), u + "/" + w;
    forall ch ensures !Mismatch(p, v, ch) {
      if 0 <= ch < |p| && ch < |v| && ch != a {
        if ch < a {
          assert p[ch] == Xs(a)[ch];
        } else {
          assert p[ch] == Xs(b)[ch - a - 1];
        }
      }
    }
    assert p == Xs(a) + ("/" + Xs(b)) && v == u + ("/" + w);
    CopiedXs(a, "/" + Xs(b), u, "/" + w);
    assert ("/" + Xs(b))[1..] == Xs(b) && ("/" + w)[1..] == w;
    assert Copied("/" + Xs(b), "/" + w) == Copied(Xs(b), w);
    CopiedAllXs(b, w);
    assert !(exists ch :: Mismatch(p, v, ch));
    assert Copied(p, v) == u + w[..Min(|w|, b)];
  }

  /** Writing `u + w` through `X..X'/'X..X`, with `u` filling the first
      positions, inserts the separator; a value too short to reach the
      second positions gets no separator. */
  lemma SourceSplitMask(a: nat, b: nat, u: string, w: string)
    requires |u| == a
    ensures ApplyForSource(SplitMask(a, b), u + w)
         == Ok(if w == [] then u else u + "/" + w[..Min(|w|, b)])
  {
    SplitMaskPositions(a, b);
    assert Positions(SplitMask(a, b)) == Xs(a) + ("/" + Xs(b));
    SourceXs(a, "/" + Xs(b), u, w);
    if w != [] {
      assert ("/" + Xs(b))[1..] == Xs(b);
      assert SourceWalk("/" + Xs(b), w) == "/" + SourceWalk(Xs(b), w);
      SourceAllXs(b, w);
      assert u + ("/" + w[..Min(|w|, b)]) == u + "/" + w[..Min(|w|, b)];
    } else {
      assert u + w == u;
    }
  }

  lemma {:induction false} SourceXs(n: nat, rest: string, u: string, v: string)
    requires |u| == n
    ensures SourceWalk(Xs(n) + rest, u + v) == u + SourceWalk(rest, v)
  {
    if n > 0 {
      assert (Xs(n) + rest)[1..] == Xs(n - 1) + rest;
      assert (u + v)[1..] == u[1..] + v;
      SourceXs(n - 1, rest, u[1..], v);
      assert u == [u[0]] + u[1..];
    } else {
      assert Xs(n) + rest == rest && u + v == v;
    }
  }

  lemma {:induction false} SourceAllXs(n: nat, w: string)
    ensures SourceWalk(Xs(n), w) == w[..Min(|w|, n)]
  {
    if n > 0 && w != [] {
      assert Xs(n)[1..] == Xs(n - 1);
      SourceAllXs(n - 1, w[1..]);
      assert w[..Min(|w|, n)] == [w[0]] + w[1..][..Min(|w| - 1, n - 1)];
    }
  }
}
