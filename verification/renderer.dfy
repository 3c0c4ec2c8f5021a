/** `UnnaturalMapRenderer`: a Natural map (screen layout) drawn as text,
    one 80-column line per row.

    The renderer holds the finished lines, the row it is on and that row's
    line so far. Text and fields overlay the current line; a later row first
    emits the current line and as many blank lines as it takes; an earlier
    row is never gone back to. The Java object is mutable; here each call
    takes a renderer and gives the next one. Its `StringBuilder` is kept as
    the list of lines appended to it, and `AsString` joins them. */
module MapRenderer {
  import opened Results
  import opened Numbers

  /** The columns of a screen line. */
  const Width := 80

  /** `count` spaces. */
  function Spaces(count: nat): (r: string)
    ensures |r| == count && forall i :: 0 <= i < count ==> r[i] == ' '
  {
    seq(count, _ => ' ')
  }

  /** `blankLine()`: a screen line of spaces. */
  const BlankLine: string := Spaces(Width)

  datatype Renderer = Renderer(lines: seq<string>, currentRow: int, currentLine: string)

  /** What a call leaves behind: the renderer as the call left it, and the
      exception it threw, if any. A call that throws has already emitted the
      rows it advanced over. */
  datatype Written = Written(state: Renderer, thrown: Option<Error>)

  /** A fresh renderer: nothing emitted, row 0, a blank line. */
  const Initial := Renderer([], 0, BlankLine)

  /** `count` blank lines. */
  function Blanks(count: nat): (r: seq<string>)
    ensures |r| == count && forall i :: 0 <= i < count ==> r[i] == BlankLine
  {
    seq(count, _ => BlankLine)
  }

  /** What a renderer always keeps: one emitted line per row passed, and
      every line, emitted or current, exactly as wide as the screen. */
  predicate Valid(r: Renderer) {
    && r.currentRow == |r.lines|
    && |r.currentLine| == Width
    && forall i :: 0 <= i < |r.lines| ==> |r.lines[i]| == Width
  }

  /** The lines joined, each followed by a newline. */
  function Flatten(lines: seq<string>): string {
    if lines == [] then []
    else Flatten(lines[..|lines| - 1]) + lines[|lines| - 1] + "\n"
  }

  /** `asString()`: everything emitted so far; the current line is not part
      of it until the renderer moves past it or finishes. */
  function AsString(r: Renderer): string {
    Flatten(r.lines)
  }

  /** `addCurrentRow()`: emit the current line and start a blank one on the
      next row. */
  function AddCurrentRow(r: Renderer): Renderer {
    Renderer(r.lines + [r.currentLine], r.currentRow + 1, BlankLine)
  }

  /** `advanceToRow(row)`: emit lines until the renderer is on `row`. The
      first line emitted is the current one, the rest are blank; a row at or
      before the current one changes nothing. */
  function AdvanceToRow(r: Renderer, row: int): (s: Renderer)
    ensures s.currentRow == if row > r.currentRow then row else r.currentRow
    ensures row <= r.currentRow ==> s == r
    ensures row > r.currentRow ==>
      && s.lines == r.lines + [r.currentLine] + Blanks(row - r.currentRow - 1)
      && s.currentLine == BlankLine
    decreases row - r.currentRow
  {
    if row > r.currentRow then
      var next := AddCurrentRow(r);
      var s := AdvanceToRow(next, row);
      assert row > next.currentRow ==> [BlankLine] + Blanks(row - next.currentRow - 1) == Blanks(row - r.currentRow - 1);
      s
    else r
  }

  /** `addTextToCurrentRow(text, col, row)`: the line up to `col`, then the
      text, then the line from `col + |text|` on. Either `substring` throws
      when its index falls outside the line; `col + |text|` wrapping past
      the 32-bit range would only make that index negative, which throws
      as well. */
  function Overlay(line: string, text: string, col: int): (r: Result<string>)
    ensures r.Ok? <==> 0 <= col && col + |text| <= |line|
    ensures r.Err? ==> r.error == IndexOutOfBounds
    ensures r.Ok? ==> |r.value| == |line|
    ensures r.Ok? ==> forall k :: 0 <= k < |line| ==>
      r.value[k] == if col <= k < col + |text| then text[k - col] else line[k]
  {
    if col < 0 || col > |line| then Err(IndexOutOfBounds)
    else if col + |text| < 0 || col + |text| > |line| then Err(IndexOutOfBounds)
    else Ok(line[..col] + text + line[col + |text|..])
  }

  /** Overlay `text` at `col` on the renderer's current line; a failure
      leaves the renderer as it is and records the exception. */
  function Draw(r: Renderer, text: string, col: int): Written {
    match Overlay(r.currentLine, text, col)
    case Ok(line) => Written(r.(currentLine := line), None)
    case Err(e) => Written(r, Some(e))
  }

  /** `addText(text, col, row)`: advance to `row` if it is later, then
      overlay the text on the line the renderer is then on. The call
      succeeds exactly when the text fits that line from `col`; it writes
      the text's characters at `col` onwards and nothing else, and never
      changes a line already emitted. */
  function AddText(r: Renderer, text: string, col: Int32, row: Int32): (w: Written)
    ensures w.state.lines == AdvanceToRow(r, row).lines
    ensures w.state.currentRow == if row > r.currentRow then row else r.currentRow
    ensures var line := AdvanceToRow(r, row).currentLine;
      w.thrown.None? <==> 0 <= col && col + |text| <= |line|
    ensures w.thrown.Some? ==> w.thrown == Some(IndexOutOfBounds) && w.state == AdvanceToRow(r, row)
    ensures var line := AdvanceToRow(r, row).currentLine;
      w.thrown.None? ==> |w.state.currentLine| == |line| && forall k :: 0 <= k < |line| ==>
        w.state.currentLine[k] == if col <= k < col + |text| then text[k - col] else line[k]
  {
    var advanced := if row > r.currentRow then AdvanceToRow(r, row) else r;
    Draw(advanced, text, col)
  }

  /** `addField(String field, col, row)`: as `AddText`, except that a null
      field still advances the rows but writes nothing. */
  function AddField(r: Renderer, field: Option<string>, col: Int32, row: Int32): (w: Written)
    ensures field.None? ==> w == Written(AdvanceToRow(r, row), None)
    ensures field.Some? ==> w == AddText(r, field.value, col, row)
  {
    var advanced := if row > r.currentRow then AdvanceToRow(r, row) else r;
    if field.Some? then Draw(advanced, field.value, col)
    else Written(advanced, None)
  }

  /** `addField(int field, col, row)`: the field's decimal text, written as
      `AddText` writes text. */
  function AddNumericField(r: Renderer, field: Int32, col: Int32, row: Int32): (w: Written)
    ensures w == AddText(r, IntToString(field), col, row)
    ensures w.thrown.None? ==>
      && col + |IntToString(field)| <= |w.state.currentLine|
      && ParseInteger(w.state.currentLine[col..col + |IntToString(field)|]) == Some(field as int)
  {
    var advanced := if row > r.currentRow then AdvanceToRow(r, row) else r;
    var text := IntToString(field);
    var w := Draw(advanced, text, col);
    assert w == AddText(r, text, col, row);
    assert w.thrown.None? ==> w.state.currentLine[col..col + |text|] == text;
    w
  }

  /** `finish()`: emit the current line. */
  function Finish(r: Renderer): (s: Renderer)
    ensures s.currentRow == r.currentRow + 1 && s.currentLine == BlankLine
    ensures Valid(r) ==> Valid(s)
    ensures AsString(s) == AsString(r) + r.currentLine + "\n"
  {
    var s := AddCurrentRow(r);
    assert s.lines[..|s.lines| - 1] == r.lines;
    s
  }

  // ---------------------------------------------------------------------
  // The invariant.

  lemma InitialValid()
    ensures Valid(Initial) && AsString(Initial) == []
  {
  }

  lemma AdvanceKeepsValid(r: Renderer, row: int)
    requires Valid(r)
    ensures Valid(AdvanceToRow(r, row))
  {
  }

  /** Every call leaves a valid renderer valid, whether it succeeds or
      throws. */
  lemma AddTextKeepsValid(r: Renderer, text: string, col: Int32, row: Int32)
    requires Valid(r)
    ensures Valid(AddText(r, text, col, row).state)
  {
    AdvanceKeepsValid(r, row);
  }

  /** On a valid renderer the line written on is a screen line: the call
      succeeds exactly when the text lies within the 80 columns, and a row
      moved to starts out blank. */
  lemma AddTextOnScreen(r: Renderer, text: string, col: Int32, row: Int32)
    requires Valid(r)
    ensures var w := AddText(r, text, col, row);
      && (w.thrown.None? <==> 0 <= col && col + |text| <= Width)
      && (w.thrown.None? ==> forall k :: 0 <= k < Width ==>
            w.state.currentLine[k] == if col <= k < col + |text| then text[k - col]
                                      else if row > r.currentRow then ' '
                                      else r.currentLine[k])
  {
    AdvanceKeepsValid(r, row);
  }

  lemma AddFieldKeepsValid(r: Renderer, field: Option<string>, col: Int32, row: Int32)
    requires Valid(r)
    ensures Valid(AddField(r, field, col, row).state)
  {
    AdvanceKeepsValid(r, row);
    if field.Some? {
      AddTextKeepsValid(r, field.value, col, row);
    }
  }

  // ---------------------------------------------------------------------
  // The output.

  lemma FlattenAppend(lines: seq<string>, line: string)
    ensures Flatten(lines + [line]) == Flatten(lines) + line + "\n"
  {
    assert (lines + [line])[..|lines|] == lines;
  }

  /** Lines that are all 80 wide flatten to 81 characters per line, line
      `k` filling positions `81k` to `81k + 79` and a newline at `81k + 80`. */
  lemma {:induction false} FlattenShape(lines: seq<string>)
    requires forall i :: 0 <= i < |lines| ==> |lines[i]| == Width
    ensures |Flatten(lines)| == (Width + 1) * |lines|
    ensures forall k :: 0 <= k < |lines| ==>
      && Flatten(lines)[(Width + 1) * k..(Width + 1) * k + Width] == lines[k]
      && Flatten(lines)[(Width + 1) * k + Width] == '\n'
  {
    if lines != [] {
      var n := |lines| - 1;
      var front := lines[..n];
      FlattenShape(front);
      var whole := Flatten(lines);
      assert whole == Flatten(front) + lines[n] + "\n";
      forall k | 0 <= k < |lines|
        ensures whole[(Width + 1) * k..(Width + 1) * k + Width] == lines[k]
        ensures whole[(Width + 1) * k + Width] == '\n'
      {
        if k < n {
          assert whole[..(Width + 1) * n] == Flatten(front);
        } else {
          assert whole[(Width + 1) * n..] == lines[n] + "\n";
        }
      }
    }
  }

  /** The output of a valid renderer is `currentRow` lines of 80 characters,
      each followed by a newline. */
  lemma OutputShape(r: Renderer)
    requires Valid(r)
    ensures |AsString(r)| == (Width + 1) * r.currentRow
    ensures forall k :: 0 <= k < r.currentRow ==>
      && AsString(r)[(Width + 1) * k..(Width + 1) * k + Width] == r.lines[k]
      && AsString(r)[(Width + 1) * k + Width] == '\n'
  {
    FlattenShape(r.lines);
    forall k | 0 <= k < r.currentRow
      ensures AsString(r)[(Width + 1) * k..(Width + 1) * k + Width] == r.lines[k]
      ensures AsString(r)[(Width + 1) * k + Width] == '\n'
    {
      assert k < |r.lines|;
    }
  }

  /** Moving to a later row emits the pending line, then a blank line for
      every row skipped, and leaves what was emitted before untouched. */
  lemma {:induction false} AdvanceOutput(r: Renderer, row: int)
    requires row > r.currentRow
    ensures AsString(AdvanceToRow(r, row)) == AsString(r) + r.currentLine + "\n" + Flatten(Blanks(row - r.currentRow - 1))
    decreases row - r.currentRow
  {
    var next := AddCurrentRow(r);
    FlattenAppend(r.lines, r.currentLine);
    if row > next.currentRow {
      AdvanceOutput(next, row);
      assert Blanks(row - r.currentRow - 1) == [BlankLine] + Blanks(row - next.currentRow - 1);
      BlankFlatten(row - next.currentRow - 1);
    }
  }

  lemma BlankFlatten(count: nat)
    ensures Flatten([BlankLine] + Blanks(count)) == BlankLine + "\n" + Flatten(Blanks(count))
  {
    FlattenPrepend(BlankLine, Blanks(count));
  }

  lemma {:induction false} FlattenPrepend(line: string, lines: seq<string>)
    ensures Flatten([line] + lines) == line + "\n" + Flatten(lines)
    decreases |lines|
  {
    if lines != [] {
      var n := |lines| - 1;
      assert ([line] + lines)[..n + 1] == [line] + lines[..n];
      FlattenPrepend(line, lines[..n]);
    }
  }

  /** Writing to the current row or an earlier one never goes back: nothing
      is emitted and the row stays where it is. */
  lemma NoGoingBack(r: Renderer, text: string, col: Int32, row: Int32)
    requires row <= r.currentRow
    ensures AsString(AddText(r, text, col, row).state) == AsString(r)
    ensures AddText(r, text, col, row).state.currentRow == r.currentRow
  {
  }

  /** A screen with text on rows 0 and 2: the text overlays blank lines,
      row 1 comes out blank, and the output is three 81-character lines. */
  lemma TwoRowsExample()
    ensures var w1 := AddText(Initial, "AB", 3, 0);
      && w1.thrown.None?
      && var w2 := AddText(w1.state, "C", 0, 2);
      && w2.thrown.None?
      && var done := Finish(w2.state);
      && done.currentRow == 3
      && done.lines == [Spaces(3) + "AB" + Spaces(75), BlankLine, "C" + Spaces(79)]
  {
    InitialValid();
    var w1 := AddText(Initial, "AB", 3, 0);
    AddTextKeepsValid(Initial, "AB", 3, 0);
    assert w1.state.currentLine == Spaces(3) + "AB" + Spaces(75);
    var w2 := AddText(w1.state, "C", 0, 2);
    assert w2.state.currentLine == "C" + Spaces(79);
  }
}
