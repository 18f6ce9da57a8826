/** What the screen shows: the effect of output row by row, and the picture that text
    leaves behind. */
module ScreenRows {
  import opened Bytes
  import opened Positional
  import opened ScreenGrid

  // ---- Changes inside one row ----

  /** Cells that differ only in the w cells from p on. */
  ghost predicate OnlyHere(a: seq<nat>, b: seq<nat>, p: nat, w: nat) {
    |a| == |b| && p + w <= |a| && a[..p] == b[..p] && a[p + w..] == b[p + w..]
  }

  lemma SliceElsewhere(a: seq<nat>, b: seq<nat>, p: nat, w: nat, q: nat)
    requires OnlyHere(a, b, p, w) && (q + w <= p || p + w <= q) && q + w <= |a|
    ensures a[q..q + w] == b[q..q + w]
  {
    if q + w <= p {
      assert a[q..q + w] == a[..p][q..q + w] && b[q..q + w] == b[..p][q..q + w];
    } else {
      var k := q - (p + w);
      assert a[q..q + w] == a[p + w..][k..k + w] && b[q..q + w] == b[p + w..][k..k + w];
    }
  }

  /** Cells that differ only in the cursor's row leave every other row alone. */
  lemma RowChange(g: Grid, cells: seq<nat>, r: nat)
    requires Valid(g) && r < g.rows && OnlyHere(g.cells, cells, RowAt(g, g.row), g.cols)
    ensures var p := RowAt(g, g.row);
            Row(g.(cells := cells), r) == if r == g.row then cells[p..p + g.cols] else Row(g, r)
  {
    hide OnlyHere;
    if r < g.row { Lines(r, 1, g.row, g.cols); } else if r > g.row { Lines(g.row, 1, r, g.cols); }
    if r != g.row { SliceElsewhere(g.cells, cells, RowAt(g, g.row), g.cols, RowAt(g, r)); }
  }

  lemma FillHere(cells: seq<nat>, p: nat, w: nat, a: nat, b: nat)
    requires a <= b <= w && p + w <= |cells|
    ensures OnlyHere(cells, Fill(cells, p + a, p + b), p, w)
    ensures Fill(cells, p + a, p + b)[p..p + w] == Fill(cells[p..p + w], a, b)
  {
    hide Fill;
    var s, t := Fill(cells, p + a, p + b), Fill(cells[p..p + w], a, b);
    forall i | 0 <= i < |cells|
      ensures s[i] == if p + a <= i < p + b then BLANK else cells[i]
    {
      FillAt(cells, p + a, p + b, i);
    }
    forall i | 0 <= i < w
      ensures t[i] == if a <= i < b then BLANK else cells[p..p + w][i]
    {
      FillAt(cells[p..p + w], a, b, i);
    }
    assert s[p..p + w] == t;
  }

  lemma ShiftLeftHere(cells: seq<nat>, p: nat, w: nat, a: nat, n: nat)
    requires a + n <= w && p + w <= |cells|
    ensures OnlyHere(cells, ShiftLeft(cells, p + a, p + w, n), p, w)
    ensures ShiftLeft(cells, p + a, p + w, n)[p..p + w] == ShiftLeft(cells[p..p + w], a, w, n)
  {
    hide ShiftLeft;
    var s, row := ShiftLeft(cells, p + a, p + w, n), cells[p..p + w];
    var t := ShiftLeft(row, a, w, n);
    forall i | 0 <= i < |cells| && !(p <= i < p + w)
      ensures s[i] == cells[i]
    {
      ShiftLeftAt(cells, p + a, p + w, n, i);
    }
    forall i | 0 <= i < w
      ensures s[p..p + w][i] == t[i]
    {
      ShiftLeftAt(cells, p + a, p + w, n, p + i);
      ShiftLeftAt(row, a, w, n, i);
    }
  }

  lemma ShiftRightHere(cells: seq<nat>, p: nat, w: nat, a: nat, n: nat)
    requires a + n <= w && p + w <= |cells|
    ensures OnlyHere(cells, ShiftRight(cells, p + a, p + w, n), p, w)
    ensures ShiftRight(cells, p + a, p + w, n)[p..p + w] == ShiftRight(cells[p..p + w], a, w, n)
  {
    hide ShiftRight;
    var s, row := ShiftRight(cells, p + a, p + w, n), cells[p..p + w];
    var t := ShiftRight(row, a, w, n);
    forall i | 0 <= i < |cells| && !(p <= i < p + w)
      ensures s[i] == cells[i]
    {
      ShiftRightAt(cells, p + a, p + w, n, i);
    }
    forall i | 0 <= i < w
      ensures s[p..p + w][i] == t[i]
    {
      ShiftRightAt(cells, p + a, p + w, n, p + i);
      ShiftRightAt(row, a, w, n, i);
    }
  }

  // ---- Writing ----

  /** What a byte looks like on the screen. */
  function Glyph(ch: nat): nat {
    if ch < 32 || ch == 127 then 32 else ch
  }

  /** A character without a delayed wrap: its cell, and the cursor one further or, in the
      last column, the wrap delayed. */
  lemma PutCell(g: Grid, ch: nat)
    requires Valid(g) && !g.wrap
    ensures g.row * g.cols + g.col < |g.cells|
    ensures Put(g, ch) == g.(cells := g.cells[g.row * g.cols + g.col := Glyph(ch)],
                             col := if g.col + 1 < g.cols then g.col + 1 else g.col,
                             wrap := g.col + 1 == g.cols)
  {
    CursorCell(g);
  }

  /** A delayed wrap is a new line from the left first. */
  lemma PutWraps(g: Grid, ch: nat)
    requires Valid(g) && g.wrap
    ensures Put(g, ch) == Put(Newline(g.(col := 0)), ch)
  {
  }

  lemma PutRows(g: Grid, ch: nat, r: nat)
    requires Valid(g) && !g.wrap && r < g.rows
    ensures Valid(Put(g, ch))
    ensures Row(Put(g, ch), r) == if r == g.row then Row(g, r)[g.col := Glyph(ch)] else Row(g, r)
  {
    hide Put;
    PutValid(g, ch);
    PutCell(g, ch);
    var p := RowAt(g, g.row);
    var cells := g.cells[p + g.col := Glyph(ch)];
    RowChange(g, cells, r);
    SameRow(Put(g, ch), g.(cells := cells), r);
  }

  /** Scrolling: the rows of the region move up by one and the last of them is blank. */
  lemma ScrollUpRows(g: Grid, r: nat)
    requires Valid(g) && r < g.rows
    ensures Row(ScrollUp(g), r) ==
            if r < g.top || g.bottom < r then Row(g, r) else if r < g.bottom then Row(g, r + 1) else Blank(g.cols)
  {
    hide ScrollUp, DeleteLines, ScrollUpTimes, ScrollDownTimes, Row, IsArea;
    var k := g.(row := g.top);
    ScrollOnce(g);
    ScrollUpIsDeleteLines(g, 1);
    DeleteLinesRows(k, 1, r);
    SameRow(ScrollUp(g), DeleteLines(k, 1), r);
    SameRow(k, g, r);
    if r < g.bottom { SameRow(k, g, r + 1); }
  }

  lemma ScrollOnce(g: Grid)
    requires Valid(g)
    ensures ScrollUpTimes(g, 1) == ScrollUp(g) && ScrollDownTimes(g, 1) == ScrollDown(g)
  {
    hide ScrollUp, ScrollDown;
    assert ScrollUpTimes(g, 0) == g && ScrollDownTimes(g, 0) == g;
  }

  lemma SameRow(g: Grid, h: Grid, r: nat)
    requires Valid(g) && Valid(h) && g.cells == h.cells && g.cols == h.cols && g.rows == h.rows && r < g.rows
    ensures Row(g, r) == Row(h, r)
  {
  }

  /** Reverse scrolling: the rows move down by one and the first of them is blank. */
  lemma ScrollDownRows(g: Grid, r: nat)
    requires Valid(g) && r < g.rows
    ensures Row(ScrollDown(g), r) ==
            if r < g.top || g.bottom < r then Row(g, r) else if r > g.top then Row(g, r - 1) else Blank(g.cols)
  {
    hide ScrollDown, InsertLines, ScrollUpTimes, ScrollDownTimes, Row, IsArea;
    var k := g.(row := g.top);
    ScrollOnce(g);
    ScrollDownIsInsertLines(g, 1);
    InsertLinesRows(k, 1, r);
    SameRow(ScrollDown(g), InsertLines(k, 1), r);
    SameRow(k, g, r);
    if r > g.top { SameRow(k, g, r - 1); }
  }

  /** A new line moves the cursor down, or scrolls at the bottom of the region, or stays
      on the last row below it. */
  lemma NewlineRows(g: Grid, r: nat)
    requires Valid(g) && r < g.rows
    ensures var h := Newline(g);
            && Row(h, r) == (if g.row == g.bottom then Row(ScrollUp(g), r) else Row(g, r))
            && h == g.(cells := h.cells, wrap := false,
                       row := if g.row == g.bottom || g.row + 1 == g.rows then g.row else g.row + 1)
  {
    hide ShiftLeft;
  }

  lemma ReverseRows(g: Grid, r: nat)
    requires Valid(g) && r < g.rows
    ensures var h := ReverseIndex(g);
            && Row(h, r) == (if g.row == g.top then Row(ScrollDown(g), r) else Row(g, r))
            && h == g.(cells := h.cells, wrap := false,
                       row := if g.row == g.top || g.row == 0 then g.row else g.row - 1)
  {
    hide ShiftRight;
  }

  /** A character behind a delayed wrap: in the first column of the next row, or of the
      same row once the region has scrolled under it. */
  lemma WrappedRows(g: Grid, ch: nat, r: nat)
    requires Valid(g) && g.wrap && r < g.rows
    ensures Valid(Put(g, ch))
    ensures var h, scrolls := Put(g, ch), g.row == g.bottom;
            var row := if scrolls || g.row + 1 == g.rows then g.row else g.row + 1;
            var base := if !scrolls || r < g.top || g.bottom < r then Row(g, r)
                        else if r < g.bottom then Row(g, r + 1) else Blank(g.cols);
            && Row(h, r) == (if r == row then base[0 := Glyph(ch)] else base)
            && h.row == row && h.col == (if g.cols == 1 then 0 else 1) && h.wrap == (g.cols == 1)
  {
    hide Put, Newline, ScrollUp, Row, IsArea;
    var k := g.(col := 0);
    PutWraps(g, ch);
    NewlineRows(k, r);
    PutRows(Newline(k), ch, r);
    PutCell(Newline(k), ch);
    SameRow(k, g, r);
    if g.row == g.bottom {
      ScrollUpRows(k, r);
      if r < g.bottom { SameRow(k, g, r + 1); }
    }
  }

  /** Outside the scroll region lines are neither inserted nor deleted. */
  lemma OutsideRegion(g: Grid, n: nat)
    requires Valid(g) && (n == 0 || g.row < g.top || g.bottom < g.row)
    ensures InsertLines(g, n) == g && DeleteLines(g, n) == g
  {
  }

  // ---- Text ----

  predicate IsText(s: seq<nat>) {
    forall i | 0 <= i < |s| :: 32 <= s[i] < 256 && s[i] != 127
  }

  function Overwrite(cells: seq<nat>, p: nat, text: seq<nat>): (s: seq<nat>)
    requires p + |text| <= |cells|
    ensures |s| == |cells|
  {
    cells[..p] + text + cells[p + |text|..]
  }

  lemma OverwriteSnoc(cells: seq<nat>, p: nat, text: seq<nat>)
    requires text != [] && p + |text| <= |cells|
    ensures var n := |text| - 1;
            Overwrite(cells, p, text[..n])[p + n := text[n]] == Overwrite(cells, p, text)
  {
  }

  /** The grid after text that fits the rest of the row. */
  function Typed(g: Grid, text: seq<nat>): Grid
    requires Valid(g) && g.col + |text| <= g.cols
  {
    g.(cells := Overwrite(g.cells, RowAt(g, g.row) + g.col, text),
       col := if g.col + |text| < g.cols then g.col + |text| else g.cols - 1,
       wrap := g.wrap || g.col + |text| == g.cols)
  }

  lemma TypedNone(g: Grid)
    requires Valid(g)
    ensures Typed(g, []) == g
  {
    assert Overwrite(g.cells, RowAt(g, g.row) + g.col, []) == g.cells;
  }

  lemma TypedSnoc(g: Grid, text: seq<nat>)
    requires Valid(g) && g.esc == Plain && !g.wrap && text != [] && g.col + |text| <= g.cols && IsText(text)
    ensures var n := |text| - 1;
            var h := Typed(g, text[..n]);
            Valid(h) && !Hangs(h, text[n]) && FeedByte(h, text[n]) == Typed(g, text)
  {
    hide Overwrite, Put;
    var n := |text| - 1;
    var h := Typed(g, text[..n]);
    PutCell(h, text[n]);
    OverwriteSnoc(g.cells, RowAt(g, g.row) + g.col, text);
  }

  /** Text that fits the rest of the row is shown there, byte for byte, and nothing else
      changes. */
  lemma {:induction false} TextIsShown(g: Grid, text: seq<nat>)
    requires Valid(g) && g.esc == Plain && !g.wrap && g.col + |text| <= g.cols && IsText(text)
    ensures Feed(g, text) == (Typed(g, text), |text|)
  {
    hide Typed, FeedByte;
    if text == [] {
      TypedNone(g);
    } else {
      TextIsShown(g, text[..|text| - 1]);
      TypedSnoc(g, text);
    }
  }

  // ---- Lines of text ----

  lemma {:induction false} FeedAppend(g: Grid, a: seq<nat>, b: seq<nat>)
    requires Valid(g) && AreBytes(a) && AreBytes(b) && Feed(g, a).1 == |a|
    ensures AreBytes(a + b)
    ensures Feed(g, a + b) == (Feed(Feed(g, a).0, b).0, |a| + Feed(Feed(g, a).0, b).1)
    decreases |b|
  {
    hide FeedByte, Hangs;
    if b == [] {
      assert a + b == a;
    } else {
      var n := |b| - 1;
      FeedAppend(g, a, b[..n]);
      assert (a + b)[..|a| + n] == a + b[..n];
    }
  }

  /** A line as its row shows it. */
  function Padded(line: seq<nat>, cols: nat): (s: seq<nat>)
    requires |line| <= cols
    ensures |s| == cols
  {
    line + Blank(cols - |line|)
  }

  ghost predicate AreLines(lines: seq<seq<nat>>, cols: nat) {
    forall i | 0 <= i < |lines| :: IsText(lines[i]) && |lines[i]| <= cols
  }

  /** Lines as a program prints them, a carriage return and a line feed between each two. */
  function Printed(lines: seq<seq<nat>>): seq<nat> {
    if lines == [] then []
    else if |lines| == 1 then lines[0]
    else Printed(lines[..|lines| - 1]) + [13, 10] + lines[|lines| - 1]
  }

  /** The screen shows the last lines that fit it, the first of them at the top, and
      blanks below; the cursor is in the row of the last line. */
  ghost predicate Shows(g: Grid, lines: seq<seq<nat>>) {
    && Valid(g) && g.esc == Plain && g.top == 0 && g.bottom == g.rows - 1
    && lines != [] && AreLines(lines, g.cols)
    && g.row == Min(|lines|, g.rows) - 1
    && forall r | 0 <= r < g.rows :: ShowsAt(g, lines, r)
  }

  /** The first line still on the screen. */
  function Oldest(lines: seq<seq<nat>>, rows: nat): nat {
    if |lines| <= rows then 0 else |lines| - rows
  }

  ghost predicate ShowsAt(g: Grid, lines: seq<seq<nat>>, r: nat)
    requires Valid(g) && r < g.rows && AreLines(lines, g.cols)
  {
    var i := Oldest(lines, g.rows) + r;
    Row(g, r) == if i < |lines| then Padded(lines[i], g.cols) else Blank(g.cols)
  }

  /** Text in an otherwise blank row. */
  lemma TypedRow(g: Grid, line: seq<nat>, r: nat)
    requires Valid(g) && g.col == 0 && |line| <= g.cols && r < g.rows && Row(g, g.row) == Blank(g.cols)
    ensures Valid(Typed(g, line))
    ensures Row(Typed(g, line), r) == if r == g.row then Padded(line, g.cols) else Row(g, r)
  {
    var h := Typed(g, line);
    if r == g.row {
      var p := RowAt(g, r);
      forall i | 0 <= i < g.cols
        ensures Row(h, r)[i] == Padded(line, g.cols)[i]
      {
        assert g.cells[p + i] == Row(g, g.row)[i];
      }
    } else {
      RowChange(g, h.cells, r);
      SameRow(h, g.(cells := h.cells), r);
    }
  }

  lemma FirstLine(cols: nat, rows: nat, line: seq<nat>)
    requires cols > 0 && rows > 0 && IsText(line) && |line| <= cols
    ensures Shows(Typed(Fresh(cols, rows), line), [line])
  {
    hide Typed;
    var g := Fresh(cols, rows);
    forall r | 0 <= r < rows
      ensures Row(g, r) == Blank(cols)
    {
    }
    var h := Typed(g, line);
    TypedFields(g, line);
    forall r | 0 <= r < rows
      ensures Valid(h) && ShowsAt(h, [line], r)
    {
      TypedRow(g, line, r);
    }
    TypedRow(g, line, 0);
  }

  lemma TypedFields(g: Grid, text: seq<nat>)
    requires Valid(g) && g.col + |text| <= g.cols
    ensures var h := Typed(g, text);
            h.cols == g.cols && h.rows == g.rows && h.esc == g.esc && h.top == g.top && h.bottom == g.bottom &&
            h.row == g.row
  {
  }

  /** The grid after a carriage return and a line feed. */
  function NextLine(g: Grid): (h: Grid)
    requires Valid(g)
    ensures Valid(h)
  {
    Newline(g.(col := 0, wrap := false))
  }

  lemma FeedNextLine(g: Grid)
    requires Valid(g) && g.esc == Plain
    ensures Feed(g, [13, 10]) == (NextLine(g), 2)
  {
    hide Newline;
    var h := g.(col := 0, wrap := false);
    assert [13, 10][..1] == [13] && [13][..0] == [];
    assert Feed(g, []) == (g, 0);
    assert Feed(g, [13]) == (h, 1);
  }

  /** ... shows the lines one row higher if it was full, and leaves a blank row for the
      next one. */
  lemma NextLineRows(g: Grid, lines: seq<seq<nat>>, r: nat)
    requires Shows(g, lines) && r < g.rows
    ensures var h := NextLine(g);
            && h == g.(cells := h.cells, col := 0, wrap := false, row := Min(|lines| + 1, g.rows) - 1)
            && Row(h, r) == if r == h.row then Blank(g.cols) else if |lines| < g.rows then Row(g, r) else Row(g, r + 1)
  {
    hide Newline, ScrollUp, AreLines, Padded;
    var k := g.(col := 0, wrap := false);
    NewlineRows(k, r);
    assert Row(k, r) == Row(g, r);
    assert ShowsAt(g, lines, r);
    if g.row == g.bottom {
      ScrollUpRows(k, r);
      if r < g.bottom { assert Row(k, r + 1) == Row(g, r + 1); }
    }
  }

  lemma AreLinesSnoc(lines: seq<seq<nat>>, line: seq<nat>, cols: nat)
    requires AreLines(lines, cols) && IsText(line) && |line| <= cols
    ensures AreLines(lines + [line], cols)
  {
  }

  /** A row of a screen that was full, and of one that was not. */
  lemma FullShowsAt(g: Grid, h: Grid, lines: seq<seq<nat>>, line: seq<nat>, r: nat)
    requires Valid(g) && Valid(h) && h.cols == g.cols && h.rows == g.rows && r < g.rows <= |lines|
    requires AreLines(lines, g.cols) && AreLines(lines + [line], g.cols) && |line| <= g.cols
    requires if r == g.rows - 1 then Row(h, r) == Padded(line, g.cols)
             else Row(h, r) == Row(g, r + 1) && ShowsAt(g, lines, r + 1)
    ensures ShowsAt(h, lines + [line], r)
  {
    hide Row, Padded, AreLines, IsArea, IsText;
  }

  lemma GrowingShowsAt(g: Grid, h: Grid, lines: seq<seq<nat>>, line: seq<nat>, r: nat)
    requires Valid(g) && Valid(h) && h.cols == g.cols && h.rows == g.rows && r < g.rows && |lines| < g.rows
    requires AreLines(lines, g.cols) && AreLines(lines + [line], g.cols) && |line| <= g.cols
    requires if r == |lines| then Row(h, r) == Padded(line, g.cols)
             else Row(h, r) == Row(g, r) && ShowsAt(g, lines, r)
    ensures ShowsAt(h, lines + [line], r)
  {
    hide Row, Padded, AreLines, IsArea, IsText;
  }

  lemma NextShowsAt(g: Grid, lines: seq<seq<nat>>, line: seq<nat>, r: nat)
    requires Shows(g, lines) && IsText(line) && |line| <= g.cols && r < g.rows
    ensures Valid(Typed(NextLine(g), line)) && AreLines(lines + [line], g.cols)
    ensures var h := Typed(NextLine(g), line);
            h.cols == g.cols && h.rows == g.rows && ShowsAt(h, lines + [line], r)
  {
    hide Typed, NextLine, Padded, AreLines, IsText, Row, IsArea, ShowsAt;
    var k := NextLine(g);
    AreLinesSnoc(lines, line, g.cols);
    NextLineRows(g, lines, Min(|lines| + 1, g.rows) - 1);
    NextLineRows(g, lines, r);
    var h := Typed(k, line);
    TypedRow(k, line, r);
    TypedFields(k, line);
    if |lines| < g.rows {
      GrowingShowsAt(g, h, lines, line, r);
    } else {
      FullShowsAt(g, h, lines, line, r);
    }
  }

  lemma NextShows(g: Grid, lines: seq<seq<nat>>, line: seq<nat>)
    requires Shows(g, lines) && IsText(line) && |line| <= g.cols
    ensures Shows(Typed(NextLine(g), line), lines + [line])
  {
    hide Typed, NextLine, ShowsAt, AreLines, IsText;
    NextLineRows(g, lines, 0);
    TypedFields(NextLine(g), line);
    NextShowsAt(g, lines, line, 0);
    forall r | 0 <= r < g.rows
      ensures ShowsAt(Typed(NextLine(g), line), lines + [line], r)
    {
      NextShowsAt(g, lines, line, r);
    }
  }

  lemma {:induction false} PrintedBytes(lines: seq<seq<nat>>, cols: nat)
    requires AreLines(lines, cols)
    ensures AreBytes(Printed(lines))
  {
    if lines != [] { PrintedBytes(lines[..|lines| - 1], cols); }
  }

  /** Printing lines on a fresh screen, however many and however long up to its width,
      leaves the last of them on it, each in its own row from the left. */
  lemma {:induction false} LinesAreShown(cols: nat, rows: nat, lines: seq<seq<nat>>)
    requires cols > 0 && rows > 0 && lines != [] && AreLines(lines, cols)
    ensures AreBytes(Printed(lines))
    ensures var (g, taken) := Feed(Fresh(cols, rows), Printed(lines));
            taken == |Printed(lines)| && Shows(g, lines) && g.cols == cols && g.rows == rows
  {
    hide Typed, NextLine, Shows, Feed;
    PrintedBytes(lines, cols);
    var n := |lines| - 1;
    var line := lines[n];
    if n == 0 {
      assert lines == [line];
      TextIsShown(Fresh(cols, rows), line);
      FirstLine(cols, rows, line);
      TypedFields(Fresh(cols, rows), line);
    } else {
      var before := lines[..n];
      LinesAreShown(cols, rows, before);
      var g := Feed(Fresh(cols, rows), Printed(before)).0;
      PrintLine(cols, rows, before, line, g);
      assert before + [line] == lines;
    }
  }

  lemma PrintLine(cols: nat, rows: nat, before: seq<seq<nat>>, line: seq<nat>, g: Grid)
    requires cols > 0 && rows > 0 && AreBytes(Printed(before)) && IsText(line) && |line| <= cols
    requires Feed(Fresh(cols, rows), Printed(before)) == (g, |Printed(before)|)
    requires Shows(g, before) && g.cols == cols && g.rows == rows
    ensures var text := Printed(before) + [13, 10] + line;
            && AreBytes(text)
            && var h := Typed(NextLine(g), line);
               && Feed(Fresh(cols, rows), text) == (h, |text|) && Shows(h, before + [line])
               && h.cols == cols && h.rows == rows
  {
    hide Typed, NextLine, Feed, Printed;
    FeedAppend(Fresh(cols, rows), Printed(before), [13, 10]);
    FeedNextLine(g);
    NextLineRows(g, before, 0);
    FeedAppend(Fresh(cols, rows), Printed(before) + [13, 10], line);
    TextIsShown(NextLine(g), line);
    NextShows(g, before, line);
    TypedFields(NextLine(g), line);
  }

  // ---- Erasing, inserting and deleting in a row ----

  lemma RowFilled(g: Grid, a: nat, b: nat, r: nat)
    requires Valid(g) && a <= b <= g.cols && r < g.rows
    ensures var p := RowAt(g, g.row);
            Row(g.(cells := Fill(g.cells, p + a, p + b)), r) ==
            if r != g.row then Row(g, r) else Row(g, r)[..a] + Blank(b - a) + Row(g, r)[b..]
  {
    hide Fill, Row, RowAt, IsArea, OnlyHere;
    var p := RowAt(g, g.row);
    FillHere(g.cells, p, g.cols, a, b);
    RowChange(g, Fill(g.cells, p + a, p + b), r);
    RowOf(g, g.cells, g.row);
    FillParts(Row(g, g.row), a, b);
  }

  lemma FillParts(row: seq<nat>, a: nat, b: nat)
    requires a <= b <= |row|
    ensures Fill(row, a, b) == row[..a] + Blank(b - a) + row[b..]
  {
  }

  /** Blanks at the left end, at the right end, and over a whole row. */
  lemma BlankEnds(row: seq<nat>, a: nat)
    requires a <= |row|
    ensures row[..0] + Blank(a) + row[a..] == Blank(a) + row[a..]
    ensures row[..a] + Blank(|row| - a) + row[|row|..] == row[..a] + Blank(|row| - a)
    ensures row[..0] + Blank(|row|) + row[|row|..] == Blank(|row|)
  {
  }

  /** Erasing in the line: from the cursor, up to and including it, or all of it. */
  lemma EraseLineRows(g: Grid, mode: nat, r: nat)
    requires Valid(g) && r < g.rows
    ensures Row(EraseLine(g, mode), r) ==
            if r != g.row then Row(g, r)
            else if mode == 1 then Blank(g.col + 1) + Row(g, r)[g.col + 1..]
            else if mode == 2 then Blank(g.cols)
            else Row(g, r)[..g.col] + Blank(g.cols - g.col)
  {
    hide Fill, Row, IsArea;
    RowFilled(g, if mode == 1 || mode == 2 then 0 else g.col, if mode == 1 then g.col + 1 else g.cols, r);
    RowLength(g, r);
    BlankEnds(Row(g, r), if mode == 1 then g.col + 1 else g.col);
  }

  lemma RowLength(g: Grid, r: nat)
    requires Valid(g) && r < g.rows
    ensures |Row(g, r)| == g.cols
  {
  }

  /** Erasing n characters from the cursor on. */
  lemma EraseCharsRows(g: Grid, n: nat, r: nat)
    requires Valid(g) && r < g.rows
    ensures Row(EraseChars(g, n), r) ==
            if r != g.row then Row(g, r)
            else if g.col + n < g.cols then Row(g, r)[..g.col] + Blank(n) + Row(g, r)[g.col + n..]
            else Row(g, r)[..g.col] + Blank(g.cols - g.col)
  {
    hide Fill, Row, IsArea;
    RowLength(g, r);
    RowFilled(g, g.col, g.col + Min(n, g.cols - g.col), r);
    BlankEnds(Row(g, r), g.col);
  }

  /** Deleting n characters: what follows them moves to the cursor, blanks come in from
      the right. */
  lemma DeleteCharsRows(g: Grid, n: nat, r: nat)
    requires Valid(g) && r < g.rows
    ensures Row(DeleteChars(g, n), r) ==
            if r != g.row then Row(g, r)
            else if g.col + n < g.cols then Row(g, r)[..g.col] + Row(g, r)[g.col + n..] + Blank(n)
            else Row(g, r)[..g.col] + Blank(g.cols - g.col)
  {
    hide ShiftLeft, Row, IsArea;
    RowLength(g, r);
    RowMovedLeft(g, g.col, Min(n, g.cols - g.col), r);
  }

  lemma RowMovedLeft(g: Grid, a: nat, n: nat, r: nat)
    requires Valid(g) && a + n <= g.cols && r < g.rows
    ensures var p, row := RowAt(g, g.row), Row(g, r);
            Row(g.(cells := ShiftLeft(g.cells, p + a, p + g.cols, n)), r) ==
            if r != g.row then row
            else if a + n == g.cols then row[..a] + Blank(n)
            else row[..a] + row[a + n..] + Blank(n)
  {
    hide ShiftLeft, Row, RowAt, IsArea, OnlyHere;
    var p := RowAt(g, g.row);
    ShiftLeftHere(g.cells, p, g.cols, a, n);
    RowChange(g, ShiftLeft(g.cells, p + a, p + g.cols, n), r);
    RowOf(g, g.cells, g.row);
    ShiftLeftParts(Row(g, g.row), a, n);
  }

  lemma ShiftLeftParts(row: seq<nat>, a: nat, n: nat)
    requires a + n <= |row|
    ensures ShiftLeft(row, a, |row|, n) == row[..a] + row[a + n..] + Blank(n)
    ensures a + n == |row| ==> ShiftLeft(row, a, |row|, n) == row[..a] + Blank(n)
  {
  }

  /** Inserting n blanks at the cursor: what is there moves right, the end is lost. */
  lemma InsertCharsRows(g: Grid, n: nat, r: nat)
    requires Valid(g) && r < g.rows
    ensures Row(InsertChars(g, n), r) ==
            if r != g.row then Row(g, r)
            else if g.col + n < g.cols then Row(g, r)[..g.col] + Blank(n) + Row(g, r)[g.col..g.cols - n]
            else Row(g, r)[..g.col] + Blank(g.cols - g.col)
  {
    hide ShiftRight, Row, IsArea;
    RowLength(g, r);
    RowMovedRight(g, g.col, Min(n, g.cols - g.col), r);
  }

  lemma RowMovedRight(g: Grid, a: nat, n: nat, r: nat)
    requires Valid(g) && a + n <= g.cols && r < g.rows
    ensures var p, row := RowAt(g, g.row), Row(g, r);
            Row(g.(cells := ShiftRight(g.cells, p + a, p + g.cols, n)), r) ==
            if r != g.row then row
            else if a + n == g.cols then row[..a] + Blank(n)
            else row[..a] + Blank(n) + row[a..g.cols - n]
  {
    hide ShiftRight, Row, RowAt, IsArea, OnlyHere;
    var p := RowAt(g, g.row);
    ShiftRightHere(g.cells, p, g.cols, a, n);
    RowChange(g, ShiftRight(g.cells, p + a, p + g.cols, n), r);
    RowOf(g, g.cells, g.row);
    ShiftRightParts(Row(g, g.row), a, n);
  }

  lemma ShiftRightParts(row: seq<nat>, a: nat, n: nat)
    requires a + n <= |row|
    ensures ShiftRight(row, a, |row|, n) == row[..a] + Blank(n) + row[a..|row| - n]
    ensures a + n == |row| ==> ShiftRight(row, a, |row|, n) == row[..a] + Blank(n)
  {
  }

  lemma BlankSlice(n: nat, q: nat, w: nat)
    requires q + w <= n
    ensures Blank(n)[q..q + w] == Blank(w)
  {
  }

  /** A slice of cells blanked from lo on, or up to hi. */
  lemma FilledBehind(cells: seq<nat>, lo: nat, q: nat, w: nat)
    requires lo <= |cells| && q + w <= |cells|
    ensures var s := Fill(cells, lo, |cells|)[q..q + w];
            && (q + w <= lo ==> s == cells[q..q + w])
            && (lo <= q ==> s == Blank(w))
            && (q <= lo <= q + w ==> s == cells[q..q + w][..lo - q] + Blank(q + w - lo))
  {
    hide Fill;
    var s := Fill(cells, lo, |cells|)[q..q + w];
    forall i | 0 <= i < w
      ensures s[i] == if lo <= q + i then BLANK else cells[q + i]
    {
      FillAt(cells, lo, |cells|, q + i);
    }
    if q + w <= lo { assert s == cells[q..q + w]; }
    if lo <= q { assert s == Blank(w); }
    if q <= lo <= q + w { assert s == cells[q..q + w][..lo - q] + Blank(q + w - lo); }
  }

  lemma FilledBefore(cells: seq<nat>, hi: nat, q: nat, w: nat)
    requires hi <= |cells| && q + w <= |cells|
    ensures var s := Fill(cells, 0, hi)[q..q + w];
            && (hi <= q ==> s == cells[q..q + w])
            && (q + w <= hi ==> s == Blank(w))
            && (q <= hi <= q + w ==> s == Blank(hi - q) + cells[q..q + w][hi - q..])
  {
    hide Fill;
    var s := Fill(cells, 0, hi)[q..q + w];
    forall i | 0 <= i < w
      ensures s[i] == if q + i < hi then BLANK else cells[q + i]
    {
      FillAt(cells, 0, hi, q + i);
    }
    if hi <= q { assert s == cells[q..q + w]; }
    if q + w <= hi { assert s == Blank(w); }
    if q <= hi <= q + w { assert s == Blank(hi - q) + cells[q..q + w][hi - q..]; }
  }

  /** Where a row lies relative to the cursor's. */
  lemma RowOrder(g: Grid, r: nat)
    requires Valid(g) && r < g.rows
    ensures r < g.row ==> RowAt(g, r) + g.cols <= RowAt(g, g.row)
    ensures r > g.row ==> RowAt(g, g.row) + g.cols <= RowAt(g, r)
  {
    if r < g.row { Lines(r, 1, g.row, g.cols); } else if r > g.row { Lines(g.row, 1, r, g.cols); }
  }

  lemma ClearedBelow(g: Grid, r: nat)
    requires Valid(g) && r < g.rows
    ensures Row(ClearDisplay(g, 0), r) == if r < g.row then Row(g, r) else if r > g.row then Blank(g.cols)
                                          else Row(g, r)[..g.col] + Blank(g.cols - g.col)
  {
    hide Fill, Row, RowAt, IsArea, Blank;
    var p, q := RowAt(g, g.row) + g.col, RowAt(g, r);
    RowOrder(g, r);
    RowOf(g, Fill(g.cells, p, |g.cells|), r);
    FilledBehind(g.cells, p, q, g.cols);
    if r == g.row { assert p - q == g.col; }
  }

  lemma ClearedAbove(g: Grid, r: nat)
    requires Valid(g) && r < g.rows
    ensures Row(ClearDisplay(g, 1), r) == if r > g.row then Row(g, r) else if r < g.row then Blank(g.cols)
                                          else Blank(g.col + 1) + Row(g, r)[g.col + 1..]
  {
    hide Fill, Row, RowAt, IsArea, Blank;
    var p, q := RowAt(g, g.row) + g.col, RowAt(g, r);
    RowOrder(g, r);
    RowOf(g, Fill(g.cells, 0, p + 1), r);
    FilledBefore(g.cells, p + 1, q, g.cols);
    if r == g.row { assert p + 1 - q == g.col + 1; }
  }

  /** Erasing in the display: everything from the cursor on, everything up to and
      including it, or everything. */
  lemma ClearDisplayRows(g: Grid, mode: nat, r: nat)
    requires Valid(g) && r < g.rows
    ensures Row(ClearDisplay(g, mode), r) ==
            if mode == 2 || mode == 3 then Blank(g.cols)
            else if mode == 0 then (if r < g.row then Row(g, r) else if r > g.row then Blank(g.cols)
                                    else Row(g, r)[..g.col] + Blank(g.cols - g.col))
            else if mode == 1 then (if r > g.row then Row(g, r) else if r < g.row then Blank(g.cols)
                                    else Blank(g.col + 1) + Row(g, r)[g.col + 1..])
            else Row(g, r)
  {
    hide Fill, Row, RowAt, IsArea;
    if mode == 0 {
      ClearedBelow(g, r);
    } else if mode == 1 {
      ClearedAbove(g, r);
    } else if mode == 2 || mode == 3 {
      RowOf(g, Blank(|g.cells|), r);
      BlankSlice(|g.cells|, RowAt(g, r), g.cols);
    }
  }
}
