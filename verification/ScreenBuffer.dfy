/** The same screen as the terminal keeps it: a cell array changed in place. */
module ScreenBuffer {
  import opened Bytes
  import opened Positional
  import opened ScreenGrid

  class Screen {
    var cols: nat
    var rows: nat
    var cells: array<nat>
    var row: nat
    var col: nat
    var savedRow: nat
    var savedCol: nat
    var top: nat
    var bottom: nat
    var wrap: bool
    var esc: Escape
    var csi: seq<nat>

    ghost function View(): Grid
      reads this, cells
    {
      Grid(cols, rows, cells[..], row, col, savedRow, savedCol, top, bottom, wrap, esc, csi)
    }

    ghost predicate Ok()
      reads this, cells
    {
      ScreenGrid.Valid(View())
    }

    constructor ()
      ensures Ok() && View() == Fresh(DEFAULT_COLS, DEFAULT_ROWS) && fresh(cells)
    {
      cols, rows := DEFAULT_COLS, DEFAULT_ROWS;
      cells := new nat[DEFAULT_ROWS * DEFAULT_COLS](_ => BLANK);
      row, col, savedRow, savedCol := 0, 0, 0, 0;
      top, bottom := 0, DEFAULT_ROWS - 1;
      wrap, esc, csi := false, Plain, [];
      new;
      assert cells[..] == Blank(DEFAULT_ROWS * DEFAULT_COLS);
    }

    // ---- Moving cells in place ----

    method FillCells(lo: nat, hi: nat)
      requires lo <= hi <= cells.Length
      modifies cells
      ensures cells[..] == Fill(old(cells[..]), lo, hi)
    {
      hide Fill;
      ghost var was := cells[..];
      var i := lo;
      while i < hi
        invariant lo <= i <= hi
        invariant forall k | 0 <= k < cells.Length :: cells[k] == if lo <= k < i then BLANK else was[k]
      {
        cells[i] := BLANK;
        i := i + 1;
      }
      forall k | 0 <= k < cells.Length ensures cells[..][k] == Fill(was, lo, hi)[k] { FillAt(was, lo, hi, k); }
    }

    /** A block move towards lower positions. */
    method MoveDown(to: nat, from: nat, n: nat)
      requires to <= from && from + n <= cells.Length
      modifies cells
      ensures forall k | 0 <= k < cells.Length ::
                cells[k] == old(cells[if to <= k < to + n then from + (k - to) else k])
    {
      ghost var was := cells[..];
      var i := 0;
      while i < n
        invariant 0 <= i <= n
        invariant forall k | 0 <= k < cells.Length :: cells[k] == was[if to <= k < to + i then from + (k - to) else k]
      {
        cells[to + i] := cells[from + i];
        i := i + 1;
      }
    }

    /** A block move towards higher positions, last cell first. */
    method MoveUp(to: nat, from: nat, n: nat)
      requires from <= to && to + n <= cells.Length
      modifies cells
      ensures forall k | 0 <= k < cells.Length ::
                cells[k] == old(cells[if to <= k < to + n then from + (k - to) else k])
    {
      ghost var was := cells[..];
      var i := n;
      while i > 0
        invariant 0 <= i <= n
        invariant forall k | 0 <= k < cells.Length ::
                    cells[k] == was[if to + i <= k < to + n then from + (k - to) else k]
      {
        i := i - 1;
        cells[to + i] := cells[from + i];
      }
    }

    method ShiftCellsLeft(lo: nat, hi: nat, n: nat)
      requires lo + n <= hi <= cells.Length
      modifies cells
      ensures cells[..] == ShiftLeft(old(cells[..]), lo, hi, n)
    {
      hide ShiftLeft, Fill;
      ghost var was := cells[..];
      MoveDown(lo, lo + n, hi - lo - n);
      ghost var moved := cells[..];
      FillCells(hi - n, hi);
      forall k | 0 <= k < cells.Length ensures cells[..][k] == ShiftLeft(was, lo, hi, n)[k] {
        FillAt(moved, hi - n, hi, k);
        ShiftLeftAt(was, lo, hi, n, k);
      }
    }

    method ShiftCellsRight(lo: nat, hi: nat, n: nat)
      requires lo + n <= hi <= cells.Length
      modifies cells
      ensures cells[..] == ShiftRight(old(cells[..]), lo, hi, n)
    {
      hide ShiftRight, Fill;
      ghost var was := cells[..];
      MoveUp(lo + n, lo, hi - lo - n);
      ghost var moved := cells[..];
      FillCells(lo, lo + n);
      forall k | 0 <= k < cells.Length ensures cells[..][k] == ShiftRight(was, lo, hi, n)[k] {
        FillAt(moved, lo, lo + n, k);
        ShiftRightAt(was, lo, hi, n, k);
      }
    }

    // ---- Scrolling and the cursor ----

    /** Cursors, region and parser back to where they start. */
    method StartOver()
      requires rows > 0
      modifies this`col, this`row, this`savedCol, this`savedRow, this`top, this`bottom, this`wrap, this`esc, this`csi
      ensures View() == Grid(cols, rows, cells[..], 0, 0, 0, 0, 0, rows - 1, false, Plain, [])
    {
      col, row, savedCol, savedRow, top := 0, 0, 0, 0, 0;
      bottom := rows - 1;
      wrap, esc, csi := false, Plain, [];
    }

    method ResetScreen()
      requires Ok()
      modifies this, cells
      ensures cells == old(cells) && View() == Reset(old(View()))
      ensures Ok()
    {
      HasRows(View());
      hide Valid;
      FillCells(0, cells.Length);
      assert cells[..] == Blank(cells.Length);
      StartOver();
    }

    method Allocate(newCols: nat, newRows: nat)
      requires newCols > 0 && newRows > 0
      modifies this
      ensures fresh(cells) && View() == Fresh(newCols, newRows)
      ensures Ok()
    {
      hide Valid;
      var n := newRows * newCols;
      cells := new nat[n](_ => BLANK);
      assert cells[..] == Blank(n);
      cols, rows := newCols, newRows;
      StartOver();
    }

    method ResizeTo(newCols: nat, newRows: nat, ok: bool)
      requires Ok()
      modifies this
      ensures Ok() && (cells == old(cells) || fresh(cells)) && View() == Resize(old(View()), newCols, newRows, ok)
    {
      hide Fresh;
      var c := if newCols == 0 then DEFAULT_COLS else newCols;
      var r := if newRows == 0 then DEFAULT_ROWS else newRows;
      if c == cols && r == rows { return; }
      if c * r > 1000000 || !ok { return; }
      Allocate(c, r);
    }

    method ScrollRegionUp()
      requires Ok()
      modifies cells
      ensures Ok() && View() == ScrollUp(old(View()))
    {
      hide ShiftLeft;
      ghost var g := View();
      RegionBounds(g);
      RowEnd(bottom, rows, cols);
      ShiftCellsLeft(top * cols, (bottom + 1) * cols, cols);
    }

    method ScrollRegionDown()
      requires Ok()
      modifies cells
      ensures Ok() && View() == ScrollDown(old(View()))
    {
      hide ShiftRight;
      ghost var g := View();
      RegionBounds(g);
      RowEnd(bottom, rows, cols);
      ShiftCellsRight(top * cols, (bottom + 1) * cols, cols);
    }

    method LineFeed()
      requires Ok()
      modifies this`wrap, this`row, cells
      ensures Ok() && View() == Newline(old(View()))
    {
      hide ScrollUp;
      wrap := false;
      if row == bottom {
        ScrollRegionUp();
      } else if row + 1 >= rows {
        row := rows - 1;
      } else {
        row := row + 1;
      }
    }

    method ReverseLineFeed()
      requires Ok()
      modifies this`wrap, this`row, cells
      ensures Ok() && View() == ReverseIndex(old(View()))
    {
      hide ScrollDown;
      wrap := false;
      if row == top {
        ScrollRegionDown();
      } else if row != 0 {
        row := row - 1;
      }
    }

    method WriteCell(glyph: nat)
      requires Ok()
      modifies cells
      ensures Ok() && View() == WriteAt(old(View()), glyph)
    {
      RowEnd(row, rows, cols);
      ghost var was := cells[..];
      var pos := row * cols + col;
      cells[pos] := glyph;
      assert cells[..] == was[pos := glyph];
    }

    method PutChar(ch: nat)
      requires Ok()
      modifies this`wrap, this`row, this`col, cells
      ensures Ok() && View() == Put(old(View()), ch)
    {
      hide Newline;
      if wrap {
        col := 0;
        LineFeed();
      }
      WriteCell(if ch >= 32 && ch != 127 then ch else BLANK);
      if col + 1 >= cols {
        wrap := true;
      } else {
        col := col + 1;
      }
    }

    // ---- Erasing, inserting, deleting ----

    method EraseInLine(mode: nat)
      requires Ok()
      modifies cells
      ensures Ok() && View() == EraseLine(old(View()), mode)
    {
      hide Fill;
      RowEnd(row, rows, cols);
      var p := row * cols;
      if mode == 1 {
        FillCells(p, p + col + 1);
      } else if mode == 2 {
        FillCells(p, p + cols);
      } else {
        FillCells(p + col, p + cols);
      }
    }

    method EraseInDisplay(mode: nat)
      requires Ok()
      modifies cells
      ensures View() == ClearDisplay(old(View()), mode)
      ensures Ok()
    {
      CursorCell(View());
      hide Valid, Fill;
      var p := row * cols + col;
      if mode == 2 || mode == 3 {
        FillAll(cells[..]);
        FillCells(0, cells.Length);
      } else if mode == 0 {
        FillCells(p, cells.Length);
      } else if mode == 1 {
        FillCells(0, p + 1);
      }
    }

    method InsertBlankLines(n: nat)
      requires Ok()
      modifies cells
      ensures View() == InsertLines(old(View()), n)
      ensures Ok()
    {
      hide IsArea, ShiftRight, LineCount, RowAt, RegionEnd;
      if n == 0 || row < top || row > bottom { return; }
      var count := if n > bottom - row + 1 then bottom - row + 1 else n;
      LineCountIs(View(), n);
      InsertedCells(View(), n);
      hide Valid, InsertLines;
      ShiftCellsRight(row * cols, (bottom + 1) * cols, count * cols);
    }

    method RemoveLines(n: nat)
      requires Ok()
      modifies cells
      ensures View() == DeleteLines(old(View()), n)
      ensures Ok()
    {
      hide IsArea, ShiftLeft, LineCount, RowAt, RegionEnd;
      if n == 0 || row < top || row > bottom { return; }
      var count := if n > bottom - row + 1 then bottom - row + 1 else n;
      LineCountIs(View(), n);
      DeletedCells(View(), n);
      hide Valid, DeleteLines;
      ShiftCellsLeft(row * cols, (bottom + 1) * cols, count * cols);
    }

    method InsertBlanks(n: nat)
      requires Ok()
      modifies cells
      ensures Ok() && View() == InsertChars(old(View()), n)
    {
      hide ShiftRight;
      RowEnd(row, rows, cols);
      var count := if n > cols - col then cols - col else n;
      ShiftCellsRight(row * cols + col, row * cols + cols, count);
    }

    method RemoveChars(n: nat)
      requires Ok()
      modifies cells
      ensures Ok() && View() == DeleteChars(old(View()), n)
    {
      hide ShiftLeft;
      RowEnd(row, rows, cols);
      var count := if n > cols - col then cols - col else n;
      ShiftCellsLeft(row * cols + col, row * cols + cols, count);
    }

    method BlankChars(n: nat)
      requires Ok()
      modifies cells
      ensures Ok() && View() == EraseChars(old(View()), n)
    {
      hide Fill;
      RowEnd(row, rows, cols);
      var count := if n > cols - col then cols - col else n;
      FillCells(row * cols + col, row * cols + col + count);
    }

    method ScrollRegion(up: bool, n: nat)
      requires Ok()
      modifies cells
      ensures Ok() && View() == if up then ScrollUpTimes(old(View()), n) else ScrollDownTimes(old(View()), n)
    {
      hide ScrollUp, ScrollDown;
      ghost var g := View();
      var i := 0;
      while i < n
        invariant 0 <= i <= n && Ok()
        invariant View() == if up then ScrollUpTimes(g, i) else ScrollDownTimes(g, i)
      {
        if up { ScrollRegionUp(); } else { ScrollRegionDown(); }
        i := i + 1;
      }
    }

    // ---- Control sequences ----

    /** The scan for one numeric parameter. */
    method CsiParam(index: nat, default: nat) returns (r: nat)
      requires Ok()
      ensures r == Param(csi, index, default)
    {
      hide ParamFrom, FieldNumber;
      var current, value, i := 0, -1, 0;
      ghost var start := 0;
      EmptyField(csi, 0);
      while true
        invariant 0 <= start <= i <= |csi| && 0 <= current <= index && value >= -1
        invariant forall k | start <= k < i :: csi[k] != SEMICOLON
        invariant value == FieldNumber(csi[start..i])
        invariant Param(csi, index, default) == ParamFrom(csi, start, index - current, default)
        decreases |csi| - i
      {
        if i == |csi| || csi[i] == SEMICOLON {
          ParamStep(csi, start, i, index - current, default);
          if current == index {
            return if value < 0 then default else value;
          }
          if i == |csi| { return default; }
          current, value := current + 1, -1;
          start := i + 1;
          EmptyField(csi, start);
        } else {
          FieldSnoc(csi, start, i);
          if IsDigit(csi[i]) {
            value := (if value < 0 then 0 else value) * 10 + (csi[i] - DIGIT_0);
          }
        }
        i := i + 1;
      }
    }

    /** The four relative movements. */
    method StepCursor(final: char, n: nat)
      requires Ok() && final in "ABCD"
      modifies this`row, this`col
      ensures View() == MoveCursor(old(View()), final, n, 0)
    {
      match final {
        case 'A' => row := if n > row then 0 else row - n;
        case 'B' => row := Min(rows - 1, row + n);
        case 'C' => col := Min(cols - 1, col + n);
        case _ => col := if n > col then 0 else col - n;
      }
    }

    /** The absolute movements, saving and restoring. */
    method JumpCursor(final: char, n: nat, m: nat)
      requires Ok() && final !in "ABCD"
      modifies this`row, this`col, this`savedRow, this`savedCol
      ensures View() == MoveCursor(old(View()), final, n, m)
    {
      var n1, m1 := if n > 0 then n - 1 else 0, if m > 0 then m - 1 else 0;
      match final {
        case 'G' => col := Min(cols - 1, n1);
        case 'd' => row := Min(rows - 1, n1);
        case 's' => savedRow, savedCol := row, col;
        case 'u' => row, col := savedRow, savedCol;
        case _ => row, col := Min(rows - 1, n1), Min(cols - 1, m1);
      }
    }

    method PlaceCursor(final: char, n: nat, m: nat)
      requires Ok()
      modifies this`row, this`col, this`savedRow, this`savedCol
      ensures Ok() && View() == MoveCursor(old(View()), final, n, m)
    {
      if final in "ABCD" {
        RelativeIgnores(View(), final, n, m);
        hide MoveCursor, Valid;
        StepCursor(final, n);
      } else {
        hide MoveCursor, Valid;
        JumpCursor(final, n, m);
      }
    }

    method SelectRegion(n0: nat, m0: nat)
      requires Ok()
      modifies this`top, this`bottom, this`row, this`col
      ensures Ok() && View() == SetRegion(old(View()), n0, m0)
    {
      var n := if n0 < 1 then 1 else n0;
      var m := if m0 < 1 then rows else m0;
      if n < m && m <= rows {
        top, bottom, col, row := n - 1, m - 1, 0, 0;
      }
    }

    method ApplyControl(final: char)
      requires Ok()
      modifies this, cells
      ensures Ok() && cells == old(cells) && View() == ApplyCsi(old(View()), final)
    {
      hide Param, MoveCursor, ClearDisplay, EraseLine, InsertLines, DeleteLines, InsertChars, DeleteChars, EraseChars;
      hide ScrollUpTimes, ScrollDownTimes, SetRegion;
      var n := CsiParam(0, 1);
      var m := CsiParam(1, 1);
      var mode := CsiParam(0, 0);
      if final in CURSOR_FINALS {
        PlaceCursor(final, n, m);
      } else {
        match final {
          case 'J' => EraseInDisplay(mode);
          case 'K' => EraseInLine(mode);
          case 'L' => InsertBlankLines(n);
          case 'M' => RemoveLines(n);
          case '@' => InsertBlanks(n);
          case 'P' => RemoveChars(n);
          case 'X' => BlankChars(n);
          case 'S' => ScrollRegion(true, n);
          case 'T' => ScrollRegion(false, n);
          case 'r' => SelectRegion(n, m);
          case _ =>
        }
      }
      wrap := false;
    }

    method ApplyEscape(ch: char)
      requires Ok()
      modifies this, cells
      ensures Ok() && cells == old(cells) && View() == ApplyEsc(old(View()), ch)
    {
      hide Newline, ReverseIndex, Reset;
      match ch {
        case '[' => esc, csi := Csi, [];
        case '7' => savedRow, savedCol, esc := row, col, Plain;
        case '8' => row, col, esc := savedRow, savedCol, Plain;
        case 'c' => ResetScreen(); ResetIsPlain(old(View()));
        case 'D' => LineFeed(); esc := Plain;
        case 'M' => ReverseLineFeed(); esc := Plain;
        case 'E' => col := 0; LineFeed(); esc := Plain;
        case _ => esc := Plain;
      }
    }

    method TabTo(next: nat)
      requires Ok() && next < cols
      modifies this`wrap, this`row, this`col, cells
      ensures Ok() && View() == TabLoop(old(View()), next)
    {
      hide Newline;
      ghost var g := View();
      while col < next && col < cols
        invariant Ok() && next < cols && TabLoop(g, next) == TabLoop(View(), next)
        decreases if wrap then 1 else 0, next - col
      {
        PutChar(BLANK);
      }
    }

    method PutPlain(ch: nat)
      requires Ok() && esc == Plain && !Hangs(View(), ch)
      modifies this, cells
      ensures Ok() && cells == old(cells) && View() == FeedPlain(old(View()), ch)
    {
      hide Newline, Put, TabLoop;
      if ch == 0x1b {
        esc := Esc;
      } else if ch == 13 {
        col, wrap := 0, false;
      } else if ch == 10 {
        LineFeed();
      } else if ch == 8 {
        if col != 0 { col := col - 1; }
        wrap := false;
      } else if ch == 9 {
        TabTo(NextStop(col));
      } else if ch >= 32 {
        PutChar(ch);
      }
    }

    method PutByte(ch: nat)
      requires Ok() && ch < 256 && !Hangs(View(), ch)
      modifies this, cells
      ensures Ok() && cells == old(cells) && View() == FeedByte(old(View()), ch)
    {
      hide ApplyEsc, ApplyCsi, FeedPlain;
      if esc == Esc {
        ApplyEscape(ch as char);
      } else if esc == Csi {
        if 0x40 <= ch <= 0x7e {
          CsiKeepsBuffer(View(), ch as char);
          ApplyControl(ch as char);
          esc, csi := Plain, [];
        } else if |csi| + 1 < MAX_CSI + 1 {
          csi := csi + [ch];
        }
      } else {
        PutPlain(ch);
      }
    }

    /** Feeds child output; stops short only in front of a tab that never ends. */
    method FeedBytes(buf: seq<nat>) returns (taken: nat)
      requires Ok() && AreBytes(buf)
      modifies this, cells
      ensures Ok() && cells == old(cells) && (View(), taken) == Feed(old(View()), buf)
    {
      hide FeedByte;
      ghost var g := View();
      taken := 0;
      assert buf[..0] == [];
      while taken < |buf|
        invariant 0 <= taken <= |buf| && Ok() && cells == old(cells)
        invariant (View(), taken) == Feed(g, buf[..taken])
      {
        if esc == Plain && buf[taken] == 9 && cols <= NextStop(col) {
          FeedStops(g, buf, taken);
          return;
        }
        assert buf[..taken + 1][..taken] == buf[..taken];
        PutByte(buf[taken]);
        taken := taken + 1;
      }
      assert buf[..taken] == buf;
    }
  }

  lemma FieldEndUnique(text: seq<nat>, i: nat, j: nat)
    requires i <= j <= |text| && (j < |text| ==> text[j] == SEMICOLON)
    requires forall k | i <= k < j :: text[k] != SEMICOLON
    ensures FieldEnd(text, i) == j
  {
  }

  lemma EmptyField(text: seq<nat>, i: nat)
    requires i <= |text|
    ensures FieldNumber(text[i..i]) == -1
  {
  }

  lemma ParamStep(text: seq<nat>, i: nat, j: nat, index: nat, default: nat)
    requires i <= j <= |text| && (j < |text| ==> text[j] == SEMICOLON)
    requires forall k | i <= k < j :: text[k] != SEMICOLON
    ensures ParamFrom(text, i, index, default) ==
            if index == 0 then (var v := FieldNumber(text[i..j]); if v < 0 then default else v)
            else if j == |text| then default
            else ParamFrom(text, j + 1, index - 1, default)
  {
    FieldEndUnique(text, i, j);
  }

  lemma FieldSnoc(text: seq<nat>, i: nat, j: nat)
    requires i <= j < |text|
    ensures var v := FieldNumber(text[i..j]);
            FieldNumber(text[i..j + 1]) ==
            if IsDigit(text[j]) then (if v < 0 then 0 else v) * 10 + (text[j] - DIGIT_0) else v
  {
    assert text[i..j + 1][..j - i] == text[i..j];
  }

  lemma ResetIsPlain(g: Grid)
    requires ScreenGrid.Valid(g)
    ensures Reset(g).esc == Plain
  {
  }

  lemma CsiKeepsBuffer(g: Grid, final: char)
    requires ScreenGrid.Valid(g)
    ensures ScreenGrid.Valid(ApplyCsi(g, final))
  {
    hide Csi1;
  }

  /** In front of an endless tab no further byte changes the outcome. */
  lemma {:induction false} FeedStops(g: Grid, buf: seq<nat>, k: nat)
    requires ScreenGrid.Valid(g) && AreBytes(buf) && k < |buf|
    requires Feed(g, buf[..k]).1 == k && Hangs(Feed(g, buf[..k]).0, buf[k])
    ensures Feed(g, buf) == Feed(g, buf[..k])
    decreases |buf|
  {
    hide FeedByte;
    var n := |buf| - 1;
    if k < n {
      assert buf[..n][..k] == buf[..k];
      FeedStops(g, buf[..n], k);
    }
  }

  lemma RelativeIgnores(g: Grid, final: char, n: nat, m: nat)
    requires Valid(g) && final in "ABCD"
    ensures MoveCursor(g, final, n, m) == MoveCursor(g, final, n, 0)
  {
  }

  lemma HasRows(g: Grid)
    requires Valid(g)
    ensures g.rows > 0
  {
  }
}
