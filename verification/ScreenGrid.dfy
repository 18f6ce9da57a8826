/** The lightweight VT screen a task keeps of its output, as values: a grid of
    cells with a cursor, a saved cursor and a scroll region. */
module ScreenGrid {
  import opened Bytes
  import opened Positional

  const BLANK: nat := 32
  const MAX_CSI: nat := 63
  const DEFAULT_COLS: nat := 80
  const DEFAULT_ROWS: nat := 24

  datatype Escape = Plain | Esc | Csi

  datatype Grid = Grid(
    cols: nat, rows: nat, cells: seq<nat>,
    row: nat, col: nat, savedRow: nat, savedCol: nat,
    top: nat, bottom: nat, wrap: bool, esc: Escape, csi: seq<nat>)

  /** Everything the drawing code relies on: the cells are exactly the grid, both
      cursors are inside it and the scroll region is a range of rows. */
  predicate Valid(g: Grid) {
    && 0 < g.cols && 0 < g.rows && IsArea(|g.cells|, g.rows, g.cols)
    && g.row < g.rows && g.col < g.cols
    && g.savedRow < g.rows && g.savedCol < g.cols
    && g.top <= g.bottom < g.rows
    && |g.csi| <= MAX_CSI
  }

  predicate IsArea(n: nat, rows: nat, cols: nat) {
    n == rows * cols
  }

  // ---- Moving stretches of cells ----

  function Blank(n: nat): (s: seq<nat>)
    ensures |s| == n && forall i | 0 <= i < n :: s[i] == BLANK
  {
    seq(n, _ => BLANK)
  }

  function Fill(cells: seq<nat>, lo: nat, hi: nat): (s: seq<nat>)
    requires lo <= hi <= |cells|
    ensures |s| == |cells|
  {
    cells[..lo] + Blank(hi - lo) + cells[hi..]
  }

  /** Moves cells[lo + n..hi] down to lo and blanks the n cells freed at the end. */
  function ShiftLeft(cells: seq<nat>, lo: nat, hi: nat, n: nat): (s: seq<nat>)
    requires lo + n <= hi <= |cells|
    ensures |s| == |cells|
  {
    cells[..lo] + cells[lo + n..hi] + Blank(n) + cells[hi..]
  }

  /** Moves cells[lo..hi - n] up by n and blanks the n cells freed at the start. */
  function ShiftRight(cells: seq<nat>, lo: nat, hi: nat, n: nat): (s: seq<nat>)
    requires lo + n <= hi <= |cells|
    ensures |s| == |cells|
  {
    cells[..lo] + Blank(n) + cells[lo..hi - n] + cells[hi..]
  }

  /** The three operations cell by cell. */
  lemma FillAt(cells: seq<nat>, lo: nat, hi: nat, i: nat)
    requires lo <= hi <= |cells| && i < |cells|
    ensures Fill(cells, lo, hi)[i] == if lo <= i < hi then BLANK else cells[i]
  {
  }

  lemma ShiftLeftAt(cells: seq<nat>, lo: nat, hi: nat, n: nat, i: nat)
    requires lo + n <= hi <= |cells| && i < |cells|
    ensures ShiftLeft(cells, lo, hi, n)[i] ==
            if i < lo || hi <= i then cells[i] else if i + n < hi then cells[i + n] else BLANK
  {
  }

  lemma ShiftRightAt(cells: seq<nat>, lo: nat, hi: nat, n: nat, i: nat)
    requires lo + n <= hi <= |cells| && i < |cells|
    ensures ShiftRight(cells, lo, hi, n)[i] ==
            if i < lo || hi <= i then cells[i] else if i < lo + n then BLANK else cells[i - n]
  {
  }

  // ---- Row arithmetic ----

  lemma RowEnd(r: nat, rows: nat, cols: nat)
    requires r < rows
    ensures r * cols + cols == (r + 1) * cols <= rows * cols
  {
    MulMono(r + 1, rows, cols);
  }

  /** First cell of a row. */
  function RowAt(g: Grid, r: nat): (p: nat)
    requires Valid(g) && r < g.rows
    ensures p == r * g.cols && p + g.cols <= |g.cells|
  {
    RowEnd(r, g.rows, g.cols);
    r * g.cols
  }

  /** First cell behind the scroll region. */
  function RegionEnd(g: Grid): (p: nat)
    requires Valid(g)
    ensures p == (g.bottom + 1) * g.cols <= |g.cells|
  {
    RowEnd(g.bottom, g.rows, g.cols);
    (g.bottom + 1) * g.cols
  }

  lemma Lines(r: nat, n: nat, end: nat, cols: nat)
    requires r + n <= end
    ensures r * cols + n * cols == (r + n) * cols <= end * cols
  {
    MulMono(r + n, end, cols);
  }

  /** The number of rows from r to the end of the region. */
  function LineCount(g: Grid, r: nat, n: nat): (k: nat)
    requires Valid(g) && r <= g.bottom
    ensures k <= n && r + k <= g.bottom + 1 && r * g.cols + k * g.cols <= RegionEnd(g)
  {
    var k := Min(n, g.bottom - r + 1);
    Lines(r, k, g.bottom + 1, g.cols);
    k
  }

  // ---- Drawing operations ----

  function Reset(g: Grid): (h: Grid)
    requires Valid(g)
    ensures Valid(h) && h.cols == g.cols && h.rows == g.rows && |h.csi| <= |g.csi|
  {
    g.(cells := Blank(|g.cells|), row := 0, col := 0, savedRow := 0, savedCol := 0,
       top := 0, bottom := g.rows - 1, wrap := false, esc := Plain, csi := [])
  }

  /** A resize starts over with a blank grid. */
  function Fresh(cols: nat, rows: nat): (g: Grid)
    requires cols > 0 && rows > 0
    ensures Valid(g)
  {
    Grid(cols, rows, Blank(rows * cols), 0, 0, 0, 0, 0, rows - 1, false, Plain, [])
  }

  function ScrollUp(g: Grid): (h: Grid)
    requires Valid(g)
    ensures Valid(h) && h == g.(cells := h.cells)
  {
    RegionBounds(g);
    g.(cells := ShiftLeft(g.cells, RowAt(g, g.top), RegionEnd(g), g.cols))
  }

  function ScrollDown(g: Grid): (h: Grid)
    requires Valid(g)
    ensures Valid(h) && h == g.(cells := h.cells)
  {
    RegionBounds(g);
    g.(cells := ShiftRight(g.cells, RowAt(g, g.top), RegionEnd(g), g.cols))
  }

  function Newline(g: Grid): (h: Grid)
    requires Valid(g)
    ensures Valid(h) && h.cols == g.cols && h.rows == g.rows && h.col == g.col && !h.wrap
    ensures h.esc == g.esc && h.csi == g.csi
  {
    var k := g.(wrap := false);
    if k.row == k.bottom then ScrollUp(k)
    else if k.row + 1 >= k.rows then k.(row := k.rows - 1)
    else k.(row := k.row + 1)
  }

  function ReverseIndex(g: Grid): (h: Grid)
    requires Valid(g)
    ensures Valid(h) && h.cols == g.cols && h.rows == g.rows && h.col == g.col && !h.wrap
    ensures h.esc == g.esc && h.csi == g.csi
  {
    var k := g.(wrap := false);
    if k.row == k.top then ScrollDown(k)
    else if k.row != 0 then k.(row := k.row - 1)
    else k
  }

  /** The cell under the cursor. */
  function WriteAt(g: Grid, glyph: nat): (h: Grid)
    requires Valid(g)
    ensures Valid(h) && h == g.(cells := h.cells)
  {
    var pos := RowAt(g, g.row) + g.col;
    g.(cells := g.cells[pos := glyph])
  }

  function Put(g: Grid, ch: nat): Grid
    requires Valid(g)
  {
    var h := if g.wrap then Newline(g.(col := 0)) else g;
    var k := WriteAt(h, if ch >= 32 && ch != 127 then ch else BLANK);
    if k.col + 1 >= k.cols then k.(wrap := true) else k.(col := k.col + 1)
  }

  function ClearLine(g: Grid, from: nat, to: nat): (h: Grid)
    requires Valid(g) && from <= to < g.cols
    ensures Valid(h) && h == g.(cells := h.cells)
  {
    var p := RowAt(g, g.row);
    g.(cells := Fill(g.cells, p + from, p + to + 1))
  }

  function ClearDisplay(g: Grid, mode: nat): (h: Grid)
    requires Valid(g)
    ensures Valid(h) && h == g.(cells := h.cells)
  {
    var p := RowAt(g, g.row) + g.col;
    if mode == 2 || mode == 3 then g.(cells := Blank(|g.cells|))
    else if mode == 0 then g.(cells := Fill(g.cells, p, |g.cells|))
    else if mode == 1 then g.(cells := Fill(g.cells, 0, p + 1))
    else g
  }

  predicate InRegion(g: Grid) {
    g.top <= g.row <= g.bottom
  }

  function InsertLines(g: Grid, n: nat): (h: Grid)
    requires Valid(g)
    ensures Valid(h) && h == g.(cells := h.cells)
  {
    if n == 0 || !InRegion(g) then g
    else g.(cells := ShiftRight(g.cells, RowAt(g, g.row), RegionEnd(g), LineCount(g, g.row, n) * g.cols))
  }

  function DeleteLines(g: Grid, n: nat): (h: Grid)
    requires Valid(g)
    ensures Valid(h) && h == g.(cells := h.cells)
  {
    if n == 0 || !InRegion(g) then g
    else g.(cells := ShiftLeft(g.cells, RowAt(g, g.row), RegionEnd(g), LineCount(g, g.row, n) * g.cols))
  }

  function InsertChars(g: Grid, n: nat): (h: Grid)
    requires Valid(g)
    ensures Valid(h) && h == g.(cells := h.cells)
  {
    var p := RowAt(g, g.row);
    g.(cells := ShiftRight(g.cells, p + g.col, p + g.cols, Min(n, g.cols - g.col)))
  }

  function DeleteChars(g: Grid, n: nat): (h: Grid)
    requires Valid(g)
    ensures Valid(h) && h == g.(cells := h.cells)
  {
    var p := RowAt(g, g.row);
    g.(cells := ShiftLeft(g.cells, p + g.col, p + g.cols, Min(n, g.cols - g.col)))
  }

  function EraseChars(g: Grid, n: nat): (h: Grid)
    requires Valid(g)
    ensures Valid(h) && h == g.(cells := h.cells)
  {
    var p := RowAt(g, g.row) + g.col;
    g.(cells := Fill(g.cells, p, p + Min(n, g.cols - g.col)))
  }

  /** n scrolls one after the other, as CSI S and CSI T perform them. */
  function ScrollUpTimes(g: Grid, n: nat): (h: Grid)
    requires Valid(g)
    ensures Valid(h) && h == g.(cells := h.cells)
  {
    if n == 0 then g else ScrollUp(ScrollUpTimes(g, n - 1))
  }

  function ScrollDownTimes(g: Grid, n: nat): (h: Grid)
    requires Valid(g)
    ensures Valid(h) && h == g.(cells := h.cells)
  {
    if n == 0 then g else ScrollDown(ScrollDownTimes(g, n - 1))
  }

  function SetRegion(g: Grid, n0: nat, m0: nat): (h: Grid)
    requires Valid(g)
    ensures Valid(h) && h.cols == g.cols && h.rows == g.rows && |h.csi| <= |g.csi|
  {
    var n := if n0 < 1 then 1 else n0;
    var m := if m0 < 1 then g.rows else m0;
    if n < m && m <= g.rows then g.(top := n - 1, bottom := m - 1, row := 0, col := 0) else g
  }

  // ---- Control sequences ----

  const DIGIT_0: nat := 48
  const DIGIT_9: nat := 57
  const SEMICOLON: nat := 59

  predicate IsDigit(ch: nat) { DIGIT_0 <= ch <= DIGIT_9 }

  /** The number a parameter field spells, or -1 when it holds no digit. */
  function FieldNumber(field: seq<nat>): (v: int)
    ensures v >= -1
  {
    if field == [] then -1 else
      var n := |field| - 1;
      var v := FieldNumber(field[..n]);
      if IsDigit(field[n]) then (if v < 0 then 0 else v) * 10 + (field[n] - DIGIT_0) else v
  }

  /** Length of the field starting at i. */
  function FieldEnd(text: seq<nat>, i: nat): (j: nat)
    requires i <= |text|
    ensures i <= j <= |text| && (j < |text| ==> text[j] == SEMICOLON)
    ensures forall k | i <= k < j :: text[k] != SEMICOLON
    decreases |text| - i
  {
    if i == |text| || text[i] == SEMICOLON then i else FieldEnd(text, i + 1)
  }

  /** The index-th parameter from position i on: fields are separated by ';', an
      empty field or a missing one yields the default. */
  function ParamFrom(text: seq<nat>, i: nat, index: nat, default: nat): nat
    requires i <= |text|
    decreases |text| - i
  {
    var j := FieldEnd(text, i);
    if index == 0 then
      var v := FieldNumber(text[i..j]);
      if v < 0 then default else v
    else if j == |text| then default
    else ParamFrom(text, j + 1, index - 1, default)
  }

  function Param(text: seq<nat>, index: nat, default: nat): nat {
    ParamFrom(text, 0, index, default)
  }

  /** The sequences that place the cursor. */
  function MoveCursor(g: Grid, final: char, n: nat, m: nat): (h: Grid)
    requires Valid(g)
    ensures Valid(h) && h.csi == g.csi
  {
    var n1, m1 := if n > 0 then n - 1 else 0, if m > 0 then m - 1 else 0;
    match final
    case 'A' => g.(row := if n > g.row then 0 else g.row - n)
    case 'B' => g.(row := Min(g.rows - 1, g.row + n))
    case 'C' => g.(col := Min(g.cols - 1, g.col + n))
    case 'D' => g.(col := if n > g.col then 0 else g.col - n)
    case 'G' => g.(col := Min(g.cols - 1, n1))
    case 'd' => g.(row := Min(g.rows - 1, n1))
    case 's' => g.(savedRow := g.row, savedCol := g.col)
    case 'u' => g.(row := g.savedRow, col := g.savedCol)
    case _ => g.(row := Min(g.rows - 1, n1), col := Min(g.cols - 1, m1))
  }

  function EraseLine(g: Grid, mode: nat): (h: Grid)
    requires Valid(g)
    ensures Valid(h) && h == g.(cells := h.cells)
  {
    if mode == 1 then ClearLine(g, 0, g.col)
    else if mode == 2 then ClearLine(g, 0, g.cols - 1)
    else ClearLine(g, g.col, g.cols - 1)
  }

  const CURSOR_FINALS: set<char> := {'A', 'B', 'C', 'D', 'G', 'H', 'f', 'd', 's', 'u'}

  function Csi1(g: Grid, final: char): (h: Grid)
    requires Valid(g)
    ensures Valid(h) && |h.csi| <= |g.csi|
  {
    var n, m := Param(g.csi, 0, 1), Param(g.csi, 1, 1);
    if final in CURSOR_FINALS then MoveCursor(g, final, n, m)
    else match final
      case 'J' => ClearDisplay(g, Param(g.csi, 0, 0))
      case 'K' => EraseLine(g, Param(g.csi, 0, 0))
      case 'L' => InsertLines(g, n)
      case 'M' => DeleteLines(g, n)
      case '@' => InsertChars(g, n)
      case 'P' => DeleteChars(g, n)
      case 'X' => EraseChars(g, n)
      case 'S' => ScrollUpTimes(g, n)
      case 'T' => ScrollDownTimes(g, n)
      case 'r' => SetRegion(g, n, m)
      case _ => g
  }

  function ApplyCsi(g: Grid, final: char): Grid
    requires Valid(g)
  {
    Csi1(g, final).(wrap := false)
  }

  function ApplyEsc(g: Grid, ch: char): Grid
    requires Valid(g)
  {
    match ch
    case '[' => g.(esc := Csi, csi := [])
    case '7' => g.(savedRow := g.row, savedCol := g.col, esc := Plain)
    case '8' => g.(row := g.savedRow, col := g.savedCol, esc := Plain)
    case 'c' => Reset(g)
    case 'D' => Newline(g).(esc := Plain)
    case 'M' => ReverseIndex(g).(esc := Plain)
    case 'E' => Newline(g.(col := 0)).(esc := Plain)
    case _ => g.(esc := Plain)
  }

  // ---- Tabs ----

  function NextStop(col: nat): (s: nat)
    ensures col < s <= col + 8 && s % 8 == 0
  {
    (col + 8) / 8 * 8
  }

  lemma PutValid(g: Grid, ch: nat)
    requires Valid(g)
    ensures Valid(Put(g, ch)) && Put(g, ch).cols == g.cols && Put(g, ch).rows == g.rows
    ensures Put(g, ch).esc == g.esc && Put(g, ch).csi == g.csi
  {
  }

  /** The guard of the tab loop, which writes blanks until the stop is reached. */
  predicate TabGuard(g: Grid, next: nat) {
    g.col < next && g.col < g.cols
  }

  function PutTimes(g: Grid, n: nat): (h: Grid)
    requires Valid(g)
    ensures Valid(h) && h.cols == g.cols
  {
    if n == 0 then g else
      var h := PutTimes(g, n - 1);
      PutValid(h, BLANK);
      Put(h, BLANK)
  }

  /** The tab loop when the stop lies inside the row. */
  function TabLoop(g: Grid, next: nat): (h: Grid)
    requires Valid(g) && next < g.cols
    ensures Valid(h) && h.cols == g.cols && h.rows == g.rows && h.esc == g.esc && h.csi == g.csi
    decreases if g.wrap then 1 else 0, next - g.col
  {
    if TabGuard(g, next) then
      PutValid(g, BLANK);
      TabLoop(Put(g, BLANK), next)
    else g
  }

  /** The loop comes to an end if and only if the next stop lies inside the row:
      beyond it, every blank that fills the row wraps the cursor back to the left. */
  lemma TabEndsIff(g: Grid)
    requires Valid(g)
    ensures (exists n: nat :: !TabGuard(PutTimes(g, n), NextStop(g.col))) <==> NextStop(g.col) < g.cols
  {
    var next := NextStop(g.col);
    if next < g.cols {
      var n := TabSteps(g, 0, next);
    } else {
      forall n: nat ensures TabGuard(PutTimes(g, n), next) { }
    }
  }

  lemma {:induction false} TabSteps(g: Grid, k: nat, next: nat) returns (n: nat)
    requires Valid(g) && next < g.cols
    ensures !TabGuard(PutTimes(g, n), next)
    decreases var h := PutTimes(g, k); if h.wrap then 1 else 0, next - PutTimes(g, k).col
  {
    var h := PutTimes(g, k);
    if TabGuard(h, next) {
      n := TabSteps(g, k + 1, next);
    } else {
      n := k;
    }
  }

  /** On the default screen a tab in the last eight columns never returns. */
  lemma TabHangsAtColumn72()
    ensures var g := Fresh(80, 24).(col := 72);
            Valid(g) && forall n: nat :: TabGuard(PutTimes(g, n), NextStop(g.col))
  {
    var g := Fresh(80, 24).(col := 72);
    TabEndsIff(g);
  }

  // ---- Feeding output ----

  predicate Hangs(g: Grid, ch: nat) {
    g.esc == Plain && ch == 9 && g.cols <= NextStop(g.col)
  }

  function FeedPlain(g: Grid, ch: nat): Grid
    requires Valid(g) && g.esc == Plain && !Hangs(g, ch)
  {
    if ch == 0x1b then g.(esc := Esc)
    else if ch == 13 then g.(col := 0, wrap := false)
    else if ch == 10 then Newline(g)
    else if ch == 8 then g.(col := if g.col != 0 then g.col - 1 else 0, wrap := false)
    else if ch == 9 then TabLoop(g, NextStop(g.col))
    else if ch >= 32 then Put(g, ch)
    else g
  }

  function FeedByte(g: Grid, ch: nat): Grid
    requires Valid(g) && ch < 256 && !Hangs(g, ch)
  {
    match g.esc
    case Esc => ApplyEsc(g, ch as char)
    case Csi =>
      if 0x40 <= ch <= 0x7e then ApplyCsi(g, ch as char).(esc := Plain, csi := [])
      else if |g.csi| + 1 < MAX_CSI + 1 then g.(csi := g.csi + [ch])
      else g
    case Plain => FeedPlain(g, ch)
  }

  // ---- The invariant over all input ----

  lemma EscValid(g: Grid, ch: char)
    requires Valid(g)
    ensures Valid(ApplyEsc(g, ch))
  {
    hide Newline, ReverseIndex, Reset, IsArea;
  }

  lemma FeedByteValid(g: Grid, ch: nat)
    requires Valid(g) && ch < 256 && !Hangs(g, ch)
    ensures Valid(FeedByte(g, ch))
  {
    hide Csi1, ApplyEsc, Put;
    match g.esc {
      case Esc => EscValid(g, ch as char);
      case Csi =>
      case Plain => PutValid(g, ch);
    }
  }

  predicate AreBytes(s: seq<nat>) {
    forall i | 0 <= i < |s| :: s[i] < 256
  }

  /** Feeding output: the grid reached and how many bytes were taken. Fewer than
      all of them means that the next byte is a tab whose loop never ends. */
  function Feed(g: Grid, buf: seq<nat>): (r: (Grid, nat))
    requires Valid(g) && AreBytes(buf)
    ensures Valid(r.0) && r.1 <= |buf| && (r.1 < |buf| ==> Hangs(r.0, buf[r.1]))
  {
    if buf == [] then (g, 0) else
      var n := |buf| - 1;
      var (h, k) := Feed(g, buf[..n]);
      if k < n || Hangs(h, buf[n]) then (h, k)
      else
        FeedByteValid(h, buf[n]);
        (FeedByte(h, buf[n]), n + 1)
  }

  /** A resize request; `ok` is the outcome of the allocation. */
  function Resize(g: Grid, cols0: nat, rows0: nat, ok: bool): (h: Grid)
    requires Valid(g)
    ensures Valid(h)
  {
    var cols := if cols0 == 0 then DEFAULT_COLS else cols0;
    var rows := if rows0 == 0 then DEFAULT_ROWS else rows0;
    if (cols == g.cols && rows == g.rows) || cols * rows > 1000000 || !ok then g
    else Fresh(cols, rows)
  }

  datatype Input = Output(bytes: seq<nat>) | Resized(cols: nat, rows: nat, ok: bool)

  /** A whole life of the screen: output and resizes in any order, up to a tab whose
      loop never ends. The flag says whether that has come to pass. */
  function Life(inputs: seq<Input>): (r: (Grid, bool))
    requires forall i | 0 <= i < |inputs| :: inputs[i].Output? ==> AreBytes(inputs[i].bytes)
    ensures Valid(r.0)
  {
    if inputs == [] then (Fresh(DEFAULT_COLS, DEFAULT_ROWS), false) else
      var n := |inputs| - 1;
      var (g, hung) := Life(inputs[..n]);
      if hung then (g, true) else
        match inputs[n]
        case Output(bytes) => var (h, taken) := Feed(g, bytes); (h, taken < |bytes|)
        case Resized(cols, rows, ok) => (Resize(g, cols, rows, ok), false)
  }

  // ---- Scrolling n times is deleting or inserting n lines ----

  lemma ShiftLeftTwice(cells: seq<nat>, lo: nat, hi: nat, n: nat, m: nat)
    requires lo + n + m <= hi <= |cells|
    ensures ShiftLeft(ShiftLeft(cells, lo, hi, n), lo, hi, m) == ShiftLeft(cells, lo, hi, n + m)
  {
    hide ShiftLeft;
    var once := ShiftLeft(cells, lo, hi, n);
    var twice, both := ShiftLeft(once, lo, hi, m), ShiftLeft(cells, lo, hi, n + m);
    forall i | 0 <= i < |cells| ensures twice[i] == both[i] {
      ShiftLeftAt(once, lo, hi, m, i);
      ShiftLeftAt(cells, lo, hi, n + m, i);
      ShiftLeftAt(cells, lo, hi, n, i);
      if i + m < |cells| { ShiftLeftAt(cells, lo, hi, n, i + m); }
    }
  }

  /** A region that is blank already stays as it is. */
  lemma ShiftLeftBlank(cells: seq<nat>, lo: nat, hi: nat, m: nat)
    requires lo + m <= hi <= |cells|
    ensures var all := ShiftLeft(cells, lo, hi, hi - lo); ShiftLeft(all, lo, hi, m) == all
  {
    hide ShiftLeft;
    var all := ShiftLeft(cells, lo, hi, hi - lo);
    var again := ShiftLeft(all, lo, hi, m);
    forall i | 0 <= i < |all| ensures again[i] == all[i] {
      ShiftLeftAt(all, lo, hi, m, i);
      ShiftLeftAt(cells, lo, hi, hi - lo, i);
      if i + m < |cells| { ShiftLeftAt(cells, lo, hi, hi - lo, i + m); }
    }
  }

  lemma ShiftRightTwice(cells: seq<nat>, lo: nat, hi: nat, n: nat, m: nat)
    requires lo + n + m <= hi <= |cells|
    ensures ShiftRight(ShiftRight(cells, lo, hi, n), lo, hi, m) == ShiftRight(cells, lo, hi, n + m)
  {
    hide ShiftRight;
    var once := ShiftRight(cells, lo, hi, n);
    var twice, both := ShiftRight(once, lo, hi, m), ShiftRight(cells, lo, hi, n + m);
    forall i | 0 <= i < |cells| ensures twice[i] == both[i] {
      ShiftRightAt(once, lo, hi, m, i);
      ShiftRightAt(cells, lo, hi, n + m, i);
      ShiftRightAt(cells, lo, hi, n, i);
      if i >= m { ShiftRightAt(cells, lo, hi, n, i - m); }
    }
  }

  /** A region that is blank already stays as it is. */
  lemma ShiftRightBlank(cells: seq<nat>, lo: nat, hi: nat, m: nat)
    requires lo + m <= hi <= |cells|
    ensures var all := ShiftRight(cells, lo, hi, hi - lo); ShiftRight(all, lo, hi, m) == all
  {
    hide ShiftRight;
    var all := ShiftRight(cells, lo, hi, hi - lo);
    var again := ShiftRight(all, lo, hi, m);
    forall i | 0 <= i < |all| ensures again[i] == all[i] {
      ShiftRightAt(all, lo, hi, m, i);
      ShiftRightAt(cells, lo, hi, hi - lo, i);
      if i >= m { ShiftRightAt(cells, lo, hi, hi - lo, i - m); }
    }
  }

  lemma ShiftLeftNone(cells: seq<nat>, lo: nat, hi: nat)
    requires lo <= hi <= |cells|
    ensures ShiftLeft(cells, lo, hi, 0) == cells
  {
  }

  lemma ShiftRightNone(cells: seq<nat>, lo: nat, hi: nat)
    requires lo <= hi <= |cells|
    ensures ShiftRight(cells, lo, hi, 0) == cells
  {
  }

  /** A stretch of k lines shifted one line at a time, n times. */
  function LeftTimes(cells: seq<nat>, lo: nat, hi: nat, width: nat, n: nat): (s: seq<nat>)
    requires lo + width <= hi <= |cells|
    ensures |s| == |cells|
  {
    if n == 0 then cells else ShiftLeft(LeftTimes(cells, lo, hi, width, n - 1), lo, hi, width)
  }

  function RightTimes(cells: seq<nat>, lo: nat, hi: nat, width: nat, n: nat): (s: seq<nat>)
    requires lo + width <= hi <= |cells|
    ensures |s| == |cells|
  {
    if n == 0 then cells else ShiftRight(RightTimes(cells, lo, hi, width, n - 1), lo, hi, width)
  }

  lemma LineSum(width: nat, n: nat, k: nat)
    requires n < k
    ensures n * width + width == (n + 1) * width <= k * width
  {
    MulMono(n + 1, k, width);
  }

  lemma {:induction false} LeftTimesAtOnce(cells: seq<nat>, lo: nat, hi: nat, width: nat, k: nat, n: nat)
    requires lo + width <= hi <= |cells| && hi - lo == k * width
    ensures Min(n, k) * width <= hi - lo
    ensures LeftTimes(cells, lo, hi, width, n) == ShiftLeft(cells, lo, hi, Min(n, k) * width)
  {
    hide ShiftLeft;
    MulMono(Min(n, k), k, width);
    if n == 0 {
      ShiftLeftNone(cells, lo, hi);
    } else {
      LeftTimesAtOnce(cells, lo, hi, width, k, n - 1);
      if n <= k {
        LineSum(width, n - 1, k);
        ShiftLeftTwice(cells, lo, hi, (n - 1) * width, width);
      } else {
        ShiftLeftBlank(cells, lo, hi, width);
      }
    }
  }

  lemma {:induction false} RightTimesAtOnce(cells: seq<nat>, lo: nat, hi: nat, width: nat, k: nat, n: nat)
    requires lo + width <= hi <= |cells| && hi - lo == k * width
    ensures Min(n, k) * width <= hi - lo
    ensures RightTimes(cells, lo, hi, width, n) == ShiftRight(cells, lo, hi, Min(n, k) * width)
  {
    hide ShiftRight;
    MulMono(Min(n, k), k, width);
    if n == 0 {
      ShiftRightNone(cells, lo, hi);
    } else {
      RightTimesAtOnce(cells, lo, hi, width, k, n - 1);
      if n <= k {
        LineSum(width, n - 1, k);
        ShiftRightTwice(cells, lo, hi, (n - 1) * width, width);
      } else {
        ShiftRightBlank(cells, lo, hi, width);
      }
    }
  }

  /** The cells of the scroll region. */
  lemma RegionBounds(g: Grid)
    requires Valid(g)
    ensures var lo, hi := RowAt(g, g.top), RegionEnd(g);
            lo + g.cols <= hi <= |g.cells| && hi - lo == (g.bottom + 1 - g.top) * g.cols
  {
    Lines(g.top, 1, g.bottom + 1, g.cols);
    Lines(g.top, g.bottom + 1 - g.top, g.bottom + 1, g.cols);
  }

  lemma {:induction false} ScrollUpCells(g: Grid, n: nat)
    requires Valid(g) && RowAt(g, g.top) + g.cols <= RegionEnd(g)
    ensures ScrollUpTimes(g, n).cells == LeftTimes(g.cells, RowAt(g, g.top), RegionEnd(g), g.cols, n)
  {
    hide ShiftLeft;
    if n > 0 { ScrollUpCells(g, n - 1); }
  }

  lemma {:induction false} ScrollDownCells(g: Grid, n: nat)
    requires Valid(g) && RowAt(g, g.top) + g.cols <= RegionEnd(g)
    ensures ScrollDownTimes(g, n).cells == RightTimes(g.cells, RowAt(g, g.top), RegionEnd(g), g.cols, n)
  {
    hide ShiftRight;
    if n > 0 { ScrollDownCells(g, n - 1); }
  }

  /** For every n and every scroll region, n single scrolls leave the same cells
      as one deletion of n lines issued on the region's first row. */
  lemma ScrollUpIsDeleteLines(g: Grid, n: nat)
    requires Valid(g)
    ensures ScrollUpTimes(g, n).cells == DeleteLines(g.(row := g.top), n).cells
  {
    hide ScrollUpTimes, ShiftLeft, LeftTimes;
    RegionBounds(g);
    ScrollUpCells(g, n);
    LeftTimesAtOnce(g.cells, RowAt(g, g.top), RegionEnd(g), g.cols, g.bottom + 1 - g.top, n);
    if n == 0 { ShiftLeftNone(g.cells, RowAt(g, g.top), RegionEnd(g)); }
  }

  lemma ScrollDownIsInsertLines(g: Grid, n: nat)
    requires Valid(g)
    ensures ScrollDownTimes(g, n).cells == InsertLines(g.(row := g.top), n).cells
  {
    hide ScrollDownTimes, ShiftRight, RightTimes;
    RegionBounds(g);
    ScrollDownCells(g, n);
    RightTimesAtOnce(g.cells, RowAt(g, g.top), RegionEnd(g), g.cols, g.bottom + 1 - g.top, n);
    if n == 0 { ShiftRightNone(g.cells, RowAt(g, g.top), RegionEnd(g)); }
  }

  /** The cells of one row. */
  function Row(g: Grid, r: nat): seq<nat>
    requires Valid(g) && r < g.rows
  {
    g.cells[RowAt(g, r)..RowAt(g, r) + g.cols]
  }

  lemma RowOf(g: Grid, cells: seq<nat>, r: nat)
    requires Valid(g) && r < g.rows && |cells| == |g.cells|
    ensures Row(g.(cells := cells), r) == cells[RowAt(g, r)..RowAt(g, r) + g.cols]
    ensures Row(g, r) == g.cells[RowAt(g, r)..RowAt(g, r) + g.cols]
  {
  }

  lemma ShiftLeftSlice(cells: seq<nat>, lo: nat, hi: nat, d: nat, p: nat, w: nat)
    requires lo + d <= hi <= |cells| && p + w <= |cells|
    ensures var s := ShiftLeft(cells, lo, hi, d)[p..p + w];
            (p + w <= lo || hi <= p ==> s == cells[p..p + w]) &&
            (lo <= p && p + d + w <= hi ==> s == cells[p + d..p + d + w]) &&
            (lo <= hi - d <= p && p + w <= hi ==> s == Blank(w))
  {
    hide ShiftLeft;
    var s := ShiftLeft(cells, lo, hi, d)[p..p + w];
    forall j | 0 <= j < w
      ensures (p + w <= lo || hi <= p ==> s[j] == cells[p + j]) &&
              (lo <= p && p + d + w <= hi ==> s[j] == cells[p + d + j]) &&
              (lo <= hi - d <= p && p + w <= hi ==> s[j] == BLANK)
    {
      ShiftLeftAt(cells, lo, hi, d, p + j);
    }
    if p + w <= lo || hi <= p {
      assert s == cells[p..p + w];
    }
    if lo <= p && p + d + w <= hi {
      assert s == cells[p + d..p + d + w];
    }
    if lo <= hi - d <= p && p + w <= hi {
      assert s == Blank(w);
    }
  }

  /** Where a row r that stays inside the region after deleting k lines goes. */
  lemma MovedRow(w: nat, from: nat, end: nat, k: nat, r: nat)
    requires from <= r && r + k < end
    ensures from * w <= r * w && r * w + k * w == (r + k) * w && (r + k) * w + w <= end * w
  {
    MulMono(from, r, w);
    Lines(r, k, r + k, w);
    Lines(r + k, 1, end, w);
  }

  /** Where a row among the last k of the region lies. */
  lemma FreedRow(w: nat, from: nat, end: nat, k: nat, r: nat)
    requires from + k <= end && end - k <= r < end
    ensures from * w + k * w <= end * w && end * w - k * w <= r * w && r * w + w <= end * w
  {
    Lines(end - k, k, end, w);
    MulMono(end - k, r, w);
    Lines(r, 1, end, w);
    Lines(from, k, end, w);
  }

  /** Deleting n lines at the cursor: rows above it and below the region keep
      their cells, row r shows what was n rows further down, the rest is blank. */
  lemma DeleteLinesRows(g: Grid, n: nat, r: nat)
    requires Valid(g) && InRegion(g) && n > 0 && r < g.rows
    ensures Row(DeleteLines(g, n), r) ==
            if r < g.row || g.bottom < r then Row(g, r)
            else if r + n <= g.bottom then Row(g, r + n)
            else Blank(g.cols)
  {
    hide ShiftLeft, RowAt, RegionEnd, LineCount, IsArea, Row, DeleteLines, Blank;
    var lo, hi, d, p := RowAt(g, g.row), RegionEnd(g), LineCount(g, g.row, n) * g.cols, RowAt(g, r);
    DeletePlace(g, n, r);
    DeletedCells(g, n);
    RowOf(g, ShiftLeft(g.cells, lo, hi, d), r);
    ShiftLeftSlice(g.cells, lo, hi, d, p, g.cols);
    if r + n <= g.bottom { RowOf(g, g.cells, r + n); }
  }

  lemma DeletedCells(g: Grid, n: nat)
    requires Valid(g) && InRegion(g) && n > 0
    ensures DeleteLines(g, n)
         == g.(cells := ShiftLeft(g.cells, RowAt(g, g.row), RegionEnd(g), LineCount(g, g.row, n) * g.cols))
  {
    hide ShiftLeft;
  }

  /** Where row r lies relative to the stretch a deletion moves. */
  lemma DeletePlace(g: Grid, n: nat, r: nat)
    requires Valid(g) && InRegion(g) && r < g.rows
    ensures var lo, hi, d, p := RowAt(g, g.row), RegionEnd(g), LineCount(g, g.row, n) * g.cols, RowAt(g, r);
            if r < g.row then p + g.cols <= lo
            else if g.bottom < r then hi <= p
            else if r + n <= g.bottom then lo <= p && p + d + g.cols <= hi && RowAt(g, r + n) == p + d
            else hi - d <= p && p + g.cols <= hi
  {
    var k, end := LineCount(g, g.row, n), g.bottom + 1;
    if r < g.row {
      Lines(r, 1, g.row, g.cols);
    } else if g.bottom < r {
      MulMono(end, r, g.cols);
    } else if r + n <= g.bottom {
      MovedRow(g.cols, g.row, end, n, r);
    } else {
      FreedRow(g.cols, g.row, end, k, r);
    }
  }

  lemma ShiftRightSlice(cells: seq<nat>, lo: nat, hi: nat, d: nat, p: nat, w: nat)
    requires lo + d <= hi <= |cells| && p + w <= |cells|
    ensures var s := ShiftRight(cells, lo, hi, d)[p..p + w];
            (p + w <= lo || hi <= p ==> s == cells[p..p + w]) &&
            (lo + d <= p && p + w <= hi ==> s == cells[p - d..p - d + w]) &&
            (lo <= p && p + w <= lo + d ==> s == Blank(w))
  {
    hide ShiftRight;
    var s := ShiftRight(cells, lo, hi, d)[p..p + w];
    forall j | 0 <= j < w
      ensures (p + w <= lo || hi <= p ==> s[j] == cells[p + j]) &&
              (lo + d <= p && p + w <= hi ==> s[j] == cells[p - d + j]) &&
              (lo <= p && p + w <= lo + d ==> s[j] == BLANK)
    {
      ShiftRightAt(cells, lo, hi, d, p + j);
    }
    if p + w <= lo || hi <= p {
      assert s == cells[p..p + w];
    }
    if lo + d <= p && p + w <= hi {
      assert s == cells[p - d..p - d + w];
    }
    if lo <= p && p + w <= lo + d {
      assert s == Blank(w);
    }
  }

  lemma BlankedRow(w: nat, from: nat, k: nat, r: nat)
    requires from <= r < from + k
    ensures from * w <= r * w && r * w + w <= from * w + k * w
  {
    MulMono(from, r, w);
    Lines(r, 1, from + k, w);
    Lines(from, k, from + k, w);
  }

  lemma LoweredRow(w: nat, from: nat, end: nat, n: nat, r: nat)
    requires from + n <= r < end
    ensures from * w + n * w <= r * w && r * w + w <= end * w && (r - n) * w == r * w - n * w
  {
    Lines(from, n, r, w);
    Lines(r, 1, end, w);
    Lines(r - n, n, r, w);
  }

  /** Where row r lies in the stretch that an insertion of lines moves. */
  lemma InsertPlace(g: Grid, n: nat, r: nat)
    requires Valid(g) && InRegion(g) && r < g.rows
    ensures var lo, hi, d, p := RowAt(g, g.row), RegionEnd(g), LineCount(g, g.row, n) * g.cols, RowAt(g, r);
            if r < g.row then p + g.cols <= lo
            else if g.bottom < r then hi <= p
            else if g.row + n <= r then lo + d <= p && p + g.cols <= hi && RowAt(g, r - n) == p - d
            else lo <= p && p + g.cols <= lo + d
  {
    if r < g.row {
      Lines(r, 1, g.row, g.cols);
    } else if g.bottom < r {
      MulMono(g.bottom + 1, r, g.cols);
    } else if g.row + n <= r {
      LoweredRow(g.cols, g.row, g.bottom + 1, n, r);
    } else {
      BlankedRow(g.cols, g.row, LineCount(g, g.row, n), r);
    }
  }

  /** Inserting n lines at the cursor: rows above it and below the region keep
      their cells, n blank rows appear and the others move down. */
  lemma InsertLinesRows(g: Grid, n: nat, r: nat)
    requires Valid(g) && InRegion(g) && n > 0 && r < g.rows
    ensures Row(InsertLines(g, n), r) ==
            if r < g.row || g.bottom < r then Row(g, r)
            else if g.row + n <= r then Row(g, r - n)
            else Blank(g.cols)
  {
    hide ShiftRight, RowAt, RegionEnd, LineCount, IsArea, Row, InsertLines, Blank;
    var lo, hi, d, p := RowAt(g, g.row), RegionEnd(g), LineCount(g, g.row, n) * g.cols, RowAt(g, r);
    InsertPlace(g, n, r);
    InsertedCells(g, n);
    RowOf(g, ShiftRight(g.cells, lo, hi, d), r);
    ShiftRightSlice(g.cells, lo, hi, d, p, g.cols);
    if g.row + n <= r { RowOf(g, g.cells, r - n); }
  }

  lemma InsertedCells(g: Grid, n: nat)
    requires Valid(g) && InRegion(g) && n > 0
    ensures InsertLines(g, n)
         == g.(cells := ShiftRight(g.cells, RowAt(g, g.row), RegionEnd(g), LineCount(g, g.row, n) * g.cols))
  {
    hide ShiftRight;
  }

  lemma CursorCell(g: Grid)
    requires Valid(g)
    ensures g.row * g.cols + g.col < |g.cells|
  {
    RowEnd(g.row, g.rows, g.cols);
  }

  lemma FillAll(cells: seq<nat>)
    ensures Fill(cells, 0, |cells|) == Blank(|cells|)
  {
  }

  lemma LineCountIs(g: Grid, n: nat)
    requires Valid(g) && g.row <= g.bottom
    ensures LineCount(g, g.row, n) == if n > g.bottom - g.row + 1 then g.bottom - g.row + 1 else n
    ensures g.row * g.cols + LineCount(g, g.row, n) * g.cols <= (g.bottom + 1) * g.cols <= |g.cells|
  {
    RegionBounds(g);
  }
}
