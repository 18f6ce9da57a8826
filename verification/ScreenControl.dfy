/** Control characters and control sequences as bytes: what each of them does to the
    screen, parameters in decimal. */
module ScreenControl {
  import opened Bytes
  import opened Positional
  import opened ScreenGrid
  import opened ScreenRows

  // ---- Parameters ----

  /** A number in decimal. */
  function Decimal(n: nat): (s: seq<nat>)
    ensures s != [] && forall i | 0 <= i < |s| :: IsDigit(s[i])
  {
    if n < 10 then [48 + n] else Decimal(n / 10) + [48 + n % 10]
  }

  lemma {:induction false} DecimalReads(n: nat)
    ensures FieldNumber(Decimal(n)) == n
  {
    if n >= 10 {
      DecimalReads(n / 10);
      assert Decimal(n)[..|Decimal(n)| - 1] == Decimal(n / 10);
    } else {
      assert FieldNumber([]) == -1 && Decimal(n)[..0] == [];
    }
  }

  lemma {:induction false} FieldEndAt(text: seq<nat>, i: nat, j: nat)
    requires i <= j <= |text| && (j < |text| ==> text[j] == SEMICOLON)
    requires forall k | i <= k < j :: text[k] != SEMICOLON
    ensures FieldEnd(text, i) == j
    decreases j - i
  {
    if i < j { FieldEndAt(text, i + 1, j); }
  }

  /** No parameter, one, or two with a semicolon between them. */
  function Params(ns: seq<nat>): seq<nat>
    requires |ns| <= 2
  {
    if ns == [] then [] else if |ns| == 1 then Decimal(ns[0]) else Decimal(ns[0]) + [SEMICOLON] + Decimal(ns[1])
  }

  lemma NoParam(default: nat)
    ensures Param([], 0, default) == default && Param([], 1, default) == default
  {
  }

  lemma OneParam(n: nat, default: nat)
    ensures Param(Decimal(n), 0, default) == n && Param(Decimal(n), 1, default) == default
  {
    var text := Decimal(n);
    FieldEndAt(text, 0, |text|);
    assert text[0..|text|] == text;
    DecimalReads(n);
  }

  lemma FieldReads(text: seq<nat>, i: nat, j: nat, n: nat, default: nat)
    requires i <= j <= |text| && text[i..j] == Decimal(n) && (j < |text| ==> text[j] == SEMICOLON)
    ensures FieldEnd(text, i) == j && ParamFrom(text, i, 0, default) == n
  {
    hide Decimal, FieldNumber;
    forall k | i <= k < j
      ensures text[k] != SEMICOLON
    {
      assert text[k] == text[i..j][k - i] && IsDigit(text[k]);
    }
    FieldEndAt(text, i, j);
    DecimalReads(n);
  }

  lemma TwoParams(n: nat, m: nat, default: nat)
    ensures var text := Decimal(n) + [SEMICOLON] + Decimal(m);
            Param(text, 0, default) == n && Param(text, 1, default) == m
  {
    hide Decimal, FieldNumber;
    var a, b := Decimal(n), Decimal(m);
    var text := a + [SEMICOLON] + b;
    assert text[0..|a|] == a && text[|a| + 1..|text|] == b;
    FieldReads(text, 0, |a|, n, default);
    FieldReads(text, |a| + 1, |text|, m, default);
    assert ParamFrom(text, 0, 1, default) == ParamFrom(text, |a| + 1, 0, default);
  }

  // ---- Control sequences ----

  /** Bytes that a control sequence collects. */
  predicate IsBody(body: seq<nat>) {
    |body| <= 63 && forall i | 0 <= i < |body| :: body[i] < 0x40 || 0x7e < body[i] < 256
  }

  lemma ParamsAreBody(ns: seq<nat>)
    requires |ns| <= 2 && |Params(ns)| <= 63
    ensures IsBody(Params(ns))
  {
  }

  lemma {:induction false} BodyCollected(g: Grid, body: seq<nat>)
    requires Valid(g) && g.esc == Csi && g.csi == [] && IsBody(body)
    ensures Feed(g, body) == (g.(csi := body), |body|)
  {
    if body == [] {
      assert g.(csi := []) == g;
    } else {
      var n := |body| - 1;
      BodyCollected(g, body[..n]);
      assert body[..n] + [body[n]] == body;
    }
  }

  /** The bytes of a control sequence. */
  function Sequence(body: seq<nat>, final: char): seq<nat>
    requires final < 256 as char
  {
    [27, 91] + body + [final as nat]
  }

  lemma FeedOne(g: Grid, ch: nat)
    requires Valid(g) && ch < 256
    ensures Feed(g, [ch]) == if Hangs(g, ch) then (g, 0) else (FeedByte(g, ch), 1)
  {
    hide FeedByte, Hangs;
    assert [ch][..0] == [] && Feed(g, []) == (g, 0);
  }

  /** A sequence takes effect with its final byte and leaves nothing behind. */
  lemma SequenceApplies(g: Grid, body: seq<nat>, final: char)
    requires Valid(g) && g.esc == Plain && IsBody(body) && 0x40 as char <= final <= 0x7e as char
    ensures AreBytes(Sequence(body, final))
    ensures Feed(g, Sequence(body, final)) ==
            (ApplyCsi(g.(esc := Csi, csi := body), final).(esc := Plain, csi := []), |Sequence(body, final)|)
  {
    hide Feed, ApplyCsi;
    var a := g.(esc := Esc);
    var b := g.(esc := Csi, csi := []);
    FeedOne(g, 27);
    FeedOne(a, 91);
    FeedAppend(g, [27], [91]);
    assert [27] + [91] == [27, 91];
    BodyCollected(b, body);
    FeedAppend(g, [27, 91], body);
    FeedOne(b.(csi := body), final as nat);
    FeedAppend(g, [27, 91] + body, [final as nat]);
  }

  /** What a sequence with parameters leaves. */
  function After(g: Grid, ns: seq<nat>, final: char): Grid
    requires Valid(g) && |ns| <= 2 && |Params(ns)| <= 63 && 0x40 as char <= final <= 0x7e as char
  {
    ParamsAreBody(ns);
    Feed(g, Sequence(Params(ns), final)).0
  }

  /** Row or column number x of n, counted from one and kept inside. */
  function Place(x: nat, n: nat): nat
    requires n > 0
  {
    if x <= 1 then 0 else if x >= n then n - 1 else x - 1
  }

  lemma AfterApplies(g: Grid, ns: seq<nat>, final: char)
    requires Valid(g) && g.esc == Plain && |ns| <= 2 && |Params(ns)| <= 63 && 0x40 as char <= final <= 0x7e as char
    ensures After(g, ns, final) == ApplyCsi(g.(esc := Csi, csi := Params(ns)), final).(esc := Plain, csi := [])
  {
    ParamsAreBody(ns);
    SequenceApplies(g, Params(ns), final);
  }

  /** A cursor sequence moves the cursor by its parameters. */
  lemma CursorSequence(g: Grid, ns: seq<nat>, final: char, n: nat, m: nat)
    requires Valid(g) && g.esc == Plain && |ns| <= 2 && |Params(ns)| <= 63 && final in CURSOR_FINALS
    requires Param(Params(ns), 0, 1) == n && Param(Params(ns), 1, 1) == m
    ensures After(g, ns, final) == MoveCursor(g, final, n, m).(wrap := false, csi := [])
  {
    hide Feed, Param, Params, MoveCursor;
    AfterApplies(g, ns, final);
    CursorAlike(g, Params(ns), final, n, m);
  }

  lemma StepsAlike(g: Grid, csi: seq<nat>, final: char, n: nat, m: nat)
    requires Valid(g) && |csi| <= MAX_CSI && final in "ABCD"
    ensures MoveCursor(g.(esc := Csi, csi := csi), final, n, m) == MoveCursor(g, final, n, m).(esc := Csi, csi := csi)
    ensures MoveCursor(g, final, n, m).esc == g.esc
  {
    hide IsArea;
  }

  lemma JumpsAlike(g: Grid, csi: seq<nat>, final: char, n: nat, m: nat)
    requires Valid(g) && |csi| <= MAX_CSI && final !in "ABCD"
    ensures MoveCursor(g.(esc := Csi, csi := csi), final, n, m) == MoveCursor(g, final, n, m).(esc := Csi, csi := csi)
    ensures MoveCursor(g, final, n, m).esc == g.esc
  {
    hide IsArea;
  }

  lemma CursorAlike(g: Grid, csi: seq<nat>, final: char, n: nat, m: nat)
    requires Valid(g) && |csi| <= MAX_CSI
    ensures MoveCursor(g.(esc := Csi, csi := csi), final, n, m) == MoveCursor(g, final, n, m).(esc := Csi, csi := csi)
    ensures MoveCursor(g, final, n, m).esc == g.esc
  {
    hide MoveCursor;
    if final in "ABCD" { StepsAlike(g, csi, final, n, m); } else { JumpsAlike(g, csi, final, n, m); }
  }

  /** CSI n ; m H puts the cursor on row n, column m, both counted from one. */
  lemma CursorToPlace(g: Grid, n: nat, m: nat, final: char)
    requires Valid(g) && g.esc == Plain && |Params([n, m])| <= 63 && (final == 'H' || final == 'f')
    ensures After(g, [n, m], final) ==
            g.(row := Place(n, g.rows), col := Place(m, g.cols), wrap := false, csi := [])
  {
    hide After, Param, Decimal;
    TwoParams(n, m, 1);
    CursorSequence(g, [n, m], final, n, m);
  }

  /** The other cursor sequences with one parameter: up, down, right and left by n, */
  lemma CursorMoves(g: Grid, n: nat)
    requires Valid(g) && g.esc == Plain && |Decimal(n)| <= 63
    ensures After(g, [n], 'A') == g.(row := if g.row < n then 0 else g.row - n, wrap := false, csi := [])
    ensures After(g, [n], 'B') == g.(row := if g.row + n < g.rows then g.row + n else g.rows - 1,
                                     wrap := false, csi := [])
    ensures After(g, [n], 'C') == g.(col := if g.col + n < g.cols then g.col + n else g.cols - 1,
                                     wrap := false, csi := [])
    ensures After(g, [n], 'D') == g.(col := if g.col < n then 0 else g.col - n, wrap := false, csi := [])
  {
    hide After, Param, Decimal, IsArea;
    OneParam(n, 1);
    CursorSequence(g, [n], 'A', n, 1);
    CursorSequence(g, [n], 'B', n, 1);
    CursorSequence(g, [n], 'C', n, 1);
    CursorSequence(g, [n], 'D', n, 1);
  }

  /** ... and to column n and to row n. */
  lemma CursorJumps(g: Grid, n: nat)
    requires Valid(g) && g.esc == Plain && |Decimal(n)| <= 63
    ensures After(g, [n], 'G') == g.(col := Place(n, g.cols), wrap := false, csi := [])
    ensures After(g, [n], 'd') == g.(row := Place(n, g.rows), wrap := false, csi := [])
  {
    hide After, Param, Decimal, IsArea;
    OneParam(n, 1);
    CursorSequence(g, [n], 'G', n, 1);
    CursorSequence(g, [n], 'd', n, 1);
  }

  /** Without parameters: home, one step, and saving and restoring the cursor. */
  lemma CursorDefaults(g: Grid)
    requires Valid(g) && g.esc == Plain
    ensures After(g, [], 'H') == g.(row := 0, col := 0, wrap := false, csi := [])
    ensures After(g, [], 'A') == g.(row := if g.row == 0 then 0 else g.row - 1, wrap := false, csi := [])
    ensures After(g, [], 'C') == g.(col := if g.col + 1 < g.cols then g.col + 1 else g.col, wrap := false, csi := [])
    ensures After(g, [], 's') == g.(savedRow := g.row, savedCol := g.col, wrap := false, csi := [])
    ensures After(g, [], 'u') == g.(row := g.savedRow, col := g.savedCol, wrap := false, csi := [])
  {
    hide After, Param, IsArea;
    NoParam(1);
    CursorSequence(g, [], 'H', 1, 1);
    CursorSequence(g, [], 'A', 1, 1);
    CursorSequence(g, [], 'C', 1, 1);
    CursorSequence(g, [], 's', 1, 1);
    CursorSequence(g, [], 'u', 1, 1);
  }

  /** CSI n ; m r sets the scroll region to rows n to m and goes home, unless it is not a
      range of at least two rows of the screen. */
  lemma RegionIsSet(g: Grid, n: nat, m: nat)
    requires Valid(g) && g.esc == Plain && |Params([n, m])| <= 63
    ensures var first, last := if n == 0 then 1 else n, if m == 0 then g.rows else m;
            After(g, [n, m], 'r') ==
            if first < last <= g.rows
            then g.(top := first - 1, bottom := last - 1, row := 0, col := 0, wrap := false, csi := [])
            else g.(wrap := false, csi := [])
  {
    hide Feed, Param, Decimal;
    AfterApplies(g, [n, m], 'r');
    TwoParams(n, m, 1);
  }

  /** The grid redrawn with other cells. */
  function Redrawn(g: Grid, cells: seq<nat>): Grid {
    g.(cells := cells, wrap := false, csi := [])
  }

  /** The letters and their operations. */
  lemma ErasingTable(k: Grid, mode: nat, n: nat)
    requires Valid(k) && Param(k.csi, 0, 0) == mode && Param(k.csi, 0, 1) == n
    ensures Csi1(k, 'J') == ClearDisplay(k, mode) && Csi1(k, 'K') == EraseLine(k, mode)
    ensures Csi1(k, 'X') == EraseChars(k, n)
  {
    hide Param, ClearDisplay, EraseLine, EraseChars, InsertChars, DeleteChars, InsertLines, DeleteLines,
         ScrollUpTimes, ScrollDownTimes, MoveCursor, SetRegion, IsArea;
  }

  lemma MovingTable(k: Grid, n: nat)
    requires Valid(k) && Param(k.csi, 0, 1) == n
    ensures Csi1(k, '@') == InsertChars(k, n) && Csi1(k, 'P') == DeleteChars(k, n)
    ensures Csi1(k, 'L') == InsertLines(k, n) && Csi1(k, 'M') == DeleteLines(k, n)
  {
    hide Param, ClearDisplay, EraseLine, EraseChars, InsertChars, DeleteChars, InsertLines, DeleteLines,
         ScrollUpTimes, ScrollDownTimes, MoveCursor, SetRegion, IsArea;
  }

  lemma ScrollingTable(k: Grid, n: nat)
    requires Valid(k) && Param(k.csi, 0, 1) == n
    ensures Csi1(k, 'S') == ScrollUpTimes(k, n) && Csi1(k, 'T') == ScrollDownTimes(k, n)
  {
    hide Param, ClearDisplay, EraseLine, EraseChars, InsertChars, DeleteChars, InsertLines, DeleteLines,
         ScrollUpTimes, ScrollDownTimes, MoveCursor, SetRegion, IsArea;
  }

  /** The operations do not depend on the parser. */
  lemma ErasesAlike(g: Grid, csi: seq<nat>, n: nat)
    requires Valid(g) && |csi| <= MAX_CSI
    ensures var k := g.(esc := Csi, csi := csi);
            && ClearDisplay(k, n).cells == ClearDisplay(g, n).cells && EraseLine(k, n).cells == EraseLine(g, n).cells
            && EraseChars(k, n).cells == EraseChars(g, n).cells
  {
    hide Fill;
  }

  lemma CharsAlike(g: Grid, csi: seq<nat>, n: nat)
    requires Valid(g) && |csi| <= MAX_CSI
    ensures var k := g.(esc := Csi, csi := csi);
            InsertChars(k, n).cells == InsertChars(g, n).cells && DeleteChars(k, n).cells == DeleteChars(g, n).cells
  {
    hide ShiftLeft, ShiftRight;
  }

  lemma InsertedAlike(g: Grid, csi: seq<nat>, n: nat)
    requires Valid(g) && |csi| <= MAX_CSI
    ensures InsertLines(g.(esc := Csi, csi := csi), n).cells == InsertLines(g, n).cells
  {
    hide ShiftRight;
  }

  lemma DeletedAlike(g: Grid, csi: seq<nat>, n: nat)
    requires Valid(g) && |csi| <= MAX_CSI
    ensures DeleteLines(g.(esc := Csi, csi := csi), n).cells == DeleteLines(g, n).cells
  {
    hide ShiftLeft;
  }

  lemma RedrawnBy(g: Grid, ns: seq<nat>, final: char, cells: seq<nat>)
    requires Valid(g) && g.esc == Plain && |ns| <= 2 && |Params(ns)| <= 63 && 0x40 as char <= final <= 0x7e as char
    requires var k := g.(esc := Csi, csi := Params(ns)); Csi1(k, final) == k.(cells := cells)
    ensures After(g, ns, final) == Redrawn(g, cells)
  {
    hide Feed, Params, Csi1;
    AfterApplies(g, ns, final);
  }

  /** The letters that erase, by their mode or length. */
  lemma ErasingLetters(g: Grid, n: nat)
    requires Valid(g) && g.esc == Plain && |Decimal(n)| <= 63
    ensures After(g, [n], 'J') == Redrawn(g, ClearDisplay(g, n).cells)
    ensures After(g, [n], 'K') == Redrawn(g, EraseLine(g, n).cells)
    ensures After(g, [n], 'X') == Redrawn(g, EraseChars(g, n).cells)
  {
    hide After, Csi1, Param, Decimal, ClearDisplay, EraseLine, EraseChars, IsArea, Redrawn;
    OneParam(n, 0);
    OneParam(n, 1);
    ErasingTable(g.(esc := Csi, csi := Decimal(n)), n, n);
    ErasesAlike(g, Decimal(n), n);
    RedrawnBy(g, [n], 'J', ClearDisplay(g, n).cells);
    RedrawnBy(g, [n], 'K', EraseLine(g, n).cells);
    RedrawnBy(g, [n], 'X', EraseChars(g, n).cells);
  }

  /** Without a mode the erasing letters work from the cursor on. */
  lemma ErasingDefaults(g: Grid)
    requires Valid(g) && g.esc == Plain
    ensures After(g, [], 'J') == Redrawn(g, ClearDisplay(g, 0).cells)
    ensures After(g, [], 'K') == Redrawn(g, EraseLine(g, 0).cells)
  {
    hide After, Csi1, Param, ClearDisplay, EraseLine, IsArea, Redrawn;
    NoParam(0);
    NoParam(1);
    ErasingTable(g.(esc := Csi, csi := []), 0, 1);
    ErasesAlike(g, [], 0);
    RedrawnBy(g, [], 'J', ClearDisplay(g, 0).cells);
    RedrawnBy(g, [], 'K', EraseLine(g, 0).cells);
  }

  /** The letters that insert and delete. */
  lemma MovingLetters(g: Grid, n: nat)
    requires Valid(g) && g.esc == Plain && |Decimal(n)| <= 63
    ensures After(g, [n], '@') == Redrawn(g, InsertChars(g, n).cells)
    ensures After(g, [n], 'P') == Redrawn(g, DeleteChars(g, n).cells)
    ensures After(g, [n], 'L') == Redrawn(g, InsertLines(g, n).cells)
    ensures After(g, [n], 'M') == Redrawn(g, DeleteLines(g, n).cells)
  {
    hide After, Csi1, Param, Decimal, InsertChars, DeleteChars, InsertLines, DeleteLines, IsArea, Redrawn;
    OneParam(n, 1);
    MovingTable(g.(esc := Csi, csi := Decimal(n)), n);
    CharsAlike(g, Decimal(n), n);
    InsertedAlike(g, Decimal(n), n);
    DeletedAlike(g, Decimal(n), n);
    RedrawnBy(g, [n], '@', InsertChars(g, n).cells);
    RedrawnBy(g, [n], 'P', DeleteChars(g, n).cells);
    RedrawnBy(g, [n], 'L', InsertLines(g, n).cells);
    RedrawnBy(g, [n], 'M', DeleteLines(g, n).cells);
  }

  /** The letters that scroll the region, as insertions and deletions on its first row. */
  lemma ScrollingLetters(g: Grid, n: nat)
    requires Valid(g) && g.esc == Plain && |Decimal(n)| <= 63
    ensures After(g, [n], 'S') == Redrawn(g, DeleteLines(g.(row := g.top), n).cells)
    ensures After(g, [n], 'T') == Redrawn(g, InsertLines(g.(row := g.top), n).cells)
  {
    hide After, Csi1, Param, Decimal, InsertLines, DeleteLines, IsArea, Redrawn, ScrollUpTimes, ScrollDownTimes;
    OneParam(n, 1);
    var k := g.(esc := Csi, csi := Decimal(n));
    ScrollingTable(k, n);
    ScrollUpIsDeleteLines(k, n);
    ScrollDownIsInsertLines(k, n);
    InsertedAlike(g.(row := g.top), Decimal(n), n);
    DeletedAlike(g.(row := g.top), Decimal(n), n);
    assert k.(row := g.top) == g.(row := g.top).(esc := Csi, csi := Decimal(n));
    RedrawnBy(g, [n], 'S', ScrollUpTimes(k, n).cells);
    RedrawnBy(g, [n], 'T', ScrollDownTimes(k, n).cells);
  }

  /** Every other final byte, behind whatever parameters, does nothing but end a delayed
      wrap. */
  lemma OtherLetters(g: Grid, body: seq<nat>, final: char)
    requires Valid(g) && g.esc == Plain && IsBody(body) && 0x40 as char <= final <= 0x7e as char
    requires final !in {'A', 'B', 'C', 'D', 'G', 'H', 'f', 'd', 's', 'u'}
    requires final !in {'J', 'K', 'X', '@', 'P', 'L', 'M', 'S', 'T', 'r'}
    ensures AreBytes(Sequence(body, final)) && Feed(g, Sequence(body, final)).0 == g.(wrap := false, csi := [])
  {
    hide Feed, Param;
    SequenceApplies(g, body, final);
  }

  /** Bytes of a parameter other than digits do not count, */
  lemma {:induction false} OnlyDigitsCount(a: seq<nat>, ch: nat, b: seq<nat>)
    requires ch < 48 || 57 < ch
    ensures FieldNumber(a + [ch] + b) == FieldNumber(a + b)
    decreases |b|
  {
    var s, t := a + [ch] + b, a + b;
    if b == [] {
      assert s[..|s| - 1] == a && t == a;
    } else {
      OnlyDigitsCount(a, ch, b[..|b| - 1]);
      assert s[..|s| - 1] == a + [ch] + b[..|b| - 1] && t[..|t| - 1] == a + b[..|b| - 1];
    }
  }

  /** ... and bytes beyond the sixty-three that are collected are dropped. */
  lemma FullBodyStays(g: Grid, ch: nat)
    requires Valid(g) && g.esc == Csi && |g.csi| == 63 && ch < 256 && (ch < 0x40 || 0x7e < ch)
    ensures Feed(g, [ch]) == (g, 1)
  {
    hide Feed;
    FeedOne(g, ch);
  }

  // ---- Escapes and single characters ----

  lemma FeedEscape(g: Grid, ch: nat)
    requires Valid(g) && g.esc == Plain && ch < 256
    ensures Feed(g, [27, ch]) == (ApplyEsc(g.(esc := Esc), ch as char), 2)
  {
    hide Feed, ApplyEsc;
    FeedOne(g, 27);
    FeedOne(g.(esc := Esc), ch);
    FeedAppend(g, [27], [ch]);
    assert [27] + [ch] == [27, ch];
  }

  /** Escape and a letter: save and restore the cursor, and start over, */
  lemma CursorEscapes(g: Grid)
    requires Valid(g) && g.esc == Plain
    ensures Feed(g, [27, 55]).0 == g.(savedRow := g.row, savedCol := g.col)
    ensures Feed(g, [27, 56]).0 == g.(row := g.savedRow, col := g.savedCol)
    ensures Feed(g, [27, 99]).0 == Fresh(g.cols, g.rows)
  {
    hide Feed, Newline, ReverseIndex;
    FeedEscape(g, 55);
    FeedEscape(g, 56);
    FeedEscape(g, 99);
  }

  lemma ScrollsAlike(g: Grid, h: Grid)
    requires Valid(g) && Valid(h) && h.cells == g.cells && h.cols == g.cols && h.rows == g.rows
    requires h.top == g.top && h.bottom == g.bottom
    ensures ScrollUp(h).cells == ScrollUp(g).cells && ScrollDown(h).cells == ScrollDown(g).cells
  {
    hide ShiftLeft, ShiftRight;
  }

  lemma NewlineAlike(g: Grid, esc: Escape)
    requires Valid(g)
    ensures Newline(g.(esc := esc)) == Newline(g).(esc := esc)
  {
    hide ScrollUp, IsArea;
    ScrollsAlike(g.(wrap := false), g.(esc := esc, wrap := false));
  }

  lemma ReverseAlike(g: Grid, esc: Escape)
    requires Valid(g)
    ensures ReverseIndex(g.(esc := esc)) == ReverseIndex(g).(esc := esc)
  {
    hide ScrollDown, IsArea;
    ScrollsAlike(g.(wrap := false), g.(esc := esc, wrap := false));
  }

  lemma LineEscape(g: Grid)
    requires Valid(g) && g.esc == Plain
    ensures ApplyEsc(g.(esc := Esc), 'D') == Newline(g)
    ensures ApplyEsc(g.(esc := Esc), 'M') == ReverseIndex(g)
    ensures ApplyEsc(g.(esc := Esc), 'E') == Newline(g.(col := 0))
  {
    hide Newline, ReverseIndex, Reset, IsArea;
    NewlineAlike(g, Esc);
    ReverseAlike(g, Esc);
    NewlineAlike(g.(col := 0), Esc);
    assert g.(col := 0).(esc := Esc) == g.(esc := Esc).(col := 0);
  }

  /** ... and next line, reverse line feed, and the start of the next line. */
  lemma LineEscapes(g: Grid)
    requires Valid(g) && g.esc == Plain
    ensures Feed(g, [27, 68]).0 == Newline(g)
    ensures Feed(g, [27, 77]).0 == ReverseIndex(g)
    ensures Feed(g, [27, 69]).0 == Newline(g.(col := 0))
  {
    hide Feed, Newline, ReverseIndex, ApplyEsc, IsArea;
    FeedEscape(g, 68);
    FeedEscape(g, 77);
    FeedEscape(g, 69);
    LineEscape(g);
  }

  /** Carriage return, line feed and backspace; other control characters do nothing. */
  lemma ControlCharacters(g: Grid, ch: nat)
    requires Valid(g) && g.esc == Plain && ch < 32 && ch != 27 && ch != 9
    ensures Feed(g, [ch]) == (
              if ch == 13 then g.(col := 0, wrap := false)
              else if ch == 10 then Newline(g)
              else if ch == 8 then g.(col := if g.col == 0 then 0 else g.col - 1, wrap := false)
              else g, 1)
  {
    hide Feed, Newline;
    FeedOne(g, ch);
  }

  lemma TypedCons(g: Grid, n: nat)
    requires Valid(g) && !g.wrap && n > 0 && g.col + n < g.cols
    ensures var h := Put(g, BLANK); Valid(h) && h.cols == g.cols && h.col == g.col + 1 && !h.wrap
    ensures Typed(Put(g, BLANK), Blank(n - 1)) == Typed(g, Blank(n))
  {
    hide Put;
    PutValid(g, BLANK);
    PutCell(g, BLANK);
    var p := RowAt(g, g.row) + g.col;
    assert Overwrite(g.cells[p := BLANK], p + 1, Blank(n - 1)) == Overwrite(g.cells, p, Blank(n));
  }

  lemma {:induction false} TabTypes(g: Grid, next: nat)
    requires Valid(g) && !g.wrap && g.col <= next < g.cols
    ensures TabLoop(g, next) == Typed(g, Blank(next - g.col))
    decreases next - g.col
  {
    hide Put, Typed;
    if g.col < next {
      TypedCons(g, next - g.col);
      TabTypes(Put(g, BLANK), next);
    } else {
      TypedNone(g);
      assert Blank(0) == [];
    }
  }

  /** A tab whose stop lies inside the row writes blanks up to the next multiple of eight. */
  lemma TabWritesBlanks(g: Grid)
    requires Valid(g) && g.esc == Plain && !g.wrap && NextStop(g.col) < g.cols
    ensures var n := 8 - g.col % 8;
            g.col + n < g.cols && Feed(g, [9]) == (Typed(g, Blank(n)), 1)
  {
    hide Feed, Typed;
    FeedOne(g, 9);
    TabTypes(g, NextStop(g.col));
  }

  /** A resize asks for the default of 80 by 24 where a size is zero, and starts over
      exactly when the size is new, within a million cells and allocated. */
  lemma ResizeExactly(g: Grid, cols: nat, rows: nat, ok: bool)
    requires Valid(g)
    ensures var c, r := if cols == 0 then 80 else cols, if rows == 0 then 24 else rows;
            Resize(g, cols, rows, ok) ==
            if (c != g.cols || r != g.rows) && c * r <= 1000000 && ok then Fresh(c, r) else g
  {
  }

  /** A fresh screen is blank, with the cursor home and the whole screen as its region. */
  lemma FreshIsBlank(cols: nat, rows: nat, r: nat)
    requires cols > 0 && rows > r
    ensures var g := Fresh(cols, rows);
            && g.cols == cols && g.rows == rows && Row(g, r) == Blank(cols)
            && g.row == g.col == g.savedRow == g.savedCol == g.top == 0 && g.bottom == rows - 1
            && !g.wrap && g.esc == Plain && g.csi == []
  {
    BlankSlice(rows * cols, RowAt(Fresh(cols, rows), r), cols);
  }
}
