/** The frame editorRefreshScreen sends to the terminal, as a function of the
    screen size and the cursor: what editorDrawRows appends for each row,
    and the escapes around it. */
module Screen {
  import opened Bytes
  import opened Cursor

  const HIDE_CURSOR: seq<byte> := [ESC, '[' as int, '?' as int, '2' as int, '5' as int, 'l' as int]
  const SHOW_CURSOR: seq<byte> := [ESC, '[' as int, '?' as int, '2' as int, '5' as int, 'h' as int]
  const CURSOR_HOME: seq<byte> := [ESC, '[' as int, 'H' as int]
  const ERASE_LINE: seq<byte> := [ESC, '[' as int, 'K' as int]
  const CRLF: seq<byte> := [CR, LF]
  const TILDE: seq<byte> := ['~' as int]
  const SPACE: seq<byte> := [' ' as int]
  /** "Kilo editor -- version " followed by KILO_VERSION "0.0.1". */
  const WELCOME: seq<byte> := Ascii("Kilo editor -- version 0.0.1")

  /** The lengths of the fixed escapes, as the appends of editorRefreshScreen
      and editorDrawRows pass them. */
  lemma EscapeLengths()
    ensures |HIDE_CURSOR| == 6 && |SHOW_CURSOR| == 6 && |CURSOR_HOME| == 3
    ensures |ERASE_LINE| == 3 && |CRLF| == 2 && |TILDE| == 1 && |SPACE| == 1
    ensures |WELCOME| == 28
  {
  }

  /** The welcome text's length once cut to the screen width. */
  function WelcomeLen(cols: Dimension): nat {
    if |WELCOME| > cols then cols else |WELCOME|
  }

  /** Half of the columns the welcome text leaves free (C division of a
      non-negative value). */
  function Padding(cols: Dimension): nat {
    (cols - WelcomeLen(cols)) / 2
  }

  function Spaces(n: nat): seq<byte> {
    seq(n, _ => ' ' as int)
  }

  lemma SpacesSnoc(n: nat)
    ensures Spaces(n + 1) == Spaces(n) + SPACE
  {
  }

  /** The welcome row: when there is padding, a `~` and spaces filling it,
      then the cut welcome text. */
  function Banner(cols: Dimension): seq<byte> {
    (if Padding(cols) != 0 then TILDE + Spaces(Padding(cols) - 1) else [])
      + WELCOME[..WelcomeLen(cols)]
  }

  /** The welcome row as the `~`, the spaces and the text that
      editorDrawRows appends for it. */
  lemma BannerSplit(cols: Dimension)
    ensures Padding(cols) != 0 ==>
      Banner(cols) == TILDE + Spaces(Padding(cols) - 1) + WELCOME[..WelcomeLen(cols)]
    ensures Padding(cols) == 0 ==>
      Banner(cols) == [] + Spaces(0) + WELCOME[..WelcomeLen(cols)]
  {
  }

  /** The visible text of row `i`: the banner on row rows / 3, else `~`. */
  function RowText(rows: Dimension, cols: Dimension, i: nat): seq<byte> {
    if i == rows / 3 then Banner(cols) else TILDE
  }

  /** What one iteration of editorDrawRows appends for row `i`. */
  function RowBytes(rows: Dimension, cols: Dimension, i: nat): seq<byte> {
    RowText(rows, cols, i) + ERASE_LINE + (if i != rows - 1 then CRLF else [])
  }

  /** What editorDrawRows has appended after its first `n` iterations. */
  function DrawnRows(rows: Dimension, cols: Dimension, n: nat): seq<byte> {
    if n == 0 then [] else DrawnRows(rows, cols, n - 1) + RowBytes(rows, cols, n - 1)
  }

  /** One more iteration of editorDrawRows appends row `i`. */
  lemma DrawnRowsStep(rows: Dimension, cols: Dimension, i: nat)
    ensures DrawnRows(rows, cols, i + 1) == DrawnRows(rows, cols, i)
      + (RowText(rows, cols, i) + ERASE_LINE) + (if i != rows - 1 then CRLF else [])
  {
  }

  /** `\x1b[<row>;<col>H`, with both numbers written by `%d`. */
  function CursorEscape(row: int, col: int): seq<byte> {
    [ESC, '[' as int] + Decimal(row) + [';' as int] + Decimal(col) + ['H' as int]
  }

  /** The whole frame of editorRefreshScreen, in append order. */
  function Frame(rows: Dimension, cols: Dimension, p: Pos): seq<byte> {
    HIDE_CURSOR + CURSOR_HOME + DrawnRows(rows, cols, rows)
      + CursorEscape(p.y + 1, p.x + 1) + SHOW_CURSOR
  }

  // ----- The frame seen as lines -----

  /** The screen's lines, each with its erase-line escape. */
  function ScreenLines(rows: Dimension, cols: Dimension): (ls: seq<seq<byte>>)
    ensures |ls| == rows
  {
    seq(rows, i requires 0 <= i < rows => RowText(rows, cols, i) + ERASE_LINE)
  }

  /** Lines separated by CRLF, with no CRLF after the last. */
  function JoinCRLF(ls: seq<seq<byte>>): seq<byte>
    requires |ls| >= 1
  {
    if |ls| == 1 then ls[0] else ls[0] + CRLF + JoinCRLF(ls[1..])
  }

  /** The pieces of `s` between CRLF pairs; there is always at least one. */
  function SplitCRLF(s: seq<byte>): (ls: seq<seq<byte>>)
    ensures |ls| >= 1
  {
    if |s| < 2 then [s]
    else if s[0] == CR && s[1] == LF then [[]] + SplitCRLF(s[2..])
    else var rest := SplitCRLF(s[1..]); [[s[0]] + rest[0]] + rest[1..]
  }

  predicate NoByte(s: seq<byte>, b: byte) {
    forall i :: 0 <= i < |s| ==> s[i] != b
  }

  /** Every byte is ESC or above: no CR, no LF. */
  predicate NoControl(s: seq<byte>) {
    forall i :: 0 <= i < |s| ==> s[i] >= ESC
  }

  /** How many times byte `b` occurs in `s`. */
  function Count(s: seq<byte>, b: byte): nat {
    if s == [] then 0
    else Count(s[..|s| - 1], b) + (if s[|s| - 1] == b then 1 else 0)
  }

  lemma {:induction false} CountAppend(s: seq<byte>, t: seq<byte>, b: byte)
    ensures Count(s + t, b) == Count(s, b) + Count(t, b)
    decreases |t|
  {
    if t != [] {
      assert (s + t)[..|s + t| - 1] == s + t[..|t| - 1];
      CountAppend(s, t[..|t| - 1], b);
    } else {
      assert s + t == s;
    }
  }

  lemma {:induction false} CountAbsent(s: seq<byte>, b: byte)
    requires NoByte(s, b)
    ensures Count(s, b) == 0
    decreases |s|
  {
    if s != [] {
      CountAbsent(s[..|s| - 1], b);
    }
  }

  lemma CountCRLF()
    ensures Count(CRLF, CR) == 1 && Count(CRLF, LF) == 1
  {
    assert CRLF[..1] == [CR];
    assert Count([CR], CR) == 1 && Count([CR], LF) == 0 by { assert [CR][..0] == []; }
  }

  /** Appending one more line to a joined list of lines. */
  lemma {:induction false} JoinSnoc(ls: seq<seq<byte>>, l: seq<byte>)
    requires |ls| >= 1
    ensures JoinCRLF(ls + [l]) == JoinCRLF(ls) + CRLF + l
    decreases |ls|
  {
    if |ls| > 1 {
      assert (ls + [l])[1..] == ls[1..] + [l];
      JoinSnoc(ls[1..], l);
    }
  }

  /** A joined list followed by a separator, a new line and a tail is the
      longer list joined, followed by that tail. */
  lemma JoinExtend(ls: seq<seq<byte>>, l: seq<byte>, tail: seq<byte>)
    requires |ls| >= 1
    ensures JoinCRLF(ls) + CRLF + l + tail == JoinCRLF(ls + [l]) + tail
  {
    JoinSnoc(ls, l);
  }

  /** A piece without CR is not split. */
  lemma {:induction false} SplitNoCR(l: seq<byte>)
    requires NoByte(l, CR)
    ensures SplitCRLF(l) == [l]
    decreases |l|
  {
    if |l| >= 2 {
      assert l[0] != CR;
      SplitNoCR(l[1..]);
      assert [l[0]] + l[1..] == l;
    }
  }

  /** A piece without CR followed by CRLF splits off as one line. */
  lemma {:induction false} SplitConcat(l: seq<byte>, rest: seq<byte>)
    requires NoByte(l, CR)
    ensures SplitCRLF(l + CRLF + rest) == [l] + SplitCRLF(rest)
    decreases |l|
  {
    var s := l + CRLF + rest;
    if l == [] {
      assert s[2..] == rest;
    } else {
      assert s[0] == l[0] && l[0] != CR;
      assert s[1..] == l[1..] + CRLF + rest;
      SplitConcat(l[1..], rest);
      assert [l[0]] + l[1..] == l;
    }
  }

  /** Splitting at CRLF undoes joining with CRLF, for lines without CR. */
  lemma {:induction false} SplitJoin(ls: seq<seq<byte>>)
    requires |ls| >= 1
    requires forall i :: 0 <= i < |ls| ==> NoByte(ls[i], CR)
    ensures SplitCRLF(JoinCRLF(ls)) == ls
    decreases |ls|
  {
    if |ls| == 1 {
      SplitNoCR(ls[0]);
    } else {
      SplitConcat(ls[0], JoinCRLF(ls[1..]));
      SplitJoin(ls[1..]);
    }
  }

  /** Joining `k` lines without CR or LF puts exactly k - 1 CR and k - 1 LF
      bytes into the result. */
  lemma {:induction false} JoinCounts(ls: seq<seq<byte>>)
    requires |ls| >= 1
    requires forall i :: 0 <= i < |ls| ==> NoByte(ls[i], CR) && NoByte(ls[i], LF)
    ensures Count(JoinCRLF(ls), CR) == |ls| - 1
    ensures Count(JoinCRLF(ls), LF) == |ls| - 1
    decreases |ls|
  {
    CountAbsent(ls[0], CR);
    CountAbsent(ls[0], LF);
    if |ls| > 1 {
      JoinCounts(ls[1..]);
      CountAppend(ls[0] + CRLF, JoinCRLF(ls[1..]), CR);
      CountAppend(ls[0] + CRLF, JoinCRLF(ls[1..]), LF);
      CountAppend(ls[0], CRLF, CR);
      CountAppend(ls[0], CRLF, LF);
      CountCRLF();
    }
  }

  /** The welcome row is centred text cut to the screen width: a left margin
      of exactly Padding(cols) columns (a `~` and then spaces, when there is
      any), the first min(28, cols) bytes of the welcome text, and a right
      margin that is as wide as the left one or one column wider. */
  lemma BannerLayout(cols: Dimension)
    ensures WelcomeLen(cols) == if cols < 28 then cols else 28
    ensures var b := Banner(cols); var pad := Padding(cols);
      |b| == pad + WelcomeLen(cols) &&
      b[pad..] == WELCOME[..WelcomeLen(cols)] &&
      (pad != 0 ==> b[0] == '~' as int) &&
      (forall i :: 1 <= i < pad ==> b[i] == ' ' as int) &&
      |b| <= cols &&
      (cols - |b| == pad || cols - |b| == pad + 1)
  {
    assert |WELCOME| == 28;
  }

  /** Every line of the screen is free of control bytes below ESC. */
  lemma ScreenLinesNoControl(rows: Dimension, cols: Dimension)
    ensures forall i :: 0 <= i < rows ==>
      NoByte(ScreenLines(rows, cols)[i], CR) && NoByte(ScreenLines(rows, cols)[i], LF)
  {
    var text := "Kilo editor -- version 0.0.1";
    assert forall k :: 0 <= k < |text| ==> ' ' <= text[k] <= '~';
    assert NoControl(WELCOME);
    assert NoControl(Banner(cols));
    assert NoControl(ERASE_LINE);
    forall i | 0 <= i < rows
      ensures NoControl(ScreenLines(rows, cols)[i])
    {
      assert NoControl(RowText(rows, cols, i));
    }
  }

  /** What editorDrawRows has appended after `n` iterations is the first `n`
      lines joined by CRLF, followed by one more CRLF unless the last row has
      been drawn. */
  lemma {:induction false} DrawnRowsAreLines(rows: Dimension, cols: Dimension, n: nat)
    requires 1 <= n <= rows
    ensures DrawnRows(rows, cols, n) ==
      JoinCRLF(ScreenLines(rows, cols)[..n]) + (if n < rows then CRLF else [])
  {
    var ls := ScreenLines(rows, cols);
    var sep: seq<byte> := if n < rows then CRLF else [];
    DrawnRowsLine(rows, cols, n);
    if n == 1 {
      assert ls[..1] == [ls[0]];
    } else {
      DrawnRowsAreLines(rows, cols, n - 1);
      assert ls[..n] == ls[..n - 1] + [ls[n - 1]];
      JoinExtend(ls[..n - 1], ls[n - 1], sep);
    }
  }

  /** Row `n - 1` adds its screen line and, unless it is the last row, CRLF. */
  lemma DrawnRowsLine(rows: Dimension, cols: Dimension, n: nat)
    requires 1 <= n <= rows
    ensures DrawnRows(rows, cols, n) == DrawnRows(rows, cols, n - 1)
      + ScreenLines(rows, cols)[n - 1] + (if n < rows then CRLF else [])
  {
    DrawnRowsStep(rows, cols, n - 1);
  }

  /** All rows drawn: the lines joined by CRLF. */
  lemma DrawnRowsJoined(rows: Dimension, cols: Dimension)
    ensures DrawnRows(rows, cols, rows) == JoinCRLF(ScreenLines(rows, cols))
  {
    var ls := ScreenLines(rows, cols);
    DrawnRowsAreLines(rows, cols, rows);
    assert ls[..rows] == ls;
  }

  /** The rows of a frame: split at CRLF they are exactly the screenrows
      lines, each ending with the erase-line escape, the banner on row
      rows / 3 and a single `~` on every other row; they hold exactly
      rows - 1 CR and rows - 1 LF bytes, all in the separators. */
  lemma FrameRows(rows: Dimension, cols: Dimension)
    ensures var body := DrawnRows(rows, cols, rows);
      body == JoinCRLF(ScreenLines(rows, cols)) &&
      SplitCRLF(body) == ScreenLines(rows, cols) &&
      Count(body, CR) == rows - 1 && Count(body, LF) == rows - 1
    ensures var pieces := SplitCRLF(DrawnRows(rows, cols, rows));
      |pieces| == rows &&
      forall i :: 0 <= i < rows ==>
        pieces[i] == (if i == rows / 3 then Banner(cols) else TILDE) + ERASE_LINE
  {
    var ls := ScreenLines(rows, cols);
    DrawnRowsJoined(rows, cols);
    ScreenLinesNoControl(rows, cols);
    SplitJoin(ls);
    JoinCounts(ls);
  }

  /** A frame hides the cursor and homes it, draws the rows as lines joined
      by CRLF, places the cursor at the 1-based position (y + 1, x + 1), and
      shows the cursor again. */
  lemma FrameLayout(rows: Dimension, cols: Dimension, p: Pos)
    ensures Frame(rows, cols, p) ==
      HIDE_CURSOR + CURSOR_HOME + JoinCRLF(ScreenLines(rows, cols))
      + CursorEscape(p.y + 1, p.x + 1) + SHOW_CURSOR
  {
    var drawn, joined := DrawnRows(rows, cols, rows), JoinCRLF(ScreenLines(rows, cols));
    DrawnRowsJoined(rows, cols);
    assert drawn == joined;
    assert Frame(rows, cols, p) == HIDE_CURSOR + CURSOR_HOME + drawn
      + CursorEscape(p.y + 1, p.x + 1) + SHOW_CURSOR;
  }

  /** The cursor escape carries the row and the column as canonical
      decimal numbers that read back as the values given. */
  /** For an on-screen cursor the frame's cursor escape holds a 1-based row
      within 1..rows and a 1-based column within 1..cols. */
  lemma FrameCursorOnScreen(rows: Dimension, cols: Dimension, p: Pos)
    requires OnScreen(rows, cols, p)
    ensures var r := Decimal(p.y + 1); var c := Decimal(p.x + 1);
      Frame(rows, cols, p) == HIDE_CURSOR + CURSOR_HOME + DrawnRows(rows, cols, rows)
        + ([ESC, '[' as int] + r + [';' as int] + c + ['H' as int]) + SHOW_CURSOR &&
      AllDigits(r) && 1 <= DigitsValue(r) <= rows &&
      AllDigits(c) && 1 <= DigitsValue(c) <= cols
  {
    CursorEscapeFields(p.y + 1, p.x + 1);
  }

  lemma CursorEscapeFields(row: nat, col: nat)
    ensures var r := Decimal(row); var c := Decimal(col);
      CursorEscape(row, col) == [ESC, '[' as int] + r + [';' as int] + c + ['H' as int] &&
      AllDigits(r) && DigitsValue(r) == row &&
      AllDigits(c) && DigitsValue(c) == col
  {
    NatDecimalValue(row);
    NatDecimalValue(col);
  }
}
