/** The cursor state machine of editorMoveCursor and editorProcesssKeypress,
    as functions of the screen size, the cursor position and the key. */
module Cursor {
  import opened Bytes
  import opened KeyDecoder

  /** A screen dimension; the terminal reports at least one row and column. */
  type Dimension = n: int | 1 <= n witness 1

  /** The cursor: column `x` (E.curx) and row `y` (E.cury), both from 0. */
  datatype Pos = Pos(x: int, y: int)

  predicate OnScreen(rows: Dimension, cols: Dimension, p: Pos) {
    0 <= p.x < cols && 0 <= p.y < rows
  }

  /** The key that quits the editor, Ctrl-Q. */
  const QUIT_KEY := CtrlKey('q' as int)

  /** Only the single byte 0x11 quits: no escape sequence decodes to Ctrl-Q. */
  lemma QuitOnlyFromByte(input: seq<byte>)
    ensures ReadKey(input).key == QUIT_KEY <==> input != [] && input[0] == 0x11
    ensures ReadKey(input).key == QUIT_KEY ==> ReadKey(input).consumed == 1
  {
  }

  /** One editorMoveCursor step. Down and right stop at the last row/column
      by an inequality test (`!=`), so only an on-screen cursor is kept on
      screen. */
  function Move(rows: Dimension, cols: Dimension, p: Pos, c: int): (q: Pos)
    ensures OnScreen(rows, cols, p) ==> OnScreen(rows, cols, q)
    ensures q.x == p.x || q.y == p.y
  {
    if c == ARROW_UP then (if p.y != 0 then p.(y := p.y - 1) else p)
    else if c == ARROW_DOWN then (if p.y != rows - 1 then p.(y := p.y + 1) else p)
    else if c == ARROW_LEFT then (if p.x != 0 then p.(x := p.x - 1) else p)
    else if c == ARROW_RIGHT then (if p.x != cols - 1 then p.(x := p.x + 1) else p)
    else p
  }

  /** `n` successive steps with the same key, as the paging loop does. */
  function Repeat(rows: Dimension, cols: Dimension, p: Pos, c: int, n: nat): (q: Pos)
    ensures OnScreen(rows, cols, p) ==> OnScreen(rows, cols, q)
    ensures (c == ARROW_UP || c == ARROW_DOWN) ==> q.x == p.x
  {
    if n == 0 then p else Move(rows, cols, Repeat(rows, cols, p, c, n - 1), c)
  }

  /** What one keypress does: quit, or go on with a new cursor. */
  datatype Outcome = Quit | Continue(pos: Pos)

  /** The switch of editorProcesssKeypress. PAGE_UP and PAGE_DOWN run the
      paging loop and then fall through into `editorMoveCursor(c)` with `c`
      still the paging key. */
  function Keypress(rows: Dimension, cols: Dimension, p: Pos, c: int): (o: Outcome)
    ensures o == Quit <==> c == QUIT_KEY
    ensures o.Continue? && OnScreen(rows, cols, p) ==> OnScreen(rows, cols, o.pos)
  {
    if c == QUIT_KEY then Quit
    else if c == HOME_KEY then Continue(p.(x := 0))
    else if c == END_KEY then Continue(p.(x := cols - 1))
    else if c == PAGE_UP || c == PAGE_DOWN then
      var dir := if c == PAGE_UP then ARROW_UP else ARROW_DOWN;
      Continue(Move(rows, cols, Repeat(rows, cols, p, dir, rows), c))
    else if c == ARROW_UP || c == ARROW_DOWN || c == ARROW_LEFT || c == ARROW_RIGHT then
      Continue(Move(rows, cols, p, c))
    else Continue(p)
  }

  /** On screen, each arrow moves one cell in its direction unless the cursor
      is at that edge, and changes only its own coordinate; no other key
      moves the cursor. */
  lemma MoveOnScreen(rows: Dimension, cols: Dimension, p: Pos, c: int)
    requires OnScreen(rows, cols, p)
    ensures var q := Move(rows, cols, p, c);
      (c == ARROW_UP ==> q == Pos(p.x, if p.y > 0 then p.y - 1 else 0)) &&
      (c == ARROW_DOWN ==> q == Pos(p.x, if p.y < rows - 1 then p.y + 1 else rows - 1)) &&
      (c == ARROW_LEFT ==> q == Pos(if p.x > 0 then p.x - 1 else 0, p.y)) &&
      (c == ARROW_RIGHT ==> q == Pos(if p.x < cols - 1 then p.x + 1 else cols - 1, p.y)) &&
      (c !in {ARROW_UP, ARROW_DOWN, ARROW_LEFT, ARROW_RIGHT} ==> q == p)
  {
  }

  /** `n` upward steps from an on-screen cursor end at row max(y - n, 0). */
  lemma {:induction false} RepeatUp(rows: Dimension, cols: Dimension, p: Pos, n: nat)
    requires OnScreen(rows, cols, p)
    ensures Repeat(rows, cols, p, ARROW_UP, n) == Pos(p.x, if p.y > n then p.y - n else 0)
  {
    if n > 0 {
      RepeatUp(rows, cols, p, n - 1);
    }
  }

  /** `n` downward steps from an on-screen cursor end at row
      min(y + n, rows - 1). */
  lemma {:induction false} RepeatDown(rows: Dimension, cols: Dimension, p: Pos, n: nat)
    requires OnScreen(rows, cols, p)
    ensures Repeat(rows, cols, p, ARROW_DOWN, n) ==
      Pos(p.x, if p.y + n < rows - 1 then p.y + n else rows - 1)
  {
    if n > 0 {
      RepeatDown(rows, cols, p, n - 1);
    }
  }

  /** The fallthrough after the paging loop hands the paging key itself to
      editorMoveCursor, which has no case for it: the extra step moves
      nothing. */
  lemma PagingFallthroughIsNoop(rows: Dimension, cols: Dimension, p: Pos)
    ensures Move(rows, cols, p, PAGE_UP) == p
    ensures Move(rows, cols, p, PAGE_DOWN) == p
  {
  }

  /** Page Up takes an on-screen cursor to the top row, Page Down to the
      bottom row; the column stays. */
  lemma Paging(rows: Dimension, cols: Dimension, p: Pos)
    requires OnScreen(rows, cols, p)
    ensures Keypress(rows, cols, p, PAGE_UP) == Continue(Pos(p.x, 0))
    ensures Keypress(rows, cols, p, PAGE_DOWN) == Continue(Pos(p.x, rows - 1))
  {
    RepeatUp(rows, cols, p, rows);
    RepeatDown(rows, cols, p, rows);
  }

  /** Home and End move to the first and last column on the same row; arrows
      make one step; every other key but Ctrl-Q leaves the cursor alone. */
  lemma OtherKeys(rows: Dimension, cols: Dimension, p: Pos, c: int)
    requires c != PAGE_UP && c != PAGE_DOWN && c != QUIT_KEY
    ensures c == HOME_KEY ==> Keypress(rows, cols, p, c) == Continue(Pos(0, p.y))
    ensures c == END_KEY ==> Keypress(rows, cols, p, c) == Continue(Pos(cols - 1, p.y))
    ensures c != HOME_KEY && c != END_KEY ==>
      Keypress(rows, cols, p, c) == Continue(Move(rows, cols, p, c))
  {
  }
}
