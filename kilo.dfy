/** The editor state (struct editorConfig E) and the procedures of kilo.c that
    update it step by step or append to an output buffer. */
module Kilo {
  import opened Bytes
  import opened KeyDecoder
  import opened Cursor
  import opened AppendBuffer
  import opened Screen

  class Editor {
    const screenrows: Dimension
    const screencols: Dimension
    var curx: int
    var cury: int

    /** The cursor is inside the screen rectangle. */
    ghost predicate Valid()
      reads this
    {
      OnScreen(screenrows, screencols, Pos(curx, cury))
    }

    /** initEditor, with the window size given instead of queried. */
    constructor (rows: Dimension, cols: Dimension)
      ensures screenrows == rows && screencols == cols
      ensures curx == 0 && cury == 0
      ensures Valid()
    {
      screenrows, screencols := rows, cols;
      curx, cury := 0, 0;
    }

    /** editorMoveCursor. */
    method MoveCursor(c: int)
      modifies this
      ensures Pos(curx, cury) == Move(screenrows, screencols, old(Pos(curx, cury)), c)
      ensures old(Valid()) ==> Valid()
    {
      if c == ARROW_UP {
        if cury != 0 { cury := cury - 1; }
      } else if c == ARROW_DOWN {
        if cury != screenrows - 1 { cury := cury + 1; }
      } else if c == ARROW_LEFT {
        if curx != 0 { curx := curx - 1; }
      } else if c == ARROW_RIGHT {
        if curx != screencols - 1 { curx := curx + 1; }
      }
    }

    /** editorProcesssKeypress: read one key from `input`, then act on it.
        `consumed` is how many input bytes the read took; `quit` is the
        Ctrl-Q exit, which leaves the cursor where it was. */
    method ProcessKeypress(input: seq<byte>) returns (consumed: nat, quit: bool)
      modifies this
      ensures consumed == ReadKey(input).consumed
      ensures var o := Keypress(screenrows, screencols, old(Pos(curx, cury)), ReadKey(input).key);
        quit == o.Quit? &&
        (quit ==> curx == old(curx) && cury == old(cury)) &&
        (!quit ==> Pos(curx, cury) == o.pos)
      ensures old(Valid()) && !quit ==> Valid()
    {
      var r := ReadKey(input);
      var c := r.key;
      consumed := r.consumed;
      quit := false;
      if c == QUIT_KEY {
        quit := true;
      } else if c == HOME_KEY {
        curx := 0;
      } else if c == END_KEY {
        curx := screencols - 1;
      } else if c == PAGE_UP || c == PAGE_DOWN {
        var dir := if c == PAGE_UP then ARROW_UP else ARROW_DOWN;
        ghost var start := Pos(curx, cury);
        var times := screenrows;
        while times != 0
          invariant 0 <= times <= screenrows
          invariant Pos(curx, cury) == Repeat(screenrows, screencols, start, dir, screenrows - times)
        {
          times := times - 1;
          MoveCursor(dir);
        }
        // the case falls through into the arrow keys with `c` unchanged
        MoveCursor(c);
      } else if c == ARROW_UP || c == ARROW_DOWN || c == ARROW_LEFT || c == ARROW_RIGHT {
        MoveCursor(c);
      }
    }

    /** editorDrawRows: append every screen row to `ab`. */
    method DrawRows(ab: ABuf)
      requires ab.Valid()
      modifies ab
      ensures ab.Valid()
      ensures ab.Contents() == old(ab.Contents()) + DrawnRows(screenrows, screencols, screenrows)
    {
      EscapeLengths();
      ghost var start := ab.Contents();
      var i := 0;
      while i < screenrows
        invariant 0 <= i <= screenrows
        invariant ab.Valid()
        invariant ab.Contents() == start + DrawnRows(screenrows, screencols, i)
      {
        ghost var before := ab.Contents();
        if i == screenrows / 3 {
          DrawWelcome(ab);
        } else {
          ab.Append(TILDE, 1);
        }
        ghost var text := RowText(screenrows, screencols, i);
        assert ab.Contents() == before + text;
        ab.Append(ERASE_LINE, 3);
        ghost var line := ab.Contents();
        assert line == before + (text + ERASE_LINE);
        ghost var sep: seq<byte> := if i != screenrows - 1 then CRLF else [];
        if i != screenrows - 1 {
          ab.Append(CRLF, 2);
        }
        assert ab.Contents() == line + sep;
        DrawnRowsStep(screenrows, screencols, i);
        ghost var drawn := DrawnRows(screenrows, screencols, i);
        assert before == start + drawn;
        AppendAssoc(start, drawn, text + ERASE_LINE, sep);
        i := i + 1;
      }
    }

    /** The welcome row of editorDrawRows: the padding and the welcome text
        cut to the screen width. */
    method DrawWelcome(ab: ABuf)
      requires ab.Valid()
      modifies ab
      ensures ab.Valid()
      ensures ab.Contents() == old(ab.Contents()) + Banner(screencols)
    {
      EscapeLengths();
      ghost var before := ab.Contents();
      var welcomelen := |WELCOME|;
      if welcomelen > screencols { welcomelen := screencols; }
      var padding := (screencols - welcomelen) / 2;
      assert welcomelen == WelcomeLen(screencols) && padding == Padding(screencols);
      ghost var lead: seq<byte> := [];
      if padding != 0 {
        ab.Append(TILDE, 1);
        padding := padding - 1;
        lead := TILDE;
      }
      ghost var margin, spaces := ab.Contents(), padding;
      assert margin == before + lead;
      // while(padding--)
      while padding != 0
        invariant 0 <= padding <= spaces
        invariant ab.Valid()
        invariant ab.Contents() == margin + Spaces(spaces - padding)
      {
        padding := padding - 1;
        ab.Append(SPACE, 1);
        SpacesSnoc(spaces - padding - 1);
      }
      BannerSplit(screencols);
      assert Banner(screencols) == lead + Spaces(spaces) + WELCOME[..welcomelen];
      ab.Append(WELCOME, welcomelen);
      AppendAssoc(before, lead, Spaces(spaces), WELCOME[..welcomelen]);
    }

    /** editorRefreshScreen up to the final write: the frame it sends. */
    method RefreshScreen() returns (frame: seq<byte>)
      ensures frame == Frame(screenrows, screencols, Pos(curx, cury))
    {
      EscapeLengths();
      var ab := new ABuf();
      ab.Append(HIDE_CURSOR, 6);
      ab.Append(CURSOR_HOME, 3);
      ghost var top := ab.Contents();
      assert top == HIDE_CURSOR + CURSOR_HOME;
      DrawRows(ab);
      ghost var rowsDrawn := DrawnRows(screenrows, screencols, screenrows);
      assert ab.Contents() == top + rowsDrawn;
      ghost var body := ab.Contents();
      var cursorBuf := CursorEscape(cury + 1, curx + 1);
      ab.Append(cursorBuf, |cursorBuf|);
      assert ab.Contents() == body + cursorBuf;
      ab.Append(SHOW_CURSOR, 6);
      frame := ab.Contents();
      assert frame == body + cursorBuf + SHOW_CURSOR;
      ab.Free();
    }
  }
}
