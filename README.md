# kilo (tutorial stage): key decoding, cursor movement and frame composition

This project is a Dafny model of the early tutorial stage of the kilo terminal
editor, `kilo.c`. At this stage the editor has no text buffer. It shows a
screen of `~` filler lines with a centred welcome banner, and it moves a
cursor around that screen. The model covers four pieces of `kilo.c`:

- **Key decoder** (`KeyDecoder`, editorReadKey). It turns the bytes
  available on the terminal into one logical key: a raw byte, or one of
  ARROW_UP..DEL_KEY (1000..1008). It recognises the ECMA-48 CSI sequences
  `ESC [ A/B/C/D/H/F`, the SS3 sequences `ESC O H/F` and the VT220
  editing-key form `ESC [ <digit> ~`. A truncated or unknown sequence comes
  back as a bare ESC. The terminal is modelled as an input `seq<byte>`, and
  a read past its end is a short read (the raw-mode read timed out). The
  decoder is a function from the input to the key and the number of bytes
  its reads consumed.
- **Cursor state machine** (`Cursor` for the specification, `Kilo.Editor`
  for the methods). These are editorMoveCursor and editorProcesssKeypress.
  They update `curx`/`cury` in place, including the `while(times--)` paging
  loop.
- **Append buffer** (`AppendBuffer.ABuf`, `struct abuf`). Its storage array
  is reallocated to exactly the new length on every append, and it is
  released by `abFree`.
- **Frame composer** (`Screen` for the specification, `Kilo.Editor.DrawRows`
  and `Kilo.Editor.RefreshScreen` for the methods). These are
  editorDrawRows and editorRefreshScreen. They build the frame by successive
  appends, which the model returns as bytes instead of writing them.
  `Screen` proves the frame's shape: the hide-cursor and home escapes come
  first. Then come exactly `screenrows` lines, each ending in the erase-line
  escape, with `screenrows - 1` CRLF separators between them. The banner is
  on row `screenrows / 3`. Last come the cursor-position escape and the
  show-cursor escape.

`bytes.dfy` holds the byte type and a few byte-level facts. CharValue gives
the value of a C `char`, which is signed on the x86-64 Linux ABI. Decimal is
the `%d` rendering of `snprintf`, together with its parser and round trip.

Two behaviours of `kilo.c` worth noting:

- **No paging extra step.** After the paging loop, the PAGE_UP/PAGE_DOWN
  case falls through to `editorMoveCursor(c)` (kilo.c:265-277). There `c`
  is still PAGE_UP or PAGE_DOWN, and editorMoveCursor has no case for
  those, so the fall-through moves nothing. Paging takes exactly
  `screenrows` steps (`Cursor.PagingFallthroughIsNoop`). From an on-screen
  cursor that reaches the top or bottom row, with the column unchanged
  (`Cursor.Paging`).
- **No text features.** There is no row buffer, tab expansion, scrolling,
  status bar or message bar. `curx`/`cury` are clamped to the screen
  rectangle itself: ARROW_DOWN/ARROW_RIGHT stop at `screenrows - 1` /
  `screencols - 1` through a `!=` test, and END sets `curx` to
  `screencols - 1`.

## Model

| member | source | states |
|---|---|---|
| `Bytes.CharValue` | kilo.c:99-148 | The key returned for a plain byte is the byte read into a signed `char` and widened back to `int`: it lies in -128..127, is congruent to the byte mod 256, and equals it below 128 |
| `Bytes.DecimalRoundTrip` | kilo.c:225 | What `%d` writes for any int is a sign and digits that read back as that int |
| `Bytes.DecimalCanonical` | kilo.c:225 | `%d` of a non-negative number is all digits, with no leading zero, and is "0" exactly for 0 |
| `KeyDecoder.CtrlKey` | kilo.c:12 | CTRL_KEY(k) is the bitwise AND `k & 0x1f`, computed bit by bit (`BitAnd`). It equals `k mod 32`, always a control code below 32 |
| `KeyDecoder.MaskLowFive` | kilo.c:12 | Masking any natural with 0x1f bit by bit keeps exactly its remainder mod 32 |
| `KeyDecoder.ReadKey` | kilo.c:98-149 | One decode never consumes more than the input, never more than 4 bytes, and consumes nothing exactly when no byte is available |
| `KeyDecoder.PlainByte` | kilo.c:99-103 | With no byte available the key is 0 and nothing is consumed; a byte other than ESC is returned as its `char` value after a single read (kilo.c:148) |
| `KeyDecoder.ShortEscape` | kilo.c:106-107 | ESC followed by fewer than two available bytes is a bare ESC, having consumed what was there |
| `KeyDecoder.ThreeByteEscape` | kilo.c:106-145 | An ESC with at least two more bytes available, other than `ESC [ <digit>`, consumes exactly 3 bytes, whether or not a key matches: the third byte of an unknown sequence is read and discarded |
| `KeyDecoder.TruncatedTilde` | kilo.c:110-114 | `ESC [ <digit>` with no fourth byte, or a fourth byte other than `~`, is a bare ESC after 3 or 4 bytes |
| `KeyDecoder.TildeSequence` | kilo.c:116-124 | `ESC [ d ~` consumes 4 bytes: 1 and 7 give HOME, 3 gives DEL, 4 and 8 give END, 5 gives PAGE_UP, 6 gives PAGE_DOWN, and 0, 2, 9 fall through to ESC (kilo.c:145) |
| `KeyDecoder.TableDecodes` | kilo.c:109-143 | Each of the 15 recognised sequences (CSI letters, SS3 H/F, VT220 tilde keys) decodes to its key whatever follows it, consuming exactly its own bytes |
| `KeyDecoder.SpecialKeyIffTabled` | kilo.c:103-145 | The decoder returns a logical key (1000..1008) if and only if the consumed bytes are one of the recognised sequences, and then it returns that sequence's key |
| `KeyDecoder.UnknownIsEscape` | kilo.c:145 | Every unrecognised escape sequence degrades to a bare ESC and is never an error |
| `Cursor.Move` | kilo.c:234-249 | One editorMoveCursor step keeps an on-screen cursor on screen and changes at most one coordinate |
| `Cursor.MoveOnScreen` | kilo.c:234-249 | On screen: UP/DOWN move `cury` by one toward the top/bottom edge and stop there, LEFT/RIGHT do the same for `curx` only, and any other code leaves the cursor alone |
| `Cursor.Repeat` | kilo.c:268-270 | Repeated vertical steps keep an on-screen cursor on screen and never change `curx` |
| `Cursor.RepeatUp` | kilo.c:265-270 | `n` upward steps from an on-screen cursor end on row `max(cury - n, 0)` with `curx` unchanged |
| `Cursor.RepeatDown` | kilo.c:265-270 | `n` downward steps end on row `min(cury + n, screenrows - 1)` with `curx` unchanged |
| `Cursor.QuitOnlyFromByte` | kilo.c:252-255 | The key read is Ctrl-Q exactly when the next input byte is 0x11, and then one byte is consumed: no escape sequence can quit |
| `Cursor.Keypress` | kilo.c:251-279 | A keypress quits exactly for Ctrl-Q; otherwise it keeps an on-screen cursor on screen |
| `Cursor.PagingFallthroughIsNoop` | kilo.c:265-277 | The fall-through after the paging loop passes PAGE_UP/PAGE_DOWN to editorMoveCursor, which leaves the cursor unchanged |
| `Cursor.Paging` | kilo.c:265-277 | From an on-screen cursor PAGE_UP ends with `cury == 0` and PAGE_DOWN with `cury == screenrows - 1`, with `curx` unchanged |
| `Cursor.OtherKeys` | kilo.c:258-279 | HOME sets `curx = 0` and END sets `curx = screencols - 1`, both keeping the row; every other non-quit, non-paging key does one editorMoveCursor step |
| `AppendBuffer.ABuf.Contents` | kilo.c:38-42 | The buffer's bytes number exactly `len` |
| `AppendBuffer.ABuf.constructor` | kilo.c:44 | ABUF_INIT: no storage, length 0, no bytes |
| `AppendBuffer.ABuf.Append` | kilo.c:46-52 | The storage is a fresh array, the contents are the old contents followed by `s[0..len)`, and `ab.len` grows by `len` |
| `AppendBuffer.ABuf.Free` | kilo.c:54-60 | The storage is released, and the buffer is empty with length 0 |
| `Screen.EscapeLengths` | kilo.c:201-228 | The length arguments editorDrawRows and editorRefreshScreen pass with the fixed escapes, CRLF, `~`, the space and the 28-byte welcome text match those byte strings |
| `Screen.BannerLayout` | kilo.c:194-206 | The welcome text is cut to `min(28, screencols)` bytes. It is preceded by a margin of exactly `(screencols - welcomelen) / 2` columns, which starts with `~` and continues with spaces when non-zero. The whole line fits the width, and the right margin equals the left margin or is one column wider |
| `Screen.ScreenLinesNoControl` | kilo.c:201-210 | No screen line contains a CR or LF byte |
| `Screen.DrawnRowsAreLines` | kilo.c:193-213 | After `n` iterations editorDrawRows has appended the first `n` lines joined by CRLF, plus a trailing CRLF unless the last row is done |
| `Screen.DrawnRowsJoined` | kilo.c:193-213 | Everything editorDrawRows appends is the `screenrows` lines joined by CRLF |
| `Screen.FrameRows` | kilo.c:192-213 | The drawn rows split at CRLF give back exactly the `screenrows` lines. There are exactly `screenrows` pieces, and each ends with `ESC [ K`: the banner on row `screenrows / 3`, a single `~` on every other row. The bytes contain exactly `screenrows - 1` CR and `screenrows - 1` LF |
| `Screen.FrameLayout` | kilo.c:216-228 | The frame is the hide-cursor escape, the home escape, the joined lines, the cursor-position escape for `(cury + 1, curx + 1)`, then the show-cursor escape |
| `Screen.FrameCursorOnScreen` | kilo.c:216-228 | For an on-screen cursor the frame ends with `ESC [ row ; col H` and the show-cursor escape. The row field reads back as a value in 1..screenrows and the column field as a value in 1..screencols |
| `Screen.CursorEscapeFields` | kilo.c:224-226 | The cursor escape is `ESC [ row ; col H` with both fields plain decimal digits whose values are the given row and column |
| `Kilo.Editor.constructor` | kilo.c:184-189 | initEditor puts the cursor at (0, 0) on a screen of the given size, so the cursor starts on screen |
| `Kilo.Editor.MoveCursor` | kilo.c:234-249 | The new cursor is `Cursor.Move` of the old one, and an on-screen cursor stays on screen |
| `Kilo.Editor.ProcessKeypress` | kilo.c:251-279 | The method decodes one key from the input and reports the bytes consumed. Ctrl-Q yields quit with the cursor untouched. Any other key leaves the cursor where `Cursor.Keypress` puts it, and the paging loop's invariant is that `screenrows - times` steps have been taken |
| `Kilo.Editor.DrawRows` | kilo.c:192-214 | The buffer gains exactly the bytes of all `screenrows` rows, in order, after its old contents |
| `Kilo.Editor.DrawWelcome` | kilo.c:194-206 | The welcome row's appends, `~`, the `while(padding--)` spaces and the cut text, add exactly the banner line |
| `Kilo.Editor.RefreshScreen` | kilo.c:216-231 | The frame assembled in the append buffer, before it would be written, is `Screen.Frame` of the screen size and the current cursor |

## Left out

- Raw mode: enableRawMode and disableRawMode (kilo.c:76-96) only make termios system calls.
- die (kilo.c:63-74): it writes clear-screen and home escapes and exits the process. Ctrl-Q is modelled as a `quit` result that leaves the state unchanged; the bytes die writes are not modelled.
- Read errors: the `die("read")` path of editorReadKey (kilo.c:101), taken when a read fails with anything but EAGAIN, is a process exit and is not modelled. A failed read is indistinguishable here from the end of the input.
- Read timing: a short read is the end of the input sequence. Bytes that arrive only after a timeout, splitting one sequence over two calls, are not modelled.
- Terminal size: getWindowSize and getCursorPosition (kilo.c:151-182) use ioctl, a terminal round trip and sscanf. The size is a constructor parameter of `Dimension` type, at least 1 by 1.
- Zero rows: the source does not guarantee `screenrows >= 1`. kilo.c:173 rejects only `ws_col == 0`, so an ioctl reporting `ws_row == 0` is accepted. With `screenrows == 0`, the `!=` test at kilo.c:240 never stops ARROW_DOWN, and `cury` grows without bound. The `Dimension` subtype excludes this case, so the model says nothing about a zero-row terminal.
- Output: the final `write(STDOUT_FILENO, ...)` (kilo.c:230) is not modelled. RefreshScreen returns the frame instead.
- Allocation failure: a failed realloc (kilo.c:47, unchecked in the source) is not modelled. Append always gets its fresh array.
- The main loop (kilo.c:281-289) is only a driver. One iteration is RefreshScreen followed by ProcessKeypress.
- snprintf: the welcome text is the constant `"Kilo editor -- version 0.0.1"`, the expansion of `KILO_VERSION`. With these values neither the 80-byte welcome buffer nor the 32-byte cursor buffer can truncate, so truncation is not modelled.
- Kilo.Editor.MoveCursor: `curx`/`cury` are unbounded integers. The 32-bit `int` overflow that ARROW_DOWN/ARROW_RIGHT could reach from a far off-screen cursor is not modelled, because every reachable cursor is on screen.
- Bytes.CharValue: assumes a signed `char`, as on the x86-64 Linux ABI. Where `char` is unsigned, bytes 128..255 would come back as 128..255.
