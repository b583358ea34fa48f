/** editorReadKey: turns the bytes available on the terminal into one
    logical key. The terminal is an input sequence; reading past its end is a
    short read (the raw-mode read timeout expired), which is never an error. */
module KeyDecoder {
  import opened Bytes

  // The logical keys beyond the byte range (enum editorKey).
  const ARROW_UP := 1000
  const ARROW_LEFT := 1001
  const ARROW_DOWN := 1002
  const ARROW_RIGHT := 1003
  const PAGE_UP := 1004
  const PAGE_DOWN := 1005
  const HOME_KEY := 1006
  const END_KEY := 1007
  const DEL_KEY := 1008

  predicate IsSpecialKey(k: int) {
    ARROW_UP <= k <= DEL_KEY
  }

  /** Bitwise AND of two naturals, one bit at a time from the lowest. */
  function BitAnd(a: nat, b: nat): nat {
    if a == 0 || b == 0 then 0
    else 2 * BitAnd(a / 2, b / 2) + (if a % 2 == 1 && b % 2 == 1 then 1 else 0)
  }

  /** An odd mask keeps the lowest bit and masks the rest with m / 2. */
  lemma OddMaskStep(a: nat, m: nat)
    requires m % 2 == 1
    ensures BitAnd(a, m) == 2 * BitAnd(a / 2, m / 2) + a % 2
  {
  }

  lemma ModHalf4(a: nat)
    ensures a % 4 == 2 * ((a / 2) % 2) + a % 2
  {
  }

  lemma ModHalf8(a: nat)
    ensures a % 8 == 2 * ((a / 2) % 4) + a % 2
  {
  }

  lemma ModHalf16(a: nat)
    ensures a % 16 == 2 * ((a / 2) % 8) + a % 2
  {
  }

  lemma ModHalf32(a: nat)
    ensures a % 32 == 2 * ((a / 2) % 16) + a % 2
  {
  }

  /** Masking with 0x1f keeps the five low bits: the remainder mod 32. */
  lemma MaskLowFive(a: nat)
    ensures BitAnd(a, 0x1f) == a % 32
  {
    var a1, a2, a3, a4 := a / 2, a / 2 / 2, a / 2 / 2 / 2, a / 2 / 2 / 2 / 2;
    OddMaskStep(a4, 0x1);
    assert BitAnd(a4 / 2, 0) == 0;
    OddMaskStep(a3, 0x3);
    ModHalf4(a3);
    OddMaskStep(a2, 0x7);
    ModHalf8(a2);
    OddMaskStep(a1, 0xf);
    ModHalf16(a1);
    OddMaskStep(a, 0x1f);
    ModHalf32(a);
  }

  /** CTRL_KEY(k): the control code the terminal sends for Ctrl+k,
      `k & 0x1f`. */
  function CtrlKey(k: byte): (c: byte)
    ensures c < 32
    ensures c == k % 32
  {
    MaskLowFive(k);
    BitAnd(k, 0x1f)
  }

  /** One call of editorReadKey: the key it returns and how many bytes of the
      input its reads took. */
  datatype KeyRead = KeyRead(key: int, consumed: nat)

  /** The switch on the digit of `ESC [ <digit> ~`; a digit with no case
      falls past both switches to the final bare ESC. */
  function TildeKey(d: byte): int {
    if d == '1' as int then HOME_KEY
    else if d == '3' as int then DEL_KEY
    else if d == '4' as int then END_KEY
    else if d == '5' as int then PAGE_UP
    else if d == '6' as int then PAGE_DOWN
    else if d == '7' as int then HOME_KEY
    else if d == '8' as int then END_KEY
    else ESC
  }

  /** The switch on the final letter of `ESC [ <letter>`. */
  function BracketKey(l: byte): int {
    if l == 'A' as int then ARROW_UP
    else if l == 'B' as int then ARROW_DOWN
    else if l == 'C' as int then ARROW_RIGHT
    else if l == 'D' as int then ARROW_LEFT
    else if l == 'H' as int then HOME_KEY
    else if l == 'F' as int then END_KEY
    else ESC
  }

  /** The switch on the final letter of `ESC O <letter>`. */
  function SS3Key(l: byte): int {
    if l == 'H' as int then HOME_KEY
    else if l == 'F' as int then END_KEY
    else ESC
  }

  /** The decision tree of editorReadKey over the bytes it reads. */
  function ReadKey(input: seq<byte>): (r: KeyRead)
    ensures r.consumed <= |input| && r.consumed <= 4
    ensures r.consumed == 0 <==> input == []
  {
    if |input| == 0 then KeyRead(0, 0)
    else if input[0] != ESC then KeyRead(CharValue(input[0]), 1)
    else if |input| < 2 then KeyRead(ESC, 1)
    else if |input| < 3 then KeyRead(ESC, 2)
    else if input[1] == '[' as int then
      if IsDigit(input[2]) then
        if |input| < 4 then KeyRead(ESC, 3)
        else if input[3] != '~' as int then KeyRead(ESC, 4)
        else KeyRead(TildeKey(input[2]), 4)
      else KeyRead(BracketKey(input[2]), 3)
    else if input[1] == 'O' as int then KeyRead(SS3Key(input[2]), 3)
    else KeyRead(ESC, 3)
  }

  /** The VT100/xterm (ECMA-48 CSI and SS3) and VT220 editing-key sequences
      the decoder recognises, with the key each one stands for. */
  const ESCAPE_SEQUENCES: map<seq<byte>, int> := map[
    [ESC, '[' as int, 'A' as int] := ARROW_UP,
    [ESC, '[' as int, 'B' as int] := ARROW_DOWN,
    [ESC, '[' as int, 'C' as int] := ARROW_RIGHT,
    [ESC, '[' as int, 'D' as int] := ARROW_LEFT,
    [ESC, '[' as int, 'H' as int] := HOME_KEY,
    [ESC, '[' as int, 'F' as int] := END_KEY,
    [ESC, 'O' as int, 'H' as int] := HOME_KEY,
    [ESC, 'O' as int, 'F' as int] := END_KEY,
    [ESC, '[' as int, '1' as int, '~' as int] := HOME_KEY,
    [ESC, '[' as int, '3' as int, '~' as int] := DEL_KEY,
    [ESC, '[' as int, '4' as int, '~' as int] := END_KEY,
    [ESC, '[' as int, '5' as int, '~' as int] := PAGE_UP,
    [ESC, '[' as int, '6' as int, '~' as int] := PAGE_DOWN,
    [ESC, '[' as int, '7' as int, '~' as int] := HOME_KEY,
    [ESC, '[' as int, '8' as int, '~' as int] := END_KEY
  ]

  /** A byte other than ESC is returned as the `char` it was read into, and
      nothing after it is read; with nothing to read the key is 0. */
  lemma PlainByte(input: seq<byte>)
    ensures input == [] ==> ReadKey(input) == KeyRead(0, 0)
    ensures input != [] && input[0] != ESC ==>
      ReadKey(input) == KeyRead(CharValue(input[0]), 1)
  {
  }

  /** A lone ESC, or ESC with one byte after it, is a bare ESC. */
  lemma ShortEscape(input: seq<byte>)
    requires input != [] && input[0] == ESC && |input| < 3
    ensures ReadKey(input) == KeyRead(ESC, |input|)
  {
  }

  /** `ESC [ <digit>` that is cut short, or whose next byte is not `~`, is a
      bare ESC, and the decoder has read every byte it looked at. */
  lemma TruncatedTilde(input: seq<byte>)
    requires |input| >= 3 && input[0] == ESC && input[1] == '[' as int && IsDigit(input[2])
    requires |input| == 3 || input[3] != '~' as int
    ensures ReadKey(input) == KeyRead(ESC, if |input| == 3 then 3 else 4)
  {
  }

  /** Any other escape with at least two bytes after ESC takes exactly three
      reads: the byte after `[` or `O` (or after an unknown introducer) is
      consumed even when no key matches. */
  lemma ThreeByteEscape(input: seq<byte>)
    requires |input| >= 3 && input[0] == ESC
    requires !(input[1] == '[' as int && IsDigit(input[2]))
    ensures ReadKey(input).consumed == 3
  {
  }

  /** The keys of the `~` form; the digits 0, 2 and 9 have no key. */
  lemma TildeSequence(d: byte, rest: seq<byte>)
    requires IsDigit(d)
    ensures ReadKey([ESC, '[' as int, d, '~' as int] + rest).consumed == 4
    ensures var k := ReadKey([ESC, '[' as int, d, '~' as int] + rest).key;
      (d == '1' as int || d == '7' as int ==> k == HOME_KEY) &&
      (d == '3' as int ==> k == DEL_KEY) &&
      (d == '4' as int || d == '8' as int ==> k == END_KEY) &&
      (d == '5' as int ==> k == PAGE_UP) &&
      (d == '6' as int ==> k == PAGE_DOWN) &&
      (d == '0' as int || d == '2' as int || d == '9' as int ==> k == ESC)
  {
    var s := [ESC, '[' as int, d, '~' as int] + rest;
    assert s[0] == ESC && s[1] == '[' as int && s[2] == d && s[3] == '~' as int;
  }

  /** Every sequence of the table decodes to its key, whatever follows it,
      and the decoder reads exactly that sequence. */
  lemma TableDecodes(s: seq<byte>, rest: seq<byte>)
    requires s in ESCAPE_SEQUENCES
    ensures ReadKey(s + rest) == KeyRead(ESCAPE_SEQUENCES[s], |s|)
  {
    var t := s + rest;
    assert |s| == 3 || |s| == 4;
    assert t[0] == s[0] && t[1] == s[1] && t[2] == s[2];
    assert |s| == 4 ==> t[3] == s[3];
  }

  /** A three-byte read that yields a logical key read a table sequence. */
  lemma ThreeByteKeyIsTabled(input: seq<byte>)
    requires ReadKey(input).consumed == 3 && IsSpecialKey(ReadKey(input).key)
    ensures input[..3] in ESCAPE_SEQUENCES
    ensures ESCAPE_SEQUENCES[input[..3]] == ReadKey(input).key
  {
    var p := input[..3];
    var i, l := p[1], p[2];
    assert p == [ESC, i, l];
    if i == 'O' as int {
      if l == 'H' as int { assert p == [ESC, 'O' as int, 'H' as int]; }
      else { assert p == [ESC, 'O' as int, 'F' as int]; }
    } else if l == 'A' as int { assert p == [ESC, '[' as int, 'A' as int]; }
    else if l == 'B' as int { assert p == [ESC, '[' as int, 'B' as int]; }
    else if l == 'C' as int { assert p == [ESC, '[' as int, 'C' as int]; }
    else if l == 'D' as int { assert p == [ESC, '[' as int, 'D' as int]; }
    else if l == 'H' as int { assert p == [ESC, '[' as int, 'H' as int]; }
    else { assert p == [ESC, '[' as int, 'F' as int]; }
  }

  /** A four-byte read that yields a logical key read a table sequence. */
  lemma FourByteKeyIsTabled(input: seq<byte>)
    requires ReadKey(input).consumed == 4 && IsSpecialKey(ReadKey(input).key)
    ensures input[..4] in ESCAPE_SEQUENCES
    ensures ESCAPE_SEQUENCES[input[..4]] == ReadKey(input).key
  {
    var p := input[..4];
    var d := p[2];
    assert p == [ESC, '[' as int, d, '~' as int];
    if d == '1' as int { assert p == [ESC, '[' as int, '1' as int, '~' as int]; }
    else if d == '3' as int { assert p == [ESC, '[' as int, '3' as int, '~' as int]; }
    else if d == '4' as int { assert p == [ESC, '[' as int, '4' as int, '~' as int]; }
    else if d == '5' as int { assert p == [ESC, '[' as int, '5' as int, '~' as int]; }
    else if d == '6' as int { assert p == [ESC, '[' as int, '6' as int, '~' as int]; }
    else if d == '7' as int { assert p == [ESC, '[' as int, '7' as int, '~' as int]; }
    else { assert p == [ESC, '[' as int, '8' as int, '~' as int]; }
  }

  /** The decoder returns one of the logical keys exactly when the bytes it
      read form a sequence of the table, and then the table's key. */
  lemma SpecialKeyIffTabled(input: seq<byte>)
    ensures var r := ReadKey(input);
      IsSpecialKey(r.key) <==> input[..r.consumed] in ESCAPE_SEQUENCES
    ensures var r := ReadKey(input);
      IsSpecialKey(r.key) ==> ESCAPE_SEQUENCES[input[..r.consumed]] == r.key
  {
    var r := ReadKey(input);
    var p := input[..r.consumed];
    if p in ESCAPE_SEQUENCES {
      TableDecodes(p, input[r.consumed..]);
      assert p + input[r.consumed..] == input;
    }
    if IsSpecialKey(r.key) {
      if r.consumed == 3 {
        ThreeByteKeyIsTabled(input);
      } else {
        FourByteKeyIsTabled(input);
      }
    }
  }

  /** An escape sequence the decoder does not recognise degrades to a bare
      ESC; it is never reported as a failure. */
  lemma UnknownIsEscape(input: seq<byte>)
    requires input != [] && input[0] == ESC
    requires input[..ReadKey(input).consumed] !in ESCAPE_SEQUENCES
    ensures ReadKey(input).key == ESC
  {
    SpecialKeyIffTabled(input);
  }
}
