/** Bytes as the terminal sees them, and the decimal rendering that
    `snprintf("%d")` produces for the cursor-position escape. */
module Bytes {

  /** One octet read from or written to the terminal. */
  type byte = x: int | 0 <= x < 256

  const ESC: byte := 27
  const CR: byte := 13
  const LF: byte := 10

  /** Regrouping four pieces of appended output. */
  lemma AppendAssoc(a: seq<byte>, b: seq<byte>, c: seq<byte>, d: seq<byte>)
    ensures (a + b) + c + d == a + (b + c + d)
  {
  }

  /** The bytes of an ASCII string literal. */
  function Ascii(s: string): (r: seq<byte>)
    requires forall i :: 0 <= i < |s| ==> s[i] as int < 128
    ensures |r| == |s|
    ensures forall i :: 0 <= i < |s| ==> r[i] == s[i] as int
  {
    seq(|s|, i requires 0 <= i < |s| => s[i] as int)
  }

  /** The value a byte has once stored in a C `char` and widened to `int`:
      `char` is signed on the x86-64 Linux ABI, so bytes 128..255 come out
      negative. */
  function CharValue(b: byte): (v: int)
    ensures -128 <= v < 128
    ensures v % 256 == b
    ensures b < 128 ==> v == b
  {
    if b < 128 then b else b - 256
  }

  predicate IsDigit(b: int) {
    '0' as int <= b <= '9' as int
  }

  predicate AllDigits(s: seq<byte>) {
    forall i :: 0 <= i < |s| ==> IsDigit(s[i])
  }

  /** The decimal digits of a natural number, most significant first. */
  function NatDecimal(n: nat): (r: seq<byte>)
    ensures 1 <= |r|
    ensures AllDigits(r)
    ensures |r| > 1 ==> r[0] != '0' as int
    decreases n
  {
    if n < 10 then ['0' as int + n]
    else NatDecimal(n / 10) + ['0' as int + n % 10]
  }

  /** `%d` of `snprintf`: an optional minus sign, then the digits. */
  function Decimal(n: int): (r: seq<byte>)
  {
    if n < 0 then Ascii("-") + NatDecimal(-n) else NatDecimal(n)
  }

  /** The number a string of decimal digits denotes. */
  function DigitsValue(s: seq<byte>): nat
    requires AllDigits(s)
  {
    if s == [] then 0
    else DigitsValue(s[..|s| - 1]) * 10 + (s[|s| - 1] - '0' as int)
  }

  /** Reads back what `Decimal` writes: an optional minus sign and digits. */
  function ParseDecimal(s: seq<byte>): (n: int)
    requires s != [] && (s[0] == '-' as int ==> AllDigits(s[1..]))
    requires s[0] != '-' as int ==> AllDigits(s)
  {
    if s[0] == '-' as int then -(DigitsValue(s[1..]) as int) else DigitsValue(s)
  }

  lemma {:induction false} NatDecimalValue(n: nat)
    ensures DigitsValue(NatDecimal(n)) == n
    decreases n
  {
    if n >= 10 {
      var d := NatDecimal(n / 10);
      assert NatDecimal(n)[..|NatDecimal(n)| - 1] == d;
      NatDecimalValue(n / 10);
    }
  }

  /** The digits `%d` writes are the number: reading them back gives it. */
  lemma DecimalRoundTrip(n: int)
    ensures var s := Decimal(n);
      s != [] && (s[0] == '-' as int ==> AllDigits(s[1..])) &&
      (s[0] != '-' as int ==> AllDigits(s)) && ParseDecimal(s) == n
  {
    if n < 0 {
      assert Decimal(n)[1..] == NatDecimal(-n);
      NatDecimalValue(-n);
    } else {
      NatDecimalValue(n);
    }
  }

  /** The digits of a non-negative value never start with a minus sign and
      carry no leading zero. */
  lemma DecimalCanonical(n: nat)
    ensures AllDigits(Decimal(n))
    ensures |Decimal(n)| > 1 ==> Decimal(n)[0] != '0' as int
    ensures n == 0 <==> Decimal(n) == Ascii("0")
  {
    NatDecimalValue(n);
  }
}
