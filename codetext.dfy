/**
 * Text as Python sees it: a sequence of Unicode code points. A Python `str`
 * may hold any code point, lone surrogates included, so text is not modelled
 * as Dafny's `string`, whose characters exclude the surrogates.
 */
module CodeText {

  type CodePoint = c: int | 0 <= c < 0x11_0000

  type Text = seq<CodePoint>

  const Newline: CodePoint := 10
  const Dot: CodePoint := 46
  const Zero: CodePoint := 48
  const LowerA: CodePoint := 97

  /** The code points of a Dafny string literal. */
  function FromString(s: string): (t: Text)
    ensures |t| == |s|
  {
    seq(|s|, i requires 0 <= i < |s| => s[i] as int)
  }

  predicate IsAscii(t: Text) {
    forall i :: 0 <= i < |t| ==> t[i] < 128
  }

  /** An ASCII decimal digit, `0` to `9`. */
  predicate IsDigit(c: CodePoint) {
    Zero <= c <= Zero + 9
  }

  predicate AllDigits(t: Text) {
    forall i :: 0 <= i < |t| ==> IsDigit(t[i])
  }

  /** ASCII lower-casing: the case folding a case-insensitive pattern applies to ASCII text. */
  function AsciiLower(c: CodePoint): CodePoint {
    if 'A' as int <= c <= 'Z' as int then c + ('a' as int - 'A' as int) else c
  }

  /** The number a run of decimal digits denotes, as Python's `int` reads it (leading zeros allowed). */
  function Value(t: Text): nat
    requires AllDigits(t)
    decreases |t|
  {
    if |t| == 0 then 0 else 10 * Value(t[..|t| - 1]) + (t[|t| - 1] - Zero)
  }

  /** The decimal notation of `n`, as Python's string formatting writes an integer. */
  function Decimal(n: nat): (t: Text)
    ensures |t| > 0 && AllDigits(t)
    ensures Value(t) == n
    ensures t[0] == Zero ==> t == [Zero]
    decreases n
  {
    if n < 10 then [Zero + n]
    else
      var front := Decimal(n / 10);
      var t := front + [Zero + n % 10];
      assert t[..|t| - 1] == front;
      t
  }
}
