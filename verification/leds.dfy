/**
 * The three-digit LED counters: `Board::DrawLeds` of the Win32 program and
 * `BaseCounter.DrawLeds` of the WPF front end split a number into three
 * positions of the LED image strip the same way. Strip images 0..9 are the
 * digits and image 10 is the minus sign, which also fills all three positions
 * when the number does not fit.
 *
 * Both sources divide only non-negative values, so C++/C# truncating division
 * and Dafny's Euclidean division agree here.
 */
module Leds {

  /** The strip positions shown left to right. */
  datatype Digits = Digits(left: int, middle: int, right: int)

  const Minus := 10

  predicate IsDigit(d: int)
  {
    0 <= d <= 9
  }

  /**
   * Every position names one of the images the code uses: digits 0..9 or
   * the sign. How many images the bitmap resource itself holds is not part
   * of this model.
   */
  predicate OnStrip(d: Digits)
  {
    0 <= d.left <= Minus && 0 <= d.middle <= Minus && 0 <= d.right <= Minus
  }

  /**
   * The split as both programs write it: a number below 1000 shows its
   * hundreds (or the minus sign when negative, then its magnitude), tens and
   * units; 1000 or more shows three signs.
   */
  function LedDigits(n: int): (d: Digits)
    ensures 0 <= n < 1000 ==> IsDigit(d.left) && IsDigit(d.middle) && IsDigit(d.right)
    ensures -99 <= n < 0 ==> d.left == Minus && IsDigit(d.middle) && IsDigit(d.right)
    ensures n >= 1000 ==> d == Digits(Minus, Minus, Minus)
  {
    if n < 1000 then
      var left := if n >= 0 then n / 100 else Minus;
      var rest := if n >= 0 then n - left * 100 else -n;
      var middle := rest / 10;
      Digits(left, middle, rest - middle * 10)
    else Digits(Minus, Minus, Minus)
  }

  /** Reading a display back: a leading sign negates the two digits after it. */
  function LedValue(d: Digits): int
  {
    if d.left == Minus then -(d.middle * 10 + d.right)
    else d.left * 100 + d.middle * 10 + d.right
  }

  /** Every number from -99 to 999 is shown so that it reads back as itself. */
  lemma LedRoundTrip(n: int)
    requires -99 <= n < 1000
    ensures LedValue(LedDigits(n)) == n
    ensures OnStrip(LedDigits(n))
  {
  }

  /** The display is faithful on -99..999: different numbers show differently. */
  lemma LedDigitsInjective(n: int, m: int)
    requires -99 <= n < 1000 && -99 <= m < 1000
    requires LedDigits(n) == LedDigits(m)
    ensures n == m
  {
    LedRoundTrip(n);
    LedRoundTrip(m);
  }

  /**
   * Below -99 the split as written puts the magnitude's hundreds and tens
   * together into the middle position, which is then 10 or more: -100 shows
   * two signs and a 0, and from -110 on the middle index is 11 or more,
   * beyond the digit and sign images the code uses.
   */
  lemma LedOverflow(n: int)
    requires n <= -100
    ensures LedDigits(n).middle >= Minus
    ensures n <= -110 ==> !OnStrip(LedDigits(n))
    ensures LedDigits(-100) == Digits(Minus, Minus, 0)
  {
  }

  /**
   * The split with the number first clamped to -99, so every value a counter
   * can be given (mines minus flags may fall below -99) shows strip images.
   */
  function ClampedLedDigits(n: int): (d: Digits)
    ensures OnStrip(d)
    ensures -99 <= n ==> d == LedDigits(n)
    ensures n < -99 ==> d == Digits(Minus, 9, 9)
  {
    LedDigits(if n < -99 then -99 else n)
  }

  /** The clamped display reads back the number, or -99 for anything lower, up to 999. */
  lemma ClampedLedReadsBack(n: int)
    requires n < 1000
    ensures LedValue(ClampedLedDigits(n)) == (if n < -99 then -99 else n)
  {
    LedRoundTrip(if n < -99 then -99 else n);
  }
}
