/**
 * The elapsed-time counter: once a second the interval callback adds one to
 * `t` until it reaches 999, where it stops; the counter is shown as three
 * characters, `('000' + t).substr(-3)`. A new game puts `t` back to 0 and
 * the text back to "000".
 */
module Timer {

  /** The largest value the counter reaches. */
  const Cap: nat := 999

  /** One firing of the interval callback. */
  function Tick(t: nat): (r: nat)
    ensures t >= Cap ==> r == t
    ensures t < Cap ==> r == t + 1 && r <= Cap
  {
    if t >= Cap then t else t + 1
  }

  /** The counter after n firings, starting from the reset value 0. */
  function TicksFromReset(n: nat): nat
  {
    if n == 0 then 0 else Tick(TicksFromReset(n - 1))
  }

  /** Counting from the reset, the counter shows the seconds elapsed, stopping at 999. */
  lemma {:induction false} TicksFromResetIsCapped(n: nat)
    ensures TicksFromReset(n) == if n < Cap then n else Cap
    ensures TicksFromReset(n) <= Cap
  {
    if n > 0 {
      TicksFromResetIsCapped(n - 1);
    }
  }

  predicate IsDigit(c: char) {
    '0' <= c <= '9'
  }

  predicate AllDigits(s: string) {
    forall k :: 0 <= k < |s| ==> IsDigit(s[k])
  }

  function Digit(d: nat): (c: char)
    requires d < 10
    ensures IsDigit(c)
  {
    (('0' as int) + d) as char
  }

  function DigitValue(c: char): (d: nat)
    requires IsDigit(c)
    ensures d < 10 && Digit(d) == c
  {
    (c as int) - ('0' as int)
  }

  /** The number a string of decimal digits stands for, most significant first. */
  function Value(s: string): nat
    requires AllDigits(s)
  {
    if s == [] then 0 else Value(s[..|s| - 1]) * 10 + DigitValue(s[|s| - 1])
  }

  /** JavaScript's conversion of a non-negative integer to text. */
  function Decimal(n: nat): (s: string)
    ensures |s| >= 1 && AllDigits(s)
  {
    if n < 10 then [Digit(n)] else Decimal(n / 10) + [Digit(n % 10)]
  }

  /** Decimal text reads back as the number it was made from, without a leading zero. */
  lemma {:induction false} DecimalRoundTrip(n: nat)
    ensures Value(Decimal(n)) == n
    ensures n > 0 ==> Decimal(n)[0] != '0'
  {
    if n >= 10 {
      DecimalRoundTrip(n / 10);
      var s := Decimal(n);
      assert s[..|s| - 1] == Decimal(n / 10);
      assert s[0] == Decimal(n / 10)[0];
    }
  }

  /** The counter text: the last three characters of "000" followed by `t`. */
  function TimerText(t: nat): (s: string)
    ensures |s| == 3 && AllDigits(s)
  {
    var padded := "000" + Decimal(t);
    padded[|padded| - 3..]
  }

  function Zeros(k: nat): (s: string)
    ensures |s| == k && forall i :: 0 <= i < k ==> s[i] == '0'
  {
    if k == 0 then [] else Zeros(k - 1) + "0"
  }

  lemma DecimalBelowThousand(t: nat)
    requires t <= Cap
    ensures t < 10 ==> Decimal(t) == [Digit(t)]
    ensures 10 <= t < 100 ==> Decimal(t) == [Digit(t / 10), Digit(t % 10)]
    ensures 100 <= t ==> Decimal(t) == [Digit(t / 100), Digit(t / 10 % 10), Digit(t % 10)]
  {
    if 100 <= t {
      assert t / 10 / 10 == t / 100;
      assert Decimal(t / 10) == [Digit(t / 100), Digit(t / 10 % 10)];
    }
  }

  lemma ValueOfThreeDigits(s: string)
    requires |s| == 3 && AllDigits(s)
    ensures Value(s) == DigitValue(s[0]) * 100 + DigitValue(s[1]) * 10 + DigitValue(s[2])
  {
    var one, two := s[..1], s[..2];
    assert one[..0] == [] && two[..1] == one && s[..2] == two;
    assert Value(one) == DigitValue(s[0]);
    assert Value(two) == DigitValue(s[0]) * 10 + DigitValue(s[1]);
  }

  /**
   * For a counter value the page can reach, the text is the decimal form of
   * `t` left-padded with '0' to three characters, digit by digit, and reads
   * back as `t`.
   */
  lemma TimerTextIsPadded(t: nat)
    requires t <= Cap
    ensures |Decimal(t)| <= 3
    ensures TimerText(t) == Zeros(3 - |Decimal(t)|) + Decimal(t)
    ensures TimerText(t) == [Digit(t / 100), Digit(t / 10 % 10), Digit(t % 10)]
    ensures Value(TimerText(t)) == t
  {
    DecimalBelowThousand(t);
    var s := TimerText(t);
    assert s == [Digit(t / 100), Digit(t / 10 % 10), Digit(t % 10)];
    ValueOfThreeDigits(s);
  }

  /** The text written by a new game is the text of the reset value. */
  lemma ResetText()
    ensures TimerText(0) == "000"
  {
    TimerTextIsPadded(0);
  }
}
