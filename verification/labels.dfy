/**
 The `YYYY-MM` text `strftime('%Y-%m')` gives a slider mark, and the reading
 of such a label back into a year and a month.
 */
module Labels {
  import opened Calendar
  import opened Wrappers

  function Pow10(n: nat): (p: nat)
    ensures p >= 1
  {
    if n == 0 then 1 else 10 * Pow10(n - 1)
  }

  predicate IsDigit(c: char) {
    '0' <= c <= '9'
  }

  /** `n` written in decimal on exactly `width` digits, padded with leading zeros. */
  function Digits(n: nat, width: nat): (s: string)
    requires n < Pow10(width)
    ensures |s| == width
    ensures forall i :: 0 <= i < |s| ==> IsDigit(s[i])
    decreases width
  {
    if width == 0 then []
    else Digits(n / 10, width - 1) + ['0' + ((n % 10) as char)]
  }

  /** The number a string of decimal digits denotes. */
  function ParseDigits(s: string): (n: nat)
    requires forall i :: 0 <= i < |s| ==> IsDigit(s[i])
    ensures n < Pow10(|s|)
  {
    if |s| == 0 then 0
    else
      assert IsDigit(s[|s| - 1]);
      10 * ParseDigits(s[..|s| - 1]) + (s[|s| - 1] as int - '0' as int)
  }

  lemma {:induction false} ParseDigitsOfDigits(n: nat, width: nat)
    requires n < Pow10(width)
    ensures ParseDigits(Digits(n, width)) == n
    decreases width
  {
    if width > 0 {
      var s := Digits(n, width);
      assert s[..|s| - 1] == Digits(n / 10, width - 1);
      ParseDigitsOfDigits(n / 10, width - 1);
    }
  }

  /** The mark label of `d`: its year on four digits, a dash, its month on two. */
  function Label(d: Date): (s: string)
    requires Valid(d) && d.year < 10000
    ensures |s| == 7 && s[4] == '-'
    ensures forall i :: 0 <= i < 7 && i != 4 ==> IsDigit(s[i])
  {
    Digits(d.year, 4) + "-" + Digits(d.month, 2)
  }

  datatype YearMonth = YearMonth(year: int, month: int)

  /** Reads a `YYYY-MM` label back; anything else is rejected. */
  function ParseLabel(s: string): (r: Option<YearMonth>)
    ensures r.Some? ==> 0 <= r.value.year < 10000 && 0 <= r.value.month < 100
  {
    assert Pow10(4) == 10000 && Pow10(2) == 100;
    if |s| == 7 && s[4] == '-' && (forall i :: 0 <= i < 7 && i != 4 ==> IsDigit(s[i])) then
      Some(YearMonth(ParseDigits(s[..4]), ParseDigits(s[5..])))
    else None
  }

  /** A label names exactly its date's year and month. */
  lemma LabelRoundTrip(d: Date)
    requires Valid(d) && d.year < 10000
    ensures ParseLabel(Label(d)) == Some(YearMonth(d.year, d.month))
  {
    var s := Label(d);
    assert s[..4] == Digits(d.year, 4);
    assert s[5..] == Digits(d.month, 2);
    ParseDigitsOfDigits(d.year, 4);
    ParseDigitsOfDigits(d.month, 2);
  }

  /** Two dates share a label exactly when they lie in the same month. */
  lemma LabelIdentifiesMonth(a: Date, b: Date)
    requires Valid(a) && a.year < 10000 && Valid(b) && b.year < 10000
    ensures Label(a) == Label(b) <==> MonthIndex(a) == MonthIndex(b)
  {
    LabelRoundTrip(a);
    LabelRoundTrip(b);
    if MonthIndex(a) == MonthIndex(b) {
      assert a.year == b.year && a.month == b.month;
    }
  }
}
