/** The rendering of a quote with the .NET custom format "0.00": at least one
    integer digit, a point, exactly two decimals, rounded half away from zero.
    A quote is a real number here; the binary rounding of a 32-bit float before
    formatting is not part of the model. */
module Price {

  /** A quote as fetched: the price, or a non-positive value for "unknown". */
  type Quote = real

  predicate IsDigit(c: char) {
    '0' <= c <= '9'
  }

  function DigitChar(d: nat): (c: char)
    requires d < 10
    ensures IsDigit(c) && c as int - '0' as int == d
  {
    ('0' as int + d) as char
  }

  /** The number a string of decimal digits denotes. */
  function DecimalValue(s: string): nat
    requires forall i :: 0 <= i < |s| ==> IsDigit(s[i])
  {
    if s == [] then 0
    else
      assert IsDigit(s[|s| - 1]);
      DecimalValue(s[..|s| - 1]) * 10 + (s[|s| - 1] as int - '0' as int)
  }

  /** The shortest decimal numeral of `n` ("0" for zero). */
  function Digits(n: nat): (r: string)
    ensures 1 <= |r|
    ensures forall i :: 0 <= i < |r| ==> IsDigit(r[i])
    ensures DecimalValue(r) == n
    ensures |r| == 1 || r[0] != '0'
  {
    if n < 10 then [DigitChar(n)]
    else
      var high := Digits(n / 10);
      assert |high| == 1 ==> high == [high[0]] && high[..0] == [];
      var r := high + [DigitChar(n % 10)];
      assert r[..|r| - 1] == high;
      r
  }

  /** The quote in hundredths, rounded half away from zero. */
  function Hundredths(q: Quote): (h: nat)
    requires 0.0 <= q
    ensures h as real - 0.5 <= q * 100.0 < h as real + 0.5
  {
    (q * 100.0 + 0.5).Floor
  }

  /** quote.ToString("0.00") for a positive quote. */
  function Render(q: Quote): (r: string)
    requires 0.0 < q
    ensures 4 <= |r| && r[|r| - 3] == '.'
    ensures forall i :: 0 <= i < |r| && i != |r| - 3 ==> IsDigit(r[i])
    ensures DecimalValue(r[..|r| - 3]) * 100 + DecimalValue(r[|r| - 2..]) == Hundredths(q)
  {
    var h := Hundredths(q);
    var cents := [DigitChar(h % 100 / 10), DigitChar(h % 10)];
    var r := Digits(h / 100) + "." + cents;
    assert r[..|r| - 3] == Digits(h / 100);
    assert r[|r| - 2..] == cents;
    assert cents[..1] == [cents[0]] && [cents[0]][..0] == [];
    assert DecimalValue([cents[0]]) == h % 100 / 10;
    assert DecimalValue(cents) == (h % 100 / 10) * 10 + h % 10;
    assert h == h / 100 * 100 + (h % 100 / 10) * 10 + h % 10;
    r
  }

  /** The integer part of the rendering has no leading zero beyond a single
      "0", so the rendering is the shortest one for its value. */
  lemma RenderNoLeadingZero(q: Quote)
    requires 0.0 < q
    ensures |Render(q)| == 4 || Render(q)[0] != '0'
  {
    var integral := Digits(Hundredths(q) / 100);
    assert Render(q)[..|Render(q)| - 3] == integral;
    assert Render(q)[0] == integral[0];
  }
}
