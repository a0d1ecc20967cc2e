/** The .NET string and integer primitives that the label code relies on,
    with the edge cases (negative widths, missing characters, division by
    zero, truncation toward zero) written out. */
module DotNetText {
  import opened Results

  function Max(a: int, b: int): int {
    if a < b then b else a
  }

  function Min(a: int, b: int): int {
    if a < b then a else b
  }

  /** `n` copies of `c`; no characters when `n` is not positive. */
  function Repeat(c: char, n: int): (r: string)
    ensures |r| == Max(n, 0)
    ensures forall i :: 0 <= i < |r| ==> r[i] == c
    decreases n
  {
    if n <= 0 then [] else [c] + Repeat(c, n - 1)
  }

  /** String.PadRight(totalWidth, paddingChar): left-justifies `s` in a field
      of `totalWidth` characters; a string already that long is returned as it
      is, and a negative width throws. */
  function PadRight(s: string, totalWidth: int, c: char): (r: Result<string>)
    ensures r.Failure? <==> totalWidth < 0
    ensures r.Failure? ==> r.error == ArgumentOutOfRange
    ensures r.Success? ==> |r.value| == Max(totalWidth, |s|)
    ensures r.Success? ==> r.value[..|s|] == s
    ensures r.Success? ==> forall i :: |s| <= i < |r.value| ==> r.value[i] == c
  {
    if totalWidth < 0 then Failure(ArgumentOutOfRange)
    else Success(s + Repeat(c, totalWidth - |s|))
  }

  /** String.PadLeft(totalWidth, paddingChar) for a width that is not
      negative: right-justifies `s` in a field of `totalWidth` characters. */
  function PadLeft(s: string, totalWidth: nat, c: char): (r: string)
    ensures |r| == Max(totalWidth, |s|)
    ensures r[|r| - |s|..] == s
    ensures forall i :: 0 <= i < |r| - |s| ==> r[i] == c
  {
    Repeat(c, totalWidth - |s|) + s
  }

  /** String.IndexOf(char): the position of the first `c` in `s`, or -1. */
  function IndexOf(s: string, c: char): (r: int)
    ensures -1 <= r < |s|
    ensures r == -1 <==> c !in s
    ensures 0 <= r ==> s[r] == c && c !in s[..r]
  {
    if |s| == 0 then -1
    else if s[0] == c then 0
    else
      var k := IndexOf(s[1..], c);
      assert s[1..][..Max(k, 0)] == s[1..1 + Max(k, 0)];
      if k < 0 then -1 else k + 1
  }

  /** String.Substring(startIndex, length): throws unless both are not
      negative and the range lies inside `s`. */
  function Substring(s: string, start: int, length: int): (r: Result<string>)
    ensures r.Success? <==> 0 <= start && 0 <= length && start + length <= |s|
    ensures r.Failure? ==> r.error == ArgumentOutOfRange
    ensures r.Success? ==> |r.value| == length && forall i :: 0 <= i < length ==> r.value[i] == s[start + i]
  {
    if 0 <= start && 0 <= length && start + length <= |s| then Success(s[start..start + length])
    else Failure(ArgumentOutOfRange)
  }

  /** The C# `/` on int with a divisor that is a pixel width (never negative):
      it throws on a zero divisor and truncates toward zero, unlike Dafny's
      Euclidean division. QuotTruncates states its meaning. */
  function Quot(a: int, b: nat): Result<int>
  {
    if b == 0 then Failure(DivideByZero)
    else if 0 <= a then Success(a / b)
    else Success(-((-a) / b))
  }

  /** Euclidean division of a natural number brackets it between two
      consecutive multiples of the divisor; kept apart so that the solver
      meets this nonlinear fact over two plain variables only. */
  lemma DivBrackets(n: nat, b: nat)
    requires 0 < b
    ensures 0 <= (n / b) * b <= n < (n / b) * b + b
  {
    assert n == (n / b) * b + n % b;
  }

  /** Quot throws exactly on a zero divisor, and otherwise rounds the exact
      quotient toward zero. */
  lemma QuotTruncates(a: int, b: nat)
    ensures Quot(a, b).Failure? <==> b == 0
    ensures Quot(a, b).Failure? ==> Quot(a, b).error == DivideByZero
    ensures Quot(a, b).Success? && 0 <= a ==> 0 <= Quot(a, b).value * b <= a < Quot(a, b).value * b + b
    ensures Quot(a, b).Success? && a < 0 ==> Quot(a, b).value * b - b < a <= Quot(a, b).value * b <= 0
  {
    if b != 0 {
      var n: nat := if 0 <= a then a else -a;
      DivBrackets(n, b);
      if a < 0 {
        var w := n / b;
        assert Quot(a, b).value == -w;
        assert (-w) * b == -(w * b);
      }
    }
  }
}
