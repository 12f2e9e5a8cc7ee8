/** Python's numeric conversions on the feed's tokens, over exact rationals:
    `float(tok)` for plain decimal literals, `round(x)` (ties to even) and
    `int(x)` on a float (truncation toward zero). */
module Numbers {
  import opened Text

  /** The position of the first '.' in `s`, or `|s|` when there is none. */
  function DotIndex(s: string): (k: nat)
    ensures k <= |s|
    ensures forall i :: 0 <= i < k ==> s[i] != '.'
    ensures k < |s| ==> s[k] == '.'
  {
    if s == [] || s[0] == '.' then 0 else 1 + DotIndex(s[1..])
  }

  /** `ddd`, `ddd.`, `ddd.ddd` or `.ddd`: at least one digit, at most one point. */
  predicate IsUnsignedDecimal(s: string) {
    var k := DotIndex(s);
    AllDigits(s[..k]) &&
    if k == |s| then |s| > 0 else |s| > 1 && AllDigits(s[k + 1..])
  }

  function UnsignedDecimalValue(s: string): (v: real)
    requires IsUnsignedDecimal(s)
    ensures v >= 0.0
  {
    var k := DotIndex(s);
    var whole := DigitsValue(s[..k]) as real;
    if k == |s| then whole else whole + FractionValue(s[k + 1..])
  }

  /** The value of the digits after a decimal point: ".d1d2..." is
      (d1 + ".d2..." ) / 10. */
  function FractionValue(s: string): (v: real)
    requires AllDigits(s)
    ensures 0.0 <= v < 1.0
  {
    if s == [] then 0.0 else (DigitValue(s[0]) as real + FractionValue(s[1..])) / 10.0
  }

  /** The literals `float(...)` accepts here: an optional sign and an
      unsigned decimal. */
  predicate IsDecimal(s: string) {
    |s| > 0 &&
    if s[0] == '-' || s[0] == '+' then IsUnsignedDecimal(s[1..]) else IsUnsignedDecimal(s)
  }

  /** `float(s)`, exactly (no binary rounding). */
  function DecimalValue(s: string): (v: real)
    requires IsDecimal(s)
    ensures s[0] != '-' ==> v >= 0.0
  {
    if s[0] == '-' then -UnsignedDecimalValue(s[1..])
    else if s[0] == '+' then UnsignedDecimalValue(s[1..])
    else UnsignedDecimalValue(s)
  }

  /** Python's `round(x)`: the nearest integer, ties going to the even one. */
  function RoundHalfEven(x: real): (r: int)
    ensures -0.5 <= r as real - x <= 0.5
    ensures (r as real - x == 0.5 || x - r as real == 0.5) ==> r % 2 == 0
  {
    var f := x.Floor;
    var d := x - f as real;
    if d < 0.5 then f
    else if d > 0.5 then f + 1
    else if f % 2 == 0 then f
    else f + 1
  }

  /** Python's `int(x)` on a float: truncation toward zero. */
  function Truncate(x: real): (r: int)
    ensures x >= 0.0 ==> r >= 0 && r as real <= x < r as real + 1.0
    ensures x < 0.0 ==> r <= 0 && r as real - 1.0 < x <= r as real
  {
    if x >= 0.0 then x.Floor else -((-x).Floor)
  }
}
