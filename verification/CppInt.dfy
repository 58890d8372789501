/** C++ arithmetic that differs from Dafny's. */
module CppInt {

  /** Integer division, truncating toward zero. */
  function TruncDiv(a: int, b: int): int
    requires b > 0
  {
    if a >= 0 then a / b else -((-a) / b)
  }

  /** Conversion of a floating-point value to an integer, truncating toward zero. */
  function Trunc(r: real): int {
    if r >= 0.0 then r.Floor else -(-r).Floor
  }

  /** `k` is `x` without its fraction: at most one away, on the side of zero. */
  predicate Truncates(k: int, x: real) {
    if x >= 0.0 then k as real <= x < k as real + 1.0 else k as real - 1.0 < x <= k as real
  }

  /** Truncation is determined by that, for every value and either sign. */
  lemma TruncatesIsUnique(k: int, x: real)
    ensures Truncates(k, x) <==> k == Trunc(x)
  {
  }

  /** Truncating division loses less than one divisor, on the side of zero. */
  lemma TruncDivLoses(a: int, b: int)
    requires b > 0
    ensures var q := TruncDiv(a, b);
            if a >= 0 then 0 <= a - b * q < b else -b < a - b * q <= 0
  {
  }

  function Min(a: int, b: int): int {
    if b < a then b else a
  }

  function Max(a: int, b: int): int {
    if a < b then b else a
  }
}
