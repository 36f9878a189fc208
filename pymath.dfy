/**
 * The arithmetic both priority adjusters share: clamp(val, lo, hi) and
 * Python's round() of a number to an int, which breaks ties towards the even
 * integer. Priorities are computed on exact reals here.
 */
module PyMath {

  function Min(a: int, b: int): int {
    if a <= b then a else b
  }

  function Max(a: int, b: int): int {
    if a >= b then a else b
  }

  /** max(lo, min(hi, val)) */
  function Clamp(val: int, lo: int, hi: int): (r: int)
    ensures lo <= hi ==> lo <= r <= hi
    ensures lo <= val <= hi ==> r == val
    ensures val < lo ==> r == lo
    ensures hi < val && lo <= hi ==> r == hi
  {
    Max(lo, Min(hi, val))
  }

  lemma ClampMonotone(a: int, b: int, lo: int, hi: int)
    requires a <= b
    ensures Clamp(a, lo, hi) <= Clamp(b, lo, hi)
  {
  }

  /** Python's round(x): the nearest integer, and the even one of two equally near. */
  function RoundHalfEven(x: real): (r: int)
    ensures x - 0.5 <= r as real <= x + 0.5
    ensures (r as real - x == 0.5 || x - r as real == 0.5) ==> r % 2 == 0
  {
    var f := x.Floor;
    var frac := x - f as real;
    if frac < 0.5 then f
    else if frac > 0.5 then f + 1
    else if f % 2 == 0 then f
    else f + 1
  }

  /** No integer is nearer to x than round(x). */
  lemma RoundIsNearest(x: real, n: int)
    ensures RoundHalfEven(x) as real - x <= if n as real >= x then n as real - x else x - n as real
    ensures x - RoundHalfEven(x) as real <= if n as real >= x then n as real - x else x - n as real
  {
    var r := RoundHalfEven(x);
    if n != r {
      assert n <= r - 1 || n >= r + 1;
    }
  }

  lemma RoundMonotone(x: real, y: real)
    requires x <= y
    ensures RoundHalfEven(x) <= RoundHalfEven(y)
  {
  }
}
