/** Division and remainder as C++ computes them on integers: the quotient is
    truncated toward zero and the remainder takes the sign of the dividend.
    (Dafny's own / and % are Euclidean: the remainder is never negative.) */
module TruncDiv {

  function Abs(x: int): nat {
    if x < 0 then -x else x
  }

  /** C++ a / b. */
  function TDiv(a: int, b: int): (q: int)
    requires b != 0
    ensures q == 0 || ((q < 0) <==> ((a < 0) != (b < 0)))
  {
    var m := Abs(a) / Abs(b);
    if (a < 0) == (b < 0) then m else -m
  }

  /** The magnitude of a / b is |a| / |b| rounded down: the quotient is
      truncated toward zero. */
  lemma TDivMagnitude(a: int, b: int)
    requires b != 0
    ensures Abs(TDiv(a, b)) * Abs(b) <= Abs(a) < (Abs(TDiv(a, b)) + 1) * Abs(b)
  {
  }

  /** The quotient of natural numbers, rounded down, brackets the dividend. */
  lemma FloorDivBounds(n: nat, d: nat)
    requires d > 0
    ensures (n / d) * d <= n < (n / d + 1) * d
  {
  }

  /** C++ a % b. */
  function TRem(a: int, b: int): (r: int)
    requires b != 0
    ensures Abs(r) < Abs(b)
    ensures r == 0 || ((r < 0) <==> (a < 0))
  {
    var m := Abs(a) % Abs(b);
    if a < 0 then -m else m
  }

  /** The two fit together as C++ requires: (a / b) * b + a % b == a. */
  lemma TDivTRem(a: int, b: int)
    requires b != 0
    ensures TDiv(a, b) * b + TRem(a, b) == a
  {
  }

  /** A quotient is never larger in magnitude than its dividend. */
  lemma QuotientMagnitude(a: int, b: int)
    requires b != 0
    ensures Abs(TDiv(a, b)) <= Abs(a)
    ensures Abs(b) >= 2 ==> 2 * Abs(TDiv(a, b)) <= Abs(a)
  {
    TDivMagnitude(a, b);
    var q := Abs(TDiv(a, b));
    assert q * Abs(b) - q == q * (Abs(b) - 1);
    if Abs(b) >= 2 {
      assert q * Abs(b) - 2 * q == q * (Abs(b) - 2);
    }
  }
}
