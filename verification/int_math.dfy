/** Python integer division. Python's `//`, `%` and `divmod` round the quotient
    toward negative infinity, so the remainder takes the sign of the divisor.
    Dafny's own `/` and `%` are Euclidean (the remainder is never negative),
    which differs when the divisor is negative, so the Python operators are
    spelled out here and used wherever the modelled code divides. */
module IntMath {

  /** `q` and `r` are the floor quotient and remainder of `a` by `b`:
      `a == q * b + r`, with `r` between zero and the divisor, on its side. */
  predicate IsFloorDivision(a: int, b: int, q: int, r: int) {
    && a == q * b + r
    && (b > 0 ==> 0 <= r < b)
    && (b < 0 ==> b < r <= 0)
    && b != 0
  }

  /** Python's `a // b`. */
  function FloorDiv(a: int, b: int): (q: int)
    requires b != 0
    ensures IsFloorDivision(a, b, q, a - q * b)
  {
    if b > 0 then a / b else (-a) / (-b)
  }

  /** Python's `a % b`. */
  function FloorMod(a: int, b: int): (r: int)
    requires b != 0
    ensures IsFloorDivision(a, b, FloorDiv(a, b), r)
  {
    a - FloorDiv(a, b) * b
  }

  lemma MulAtLeastDivisor(k: int, b: int)
    requires k >= 1 && b > 0
    ensures k * b >= b
  {
    var j := k - 1;
    assert k * b == j * b + b;
    assert j * b >= 0;
  }

  /** The floor quotient and remainder are unique: any pair meeting
      `IsFloorDivision` is the one `FloorDiv`/`FloorMod` compute. */
  lemma {:induction false} FloorDivisionUnique(a: int, b: int, q1: int, r1: int, q2: int, r2: int)
    requires IsFloorDivision(a, b, q1, r1)
    requires IsFloorDivision(a, b, q2, r2)
    ensures q1 == q2 && r1 == r2
  {
    assert (q1 - q2) * b == r2 - r1;
    if q1 > q2 {
      if b > 0 {
        MulAtLeastDivisor(q1 - q2, b);
      } else {
        assert (q1 - q2) * (-b) == r1 - r2;
        MulAtLeastDivisor(q1 - q2, -b);
      }
    } else if q2 > q1 {
      if b > 0 {
        assert (q2 - q1) * b == r1 - r2;
        MulAtLeastDivisor(q2 - q1, b);
      } else {
        assert (q2 - q1) * (-b) == r2 - r1;
        MulAtLeastDivisor(q2 - q1, -b);
      }
    }
  }

  /** Python's `divmod(a, b)` yields exactly `(a // b, a % b)`, and for a
      positive divisor these coincide with Dafny's Euclidean operators. */
  lemma FloorDivisionCharacterized(a: int, b: int, q: int, r: int)
    requires b != 0
    ensures IsFloorDivision(a, b, q, r) <==> q == FloorDiv(a, b) && r == FloorMod(a, b)
    ensures b > 0 ==> FloorDiv(a, b) == a / b && FloorMod(a, b) == a % b
  {
    if IsFloorDivision(a, b, q, r) {
      FloorDivisionUnique(a, b, q, r, FloorDiv(a, b), FloorMod(a, b));
    }
  }

  /** A multiple of `n` divides back exactly: `(x * n) // n == x`. */
  lemma {:induction false} FloorDivOfMultiple(x: int, n: int)
    requires n != 0
    ensures FloorDiv(x * n, n) == x && FloorMod(x * n, n) == 0
  {
    assert IsFloorDivision(x * n, n, x, 0);
    FloorDivisionUnique(x * n, n, x, 0, FloorDiv(x * n, n), FloorMod(x * n, n));
  }
}
