/** The second-resolution duration of `main.py` (the `timedelta` subclass).
    Every operation of the class passes the host library's result through
    `_ctor`, which rebuilds a duration of the subclass holding the same time;
    the subclass's `total_seconds()` rounds that time to whole seconds when
    it is read. Durations built from whole seconds stay whole under every
    integer operation modelled here, so a duration is modelled as one integer
    of seconds. The one exception is `floordiv` by an integer as the host
    computes it (`FloorDivScalarAsWritten`), whose half seconds are rounded
    when the result is read. The operator methods of the class become named
    functions here, as in the source. */
module Durations {
  import opened Wrappers
  import IntMath

  /** The exception a division raises (Python's `ZeroDivisionError`). */
  datatype Error = ZeroDivision

  /** A signed span of whole seconds; `seconds` is `total_seconds()`. */
  datatype Duration = Duration(seconds: int)

  /** `timedelta(0)`. */
  const Zero: Duration := Duration(0)

  /** The keyword constructor `timedelta(weeks=, days=, hours=, minutes=,
      seconds=)` with integer arguments: a week is seven days, a day 24
      hours, an hour 60 minutes and a minute 60 seconds. */
  function FromParts(weeks: int, days: int, hours: int, minutes: int, seconds: int): (r: Duration)
    ensures r.seconds == (((weeks * 7 + days) * 24 + hours) * 60 + minutes) * 60 + seconds
  {
    Duration(weeks * 604800 + days * 86400 + hours * 3600
             + minutes * 60 + seconds)
  }

  /** `total_seconds()`: the host's total rounded to whole seconds, which
      for a duration of whole seconds is its second count
      (`TotalSecondsOfOperations` relates it to the operations). */
  function TotalSeconds(d: Duration): int {
    d.seconds
  }

  // Comparisons (`lt`, `le`, `eq`, `ge`, `gt`) and truth value (`bool`).
  // The host compares the total time; `eq` and `lt` are the base, and the
  // other three are stated in terms of them.

  /** `eq(other)`: equal total time is equality of durations. */
  function Eq(a: Duration, b: Duration): (r: bool)
    ensures r <==> a == b
  {
    a.seconds == b.seconds
  }

  /** `lt(other)`: strictly less total time. */
  function Lt(a: Duration, b: Duration): (r: bool)
    ensures r <==> TotalSeconds(a) < TotalSeconds(b)
    ensures r ==> !Eq(a, b)
  {
    a.seconds < b.seconds
  }

  /** `le(other)`: less or equal. */
  function Le(a: Duration, b: Duration): (r: bool)
    ensures r <==> Lt(a, b) || Eq(a, b)
  {
    a.seconds <= b.seconds
  }

  /** `ge(other)`: the negation of `lt`. */
  function Ge(a: Duration, b: Duration): (r: bool)
    ensures r <==> !Lt(a, b)
  {
    a.seconds >= b.seconds
  }

  /** `gt(other)`: `lt` with the operands swapped. */
  function Gt(a: Duration, b: Duration): (r: bool)
    ensures r <==> Lt(b, a)
    ensures r ==> !Eq(a, b)
  {
    a.seconds > b.seconds
  }

  /** `bool()`: a duration is truthy iff it is not zero. */
  function Bool(a: Duration): (r: bool)
    ensures r <==> !Eq(a, Zero)
    ensures r <==> Lt(a, Zero) || Gt(a, Zero)
  {
    a.seconds != 0
  }

  // Arithmetic.

  /** `add(other)`: the sum, later than `a` exactly when `b` is positive and
      equal to `a` exactly when `b` is zero (`AddSubRoundTrip` relates it to
      `sub`). */
  function Add(a: Duration, b: Duration): (r: Duration)
    ensures Lt(a, r) <==> Gt(b, Zero)
    ensures r == a <==> b == Zero
  {
    Duration(a.seconds + b.seconds)
  }

  /** `sub(other)`: the difference, which is negative exactly when `a < b`
      and zero exactly when the two are equal. */
  function Sub(a: Duration, b: Duration): (r: Duration)
    ensures Lt(r, Zero) <==> Lt(a, b)
    ensures r == Zero <==> a == b
    ensures Gt(r, Zero) <==> Gt(a, b)
  {
    Duration(a.seconds - b.seconds)
  }

  /** `neg()`: the additive inverse. */
  function Neg(a: Duration): (r: Duration)
    ensures Add(a, r) == Zero
    ensures Lt(r, Zero) <==> Gt(a, Zero)
  {
    Duration(-a.seconds)
  }

  /** `abs()`: the magnitude, never negative, and either the duration or its
      negation. */
  function Abs(a: Duration): (r: Duration)
    ensures !Lt(r, Zero)
    ensures r == a || r == Neg(a)
    ensures Ge(a, Zero) ==> r == a
    ensures r == Zero <==> a == Zero
  {
    if a.seconds < 0 then Neg(a) else a
  }

  /** `mul(n)` with an integer factor (exact in the host: microseconds times
      an integer). Multiplying by zero gives zero, by one or minus one the
      duration or its negation, and `floordiv` by the same non-zero factor
      undoes it. */
  function MulScalar(a: Duration, n: int): (r: Duration)
    ensures n == 0 ==> r == Zero
    ensures n == 1 ==> r == a
    ensures n == -1 ==> r == Neg(a)
    ensures n != 0 ==> FloorDivScalar(r, n) == Success(a)
  {
    var r := Duration(a.seconds * n);
    assert r.seconds == a.seconds * n;
    if n != 0 then
      IntMath.FloorDivOfMultiple(a.seconds, n);
      r
    else
      r
  }

  /** `floordiv(other)` with a duration divisor: the floor of the ratio of
      the two second counts; dividing by a zero duration raises. */
  function FloorDiv(a: Duration, b: Duration): (r: Result<int, Error>)
    ensures b.seconds == 0 <==> r == Failure(ZeroDivision)
    ensures r.Success? ==>
      IntMath.IsFloorDivision(a.seconds, b.seconds, r.value, a.seconds - r.value * b.seconds)
  {
    if b.seconds == 0 then Failure(ZeroDivision)
    else Success(IntMath.FloorDiv(a.seconds, b.seconds))
  }

  /** `mod(other)`: what remains of `a` after the floor quotient of whole
      `b`s is taken away; it lies between zero and `b`, on `b`'s side. */
  function Mod(a: Duration, b: Duration): (r: Result<Duration, Error>)
    ensures b.seconds == 0 <==> r == Failure(ZeroDivision)
    ensures r.Success? ==>
      IntMath.IsFloorDivision(a.seconds, b.seconds, IntMath.FloorDiv(a.seconds, b.seconds), r.value.seconds)
  {
    if b.seconds == 0 then Failure(ZeroDivision)
    else Success(Duration(IntMath.FloorMod(a.seconds, b.seconds)))
  }

  /** `divmod(other)`: the integer quotient and the duration remainder, with
      `q * b + r == a`. */
  function DivMod(a: Duration, b: Duration): (r: Result<(int, Duration), Error>)
    ensures b.seconds == 0 <==> r == Failure(ZeroDivision)
    ensures r.Success? ==>
      IntMath.IsFloorDivision(a.seconds, b.seconds, r.value.0, r.value.1.seconds)
  {
    if b.seconds == 0 then Failure(ZeroDivision)
    else Success((IntMath.FloorDiv(a.seconds, b.seconds), Duration(IntMath.FloorMod(a.seconds, b.seconds))))
  }

  /** `floordiv(n)` with an integer divisor: the duration `n` times smaller,
      rounded down to a whole second (see `FloorDivScalarAsWritten` for what
      the host arithmetic actually yields). */
  function FloorDivScalar(a: Duration, n: int): (r: Result<Duration, Error>)
    ensures n == 0 <==> r == Failure(ZeroDivision)
    ensures r.Success? ==>
      IntMath.IsFloorDivision(a.seconds, n, r.value.seconds, a.seconds - r.value.seconds * n)
  {
    if n == 0 then Failure(ZeroDivision)
    else Success(Duration(IntMath.FloorDiv(a.seconds, n)))
  }

  // `floordiv(n)` as the host library computes it.

  /** Python's `round(a / b)` for `b > 0`: the nearest integer to the ratio,
      ties going to the even neighbour. */
  function RoundHalfEven(a: int, b: int): (r: int)
    requires b > 0
    ensures -b <= 2 * (a - r * b) <= b
    ensures (2 * (a - r * b) == b || 2 * (a - r * b) == -b) ==> r % 2 == 0
  {
    var q := a / b;
    var rem := a % b;
    if 2 * rem < b then q
    else if 2 * rem > b then q + 1
    else if q % 2 == 0 then q
    else q + 1
  }

  /** `floordiv(n)` with an integer divisor, as written: the host floors the
      MICROsecond count by `n`, and `_ctor` then rebuilds a duration whose
      `total_seconds()` rounds that value half-to-even to whole seconds. The
      result is the nearest whole second to the floored microsecond count,
      not the floor of the second count. */
  function FloorDivScalarAsWritten(a: Duration, n: int): (r: Result<Duration, Error>)
    ensures n == 0 <==> r == Failure(ZeroDivision)
    ensures r.Success? ==>
      var micros := IntMath.FloorDiv(a.seconds * 1000000, n);
      var twice := 2 * (micros - r.value.seconds * 1000000);
      -1000000 <= twice <= 1000000
      && ((twice == 1000000 || twice == -1000000) ==> r.value.seconds % 2 == 0)
  {
    if n == 0 then Failure(ZeroDivision)
    else Success(Duration(RoundHalfEven(IntMath.FloorDiv(a.seconds * 1000000, n), 1000000)))
  }

  /** The host computation and the floor division the tests expect part
      ways on a half second: 51 s // 2 is 25.5 s in the host, which reads
      back rounded to the even 26 s (rendered `00:00:26`), while the expected
      rendering is `00:00:25`. */
  lemma FloorDivScalarAsWrittenGives26()
    ensures FloorDivScalarAsWritten(Duration(51), 2) == Success(Duration(26))
    ensures FloorDivScalar(Duration(51), 2) == Success(Duration(25))
  {
    assert IntMath.FloorDiv(51 * 1000000, 2) == 25500000;
    assert RoundHalfEven(25500000, 1000000) == 26;
  }

  /** Where `n` divides the second count the two computations agree, so the
      worked examples that divide exactly (nine years // 3) are unaffected. */
  lemma {:induction false} FloorDivScalarAgreesOnExactDivision(x: int, n: int)
    requires n != 0
    ensures FloorDivScalarAsWritten(MulScalar(Duration(x), n), n) == Success(Duration(x))
    ensures FloorDivScalar(MulScalar(Duration(x), n), n) == Success(Duration(x))
  {
    IntMath.FloorDivOfMultiple(x, n);
    assert x * n * 1000000 == (x * 1000000) * n;
    IntMath.FloorDivOfMultiple(x * 1000000, n);
    var r := RoundHalfEven(x * 1000000, 1000000);
    assert x * 1000000 - r * 1000000 == (x - r) * 1000000;
    if r != x {
      if r < x {
        IntMath.MulAtLeastDivisor(x - r, 1000000);
      } else {
        IntMath.MulAtLeastDivisor(r - x, 1000000);
      }
    }
  }

  // Properties relating several operations.

  /** `a.add(b).sub(b) == a` and `a.sub(b).add(b) == a`; `add` is
      commutative and associative with `Zero` as its unit. */
  lemma AddSubRoundTrip(a: Duration, b: Duration, c: Duration)
    ensures Sub(Add(a, b), b) == a
    ensures Add(Sub(a, b), b) == a
    ensures Add(a, b) == Add(b, a)
    ensures Add(Add(a, b), c) == Add(a, Add(b, c))
    ensures Add(a, Zero) == a
  {
  }

  /** `total_seconds()` of a result is the integer arithmetic of the
      operands' totals: `add` and `sub` add and subtract them, `neg` negates,
      `mul` by an integer multiplies, the keyword constructor weighs each
      unit by its length in seconds, and `eq` holds exactly when the totals
      agree. */
  lemma TotalSecondsOfOperations(a: Duration, b: Duration, n: int,
                                 weeks: int, days: int, hours: int, minutes: int, seconds: int)
    ensures TotalSeconds(Add(a, b)) == TotalSeconds(a) + TotalSeconds(b)
    ensures TotalSeconds(Sub(a, b)) == TotalSeconds(a) - TotalSeconds(b)
    ensures TotalSeconds(Neg(a)) == -TotalSeconds(a)
    ensures TotalSeconds(MulScalar(a, n)) == TotalSeconds(a) * n
    ensures TotalSeconds(FromParts(weeks, days, hours, minutes, seconds))
            == weeks * 604800 + days * 86400 + hours * 3600 + minutes * 60 + seconds
    ensures Eq(a, b) <==> TotalSeconds(a) == TotalSeconds(b)
  {
  }

  /** `neg` is an involution, and subtraction is addition of the negation. */
  lemma NegProperties(a: Duration, b: Duration)
    ensures Neg(Neg(a)) == a
    ensures Sub(a, b) == Add(a, Neg(b))
    ensures Abs(Neg(a)) == Abs(a)
  {
    assert Sub(a, b).seconds == Add(a, Neg(b)).seconds;
  }

  /** `a.mul(n).floordiv(n) == a` for every non-zero integer `n`. */
  lemma MulThenFloorDivScalar(a: Duration, n: int)
    requires n != 0
    ensures FloorDivScalar(MulScalar(a, n), n) == Success(a)
  {
    FloorDivScalarAgreesOnExactDivision(a.seconds, n);
  }

  /** `divmod(a, b)` is `(floordiv(a, b), mod(a, b))`, and it is the only pair
      with `q * b + r == a` and `r` between zero and `b`. */
  lemma {:induction false} DivModIsFloorDivAndMod(a: Duration, b: Duration, q: int, r: Duration)
    requires b.seconds != 0
    ensures DivMod(a, b) == Success((FloorDiv(a, b).value, Mod(a, b).value))
    ensures IntMath.IsFloorDivision(a.seconds, b.seconds, q, r.seconds) <==> DivMod(a, b) == Success((q, r))
  {
    IntMath.FloorDivisionCharacterized(a.seconds, b.seconds, q, r.seconds);
  }

  /** The comparisons are the integer ordering of the second counts: `le` is
      a total order, `eq` is equality of durations, and the other three are
      defined by it. */
  lemma ComparisonsAreTotalOrder(a: Duration, b: Duration, c: Duration)
    ensures Eq(a, b) <==> a == b
    ensures Le(a, b) <==> Lt(a, b) || Eq(a, b)
    ensures Ge(a, b) <==> Le(b, a)
    ensures Gt(a, b) <==> Lt(b, a)
    ensures Lt(a, b) <==> !Ge(a, b)
    ensures Le(a, b) || Le(b, a)
    ensures Le(a, b) && Le(b, a) ==> a == b
    ensures Le(a, b) && Le(b, c) ==> Le(a, c)
  {
  }

  /** The comparisons are invariant under adding the same duration to both
      sides. */
  lemma ComparisonsShiftInvariant(a: Duration, b: Duration, c: Duration)
    ensures Lt(Add(a, c), Add(b, c)) <==> Lt(a, b)
    ensures Eq(Add(a, c), Add(b, c)) <==> Eq(a, b)
  {
  }

  /** Values the source's own checks pin for `add` and `sub`
      (main.py:224-237). */
  lemma AddSubExamples()
    ensures TotalSeconds(FromParts(1, 2, 5, 4, 3)) == 795843
    ensures Add(FromParts(0, 0, 0, 1, 0), Duration(7)) == Duration(67)
    ensures Add(Duration(67), FromParts(0, 0, 0, 1, 0)) == Duration(127)
    ensures Sub(Duration(67), Duration(33)) == Duration(34)
    ensures Sub(Duration(34), Duration(1)) == Duration(33)
  {
  }

  /** Values the source's own checks pin for `neg`, `abs`, the comparisons
      and `bool` (main.py:261-269). */
  lemma SignAndOrderExamples()
    ensures Neg(Duration(41)) == Duration(-41)
    ensures Abs(Duration(41)) == Duration(41) && Abs(Duration(-41)) == Duration(41)
    ensures !Eq(Duration(102), Duration(41)) && !Le(Duration(102), Duration(41))
    ensures !Lt(Duration(102), Duration(41)) && Ge(Duration(102), Duration(41))
    ensures Gt(Duration(102), Duration(41)) && Bool(Duration(102))
  {
  }

  /** Values the source's own checks pin for the divisions
      (main.py:243-259). */
  lemma DivisionExamples()
    ensures MulScalar(Duration(51), 2) == Duration(102)
    ensures FloorDiv(Duration(102), Duration(51)) == Success(2)
    ensures Mod(Duration(102), Duration(41)) == Success(Duration(20))
    ensures DivMod(Duration(102), Duration(41)) == Success((2, Duration(20)))
  {
    assert IntMath.FloorDiv(102, 51) == 2;
    assert IntMath.FloorDiv(102, 41) == 2;
    assert IntMath.FloorMod(102, 41) == 20;
  }

  /** The worked example of a year built from mixed units
      (main.py:273-289). */
  lemma YearExamples()
    ensures Eq(FromParts(0, 365, 0, 0, 0), FromParts(40, 84, 23, 50, 600))
    ensures TotalSeconds(FromParts(0, 365, 0, 0, 0)) == 31536000
    ensures FloorDivScalar(Sub(MulScalar(FromParts(0, 365, 0, 0, 0), 10), FromParts(0, 365, 0, 0, 0)), 3)
            == Success(FromParts(0, 1095, 0, 0, 0))
  {
    assert Sub(MulScalar(FromParts(0, 365, 0, 0, 0), 10), FromParts(0, 365, 0, 0, 0)) == Duration(283824000);
    assert IntMath.FloorDiv(283824000, 3) == 94608000;
  }
}
