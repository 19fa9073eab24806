/** C integer arithmetic that Dafny's own operators do not give: division that truncates toward
    zero, narrowing casts, and the two floor helpers of the time functions. */
module CArith {

  const INT_MIN: int := -0x8000_0000
  const INT_MAX: int := 0x7fff_ffff
  const UINT64_LIMIT: int := 0x1_0000_0000_0000_0000

  predicate IsInt32(x: int) { INT_MIN <= x <= INT_MAX }

  predicate IsInt64(x: int) { -0x8000_0000_0000_0000 <= x <= 0x7fff_ffff_ffff_ffff }

  function Magnitude(v: int): nat { if v < 0 then -v else v }

  /** C's `a / b`. */
  function CDiv(a: int, b: int): int
    requires b != 0
  {
    if a >= 0 then a / b else -((-a) / b)
  }

  /** C's `a % b`: the remainder has the sign of the dividend. */
  function CMod(a: int, b: int): int
    requires b != 0
  {
    a - b * CDiv(a, b)
  }

  /** A conversion to `unsigned`: reduction modulo 2^32. */
  function ToUint32(x: int): (r: int)
    ensures 0 <= r < 0x1_0000_0000
    ensures 0 <= x < 0x1_0000_0000 ==> r == x
  {
    x % 0x1_0000_0000
  }

  /** A conversion to `int`: reduction modulo 2^32 into the signed range. */
  function ToInt32(x: int): (r: int)
    ensures IsInt32(r)
    ensures r == x <==> IsInt32(x)
    ensures r == x || r - x >= 0x1_0000_0000 || x - r >= 0x1_0000_0000
  {
    (x + 0x8000_0000) % 0x1_0000_0000 - 0x8000_0000
  }

  /** floor_div: the quotient is the floor for either sign of the divisor. */
  function FloorDiv(a: int, b: int): (q: int)
    requires b != 0
    ensures b > 0 ==> q * b <= a < q * b + b
    ensures b < 0 ==> q * b + b < a <= q * b
  {
    var q := CDiv(a, b);
    var r := CMod(a, b);
    CDivRemainder(a, b);
    if r != 0 && (r > 0) != (b > 0) then q - 1 else q
  }

  /** floor_mod: the remainder that goes with floor_div, with the sign of the divisor. */
  function FloorMod(a: int, b: int): (r: int)
    requires b != 0
    ensures a == FloorDiv(a, b) * b + r
    ensures if b > 0 then 0 <= r < b else b < r <= 0
  {
    var r := CMod(a, b);
    CDivRemainder(a, b);
    if r != 0 && (r > 0) != (b > 0) then r + b else r
  }

  /** The C remainder is smaller than the divisor and has the sign of the dividend. */
  lemma CDivRemainder(a: int, b: int)
    requires b != 0
    ensures a == b * CDiv(a, b) + CMod(a, b)
    ensures a >= 0 ==> 0 <= CMod(a, b) < if b > 0 then b else -b
    ensures a <= 0 ==> (if b > 0 then -b else b) < CMod(a, b) <= 0
  {
    if a < 0 {
      assert -a == b * ((-a) / b) + (-a) % b;
    }
  }

  /** Divisibility does not depend on how a division rounds. */
  lemma CModZero(a: int, b: int)
    requires b > 0
    ensures CMod(a, b) == 0 <==> a % b == 0
  {
    if a < 0 {
      var q, r := (-a) / b, (-a) % b;
      assert -a == b * q + r;
      if r == 0 {
        assert a == b * (-q);
        SameQuotient(a, b, -q, a / b);
      } else if a % b == 0 {
        assert -a == b * (-(a / b));
        SameQuotient(-a, b, -(a / b), q);
      }
    }
  }

  /** With a positive divisor the floor pair is Euclidean division. */
  lemma FloorIsEuclidean(a: int, b: int)
    requires b > 0
    ensures FloorDiv(a, b) == a / b
    ensures FloorMod(a, b) == a % b
  {
    var q, e := FloorDiv(a, b), a / b;
    assert q * b <= a < q * b + b && e * b <= a < e * b + b;
    SameQuotient(a, b, q, e);
  }

  lemma SameQuotient(a: int, b: int, q: int, e: int)
    requires b > 0
    requires q * b <= a < q * b + b && e * b <= a < e * b + b
    ensures q == e
  {
    if q < e {
      MulMonotone(q + 1, e, b);
      assert false;
    } else if e < q {
      MulMonotone(e + 1, q, b);
      assert false;
    }
  }

  lemma MulMonotone(x: int, y: int, b: int)
    requires x <= y && b >= 0
    ensures x * b <= y * b
  {
  }
}
