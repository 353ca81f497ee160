/** Toroidal index arithmetic of the board: JavaScript's `%` and the
    wrapping of a column or row index that one step off the board edge. */
module Torus {

  /** JavaScript's `a % b` for a positive divisor: the remainder of truncated
      division, whose sign follows the dividend. It is written as repeated
      subtraction of the divisor from the dividend's magnitude, which is what
      truncated division leaves over; `JsRemIsMod` relates it to Dafny's own
      `%`, which is Euclidean and never negative. */
  function JsRem(a: int, b: int): (r: int)
    requires b > 0
    ensures a >= 0 ==> 0 <= r < b
    ensures a < 0 ==> -b < r <= 0
    decreases a < 0, if a < 0 then -a else a
  {
    if a < 0 then -JsRem(-a, b)
    else if a < b then a
    else JsRem(a - b, b)
  }

  /** Reference definition: for a non-negative dividend `JsRem` is Dafny's
      Euclidean `%`; for a negative one it is the Euclidean remainder of the
      magnitude, negated. */
  lemma {:induction false} JsRemIsMod(a: int, b: int)
    requires b > 0
    ensures a >= 0 ==> JsRem(a, b) == a % b
    ensures a < 0 ==> JsRem(a, b) == -((-a) % b)
    decreases a < 0, if a < 0 then -a else a
  {
    if a < 0 {
      JsRemIsMod(-a, b);
    } else if a < b {
      ModUnique(a, b, 0, a);
    } else {
      JsRemIsMod(a - b, b);
      ModShift(a - b, b);
    }
  }

  /** `JsRem` is a remainder: it differs from the dividend by a multiple of
      the divisor. With the sign facts above this pins it down as the
      remainder of division truncated toward zero. */
  lemma JsRemIsRemainder(a: int, b: int)
    requires b > 0
    ensures (a - JsRem(a, b)) % b == 0
  {
    JsRemIsMod(a, b);
    if a >= 0 {
      ModUnique(a - a % b, b, a / b, 0);
    } else {
      ModUnique(a + (-a) % b, b, -((-a) / b), 0);
    }
  }

  /** `#getX(x)` on a board `size` columns wide, and equally `#getY(y)` on a
      board `size` rows high: `(size + n) % size` with JavaScript's `%`.
      It lands on the board whenever `size + n` is not negative, in
      particular for every index one step off either edge; further to the
      left the JavaScript remainder goes non-positive. */
  function Wrap(n: int, size: int): (r: int)
    requires size > 0
    ensures -size <= n ==> 0 <= r < size
    ensures n < -size ==> -size < r <= 0
  {
    JsRem(size + n, size)
  }

  /** Where it lands on the board, `Wrap` is the mathematical torus position
      `n mod size`. */
  lemma WrapIsMod(n: int, size: int)
    requires size > 0 && -size <= n
    ensures Wrap(n, size) == n % size
  {
    JsRemIsMod(size + n, size);
    ModShift(n, size);
  }

  /** The neighbours used by the step never leave the board: for
      `-1 <= n <= size` the wrapped index is in range, the two edges wrap onto
      each other and every index already on the board is left alone. */
  lemma WrapEdges(size: int)
    requires size > 0
    ensures Wrap(-1, size) == size - 1
    ensures Wrap(size, size) == 0
    ensures forall n :: -1 <= n <= size ==> 0 <= Wrap(n, size) < size
    ensures forall n :: 0 <= n < size ==> Wrap(n, size) == n
  {
    forall n | 0 <= n < size
      ensures Wrap(n, size) == n
    {
      assert JsRem(size + n, size) == JsRem(n, size);
    }
    assert JsRem(2 * size, size) == JsRem(size, size) == JsRem(0, size);
  }

  lemma MulAtLeast(k: int, d: int)
    requires k >= 1 && d > 0
    ensures k * d >= d
  {
    var j := k - 1;
    assert j * d >= 0;
    assert k * d == j * d + d;
  }

  /** Euclidean division is unique: a quotient and an in-range remainder that
      rebuild `a` are Dafny's `/` and `%`. */
  lemma ModUnique(a: int, d: int, q: int, r: int)
    requires d > 0 && 0 <= r < d && a == q * d + r
    ensures a % d == r && a / d == q
  {
    var q' := a / d;
    var r' := a % d;
    assert a == q' * d + r';
    if q > q' {
      MulAtLeast(q - q', d);
      assert false;
    } else if q < q' {
      MulAtLeast(q' - q, d);
      assert false;
    }
  }

  lemma ModShift(n: int, d: int)
    requires d > 0
    ensures (d + n) % d == n % d
  {
    assert n == (n / d) * d + n % d;
    assert d + n == (n / d + 1) * d + n % d;
    ModUnique(d + n, d, n / d + 1, n % d);
  }
}
