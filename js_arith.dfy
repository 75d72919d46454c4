/**
 * The two pieces of JavaScript number arithmetic the carousel relies on,
 * written out over unbounded integers: the remainder operator `%` and
 * `Math.abs`.
 */
module JsArith {

  /** `Math.abs` on an integer. */
  function Abs(x: int): (r: nat)
    ensures r == x || r == -x
  {
    if x < 0 then -x else x
  }

  /**
   * JavaScript's `%`: the remainder of a division truncated toward zero. The
   * result takes the sign of the dividend and differs from it by a multiple of
   * the divisor (unlike Dafny's Euclidean `%`, whose result is never negative).
   */
  function Rem(a: int, b: int): (r: int)
    requires b != 0
    ensures Abs(r) < Abs(b)
    ensures a >= 0 ==> r >= 0
    ensures a <= 0 ==> r <= 0
    ensures (a - r) % Abs(b) == 0
    ensures a >= 0 && b > 0 ==> r == a % b
  {
    var m := Abs(a) % Abs(b);
    var q := Abs(a) / Abs(b);
    assert Abs(a) == q * Abs(b) + m;
    if a < 0 then
      ModAddMultiple(-q, 0, Abs(b));
      assert a - (-m) == (-q) * Abs(b) + 0;
      -m
    else
      ModAddMultiple(q, 0, Abs(b));
      assert a - m == q * Abs(b) + 0;
      m
  }

  /**
   * The three properties in `Rem`'s contract (bound, sign, congruence) admit
   * exactly one value, so they describe JavaScript's `%` completely.
   */
  lemma RemUnique(a: int, b: int, r': int)
    requires b != 0
    requires Abs(r') < Abs(b)
    requires a > 0 ==> r' >= 0
    requires a < 0 ==> r' <= 0
    requires (a - r') % Abs(b) == 0
    ensures r' == Rem(a, b)
  {
    var r, m := Rem(a, b), Abs(b);
    var q, q' := (a - r) / m, (a - r') / m;
    DivExact(a - r, m);
    DivExact(a - r', m);
    SubMul(q', q, m);
    assert -m < r - r' < m;
    SmallMultiple(q' - q, m);
  }

  /** Multiplication distributes over subtraction. */
  lemma SubMul(x: int, y: int, m: int)
    ensures (x - y) * m == x * m - y * m
  {
  }

  /** A value with remainder 0 is its quotient times the divisor. */
  lemma DivExact(x: int, m: int)
    requires m > 0 && x % m == 0
    ensures x == (x / m) * m
  {
  }

  /** The only multiple of m strictly between -m and m is 0. */
  lemma SmallMultiple(d: int, m: int)
    requires m > 0 && -m < d * m < m
    ensures d == 0
  {
  }

  /** Adding the divisor does not change a Euclidean remainder. */
  lemma ModAddDivisor(x: int, m: int)
    requires m > 0
    ensures (x + m) % m == x % m
  {
    var q, r := x / m, x % m;
    var q', r' := (x + m) / m, (x + m) % m;
    var d := q' - q - 1;
    assert d * m == r - r' by {
      assert x + m == q' * m + r';
      assert x == q * m + r;
      assert d * m == q' * m - q * m - m;
    }
  }

  /** Adding a multiple of the divisor does not change a Euclidean remainder. */
  lemma {:induction false} ModAddMultiple(k: int, x: int, m: int)
    requires m > 0
    ensures (k * m + x) % m == x % m
    decreases if k < 0 then -k else k
  {
    if k > 0 {
      ModAddMultiple(k - 1, x, m);
      ModAddDivisor((k - 1) * m + x, m);
      assert k * m + x == (k - 1) * m + x + m;
    } else if k < 0 {
      ModAddMultiple(k + 1, x, m);
      ModAddDivisor(k * m + x, m);
      assert k * m + x + m == (k + 1) * m + x;
    }
  }

  /** Taking the remainder before adding one does not change the remainder after. */
  lemma ModSucc(y: int, n: int)
    requires n > 0
    ensures (y % n + 1) % n == (y + 1) % n
  {
    ModAddMultiple(y / n, y % n + 1, n);
    assert y + 1 == (y / n) * n + (y % n + 1);
  }

  /** Dafny's `%` leaves a value already in [0, n) alone. */
  lemma ModSmall(x: int, n: int)
    requires 0 <= x < n
    ensures x % n == x
  {
  }

  /** Dafny's `%` brings a value in [n, 2n) down by n. */
  lemma ModShift(x: int, n: int)
    requires n <= x < 2 * n
    ensures x % n == x - n
  {
  }
}
