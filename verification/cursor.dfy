/**
  Circular cursor arithmetic shared by both cover-flow variants.

  The components compute indices with JavaScript's `%`, which truncates toward
  zero: its remainder takes the sign of the dividend. Dafny's `%` is Euclidean,
  so the JavaScript operator is written out here and related to Dafny's.
 */
module CircularCursor {

  /** JavaScript's `a % n` for a positive divisor `n`. */
  function JsRem(a: int, n: int): (r: int)
    requires n > 0
    ensures -n < r < n
    ensures a >= 0 ==> 0 <= r && r == a % n
    ensures a < 0 ==> r <= 0 && r == -((-a) % n)
  {
    if a >= 0 then a % n else -((-a) % n)
  }

  /** A valid cursor into a list of `n` items. */
  predicate ValidIndex(c: int, n: int) {
    0 <= c < n
  }

  /** `(currentIndex + 1) % length`: the cursor after a forward step. */
  function Next(c: int, n: int): (r: int)
    requires ValidIndex(c, n)
    ensures ValidIndex(r, n)
    ensures r == if c == n - 1 then 0 else c + 1
  {
    JsRem(c + 1, n)
  }

  /** `(currentIndex - 1 + length) % length`: the cursor after a backward step. */
  function Prev(c: int, n: int): (r: int)
    requires ValidIndex(c, n)
    ensures ValidIndex(r, n)
    ensures r == if c == 0 then n - 1 else c - 1
  {
    JsRem(c - 1 + n, n)
  }

  /**
    `(currentIndex + offset + length) % length`: the item index shown at a
    window offset. It is negative (JavaScript yields no item) exactly when the
    dividend is negative and not a multiple of `n`.
   */
  function WrapIndex(c: int, offset: int, n: int): (r: int)
    requires n > 0
    ensures -n < r < n
    ensures c + offset + n >= 0 ==> 0 <= r && r == (c + offset + n) % n
  {
    JsRem(c + offset + n, n)
  }

  /** A forward step followed by a backward step returns to the start, and vice versa. */
  lemma NextPrevInverse(c: int, n: int)
    requires ValidIndex(c, n)
    ensures Prev(Next(c, n), n) == c
    ensures Next(Prev(c, n), n) == c
  {
  }

  /** The wrap-around scenario for five items: back from 0 is 4, forward from 4 is 0. */
  lemma WrapAroundFive()
    ensures Prev(0, 5) == 4
    ensures Next(4, 5) == 0
  {
  }

  /**
    For a cursor in range and an offset no further left than the item count,
    the window index is a valid index and is the Euclidean position `c + offset`
    on the circle.
   */
  lemma WrapIndexInRange(c: int, offset: int, n: int)
    requires ValidIndex(c, n)
    requires -n <= offset
    ensures ValidIndex(WrapIndex(c, offset, n), n)
    ensures WrapIndex(c, offset, n) == (c + offset) % n
  {
    ModShift(c + offset, n);
  }

  /** The window index at offset 0 is the cursor itself. */
  lemma WrapIndexZero(c: int, n: int)
    requires ValidIndex(c, n)
    ensures WrapIndex(c, 0, n) == c
  {
    ModUnique(c + 0 + n, n, 1, c);
  }

  /** Adding the modulus does not change the Euclidean remainder. */
  lemma ModShift(a: int, n: int)
    requires n > 0
    ensures (a + n) % n == a % n
  {
    var q, r := a / n, a % n;
    assert a + n == n * (q + 1) + r;
    ModUnique(a + n, n, q + 1, r);
  }

  /** Quotient and remainder are determined by any decomposition `x == n * q + r` with `0 <= r < n`. */
  lemma ModUnique(x: int, n: int, q: int, r: int)
    requires n > 0 && 0 <= r < n
    requires x == n * q + r
    ensures x % n == r
  {
    var q', r' := x / n, x % n;
    assert n * (q - q') == r' - r;
    MultipleBelowModulus(n, q - q');
  }

  /** The only multiple of `n` strictly between `-n` and `n` is zero. */
  lemma MultipleBelowModulus(n: int, d: int)
    requires n > 0 && -n < n * d < n
    ensures d == 0
  {
    if d > 0 {
      assert n * d == n + n * (d - 1);
      MulNonNegative(n, d - 1);
    } else if d < 0 {
      assert n * d == -n - n * (-d - 1);
      MulNonNegative(n, -d - 1);
    }
  }

  /** The product of two non-negative numbers is non-negative. */
  lemma MulNonNegative(a: int, b: int)
    requires a >= 0 && b >= 0
    ensures a * b >= 0
  {
  }

  /** Two non-negative numbers closer than `n` with the same remainder are equal. */
  lemma {:induction false} SameRemainderClose(a: int, b: int, n: int)
    requires n > 0 && a >= 0 && b >= 0
    requires a % n == b % n
    requires -n < a - b < n
    ensures a == b
  {
    var qa, qb := a / n, b / n;
    assert a == n * qa + a % n;
    assert b == n * qb + b % n;
    assert a - b == n * (qa - qb);
    MultipleBelowModulus(n, qa - qb);
  }

  /**
    Within one window of at most `n` consecutive offsets, distinct offsets
    land on distinct items.
   */
  lemma WrapIndexInjective(c: int, o1: int, o2: int, n: int)
    requires ValidIndex(c, n)
    requires c + o1 + n >= 0 && c + o2 + n >= 0
    requires -n < o1 - o2 < n
    requires o1 != o2
    ensures WrapIndex(c, o1, n) != WrapIndex(c, o2, n)
  {
    if WrapIndex(c, o1, n) == WrapIndex(c, o2, n) {
      SameRemainderClose(c + o1 + n, c + o2 + n, n);
    }
  }
}
