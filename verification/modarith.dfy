/**
 Integer facts the operand-stack model needs: C's truncating remainder, the
 two ways `roll` brings its shift into [0, n), Euclid's gcd with Bezout
 coefficients, and the orbits of "add m modulo n" that the chain rotation
 of `roll` follows.

 Dafny's `/` and `%` are Euclidean (the remainder is never negative); C's
 `%` truncates toward zero. `CRem` is the C operator, written out.
 */
module ModArith {

  /* ---------- Euclidean division ---------- */

  lemma MulSign(k: int, n: int)
    requires n > 0
    ensures k >= 1 ==> k * n >= n
    ensures k <= -1 ==> k * n <= -n
  {
    if k >= 1 {
      assert k * n == (k - 1) * n + n;
    } else if k <= -1 {
      assert k * n == (k + 1) * n - n;
    }
  }

  /** The quotient and remainder of Euclidean division are unique. */
  lemma DivModUnique(x: int, n: int, q: int, r: int)
    requires n > 0 && 0 <= r < n && x == q * n + r
    ensures x / n == q && x % n == r
  {
    var q', r' := x / n, x % n;
    assert (q' - q) * n == r - r';
    MulSign(q' - q, n);
  }

  /** Adding a multiple of n changes neither the remainder nor more than the quotient. */
  lemma ModAddMultiple(x: int, q: int, n: int)
    requires n > 0
    ensures (x + q * n) % n == x % n
    ensures (x + q * n) / n == x / n + q
  {
    assert x + q * n == (x / n + q) * n + x % n;
    DivModUnique(x + q * n, n, x / n + q, x % n);
  }

  /** A remainder in [0, n) that differs from x by a multiple of n is x % n. */
  lemma ModFromDifference(x: int, r: int, n: int)
    requires n > 0 && 0 <= r < n && (x - r) % n == 0
    ensures x % n == r
  {
    var q := (x - r) / n;
    assert x - r == q * n;
    DivModUnique(x, n, q, r);
  }

  /** j brought into [0, n) by adding or subtracting whole multiples of n:
      the mathematical j mod n, defined without division so that the
      definitions built on it stay linear. */
  function Wrap(j: int, n: int): int
    requires n > 0
    decreases if j < 0 then n - j else j
  {
    if j < 0 then Wrap(j + n, n)
    else if j >= n then Wrap(j - n, n)
    else j
  }

  /** Wrap is Euclidean remainder. */
  lemma {:induction false} WrapIsMod(j: int, n: int)
    requires n > 0
    ensures Wrap(j, n) == j % n && 0 <= Wrap(j, n) < n
    decreases if j < 0 then n - j else j
  {
    if j < 0 {
      WrapIsMod(j + n, n);
      ModAddMultiple(j, 1, n);
    } else if j >= n {
      WrapIsMod(j - n, n);
      ModAddMultiple(j - n, 1, n);
    } else {
      DivModUnique(j, n, 0, j);
    }
  }

  /* ---------- C's remainder ---------- */

  /** C's `a % n` for a positive n: truncating division, so the remainder
      has the sign of the dividend and is less than n in magnitude. */
  function CRem(a: int, n: int): (r: int)
    requires n > 0
    ensures -n < r < n
    ensures a >= 0 ==> r >= 0
    ensures a < 0 ==> r <= 0
    ensures (a - r) % n == 0
  {
    if a >= 0 then
      (assert a - a % n == (a / n) * n; ModAddMultiple(0, a / n, n);
       a % n)
    else
      (assert a + (-a) % n == -((-a) / n) * n; ModAddMultiple(0, -((-a) / n), n);
       -((-a) % n))
  }

  /** The shift normalisation of the multi-block path of `roll`
      (zstack.c lines 135-142): reduce a shift past the window, and fold a
      negative one, whose C remainder may still be negative, back into range. */
  function NormalizeChainShift(j: int, count: int): (m: int)
    requires count > 0
    ensures 0 <= m < count
    ensures m == j % count
  {
    if j >= count then
      var r := CRem(j, count);
      ModFromDifference(j, r, count);
      r
    else if j < 0 then
      var r := CRem(j, count);
      if r < 0 then
        ModAddMultiple(j - (r + count), 1, count);
        ModFromDifference(j, r + count, count);
        r + count
      else
        ModFromDifference(j, r, count);
        r
    else
      ModFromDifference(j, j, count);
      j
  }

  /** The shift normalisation of the single-block path of `roll`
      (zstack.c lines 204-212): one added `count` first, and only if that is
      not enough, the C remainder and its correction. */
  function NormalizeBlockShift(j: int, count: int): (m: int)
    requires count > 0
    ensures 0 <= m < count
    ensures m == j % count
  {
    if j < 0 then
      var m1 := j + count;
      ModAddMultiple(j, 1, count);
      if m1 < 0 then
        var m2 := CRem(m1, count);
        if m2 < 0 then
          ModAddMultiple(m1 - (m2 + count), 1, count);
          ModFromDifference(m1, m2 + count, count);
          m2 + count
        else
          ModFromDifference(m1, m2, count);
          m2
      else
        ModFromDifference(m1, m1, count);
        m1
    else if j >= count then
      var r := CRem(j, count);
      ModFromDifference(j, r, count);
      r
    else
      ModFromDifference(j, j, count);
      j
  }

  /* ---------- gcd and Bezout ---------- */

  /** Euclid's algorithm; Gcd(n, 0) == n. */
  function Gcd(a: nat, b: nat): nat
    decreases b
  {
    if b == 0 then a else Gcd(b, a % b)
  }

  /** A common divisor of b and a mod b divides a. */
  lemma DividesThroughRemainder(a: int, b: int, g: int)
    requires b > 0 && g > 0 && b % g == 0 && (a % b) % g == 0
    ensures a % g == 0
  {
    var kb, kr := b / g, (a % b) / g;
    assert b == kb * g;
    assert a % b == kr * g;
    assert a == (a / b) * b + a % b;
    MulAssoc(a / b, kb, g);
    MulDistAdd((a / b) * kb, kr, g);
    assert a == ((a / b) * kb + kr) * g;
    DivModUnique(a, g, (a / b) * kb + kr, 0);
  }

  /** The gcd of two numbers, not both zero, is positive and divides both. */
  lemma {:induction false} GcdDivides(a: nat, b: nat)
    requires a > 0 || b > 0
    ensures Gcd(a, b) > 0 && a % Gcd(a, b) == 0 && b % Gcd(a, b) == 0
    decreases b
  {
    if b == 0 {
      DivModUnique(a, a, 1, 0);
      DivModUnique(0, a, 0, 0);
    } else {
      GcdDivides(b, a % b);
      DividesThroughRemainder(a, b, Gcd(b, a % b));
    }
  }

  /** Extended Euclid: coefficients x, y with x*a + y*b == Gcd(a, b). */
  function Bezout(a: nat, b: nat): (c: (int, int))
    ensures c.0 * a + c.1 * b == Gcd(a, b)
    decreases b
  {
    if b == 0 then (1, 0)
    else
      var c' := Bezout(b, a % b);
      var x, y := c'.0, c'.1;
      assert a % b == a - (a / b) * b;
      assert y * (a % b) == y * a - (y * (a / b)) * b;
      (y, x - y * (a / b))
  }

  /* ---------- orbits of "add m modulo n" ---------- */

  /** The position reached from i after t steps of "add m, modulo n". */
  function Orbit(n: int, m: int, i: int, t: nat): int
    requires n > 0
  {
    (i + t * m) % n
  }

  /** Reducing the first summand modulo n first does not change the sum modulo n. */
  lemma ModOfSum(x: int, m: int, y: int, n: int)
    requires n > 0 && y == x + m
    ensures y % n == (x % n + m) % n
  {
    assert y == (x % n + m) + (x / n) * n;
    ModAddMultiple(x % n + m, x / n, n);
  }

  /** One more step of the orbit is one more "add m, modulo n". */
  lemma OrbitStep(n: int, m: int, i: int, t: nat)
    requires n > 0
    ensures Orbit(n, m, i, t + 1) == (Orbit(n, m, i, t) + m) % n
  {
    var x, y := i + t * m, i + (t + 1) * m;
    assert y == x + m by {
      MulDistAdd(t, 1, m);
    }
    ModOfSum(x, m, y, n);
    assert Orbit(n, m, i, t) == x % n && Orbit(n, m, i, t + 1) == y % n;
  }

  /* Ring identities, stated once so that each nonlinear step names the one it uses. */

  lemma MulAssoc(a: int, b: int, c: int)
    ensures a * (b * c) == (a * b) * c
  {
  }

  lemma MulDistSub(a: int, b: int, c: int)
    ensures (a - b) * c == a * c - b * c
  {
  }

  lemma MulDistAdd(a: int, b: int, c: int)
    ensures (a + b) * c == a * c + b * c
  {
  }

  /** A positive factor can be cancelled. */
  lemma MulCancel(a: int, b: int, g: int)
    requires g > 0 && a * g == b * g
    ensures a == b
  {
    MulDistSub(a, b, g);
    MulSign(a - b, g);
  }

  /** A multiple of g is its quotient times g; a positive one has a
      positive quotient. */
  lemma Quotient(x: int, g: int)
    requires g > 0 && x % g == 0
    ensures x == (x / g) * g
    ensures x > 0 ==> x / g > 0
  {
    assert x == (x / g) * g + x % g;
    MulSign(x / g, g);
  }

  /** The gcd splits n and m into cofactors N and M. */
  lemma Cofactors(n: int, m: int)
    requires 0 <= m < n
    ensures Gcd(n, m) > 0
    ensures n == (n / Gcd(n, m)) * Gcd(n, m) && n / Gcd(n, m) > 0
    ensures m == (m / Gcd(n, m)) * Gcd(n, m)
  {
    GcdDivides(n, m);
    Quotient(n, Gcd(n, m));
    Quotient(m, Gcd(n, m));
  }

  /** Stepping by a multiple of g modulo a multiple of g keeps the residue
      modulo g. */
  lemma ResidueKept(n: int, m: int, g: int, N: int, M: int, i: int, t: int)
    requires n > 0 && g > 0 && n == N * g && m == M * g
    ensures ((i + t * m) % n) % g == i % g
  {
    var x := i + t * m;
    var Q := x / n;
    assert x == Q * n + x % n;
    MulAssoc(t, M, g);
    MulAssoc(Q, N, g);
    MulDistSub(t * M, Q * N, g);
    assert x % n == i + (t * M - Q * N) * g;
    ModAddMultiple(i, t * M - Q * N, g);
  }

  /** Every position of an orbit stays in the residue class of its start modulo g. */
  lemma OrbitClass(n: int, m: int, i: int, t: nat)
    requires 0 <= m < n
    ensures Gcd(n, m) > 0
    ensures Orbit(n, m, i, t) % Gcd(n, m) == i % Gcd(n, m)
  {
    Cofactors(n, m);
    var g := Gcd(n, m);
    ResidueKept(n, m, g, n / g, m / g, i, t);
  }

  /** After n / g steps an orbit is back at its start. */
  lemma OrbitPeriod(n: int, m: int, i: int)
    requires 0 <= m < n && 0 <= i < n
    ensures Gcd(n, m) > 0 && n % Gcd(n, m) == 0
    ensures Orbit(n, m, i, n / Gcd(n, m)) == i
  {
    GcdDivides(n, m);
    Cofactors(n, m);
    var g := Gcd(n, m);
    var N, M := n / g, m / g;
    MulAssoc(N, M, g);
    MulAssoc(M, N, g);
    assert N * m == M * n;
    ModAddMultiple(i, M, n);
    DivModUnique(i, n, 0, i);
  }

  /** Bezout's identity scaled by s, when s*m is a multiple q of n. */
  lemma BezoutScaled(s: int, X: int, Y: int, n: int, m: int, q: int, g: int)
    requires X * n + Y * m == g && s * m == q * n
    ensures s * g == (s * X + Y * q) * n
  {
    calc {
      s * g;
      s * (X * n + Y * m);
      { MulDistAdd(X * n, Y * m, s); }
      s * (X * n) + s * (Y * m);
      { MulAssoc(s, X, n); MulAssoc(s, Y, m); MulAssoc(Y, s, m); }
      (s * X) * n + Y * (s * m);
      { MulAssoc(Y, q, n); }
      (s * X) * n + (Y * q) * n;
      { MulDistAdd(s * X, Y * q, n); }
      (s * X + Y * q) * n;
    }
  }

  /** Equal remainders modulo n: the difference is q * n. */
  lemma ModEqualDiff(x1: int, x2: int, n: int)
    requires n > 0 && x1 % n == x2 % n
    ensures x2 - x1 == (x2 / n - x1 / n) * n
  {
    assert x1 == (x1 / n) * n + x1 % n;
    assert x2 == (x2 / n) * n + x2 % n;
    MulDistSub(x2 / n, x1 / n, n);
  }

  /** With X*n + Y*m == g, two step counts whose positions agree modulo n
      differ by a multiple of N == n / g. */
  lemma RepeatPeriod(n: int, m: int, g: int, N: int, X: int, Y: int, i: int, t1: int, t2: int)
    requires n > 0 && g > 0 && N > 0 && n == N * g && X * n + Y * m == g
    requires (i + t1 * m) % n == (i + t2 * m) % n
    ensures (t2 - t1) % N == 0
  {
    var x1, x2 := i + t1 * m, i + t2 * m;
    var s := t2 - t1;
    var q := x2 / n - x1 / n;
    assert s * m == q * n by {
      ModEqualDiff(x1, x2, n);
      MulDistSub(t2, t1, m);
    }
    var k := s * X + Y * q;
    assert s * g == (k * N) * g by {
      BezoutScaled(s, X, Y, n, m, q, g);
      MulAssoc(k, N, g);
    }
    assert s == k * N by {
      MulCancel(s, k * N, g);
    }
    assert (0 + k * N) % N == 0 by {
      ModAddMultiple(0, k, N);
    }
  }

  /** Two step counts that reach the same position differ by a multiple of the period n / g. */
  lemma OrbitRepeat(n: int, m: int, i: int, t1: nat, t2: nat)
    requires 0 <= m < n && t1 <= t2
    requires Orbit(n, m, i, t1) == Orbit(n, m, i, t2)
    ensures Gcd(n, m) > 0 && n / Gcd(n, m) > 0
    ensures (t2 - t1) % (n / Gcd(n, m)) == 0
  {
    Cofactors(n, m);
    var g := Gcd(n, m);
    var c := Bezout(n, m);
    RepeatPeriod(n, m, g, n / g, c.0, c.1, i, t1, t2);
  }

  /** Within one period the orbit never repeats a position. */
  lemma OrbitInjective(n: int, m: int, i: int, t1: nat, t2: nat)
    requires 0 <= m < n
    requires Gcd(n, m) > 0
    requires t1 < n / Gcd(n, m) && t2 < n / Gcd(n, m)
    requires Orbit(n, m, i, t1) == Orbit(n, m, i, t2)
    ensures t1 == t2
  {
    var N := n / Gcd(n, m);
    if t1 <= t2 {
      OrbitRepeat(n, m, i, t1, t2);
      DivModUnique(t2 - t1, N, 0, t2 - t1);
    } else {
      OrbitRepeat(n, m, i, t2, t1);
      DivModUnique(t1 - t2, N, 0, t1 - t2);
    }
  }

  /** Every position in the residue class of i modulo g is reached from i
      within one period: the number of steps that reaches it. */
  function OrbitIndex(n: int, m: int, i: int, d: int): (t: nat)
    requires 0 <= m < n && 0 <= d < n
    requires Gcd(n, m) > 0 && d % Gcd(n, m) == i % Gcd(n, m)
    ensures t < n / Gcd(n, m)
    ensures Orbit(n, m, i, t) == d
  {
    Cofactors(n, m);
    var g := Gcd(n, m);
    var xy := Bezout(n, m);
    var t := ((d / g - i / g) * xy.1) % (n / g);
    StepsToReach(n, m, g, n / g, m / g, xy.0, xy.1, i, d, t);
    t
  }

  /** The algebra behind OrbitIndex: with c*g == d - i and Bezout's
      X*n + Y*m == g, stepping t == c*Y - h*N times moves by d - i plus a
      multiple of n. */
  lemma OrbitIndexAlgebra(c: int, g: int, d: int, i: int, X: int, Y: int,
                          n: int, m: int, N: int, M: int, h: int, t: int)
    requires d - i == c * g && X * n + Y * m == g
    requires n == N * g && m == M * g
    requires t == c * Y - h * N
    ensures t * m == (d - i) - (c * X + h * M) * n
  {
    calc {
      t * m;
      (c * Y - h * N) * m;
      { MulDistSub(c * Y, h * N, m); }
      (c * Y) * m - (h * N) * m;
      { MulAssoc(h, N, m); MulAssoc(N, M, g); MulAssoc(M, N, g); MulAssoc(h, M, n); }
      (c * Y) * m - (h * M) * n;
      { MulAssoc(c, Y, m); }
      c * (Y * m) - (h * M) * n;
      c * (g - X * n) - (h * M) * n;
      { MulDistSub(g, X * n, c); MulAssoc(c, X, n); }
      c * g - (c * X) * n - (h * M) * n;
      { MulDistAdd(c * X, h * M, n); }
      (d - i) - (c * X + h * M) * n;
    }
  }

  /** A step count whose total displacement lands on d up to a multiple of n reaches d. */
  lemma OrbitLands(n: int, m: int, i: int, d: int, t: int, k: int)
    requires n > 0 && 0 <= d < n && i + t * m == d + k * n
    ensures (i + t * m) % n == d
  {
    ModAddMultiple(d, k, n);
    DivModUnique(d, n, 0, d);
  }

  /** With Bezout coefficients X, Y for n and m (X*n + Y*m == g), the step
      count ((d - i)/g * Y) mod N takes i to d, for d in i's class. */
  lemma StepsToReach(n: int, m: int, g: int, N: int, M: int, X: int, Y: int, i: int, d: int, t: int)
    requires g > 0 && N > 0 && n == N * g && m == M * g && X * n + Y * m == g
    requires 0 <= d < n && d % g == i % g
    requires t == ((d / g - i / g) * Y) % N
    ensures t >= 0 && (i + t * m) % n == d
  {
    var c := d / g - i / g;
    var cy := c * Y;
    var h := cy / N;
    var e := c * X + h * M;
    assert t * m == (d - i) - e * n by {
      ModEqualDiff(i, d, g);
      assert cy == h * N + t;
      OrbitIndexAlgebra(c, g, d, i, X, Y, n, m, N, M, h, t);
    }
    assert i + t * m == d + (0 - e) * n by {
      MulDistSub(0, e, n);
    }
    OrbitLands(n, m, i, d, t, 0 - e);
  }
}
