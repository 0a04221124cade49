/** Integer division and remainder as C++ computes them on signed integers:
    the quotient is truncated toward zero and the remainder takes the sign of
    the dividend. Dafny's own `/` and `%` are Euclidean, so every place where
    the repository divides a value that may be negative goes through here. */
module CppArith {

  function Abs(a: int): (r: nat)
    ensures r == a || r == -a
  {
    if a < 0 then -a else a
  }

  /** C++ `a / b`. */
  function Div(a: int, b: int): (q: int)
    requires b != 0
    ensures 0 <= a && 0 < b ==> q == a / b
  {
    if (a < 0) == (b < 0) then Abs(a) / Abs(b) else -(Abs(a) / Abs(b))
  }

  /** C++ `a % b`. */
  function Rem(a: int, b: int): (r: int)
    requires b != 0
    ensures 0 <= a && 0 < b ==> r == a % b
    ensures Abs(r) < Abs(b)
    ensures r == 0 || (r < 0 <==> a < 0)
  {
    if a >= 0 then a % Abs(b) else -((-a) % Abs(b))
  }

  /** The two agree with each other as C++ requires:
      `(a / b) * b + a % b == a`. */
  lemma {:induction false} DivRemIdentity(a: int, b: int)
    requires b != 0
    ensures Div(a, b) * b + Rem(a, b) == a
  {
    var m: int, n: int := Abs(a), Abs(b);
    assert m == (m / n) * n + m % n;
    if a >= 0 && b > 0 {
    } else if a >= 0 {
      assert Div(a, b) * b == (m / n) * n;
    } else if b > 0 {
      assert Div(a, b) * b == -((m / n) * n);
    } else {
      assert Div(a, b) * b == -((m / n) * n);
    }
  }

  /** Truncation is symmetric about zero, unlike Euclidean division. */
  lemma {:induction false} DivNegate(a: int, b: int)
    requires b != 0
    ensures Div(-a, b) == -Div(a, b)
  {
    assert Abs(-a) == Abs(a);
    if a == 0 {
      assert Div(-a, b) == 0 == Div(a, b);
    } else if (a < 0) == (b < 0) {
      assert (-a < 0) != (b < 0);
    } else {
      assert (-a < 0) == (b < 0);
    }
  }

  /** Euclidean division is determined by its defining equation. */
  lemma ModUnique(x: int, n: int, q: int, r: int)
    requires n > 0 && 0 <= r < n && x == q * n + r
    ensures x % n == r && x / n == q
  {
    var q', r' := x / n, x % n;
    assert x == q' * n + r';
    if q' > q {
      assert (q' - q) * n == r - r';
      MulAtLeast(q' - q, n);
    } else if q' < q {
      assert (q - q') * n == r' - r;
      MulAtLeast(q - q', n);
    }
  }

  /** A product is zero exactly when a factor is. */
  lemma ProductZero(a: int, b: int)
    ensures a >= 0 && b >= 0 ==> a * b >= 0
    ensures a * b == 0 <==> a == 0 || b == 0
  {
    if a > 0 && b > 0 {
      MulAtLeast(a, b);
    } else if a < 0 && b < 0 {
      MulAtLeast(-a, -b);
      assert a * b == (-a) * (-b);
    } else if a > 0 && b < 0 {
      MulAtLeast(a, -b);
      assert a * b == -(a * (-b));
    } else if a < 0 && b > 0 {
      MulAtLeast(-a, b);
      assert a * b == -((-a) * b);
    }
  }

  lemma MulAtLeast(d: int, n: int)
    requires d >= 1 && n > 0
    ensures d * n >= n
  {
  }
}
