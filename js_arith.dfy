/** Integer arithmetic as the source's JavaScript performs it, and the modular
    congruence facts the rest of the model reasons with. Dafny's `%` is Euclidean
    (never negative); JavaScript's `%` truncates toward zero. */
module JsArith {

  /** JavaScript's `a % b` for a positive divisor: the remainder takes the sign of `a`. */
  function JsRem(a: int, b: int): (r: int)
    requires b > 0
    ensures -b < r < b
    ensures a >= 0 ==> 0 <= r
    ensures a <= 0 ==> r <= 0
    ensures r % b == a % b
  {
    if a >= 0 then a % b
    else
      var q, t := (-a) / b, (-a) % b;
      assert -a == q * b + t;
      assert -t == a + q * b;
      ModAddMultiple(a, q, b);
      -t
  }

  /** Euclidean division is determined by its quotient and remainder. */
  lemma DivModUnique(a: int, b: int, q: int, r: int)
    requires b > 0 && 0 <= r < b && a == q * b + r
    ensures a / b == q && a % b == r
  {
    var q', r' := a / b, a % b;
    assert a == q' * b + r';
    assert (q' - q) * b == r - r';
    if q' > q {
      MulAtLeast(q' - q, b);
      assert false;
    } else if q' < q {
      MulAtLeast(q - q', b);
      assert false;
    }
  }

  lemma MulAtLeast(n: int, b: int)
    requires n >= 1 && b > 0
    ensures n * b >= b
  {
  }

  /** Adding a multiple of the modulus does not change the residue. */
  lemma ModAddMultiple(x: int, q: int, b: int)
    requires b > 0
    ensures (x + q * b) % b == x % b
  {
    DivModUnique(x + q * b, b, x / b + q, x % b);
  }

  /** Congruence is preserved by multiplication. */
  lemma ModMul(x: int, y: int, c: int, b: int)
    requires b > 0 && x % b == y % b
    ensures (x * c) % b == (y * c) % b
  {
    var r := x % b;
    assert x * c == r * c + ((x / b) * c) * b;
    assert y * c == r * c + ((y / b) * c) * b;
    ModAddMultiple(r * c, (x / b) * c, b);
    ModAddMultiple(r * c, (y / b) * c, b);
  }

  /** Congruence is preserved by addition. */
  lemma ModAdd(x: int, y: int, c: int, b: int)
    requires b > 0 && x % b == y % b
    ensures (x + c) % b == (y + c) % b
  {
    var r := x % b;
    assert x + c == (r + c) + (x / b) * b;
    assert y + c == (r + c) + (y / b) * b;
    ModAddMultiple(r + c, x / b, b);
    ModAddMultiple(r + c, y / b, b);
  }

  /** Two residues that agree modulo `b` and both lie in `[0, b)` are equal. */
  lemma ModCanonical(x: int, b: int)
    requires b > 0 && 0 <= x < b
    ensures x % b == x
  {
    DivModUnique(x, b, 0, x);
  }

  /** Two integers have the same residue exactly when their difference is a multiple. */
  lemma ModDiff(x: int, y: int, b: int)
    requires b > 0
    ensures (x - y) % b == 0 <==> x % b == y % b
  {
    if (x - y) % b == 0 {
      ModAdd(x - y, 0, y, b);
    }
    if x % b == y % b {
      ModAdd(x, y, -y, b);
    }
  }

  lemma MulRotate(x: int, y: int, z: int)
    ensures (x * y) * z == (z * y) * x
  {
  }
}
