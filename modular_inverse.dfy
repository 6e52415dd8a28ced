/** `findInverse`: the multiplicative inverse of `n` modulo `p`, found by scanning
    `x = 1, 2, ..., p - 1` upward for the first `x` with `n·x ≡ 1 (mod p)`. */
module ModularInverse {
  import opened Wrappers
  import opened JsArith

  /** `x` is an inverse of the residue `m` that the scan can return. */
  predicate IsInverse(m: int, x: int, p: int)
    requires p > 0
  {
    1 <= x < p && (m * x) % p == 1
  }

  /** The scan of the source's `for` loop from `x = from` on: the first inverse of `m`
      in `[from, p)`, or `None` when the loop runs out. */
  function InverseFrom(m: int, p: int, from: int): Option<int>
    requires p > 0 && 1 <= from
    decreases p - from
  {
    if from >= p then None
    else if (m * from) % p == 1 then Some(from)
    else InverseFrom(m, p, from + 1)
  }

  /** The scan returns the least inverse at or above `from`, and `None` only when there is
      none there. */
  lemma {:induction false} InverseFromLeast(m: int, p: int, from: int)
    requires p > 0 && 1 <= from
    decreases p - from
    ensures var r := InverseFrom(m, p, from);
      (r.Some? ==> from <= r.value && IsInverse(m, r.value, p)) &&
      (r.Some? ==> forall y :: from <= y < r.value ==> !IsInverse(m, y, p)) &&
      (r.None? ==> forall y :: from <= y ==> !IsInverse(m, y, p))
  {
    if from < p && (m * from) % p != 1 {
      InverseFromLeast(m, p, from + 1);
    }
  }

  /** What `findInverse(n, p)` returns: the least `x` in `[1, p)` with
      `((n mod p)·x) mod p == 1`, or `None` (the source's `undefined`) when there is none. */
  function Inverse(n: int, p: int): (r: Option<int>)
    requires p > 0
    ensures r.Some? ==> IsInverse(n % p, r.value, p)
    ensures r.Some? ==> forall y :: 1 <= y < r.value ==> !IsInverse(n % p, y, p)
    ensures r.None? <==> forall y :: !IsInverse(n % p, y, p)
  {
    InverseFromLeast(n % p, p, 1);
    InverseFrom(n % p, p, 1)
  }

  /** `findInverse` as written: lift a negative `n` by adding `p`, reduce it, then scan. */
  method FindInverse(n: int, p: int) returns (r: Option<int>)
    requires p > 0
    ensures r == Inverse(n, p)
  {
    var m := n;
    while m < 0
      invariant m % p == n % p
      decreases -m
    {
      ModAddMultiple(m, 1, p);
      m := m + p;
    }
    m := m % p;
    assert m % p == n % p by { ModCanonical(m, p); }
    var x := 1;
    while x < p
      invariant 1 <= x && (x <= p || x == 1)
      invariant InverseFrom(m, p, x) == Inverse(n, p)
    {
      if (m * x) % p == 1 {
        return Some(x);
      }
      x := x + 1;
    }
    return None;
  }

  /** Any integer inverse of `n`, in range or not, means the scan succeeds. */
  lemma InverseExistsFromAny(n: int, u: int, p: int)
    requires p > 0 && (n * u) % p == 1
    ensures Inverse(n, p).Some?
  {
    var x, m := u % p, n % p;
    ModCanonical(m, p);
    ModCanonical(x, p);
    ModMul(n, m, u, p);
    var mu, mx := m * u, m * x;
    assert mu == u * m && mx == x * m;
    ModMul(u, x, m, p);
    assert mx % p == 1;
    assert IsInverse(m, x, p);
  }

  /** A residue `≡ 0 (mod p)` has no inverse; `findInverse` falls off its loop. */
  lemma InverseOfZero(n: int, p: int)
    requires p > 0 && n % p == 0
    ensures Inverse(n, p) == None
  {
    forall y ensures !IsInverse(n % p, y, p) {
      assert (n % p) * y == 0;
    }
  }

  /** A common factor `c > 1` of `n` and `p` rules the inverse out. */
  lemma {:induction false} NoInverseWithCommonFactor(n: int, p: int, c: int)
    requires p > 0 && c > 1 && n % c == 0 && p % c == 0
    ensures Inverse(n, p) == None
  {
    forall y ensures !IsInverse(n % p, y, p) {
      CommonFactorBlocks(n, y, p, c);
    }
  }

  lemma CommonFactorBlocks(n: int, x: int, p: int, c: int)
    requires p > 0 && c > 1 && n % c == 0 && p % c == 0
    ensures ((n % p) * x) % p != 1
  {
    var m := n % p;
    var mx := m * x;
    if mx % p == 1 {
      // c divides m = n - (n / p)·p, hence m·x; and m·x - 1 is a multiple of p, so c divides 1
      var pc, q := p / c, mx / p;
      assert p == pc * c;
      assert m == n + (-(n / p) * pc) * c;
      ModAddMultiple(n, -(n / p) * pc, c);
      ModMul(m, 0, x, c);
      assert mx == q * p + 1;
      assert 1 == mx + (-(q * pc)) * c;
      ModAddMultiple(mx, -(q * pc), c);
      ModCanonical(1, c);
      assert false;
    }
  }

  /** The inverse of `-n` exists exactly when that of `n` does. */
  lemma InverseNegate(n: int, p: int)
    requires p > 0
    ensures Inverse(n, p).Some? <==> Inverse(-n, p).Some?
  {
    if Inverse(n, p).Some? {
      var x := Inverse(n, p).value;
      NegatedInverse(n, x, p);
      InverseExistsFromAny(-n, p - x, p);
    }
    if Inverse(-n, p).Some? {
      var x := Inverse(-n, p).value;
      NegatedInverse(-n, x, p);
      InverseExistsFromAny(n, p - x, p);
    }
  }

  lemma NegatedInverse(n: int, x: int, p: int)
    requires p > 0 && IsInverse(n % p, x, p)
    ensures ((-n) * (p - x)) % p == 1
  {
    var m := n % p;
    ModCanonical(m, p);
    ModMul(m, n, x, p);
    var t := n * x;
    assert t % p == 1;
    assert (-n) * (p - x) == t + (-n) * p;
    ModAddMultiple(t, -n, p);
  }

  /** Every inverse the scan returns is congruent to every other inverse of `n`. */
  lemma InverseCongruent(n: int, u: int, p: int)
    requires p > 0 && Inverse(n, p).Some? && (n * u) % p == 1
    ensures Inverse(n, p).value % p == u % p
  {
    var x := Inverse(n, p).value;
    // x ≡ x·(n·u) = u·(n·x) ≡ u
    var m := n % p;
    ModCanonical(m, p);
    ModMul(m, n, x, p);
    var nx, nu := n * x, n * u;
    assert nx % p == 1 && nu % p == 1;
    ModCanonical(1, p);
    ModMul(nx, 1, u, p);
    ModMul(nu, 1, x, p);
    assert nx * u == nu * x;
  }

  /** An inverse in `[1, p)` is unique: whenever `x` is one, `findInverse` returns `x`. */
  lemma InverseUnique(n: int, x: int, p: int)
    requires p > 0 && 1 <= x < p && (n * x) % p == 1
    ensures Inverse(n, p) == Some(x)
  {
    InverseExistsFromAny(n, x, p);
    InverseCongruent(n, x, p);
    ModCanonical(x, p);
    ModCanonical(Inverse(n, p).value, p);
  }

  /** `g` times `den` is `num` modulo `p`: `g` is the quotient `num / den` in Z_p. */
  lemma QuotientProperty(num: int, den: int, i: int, g: int, p: int)
    requires p > 0 && IsInverse(den % p, i, p) && g % p == (num * i) % p
    ensures (g * den - num) % p == 0
  {
    var m, di, ni, gd := den % p, den * i, num * i, g * den;
    ModCanonical(m, p);
    ModMul(m, den, i, p);
    assert di % p == 1;
    ModCanonical(1, p);
    ModMul(di, 1, num, p);
    ModMul(g, ni, den, p);
    assert ni * den == di * num by { MulRotate(num, i, den); }
    assert gd % p == num % p;
    ModAdd(gd, num, -num, p);
  }

  /** A quotient by an invertible `den` is unique modulo `p`. */
  lemma QuotientUnique(g: int, g': int, den: int, num: int, p: int)
    requires p > 0 && Inverse(den, p).Some?
    requires (g * den - num) % p == 0 && (g' * den - num) % p == 0
    ensures g % p == g' % p
  {
    var i := Inverse(den, p).value;
    var gd, gd', di := g * den, g' * den, den * i;
    ModDiff(gd, num, p);
    ModDiff(gd', num, p);
    ModMul(gd, gd', i, p);
    var m := den % p;
    ModCanonical(m, p);
    ModMul(m, den, i, p);
    assert di % p == 1;
    ModCanonical(1, p);
    ModMul(di, 1, g, p);
    ModMul(di, 1, g', p);
    MulRearrange(g, den, i);
    MulRearrange(g', den, i);
  }

  lemma MulRearrange(g: int, den: int, i: int)
    ensures (g * den) * i == (den * i) * g
  {
  }

  /** `d` divides `x`. */
  predicate Divides(d: int, x: int)
    requires d > 0
  {
    x % d == 0
  }

  /** `p` is prime: greater than 1, with no divisor strictly between 1 and `p`. */
  predicate IsPrime(p: int)
  {
    p > 1 && forall d :: 1 < d < p ==> !Divides(d, p)
  }

  /** The extended Euclidean algorithm: a common divisor `g` of `x` and `y` with Bézout
      coefficients, `x·u + y·v == g`. */
  ghost function Bezout(x: int, y: int): (r: (int, int, int))
    requires 0 <= x && 0 <= y && 0 < x + y
    decreases y
    ensures var (g, u, v) := r;
      g > 0 && Divides(g, x) && Divides(g, y) && x * u + y * v == g
  {
    if y == 0 then
      DivModUnique(x, x, 1, 0);
      DivModUnique(0, x, 0, 0);
      (x, 1, 0)
    else
      var (g, u, v) := Bezout(y, x % y);
      EuclidStep(x, y, g, u, v);
      (g, v, u - (x / y) * v)
  }

  /** One step of Euclid: what divides `y` and `x % y` divides `x`, and the coefficients
      for `(y, x % y)` give coefficients for `(x, y)`. */
  lemma EuclidStep(x: int, y: int, g: int, u: int, v: int)
    requires 0 <= x && 0 < y && g > 0
    requires Divides(g, y) && Divides(g, x % y) && y * u + (x % y) * v == g
    ensures Divides(g, x) && x * v + y * (u - (x / y) * v) == g
  {
    var q, r := x / y, x % y;
    assert x == q * y + r;
    var yg, rg := y / g, r / g;
    assert y == yg * g && r == rg * g;
    assert x == (q * yg + rg) * g;
    DivModUnique(x, g, q * yg + rg, 0);
    assert x * v + y * (u - q * v) == y * u + (x - q * y) * v;
  }

  /** For a prime modulus, exactly the multiples of `p` have no inverse: every other `n`
      makes `findInverse` succeed. */
  lemma InverseExistsForPrime(n: int, p: int)
    requires IsPrime(p) && n % p != 0
    ensures Inverse(n, p).Some?
  {
    var m := n % p;
    var (g, u, v) := Bezout(m, p);
    // g divides p, so g is 1 or p; g divides m with 0 < m < p, so g < p
    if g > m {
      DivModUnique(m, g, 0, m);
      assert false;
    }
    if g != 1 {
      assert false;
    }
    assert m * u + p * v == 1;
    ModAddMultiple(m * u, v, p);
    ModCanonical(1, p);
    ModCanonical(m, p);
    ModMul(m, n, u, p);
    InverseExistsFromAny(n, u, p);
  }
}
