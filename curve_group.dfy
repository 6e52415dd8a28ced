/** The group of points of `y² = x³ + a·x + b` over the integers modulo `p`, as the
    source computes it: `findGradient`, `pointAdd`, `pointMulti` and `generateKey`.
    The constant `b` is never read by any of them and does not appear here. */
module CurveGroup {
  import opened Wrappers
  import opened JsArith
  import opened ModularInverse

  /** A point as the source stores it: `[x, y]`, or `[Infinity, Infinity]` for the
      identity. A computation that produces `[NaN, NaN]` is `None` of an `Option<Point>`. */
  datatype Point = Infinity | Affine(x: int, y: int)

  /** Both coordinates lie in `[0, p)`, as `pointAdd` leaves them. */
  predicate Normalised(P: Point, p: int)
  {
    P.Infinity? || (0 <= P.x < p && 0 <= P.y < p)
  }

  /** The source's test for inverse points: the same `x` and `y2 == p - y1`, with no
      reduction modulo `p` (so it never fires for `y1 == 0`). */
  predicate IsNegation(P: Point, Q: Point, p: int)
  {
    P.Affine? && Q.Affine? && P.x == Q.x && Q.y == p - P.y
  }

  /** The group inverse of a normalised point: `(x, -y mod p)`. */
  function Negate(P: Point, p: int): (N: Point)
    requires p > 0
  {
    if P.Infinity? then Infinity else Affine(P.x, (p - P.y) % p)
  }

  /** `findGradient`: the slope of the chord through two points with different `x`, or of
      the tangent at a point added to itself; `None` when the inverse it needs does not
      exist or when the points share `x` but differ in `y` (the source has no final `else`). */
  function FindGradient(P: Point, Q: Point, p: int, a: int): (g: Option<int>)
    requires p > 0 && P.Affine? && Q.Affine?
    ensures g.Some? ==> -p < g.value < p
    ensures g.Some? && P.x != Q.x ==> (g.value * (Q.x - P.x) - (Q.y - P.y)) % p == 0
    ensures g.Some? && P.x == Q.x ==> P == Q && (g.value * (2 * P.y) - (3 * P.x * P.x + a)) % p == 0
    ensures g.None? <==>
      if P.x != Q.x then Inverse(Q.x - P.x, p).None?
      else P.y != Q.y || Inverse(2 * P.y, p).None?
  {
    if P.x != Q.x then
      match Inverse(Q.x - P.x, p)
      case None => None
      case Some(i) =>
        var g := JsRem((Q.y - P.y) * i, p);
        QuotientProperty(Q.y - P.y, Q.x - P.x, i, g, p);
        Some(g)
    else if P.y == Q.y then
      match Inverse(2 * P.y, p)
      case None => None
      case Some(i) =>
        var g := JsRem((3 * P.x * P.x + a) * i, p);
        QuotientProperty(3 * P.x * P.x + a, 2 * P.y, i, g, p);
        Some(g)
    else
      None
  }

  /** What `pointAdd` returns: the identity cases, the inverse-point case (tested first),
      and otherwise the chord-and-tangent formulas `x3 = λ² - x1 - x2`,
      `y3 = λ·(x1 - x3) - y1`, both reduced into `[0, p)`. */
  function Add(P: Point, Q: Point, p: int, a: int): (R: Option<Point>)
    requires p > 0
    ensures IsNegation(P, Q, p) ==> R == Some(Infinity)
    ensures P.Infinity? ==> R == Some(Q)
    ensures Q.Infinity? ==> R == Some(P)
    ensures P.Affine? && Q.Affine? && !IsNegation(P, Q, p) ==>
      (R.None? <==> FindGradient(P, Q, p, a).None?) &&
      (R.Some? ==> R.value.Affine? && Normalised(R.value, p))
  {
    if IsNegation(P, Q, p) then Some(Infinity)
    else if P.Infinity? then Some(Q)
    else if Q.Infinity? then Some(P)
    else
      match FindGradient(P, Q, p, a)
      case None => None
      case Some(l) =>
        var x3 := (l * l - P.x - Q.x) % p;
        Some(Affine(x3, (l * (P.x - x3) - P.y) % p))
  }

  /** `pointAdd` as written: JavaScript's truncating `%` may leave `x3` and `y3` negative,
      and two `while` loops add `p` until they are not; `y3` is computed from the
      unnormalised `x3`. The result is exactly `Add`. */
  method PointAdd(P: Point, Q: Point, p: int, a: int) returns (R: Option<Point>)
    requires p > 0
    ensures R == Add(P, Q, p, a)
  {
    if IsNegation(P, Q, p) {
      return Some(Infinity);
    } else if P.Infinity? {
      return Some(Q);
    } else if Q.Infinity? {
      return Some(P);
    }
    var gradient := FindGradient(P, Q, p, a);
    if gradient.None? {
      return None;
    }
    var l := gradient.value;
    var x3 := JsRem(l * l - P.x - Q.x, p);
    var y3 := JsRem(l * (P.x - x3) - P.y, p);
    ghost var x3Raw := x3;
    while x3 < 0
      invariant x3 < p
      invariant x3 % p == (l * l - P.x - Q.x) % p
      decreases -x3
    {
      ModAddMultiple(x3, 1, p);
      x3 := x3 + p;
    }
    while y3 < 0
      invariant y3 < p
      invariant y3 % p == (l * (P.x - x3Raw) - P.y) % p
      decreases -y3
    {
      ModAddMultiple(y3, 1, p);
      y3 := y3 + p;
    }
    ModCanonical(x3, p);
    ModCanonical(y3, p);
    // y3 was computed from x3Raw, which is congruent to the normalised x3
    ShiftedAbscissa(l, P.x, P.y, x3, x3Raw, p);
    R := Some(Affine(x3, y3));
  }

  lemma ShiftedAbscissa(l: int, x1: int, y1: int, x3: int, x3Raw: int, p: int)
    requires p > 0 && x3 % p == x3Raw % p
    ensures (l * (x1 - x3Raw) - y1) % p == (l * (x1 - x3) - y1) % p
  {
    var d := x3 - x3Raw;
    ModDiff(x3, x3Raw, p);
    var q := d / p;
    assert d == q * p;
    assert l * (x1 - x3Raw) - y1 == (l * (x1 - x3) - y1) + (l * q) * p;
    ModAddMultiple(l * (x1 - x3) - y1, l * q, p);
  }

  /** `pointAdd` does not depend on the order of its arguments. */
  lemma AddCommutative(P: Point, Q: Point, p: int, a: int)
    requires p > 0
    ensures Add(P, Q, p, a) == Add(Q, P, p, a)
  {
    if P.Affine? && Q.Affine? && !IsNegation(P, Q, p) && P.x != Q.x {
      ChordSlopesAgree(P, Q, p, a);
      var g := FindGradient(P, Q, p, a);
      if g.Some? {
        ChordSymmetric(g.value, FindGradient(Q, P, p, a).value, P.x, P.y, Q.x, Q.y, p);
      }
    }
  }

  /** The chord slope from `P` to `Q` and from `Q` to `P` exist together and agree mod `p`. */
  lemma ChordSlopesAgree(P: Point, Q: Point, p: int, a: int)
    requires p > 0 && P.Affine? && Q.Affine? && P.x != Q.x
    ensures FindGradient(P, Q, p, a).Some? <==> FindGradient(Q, P, p, a).Some?
    ensures FindGradient(P, Q, p, a).Some? ==>
      FindGradient(P, Q, p, a).value % p == FindGradient(Q, P, p, a).value % p
  {
    var d, dy := Q.x - P.x, Q.y - P.y;
    InverseNegate(d, p);
    assert P.x - Q.x == -d;
    var g, g' := FindGradient(P, Q, p, a), FindGradient(Q, P, p, a);
    if g.Some? {
      var l, l' := g.value, g'.value;
      // l' · (-d) ≡ -dy, hence l' · d ≡ dy, the same equation l solves
      var e := l' * (-d) - (-dy);
      assert e % p == 0;
      ModMul(e, 0, -1, p);
      assert e * (-1) == l' * d - dy;
      QuotientUnique(l, l', d, dy, p);
    }
  }

  /** With congruent slopes `l`, `l'` of the chord through `(x1, y1)` and `(x2, y2)`, the
      formulas of `pointAdd` give the same point in either order. */
  lemma ChordSymmetric(l: int, l': int, x1: int, y1: int, x2: int, y2: int, p: int)
    requires p > 0 && l % p == l' % p && (l * (x2 - x1) - (y2 - y1)) % p == 0
    ensures (l * l - x1 - x2) % p == (l' * l' - x2 - x1) % p
    ensures var x3 := (l * l - x1 - x2) % p;
      (l * (x1 - x3) - y1) % p == (l' * (x2 - x3) - y2) % p
  {
    var ll, ll', lm := l * l, l' * l', l' * l;
    ModMul(l, l', l, p);
    ModMul(l, l', l', p);
    assert lm == l * l';
    ModAdd(ll, ll', -x1 - x2, p);
    var x3 := (l * l - x1 - x2) % p;
    var u, u' := l * (x2 - x3), l' * (x2 - x3);
    ModMul(l, l', x2 - x3, p);
    ModAdd(u, u', -y2, p);
    // the two y-formulas differ by -(l·(x2 - x1) - (y2 - y1)), a multiple of p
    var e := l * (x2 - x1) - (y2 - y1);
    assert (l * (x1 - x3) - y1) - (u - y2) == -e;
    ModMul(e, 0, -1, p);
    ModDiff(l * (x1 - x3) - y1, u - y2, p);
  }

  /** A normalised point plus its negation is the identity, except a point with `y == 0`. */
  lemma AddNegation(P: Point, p: int, a: int)
    requires p > 0 && Normalised(P, p) && (P.Affine? ==> P.y != 0)
    ensures Add(P, Negate(P, p), p, a) == Some(Infinity)
  {
    if P.Affine? {
      ModCanonical(p - P.y, p);
    }
  }

  /** A point with `y == 0` is its own negation, yet the source's inverse-point test
      misses it and the doubling formula needs the inverse of `0`: the sum is `[NaN, NaN]`. */
  lemma AddTwoTorsion(x: int, p: int, a: int)
    requires p > 0
    ensures Add(Affine(x, 0), Affine(x, 0), p, a) == None
  {
    InverseOfZero(0, p);
  }

  /** What `pointMulti(P, k)` returns: `P` added to itself `k - 1` times, one step at a
      time; any `k <= 1` leaves `P` unchanged, and a `NaN` point stays `NaN`. */
  function Multiply(P: Point, k: int, p: int, a: int): (R: Option<Point>)
    requires p > 0
    decreases k
    ensures k <= 1 ==> R == Some(P)
    ensures P.Infinity? ==> R == Some(Infinity)
    ensures Normalised(P, p) && R.Some? ==> Normalised(R.value, p)
  {
    if k <= 1 then Some(P)
    else
      match Multiply(P, k - 1, p, a)
      case None => None
      case Some(T) => Add(T, P, p, a)
  }

  /** `pointMulti` as written: a `for` loop that adds `P` to an accumulator `scalar - 1`
      times. */
  method PointMulti(P: Point, p: int, a: int, scalar: int) returns (R: Option<Point>)
    requires p > 0
    ensures R == Multiply(P, scalar, p, a)
  {
    R := Some(P);
    var i := 0;
    while i < scalar - 1
      invariant 0 <= i && (i <= scalar - 1 || i == 0)
      invariant R == Multiply(P, i + 1, p, a)
    {
      if R.Some? {
        R := PointAdd(R.value, P, p, a);
      }
      i := i + 1;
    }
  }

  /** Once the accumulator of `pointMulti` is `[NaN, NaN]`, it stays so. */
  lemma {:induction false} MultiplyNaNAbsorbs(P: Point, k: int, j: int, p: int, a: int)
    requires p > 0 && k <= j && Multiply(P, k, p, a).None?
    ensures Multiply(P, j, p, a).None?
    decreases j - k
  {
    if k < j {
      MultiplyNaNAbsorbs(P, k, j - 1, p, a);
    }
  }

  /** `generateKey`: the public key is `privKey · G`, by `pointMulti`. */
  function GenerateKey(privKey: int, G: Point, p: int, a: int): (pubKey: Option<Point>)
    requires p > 0
    ensures privKey <= 1 ==> pubKey == Some(G)
    ensures Normalised(G, p) && pubKey.Some? ==> Normalised(pubKey.value, p)
  {
    Multiply(G, privKey, p, a)
  }
}
