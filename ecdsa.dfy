/** ECDSA signing and verification as the source writes them (`signing`, `verifying`),
    after sections 4.1.3 and 4.1.4 of SEC 1 v2.0, with the source's deviations kept:
    the message is used as an integer without hashing, `r` and `s` are not range-checked,
    and the verifier compares `r` with the unreduced x-coordinate of `X`. */
module Ecdsa {
  import opened Wrappers
  import opened JsArith
  import opened ModularInverse
  import opened CurveGroup

  /** The pair `[r, s]`; a component is `None` where the source computes `NaN`. */
  datatype Signature = Signature(r: Option<int>, s: Option<int>)

  /** `signing`: `r = (k·G).x % order` and `s = (k⁻¹·(message + privKey·r)) % order`.
      `r` is `NaN` when `k·G` is the identity or `NaN`; `s` is `NaN` as well when `k` has
      no inverse modulo `order`. */
  function Signing(G: Point, p: int, a: int, order: int, privKey: int, message: int, k: int)
    : (signed: Signature)
    requires p > 0 && order > 0
    ensures signed.r.Some? <==> Multiply(G, k, p, a).Some? && Multiply(G, k, p, a).value.Affine?
    ensures signed.r.Some? ==> signed.r.value % order == Multiply(G, k, p, a).value.x % order
    ensures signed.s.Some? <==> signed.r.Some? && Inverse(k, order).Some?
    ensures signed.s.Some? ==>
      (signed.s.value * k - (message + privKey * signed.r.value)) % order == 0
  {
    var kTimesBase := Multiply(G, k, p, a);
    var r := match kTimesBase
      case Some(Affine(x, _)) => Some(JsRem(x, order))
      case _ => None;
    match Inverse(k, order)
    case Some(kInverse) =>
      if r.Some? then
        var t := message + privKey * r.value;
        var s := JsRem(kInverse * t, order);
        assert kInverse * t == t * kInverse;
        QuotientProperty(t, k, kInverse, s, order);
        Signature(r, Some(s))
      else
        Signature(r, None)
    case None =>
      Signature(r, None)
  }

  /** For a normalised base point and non-negative key and message, both halves of the
      signature lie in `[0, order)`. */
  lemma SigningInRange(G: Point, p: int, a: int, order: int, privKey: int, message: int, k: int)
    requires p > 0 && order > 0 && Normalised(G, p) && privKey >= 0 && message >= 0
    ensures var signed := Signing(G, p, a, order, privKey, message, k);
      (signed.r.Some? ==> 0 <= signed.r.value < order) &&
      (signed.s.Some? ==> 0 <= signed.s.value < order)
  {
    var signed := Signing(G, p, a, order, privKey, message, k);
    if signed.s.Some? {
      var r, kInverse := signed.r.value, Inverse(k, order).value;
      assert 0 <= r;
      MulNonNegative(privKey, r);
      MulNonNegative(kInverse, message + privKey * r);
    }
  }

  lemma MulNonNegative(x: int, y: int)
    requires 0 <= x && 0 <= y
    ensures 0 <= x * y
  {
  }

  /** Signing twice with the same nonce `k` reveals it: both signatures share `r`, and
      `(s1 - s2)·k ≡ message1 - message2`; then `privKey·r ≡ s1·k - message1` gives the key. */
  lemma NonceReuse(G: Point, p: int, a: int, order: int, privKey: int,
                   message1: int, message2: int, k: int)
    requires p > 0 && order > 0
    requires Signing(G, p, a, order, privKey, message1, k).s.Some?
    ensures var s1 := Signing(G, p, a, order, privKey, message1, k);
      var s2 := Signing(G, p, a, order, privKey, message2, k);
      s2.s.Some? && s1.r == s2.r &&
      ((s1.s.value - s2.s.value) * k - (message1 - message2)) % order == 0 &&
      (privKey * s1.r.value - (s1.s.value * k - message1)) % order == 0
  {
    var s1 := Signing(G, p, a, order, privKey, message1, k);
    var s2 := Signing(G, p, a, order, privKey, message2, k);
    SharedNonceArith(s1.s.value, s2.s.value, k, message1, message2, privKey, s1.r.value, order);
  }

  lemma SharedNonceArith(s1: int, s2: int, k: int, message1: int, message2: int,
                         privKey: int, r: int, order: int)
    requires order > 0
    requires (s1 * k - (message1 + privKey * r)) % order == 0
    requires (s2 * k - (message2 + privKey * r)) % order == 0
    ensures ((s1 - s2) * k - (message1 - message2)) % order == 0
    ensures (privKey * r - (s1 * k - message1)) % order == 0
  {
    var e1, e2 := s1 * k - (message1 + privKey * r), s2 * k - (message2 + privKey * r);
    ModDiff(e1, e2, order);
    assert e1 - e2 == (s1 - s2) * k - (message1 - message2);
    ModMul(e1, 0, -1, order);
    assert e1 * (-1) == privKey * r - (s1 * k - message1);
  }

  /** A `pointAdd` whose arguments may be `[NaN, NaN]`: a `NaN` argument gives `NaN`. */
  function AddResults(X: Option<Point>, Y: Option<Point>, p: int, a: int): (Z: Option<Point>)
    requires p > 0
    ensures X.None? || Y.None? ==> Z.None?
  {
    if X.Some? && Y.Some? then Add(X.value, Y.value, p, a) else None
  }

  /** The point `X = u1·G + u2·pubKey` of `verifying`, with `w = s⁻¹ mod order`,
      `u1 = (w·message) % order` and `u2 = (w·r) % order`. When `s` has no inverse, `u1`
      and `u2` are `NaN`, `pointMulti`'s loop does not run, and `X = G + pubKey`. */
  function VerifierPoint(G: Point, order: int, pubKey: Point, r: int, s: Option<int>,
                         message: int, p: int, a: int): (X: Option<Point>)
    requires p > 0 && order > 0
    ensures Normalised(G, p) && Normalised(pubKey, p) && X.Some? ==> Normalised(X.value, p)
  {
    var sInverse := if s.Some? then Inverse(s.value, order) else None;
    match sInverse
    case None => Add(G, pubKey, p, a)
    case Some(w) =>
      var u1 := JsRem(w * message, order);
      var u2 := JsRem(w * r, order);
      AddResults(Multiply(G, u1, p, a), Multiply(pubKey, u2, p, a), p, a)
  }

  /** `verifying`: accepts exactly when `r` equals the x-coordinate of `X` as it stands,
      without reducing it modulo `order`. A `NaN` `r` is equal to nothing. For a normalised
      base point and key, an accepted `r` is therefore a field element in `[0, p)`. */
  function Verifying(G: Point, order: int, pubKey: Point, signed: Signature,
                     message: int, p: int, a: int): (valid: bool)
    requires p > 0 && order > 0
    ensures valid ==> signed.r.Some?
    ensures valid && Normalised(G, p) && Normalised(pubKey, p) ==> 0 <= signed.r.value < p
  {
    match signed.r
    case None => false
    case Some(r) =>
      var X := VerifierPoint(G, order, pubKey, r, signed.s, message, p, a);
      X.Some? && X.value.Affine? && X.value.x == r
  }

  /** The scalar identity behind ECDSA: for a signature made with key `privKey` and nonce
      `k`, the verifier's scalars satisfy `u1 + privKey·u2 ≡ k (mod order)`, so that
      `X = u1·G + u2·(privKey·G)` is `k·G` in a group where `G` has order `order`. */
  lemma VerificationScalars(G: Point, p: int, a: int, order: int, privKey: int,
                            message: int, k: int)
    requires p > 0 && order > 0
    requires var signed := Signing(G, p, a, order, privKey, message, k);
      signed.s.Some? && Inverse(signed.s.value, order).Some?
    ensures var signed := Signing(G, p, a, order, privKey, message, k);
      var w := Inverse(signed.s.value, order).value;
      (JsRem(w * message, order) + privKey * JsRem(w * signed.r.value, order)) % order
        == k % order
  {
    var signed := Signing(G, p, a, order, privKey, message, k);
    var s := signed.s.value;
    ScalarsArith(s, Inverse(s, order).value, k, message, privKey, signed.r.value, order);
  }

  lemma ScalarsArith(s: int, w: int, k: int, message: int, privKey: int, r: int, order: int)
    requires order > 0 && IsInverse(s % order, w, order)
    requires (s * k - (message + privKey * r)) % order == 0
    ensures (JsRem(w * message, order) + privKey * JsRem(w * r, order)) % order == k % order
  {
    var t := message + privKey * r;
    ScalarsCombine(w, message, privKey, r, order);
    InverseCancels(s, w, k, t, order);
  }

  /** `u1 + privKey·u2 ≡ w·(message + privKey·r)`. */
  lemma ScalarsCombine(w: int, message: int, privKey: int, r: int, order: int)
    requires order > 0
    ensures (JsRem(w * message, order) + privKey * JsRem(w * r, order)) % order
      == (w * (message + privKey * r)) % order
  {
    var u1, u2 := JsRem(w * message, order), JsRem(w * r, order);
    var wm, wr := w * message, w * r;
    ModMul(u2, wr, privKey, order);
    ModAdd(u1, wm, u2 * privKey, order);
    ModAdd(u2 * privKey, wr * privKey, wm, order);
    assert wm + wr * privKey == w * (message + privKey * r);
    assert privKey * u2 == u2 * privKey;
  }

  /** From `t ≡ s·k` and `w·s ≡ 1`: `w·t ≡ k`. */
  lemma InverseCancels(s: int, w: int, k: int, t: int, order: int)
    requires order > 0 && IsInverse(s % order, w, order) && (s * k - t) % order == 0
    ensures (w * t) % order == k % order
  {
    var sk := s * k;
    ModDiff(sk, t, order);
    ModMul(t, sk, w, order);
    var sm := s % order;
    ModCanonical(sm, order);
    ModMul(sm, s, w, order);
    var sw := s * w;
    ModCanonical(1, order);
    ModMul(sw, 1, k, order);
    assert sk * w == sw * k;
    assert t * w == w * t;
  }

  /** `verifying` with the comparison of its last step made modulo `order`, as section
      4.1.4 of SEC 1 v2.0 specifies: it accepts every signature the source accepts. */
  function VerifyingReduced(G: Point, order: int, pubKey: Point, signed: Signature,
                            message: int, p: int, a: int): (valid: bool)
    requires p > 0 && order > 0
    ensures Verifying(G, order, pubKey, signed, message, p, a) ==> valid
    ensures valid ==> signed.r.Some?
  {
    match signed.r
    case None => false
    case Some(r) =>
      var X := VerifierPoint(G, order, pubKey, r, signed.s, message, p, a);
      X.Some? && X.value.Affine? && X.value.x % order == r % order
  }

  /** Where the group law gives `X = k·G`, the reduced comparison accepts the signature,
      while the source's comparison accepts it only when `(k·G).x` is already below `order`. */
  lemma RoundTripGivenGroupLaw(G: Point, p: int, a: int, order: int, privKey: int,
                               message: int, k: int, pubKey: Point)
    requires p > 0 && order > 0 && Normalised(G, p)
    requires var signed := Signing(G, p, a, order, privKey, message, k);
      signed.s.Some? &&
      VerifierPoint(G, order, pubKey, signed.r.value, signed.s, message, p, a)
        == Multiply(G, k, p, a)
    ensures var signed := Signing(G, p, a, order, privKey, message, k);
      VerifyingReduced(G, order, pubKey, signed, message, p, a) &&
      (Verifying(G, order, pubKey, signed, message, p, a) <==>
         Multiply(G, k, p, a).value.x < order)
  {
    var R := Multiply(G, k, p, a).value;
    ModCanonical(R.x % order, order);
    if R.x < order {
      ModCanonical(R.x, order);
    }
  }
}
