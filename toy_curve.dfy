/** Evaluations of the model on small curves, checkable by hand. */
module ToyCurve {
  import opened Wrappers
  import opened ModularInverse
  import opened CurveGroup
  import opened Ecdsa

  /** The inverse of 2 modulo 17 is 9: 2·9 = 18 ≡ 1. */
  lemma InverseOfTwoMod17()
    ensures Inverse(2, 17) == Some(9)
  {
  }

  // The curve y² = x³ + 2x + 2 over Z_17, base point G = (5, 1) of order 19.

  /** The tangent at `G` has slope `(3·25 + 2)·9 mod 17 = 13`. */
  lemma TangentAtBasePoint()
    ensures FindGradient(Affine(5, 1), Affine(5, 1), 17, 2) == Some(13)
  {
  }

  /** Doubling `G = (5, 1)` gives `(6, 3)`. */
  lemma DoubleBasePoint()
    ensures Multiply(Affine(5, 1), 2, 17, 2) == Some(Affine(6, 3))
  {
    TangentAtBasePoint();
  }

  // The curve y² = x³ + 2x + 1 over Z_5, base point G = (0, 1) of order 7.

  /** The slopes met below; JavaScript's `%` leaves one of them negative. */
  lemma Slopes5()
    ensures FindGradient(Affine(0, 1), Affine(0, 1), 5, 2) == Some(1)
    ensures FindGradient(Affine(1, 3), Affine(0, 1), 5, 2) == Some(-3)
    ensures FindGradient(Affine(0, 1), Affine(1, 3), 5, 2) == Some(2)
  {
  }

  /** Key 2, message 3 and nonce 3: the public key is `2·G = (1, 3)`, `3·G = (3, 3)`, the
      signature is `[3, 3]`, and it verifies (`w = 5`, `u1 = u2 = 1`, `X = G + Q = (3, 3)`). */
  lemma SignThenVerify()
    ensures GenerateKey(2, Affine(0, 1), 5, 2) == Some(Affine(1, 3))
    ensures Multiply(Affine(0, 1), 3, 5, 2) == Some(Affine(3, 3))
    ensures Signing(Affine(0, 1), 5, 2, 7, 2, 3, 3) == Signature(Some(3), Some(3))
    ensures Verifying(Affine(0, 1), 7, Affine(1, 3), Signature(Some(3), Some(3)), 3, 5, 2)
  {
    Slopes5();
    assert Multiply(Affine(0, 1), 2, 5, 2) == Some(Affine(1, 3));
    assert Multiply(Affine(0, 1), 3, 5, 2) == Some(Affine(3, 3));
    InverseUnique(3, 5, 7);
    assert Add(Affine(0, 1), Affine(1, 3), 5, 2) == Some(Affine(3, 3));
  }

  // The curve y² = x³ + x + 7 over Z_11, base point G = (1, 3) of order 5 < 11.

  /** The slopes met below. */
  lemma Slopes11()
    ensures FindGradient(Affine(1, 3), Affine(1, 3), 11, 1) == Some(8)
    ensures FindGradient(Affine(7, 4), Affine(1, 3), 11, 1) == Some(-9)
    ensures FindGradient(Affine(1, 3), Affine(7, 4), 11, 1) == Some(2)
  {
    InverseUnique(6, 2, 11);
    InverseUnique(-6, 9, 11);
  }

  /** Key 2, message 2 and nonce 3: `R = 3·G = (7, 7)`, so `r = 7 % 5 = 2` and the
      signature is `[2, 2]`; the verifier computes `X = G + Q = (7, 7) = R`, yet the
      source compares `2` with `7` and rejects, while the reduced comparison accepts. */
  lemma UnreducedComparisonRejects()
    ensures GenerateKey(2, Affine(1, 3), 11, 1) == Some(Affine(7, 4))
    ensures Multiply(Affine(1, 3), 3, 11, 1) == Some(Affine(7, 7))
    ensures Signing(Affine(1, 3), 11, 1, 5, 2, 2, 3) == Signature(Some(2), Some(2))
    ensures !Verifying(Affine(1, 3), 5, Affine(7, 4), Signature(Some(2), Some(2)), 2, 11, 1)
    ensures VerifyingReduced(Affine(1, 3), 5, Affine(7, 4), Signature(Some(2), Some(2)), 2, 11, 1)
  {
    Slopes11();
    assert Multiply(Affine(1, 3), 2, 11, 1) == Some(Affine(7, 4));
    assert Multiply(Affine(1, 3), 3, 11, 1) == Some(Affine(7, 7));
    InverseUnique(3, 2, 5);
    InverseUnique(2, 3, 5);
    assert Add(Affine(1, 3), Affine(7, 4), 11, 1) == Some(Affine(7, 7));
  }
}
