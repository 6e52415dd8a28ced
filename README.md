# ECDSA over a toy prime field, in Dafny

This project models `ECDSA.js`, a small JavaScript implementation of elliptic-curve
arithmetic and ECDSA. Its curve is `y² = x³ + a·x + b` over the integers modulo a prime
`p`. The modelled functions are:

- `findInverse`: modular inverse by linear search.
- `findGradient`: slope of a chord or tangent.
- `pointAdd`: point addition.
- `pointMulti`: scalar multiplication by repeated addition.
- `generateKey`, `signing` and `verifying`.

The model keeps the source's own behaviour, including its quirks:

- JavaScript's `%` truncates toward zero. It is modelled by `JsArith.JsRem`, wherever the
  source uses it.
- `undefined` and `NaN` are modelled as `Option.None`. An inverse that does not exist
  makes the slope `NaN`. The sum is then `[NaN, NaN]`, and `NaN` absorbs every later
  addition.
- `pointMulti` treats every scalar `≤ 1` (including `0`, negatives and `NaN`) as `1`. It
  returns the point itself.
- The inverse-point test of `pointAdd` is `y2 == p - y1`, without reduction. A point with
  `y == 0` therefore falls through to the doubling formula and yields `[NaN, NaN]`.
- The verifier compares `r` with the unreduced `x`-coordinate of `X` (see Findings).

The core is organised as follows:

- Module `ModularInverse` covers `findInverse`. Module `CurveGroup` covers `findGradient`,
  `pointAdd`, `pointMulti` and `generateKey`. Module `Ecdsa` covers `signing` and
  `verifying`.
- The three functions with loops are methods. Each is proved equal to a specification
  function:
  - `FindInverse` to `Inverse`;
  - `PointAdd` to `Add`;
  - `PointMulti` to `Multiply`.
- The properties are stated as lemmas about those functions.
- Module `ToyCurve` evaluates the model on small curves, with values checkable by hand.
- Module `Wrappers` holds `Option`. Module `JsArith` holds the JavaScript remainder and
  congruence facts.

## Model

| member | source | states |
|---|---|---|
| JsArith.JsRem | ECDSA.js:65-66 | JavaScript `a % b` for `b > 0`: the result lies strictly between `-b` and `b`, has the sign of `a`, and is congruent to `a` modulo `b` |
| ModularInverse.Inverse | ECDSA.js:11-19 | `findInverse(n, p)` is the least `x` in `[1, p)` with `((n mod p)·x) mod p == 1`; it is `undefined` exactly when no such `x` exists |
| ModularInverse.InverseFromLeast | ECDSA.js:14-18 | the `for` loop started at `x = from` returns the least inverse at or above `from`, and runs out only when there is none there |
| ModularInverse.FindInverse | ECDSA.js:11-19 | the `while` loop that lifts a negative `n` by `p`, the reduction and the scan together return exactly `Inverse(n, p)` |
| ModularInverse.InverseExistsFromAny | ECDSA.js:14-18 | if any integer `u` has `n·u ≡ 1 (mod p)`, the scan finds an inverse |
| ModularInverse.InverseOfZero | ECDSA.js:13-19 | a multiple of `p` has no inverse: the loop falls through and returns `undefined` |
| ModularInverse.NoInverseWithCommonFactor | ECDSA.js:14-19 | if `n` and `p` share a factor `c > 1`, `findInverse` returns `undefined` |
| ModularInverse.InverseExistsForPrime | ECDSA.js:14-18 | for a prime `p`, every `n` that is not a multiple of `p` has an inverse; with `InverseOfZero` this makes the failure case exactly `n ≡ 0` |
| ModularInverse.InverseNegate | ECDSA.js:11-13 | `-n` has an inverse exactly when `n` has one |
| ModularInverse.InverseCongruent | ECDSA.js:14-18 | the inverse found is congruent modulo `p` to every integer inverse of `n` |
| ModularInverse.InverseUnique | ECDSA.js:14-18 | whenever `x` in `[1, p)` satisfies `n·x ≡ 1`, `findInverse` returns that `x` |
| ModularInverse.QuotientProperty | ECDSA.js:33 | `g ≡ num·den⁻¹` implies `g·den ≡ num (mod p)`: the product with the inverse is a quotient |
| ModularInverse.QuotientUnique | ECDSA.js:33 | the quotient by an invertible `den` is unique modulo `p` |
| CurveGroup.FindGradient | ECDSA.js:28-42 | the slope lies in `(-p, p)` (truncating `%`). For distinct `x` it solves `λ·(x2 - x1) ≡ y2 - y1`. For equal points it solves `λ·2y ≡ 3x² + a`. It is `NaN` exactly when the needed inverse is missing or when the points share `x` but differ in `y` |
| CurveGroup.Add | ECDSA.js:53-71 | the inverse-point test comes first and gives the identity; then the identity cases return the other point; otherwise the result is `NaN` exactly when the slope is, and else a point with both coordinates in `[0, p)` |
| CurveGroup.PointAdd | ECDSA.js:53-71 | the truncating remainders followed by the two `while` loops that add `p` (with `y3` computed from the unnormalised `x3`) yield exactly `Add` |
| CurveGroup.AddCommutative | ECDSA.js:53-71 | `pointAdd(P, Q) == pointAdd(Q, P)` for all points, `NaN` results included |
| CurveGroup.ChordSlopesAgree | ECDSA.js:30-33 | the chord slopes from `P` to `Q` and from `Q` to `P` exist together and agree modulo `p` |
| CurveGroup.ChordSymmetric | ECDSA.js:65-66 | with congruent chord slopes, the `x3`/`y3` formulas give the same point whichever argument comes first |
| CurveGroup.AddNegation | ECDSA.js:54-55 | a normalised point plus `(x, (p - y) mod p)` is the identity whenever `y != 0` |
| CurveGroup.AddTwoTorsion | ECDSA.js:36-39 | a point with `y == 0` added to itself is `[NaN, NaN]`, since the inverse-point test misses it and `2·0` has no inverse |
| CurveGroup.Multiply | ECDSA.js:82-90 | `pointMulti(P, k)` returns `P` for every `k ≤ 1`, keeps the identity, and keeps results normalised when `P` is |
| CurveGroup.PointMulti | ECDSA.js:82-90 | the `for` loop that adds `P` to the accumulator `scalar - 1` times returns exactly `Multiply(P, scalar)` |
| CurveGroup.MultiplyNaNAbsorbs | ECDSA.js:84-85 | once the accumulator is `[NaN, NaN]`, every larger scalar gives `[NaN, NaN]` too |
| CurveGroup.GenerateKey | ECDSA.js:100-102 | the public key is `pointMulti(G, privKey)`: `G` itself for keys `≤ 1`, and normalised when `G` is |
| Ecdsa.Signing | ECDSA.js:116-125 | `r` exists exactly when `k·G` is an affine point, and `r ≡ (k·G).x (mod order)`; `s` exists exactly when `r` does and `k` is invertible modulo `order`; then `s·k ≡ message + privKey·r (mod order)` |
| Ecdsa.SigningInRange | ECDSA.js:120-121 | for a normalised `G` and non-negative key and message, `r` and `s` both lie in `[0, order)` |
| Ecdsa.NonceReuse | ECDSA.js:118-123 | two signatures with the same nonce share `r` and satisfy `(s1 - s2)·k ≡ m1 - m2`; then `privKey·r ≡ s1·k - m1` (mod `order`) reveals the key |
| Ecdsa.AddResults | ECDSA.js:143 | a `[NaN, NaN]` argument of the final `pointAdd` gives `[NaN, NaN]` |
| Ecdsa.VerifierPoint | ECDSA.js:140-143 | `X = u1·G + u2·pubKey`, with `G + pubKey` when `s` has no inverse (`NaN` scalars leave `pointMulti` at its argument); `X` is normalised when `G` and `pubKey` are |
| Ecdsa.Verifying | ECDSA.js:139-150 | acceptance requires a number `r` equal to `X.x`; for normalised `G` and `pubKey`, an accepted `r` therefore lies in `[0, p)` |
| Ecdsa.VerificationScalars | ECDSA.js:140-142 | for a signature made with `privKey` and `k`, the verifier's scalars satisfy `u1 + privKey·u2 ≡ k (mod order)` |
| Ecdsa.VerifyingReduced | ECDSA.js:145 | the comparison made modulo `order` accepts every signature the source accepts |
| Ecdsa.RoundTripGivenGroupLaw | ECDSA.js:145 | when `X == k·G`, the reduced verifier accepts, and the source's verifier accepts exactly when `(k·G).x < order` |
| ToyCurve.InverseOfTwoMod17 | ECDSA.js:188 | `findInverse(2, 17) == 9` |
| ToyCurve.TangentAtBasePoint | ECDSA.js:36-39 | on `y² = x³ + 2x + 2` mod 17, the tangent at `(5, 1)` has slope 13 |
| ToyCurve.DoubleBasePoint | ECDSA.js:82-90 | on the same curve, `pointMulti((5, 1), 2) == (6, 3)` |
| ToyCurve.Slopes5 | ECDSA.js:28-42 | on `y² = x³ + 2x + 1` mod 5, the three slopes met while signing, one of them negative through the truncating `%` |
| ToyCurve.SignThenVerify | ECDSA.js:167-169 | on the mod-5 curve with key 2, message 3 and nonce 3: the public key is `(1, 3)`, the signature is `[3, 3]`, and it verifies |
| ToyCurve.Slopes11 | ECDSA.js:28-42 | on `y² = x³ + x + 7` mod 11, the three slopes met in the next example |
| ToyCurve.UnreducedComparisonRejects | ECDSA.js:145 | on the mod-11 curve, an honestly made signature is rejected by the source's comparison and accepted by the reduced one |

## Left out

- The demonstration at lines 153-190 (fixed curve parameters, `console.log` output) is
  not modelled. `ToyCurve` evaluates the same functions on smaller curves instead.
- JavaScript numbers are IEEE doubles. The model uses unbounded integers, so the loss of
  precision above 2^53 (for example in `message + privKey * r` on large curves) is not
  modelled.
- `NaN` or `undefined` as an argument of a modelled function is not modelled (a `NaN`
  coordinate in `pubKey`, `G` or the message). A `NaN` point that the model produces is
  `None`, and its propagation is modelled.
- The function parameters (`findGradient`, `pointAdd`, `pointMulti`) are always passed
  the module's own functions, so the model calls them directly.
- The constant `b` is never read by the modelled functions, so it is absent, and so is
  curve membership.
- `p > 0` and `order > 0` are required of callers. With `p ≤ 0`, the first loop of
  `findInverse` never ends for a negative `n`.
- The group law (associativity of `pointAdd` and closure of the curve) is not proved.
  Hence there is no unconditional `verifying(signing(...))` round trip.
- CurveGroup.Multiply: states the step-by-step definition and its closure facts, not
  that the result is `k·P` in the group, which needs associativity.
- CurveGroup.GenerateKey: states only what `Multiply` gives; the public key being
  `privKey·G` in the group is left to the group law.
- Ecdsa.Verifying: states what an accepted signature satisfies. Acceptance of honest
  signatures is proved only conditionally, in `Ecdsa.RoundTripGivenGroupLaw`, under the
  group-law equation `X == k·G`.
- Ecdsa.AddResults: states only the propagation of `NaN`; otherwise it is `Add`.
- The worked example on `y² = x³ + 2x + 2` mod 17 stops at `2·G`. Longer chains of
  additions evaluated symbolically are too slow to verify.
- Running time of the linear-search inverse and of repeated addition is not modelled.

## Findings

| source | as written | input that shows it | evidently intended | confidence | as-written member | corrected member |
|---|---|---|---|---|---|---|
| ECDSA.js:145 | `verifying` compares `r`, which signing reduced modulo `order`, with the unreduced `x`-coordinate of `X` | curve `y² = x³ + x + 7` mod 11, `G = (1, 3)` of order 5, key 2, message 2, nonce 3: `R = (7, 7)`, signature `[2, 2]`, `X = (7, 7)`, and `2 != 7` rejects the honest signature | compare `X.x mod order` with `r`, as ECDSA verification (section 4.1.4 of SEC 1 v2.0) does | not executed | ToyCurve.UnreducedComparisonRejects | Ecdsa.VerifyingReduced |
