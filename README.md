# Ring-LWE key exchange over Z_Q[x]/(x^N + 1)

This project models the Ring-LWE key exchange of `rlwe.py` and its second copy
of the ring code in `main.py`. Polynomials are numpy coefficient arrays, listed
highest degree first. Arithmetic is in Z_Q[x]/(x^N + 1) with the module's
parameters N = 2^10 and Q = 2^32 - 1 (`Rlwe.Reference`). Lemmas are stated for
any N >= 1 and Q >= 2 unless they say otherwise.

The model covers these operations:

- `mod_poly` / `ring_mod`: `% Q`, then the remainder of np.polydiv by `IDEAL` = x^N + 1, then `% Q` again.
- `add_poly` / `add`: np.polyadd followed by `% Q`.
- `mul_poly` / `mul`: np.polymul followed by `mod_poly`.
- The Gaussian sampler as a function of its rounded draws.
- Key generation: `gen_private_key`, `gen_public_key` and `gen_key_pair`.
- `compute_shared_key` with its `reconcile` table, including numpy's broadcasting in `np.where`.
- `make_p` and `make_c` from `main.py`, with the algebraic identity behind the c-distance that `main()` prints.

Modules:

- `Modular`: facts about the floored remainder `%` that numpy computes for a positive modulus.
- `NumpyPoly`: np.polyadd and np.polymul as exact integer operations, the leading-zero trim of np.polydiv, and the polynomial laws they satisfy.
- `NegacyclicRing`:
  - the parameters `Config(n, q)`;
  - `ModQ`;
  - the exact division by x^N + 1 (`Fold`);
  - the negacyclic coefficient sum `AltSum`;
  - the congruence `RingEq` of Z_Q[x]/(x^N + 1), which says two arrays have equal `AltSum` residues for every degree below N.
- `Rlwe`: `rlwe.py`.
- `MainDemo`: `main.py`.

The constants are `Rlwe.Reference` = `Config(1024, 4294967295)` for N and Q (rlwe.py:7-8) and the four intervals `reconcile` reads (rlwe.py:25-28), written in eighths of Q: `SelectInterval0` = [0, 2], `SelectInterval1` = [4, 6], `BitInterval0` = [1, 5] and `BitInterval1` = [3, 7].

Random draws become inputs. `npr.normal` rounded by `np.rint` is the sequence of N integers passed as `draws`. `npr.randint` is the range stated by `Rlwe.IsBaseDraw`.

## Model

| member | source | states |
|---|---|---|
| Rlwe.ModPoly | rlwe.py:31-32 | mod_poly returns at most N coefficients, each in [0, Q) |
| Rlwe.ModPolyResidues | rlwe.py:31-32 | coefficient i < N of mod_poly(p) is the negacyclic sum of p's coefficients i, i+N, i+2N, … with alternating signs, mod Q; every coefficient from degree N up is 0 |
| Rlwe.ModPolyClass | rlwe.py:31-32 | mod_poly(p) is congruent to p in Z_Q[x]/(x^N + 1) |
| Rlwe.ModQReduced | rlwe.py:32 | `% Q` leaves an array already in [0, Q) unchanged |
| Rlwe.ModPolyOnReduced | rlwe.py:31-32 | on a ring element, mod_poly only trims leading zeros |
| Rlwe.ModPolySame | rlwe.py:31-32 | mod_poly depends on the polynomial, not on the leading zeros of its array |
| Rlwe.TrimModQ | rlwe.py:32 | on coefficients in (-Q, Q), the trim of np.polydiv and the final `% Q` commute |
| Rlwe.FoldBounded | rlwe.py:32 | dividing a polynomial of degree < 2N with coefficients in [0, Q) by x^N + 1 leaves a remainder with coefficients in (-Q, Q) |
| Rlwe.ModPolyCanonical | rlwe.py:31-32 | below degree 2N, two congruent polynomials give the same mod_poly array |
| Rlwe.ModPolyIdempotent | rlwe.py:31-32 | below degree 2N, mod_poly(mod_poly(p)) == mod_poly(p) |
| Rlwe.TrimTwice | rlwe.py:32 | trimming leading zeros twice is trimming once |
| Rlwe.ModPolyLongInput | rlwe.py:31-32 | for N = 2 and Q = 2, mod_poly of x^5 + x is [0, 0], which has a leading zero: past degree 2N, mod_poly can return an untrimmed array and is not idempotent |
| Rlwe.ModPolyZeroPair | rlwe.py:31-32 | for N = 2 and Q = 2, mod_poly of [0, 0] is [0], so mod_poly(mod_poly(x^5 + x)) differs from mod_poly(x^5 + x) |
| Rlwe.LongInputFold | rlwe.py:32 | for N = 2 and Q = 2, the division of x^5 + x by x^2 + 1 leaves 2x |
| Rlwe.AddPoly | rlwe.py:35-36 | add_poly has the longer operand's length, coefficients in [0, Q), and coefficient k equal to (a_k + b_k) mod Q |
| Rlwe.AddPolyComm | rlwe.py:35-36 | add_poly is commutative |
| Rlwe.AddPolyZero | rlwe.py:35-36 | [0] is a two-sided identity of add_poly on reduced arrays |
| Rlwe.AddPolyRingElement | rlwe.py:35-36 | the sum of two ring elements is a ring element |
| Rlwe.AddPolyClass | rlwe.py:35-36 | add_poly(a, b) is congruent to the exact sum a + b |
| Rlwe.MulPoly | rlwe.py:39-40 | mul_poly returns a ring element |
| Rlwe.MulPolyResidues | rlwe.py:39-40 | coefficient i of mul_poly(a, b) is the exact product's negacyclic sum at i, mod Q |
| Rlwe.MulPolyComm | rlwe.py:39-40 | mul_poly is commutative |
| Rlwe.MulPolyOne | rlwe.py:39-40 | mul_poly(a, [1]) == mod_poly(a) |
| Rlwe.MulPolyResiduesOnly | rlwe.py:39-40 | at any operand length, reducing the operands mod Q first does not change mul_poly |
| Rlwe.ConvSumModQ | rlwe.py:40 | each convolution sum of np.polymul, taken mod Q, depends only on the operands' residues mod Q |
| Rlwe.MulPolyTrimmedOperands | rlwe.py:39-40 | mul_poly gives the same array when np.polymul's operands are first trimmed of leading zeros, as its poly1d wrapping does |
| Rlwe.MulPolyClass | rlwe.py:39-40 | mul_poly(a, b) is congruent to the exact product a * b |
| Rlwe.DiscreteGaussianPoly | rlwe.py:43-44 | the Gaussian polynomial is a ring element |
| Rlwe.DiscreteGaussianResidues | rlwe.py:43-44 | the Gaussian polynomial is the draws mod Q with leading zeros trimmed; coefficient k is draw k mod Q |
| Rlwe.GenPrivateKey | rlwe.py:54-58 | the private key is a ring element |
| Rlwe.GenPublicKey | rlwe.py:61-69 | the public key is a ring element |
| Rlwe.PublicKeyClass | rlwe.py:61-69 | the public key is congruent to base * sk + e, with the exact product and the raw error draws |
| Rlwe.PublicKeyRawBase | rlwe.py:47-51 | reducing gen_base's raw draw in [-Q+1, Q-1] mod Q does not change the public key |
| Rlwe.GenKeyPair | rlwe.py:72-78 | both halves of the key pair are ring elements |
| Rlwe.KeyPairShape | rlwe.py:72-78 | the private key is the reduced draws, and the public key is gen_public_key on that private key |
| Rlwe.SharedValueDifference | rlwe.py:113-120 | with p_k = a*s_k + e_k, the shared values satisfy p_1*s_0 + e_0*s_1 == p_0*s_1 + e_1*s_0 in the ring, because the a*s_0*s_1 terms cancel |
| Rlwe.PartyClass | rlwe.py:105 | a party's shared value mul_poly(add_poly(mul_poly(a, s), e), s') is congruent to the exact a*s*s' + e*s' |
| Rlwe.MaskedProduct | rlwe.py:61-69 | (a*s + e)*s' with the intermediate reductions is congruent to a*s*s' + e*s' |
| Rlwe.AddSwap | rlwe.py:36 | the order of two summands does not matter |
| Rlwe.IsBaseDraw | rlwe.py:51 | a base draw has N entries in [-Q+1, Q-1], so its reduction mod Q is a ring element of N coefficients |
| Rlwe.InInterval | rlwe.py:87-99 | the integer test 8x in [lo*Q, hi*Q] holds iff lo/8 * Q <= x <= hi/8 * Q as reals, the closed interval test of the masks |
| Rlwe.BroadcastLength | rlwe.py:100-103 | two lengths broadcast iff they are equal or one of them is 1; the broadcast length is the common length when they are equal (1 for two 1s) and the other length when exactly one is 1 |
| Rlwe.At | rlwe.py:100-103 | entry i of a broadcast array is its only entry when it has length 1 and entry i otherwise |
| Rlwe.Where | rlwe.py:100-103 | np.where is defined iff the condition broadcasts with the branches; it has the broadcast length, and entry i is the x entry when condition i holds and the y entry otherwise |
| Rlwe.Mask | rlwe.py:87-99 | an interval mask has the length of the input array |
| Rlwe.MaskOr | rlwe.py:93 | the elementwise or of two masks keeps their length |
| Rlwe.KeyBit | rlwe.py:86-103 | the bit of one coefficient is 0 or 1, and it is 1 iff the shared value lies in [Q/8, 5Q/8] when the reference value lies in [0, Q/4] ∪ [Q/2, 3Q/4], and in [3Q/8, 7Q/8] otherwise (end points closed) |
| Rlwe.Reconcile | rlwe.py:86-103 | the result is defined iff numpy can broadcast the shapes; it has the broadcast length; bit i is the KeyBit of the (broadcast) shared and reference coefficients i |
| Rlwe.ComputeSharedKey | rlwe.py:81-105 | the key exists iff the shared product mul_poly(other, private) broadcasts with the reference key; then bit i is the KeyBit of their coefficients i; with N coefficients on both sides it has N bits |
| Rlwe.SharedKeyTrimmedProduct | rlwe.py:100-105 | for N = 3 and Q = 2, the public key [0, 1, 0] times the private key [1] is trimmed by mod_poly to [1, 0], which does not broadcast against the reference key [0, 1, 1], so no key exists |
| Rlwe.ReconcileLocal | rlwe.py:100-103 | bit i depends only on coefficient i of the shared value and of the reference key |
| Rlwe.ReconcileTolerance | rlwe.py:94-103 | a shared value within d of another gives the same bit when it lies more than d away from both ends of its selected bit interval |
| Rlwe.OddModulusNoTies | rlwe.py:25-28 | with an odd Q, no integer lies exactly on an interval end point kQ/8 for 0 < k < 8 |
| Rlwe.KeyBitEndPoints | rlwe.py:87-99 | with an odd Q, the key bits are the same whether the interval end points kQ/8, 0 < k < 8, are closed (as the masks' `<=` and `>=` make them) or open |
| Rlwe.ReferenceKeyBitEndPoints | rlwe.py:7 | with Q = 2^32 - 1 the key bits do not depend on whether the interval end points are closed or open |
| NegacyclicRing.ModQ | rlwe.py:32 | `% Q` keeps the length and reduces every coefficient into [0, Q) |
| NegacyclicRing.FoldStep | rlwe.py:10 | one step of np.polydiv by x^N + 1 drops one coefficient (its effect on the polynomial is FoldStepAltSum) |
| NegacyclicRing.Fold | rlwe.py:10 | the exact remainder of np.polydiv by x^N + 1 has min(len, N) coefficients |
| NegacyclicRing.FoldAltSum | rlwe.py:10 | coefficient i < N of the remainder by x^N + 1 is the negacyclic sum at i |
| NegacyclicRing.FoldStepAltSum | rlwe.py:10 | one step of the division by x^N + 1 keeps every negacyclic sum |
| NegacyclicRing.AltSumModQ | rlwe.py:32 | `% Q` keeps every negacyclic sum mod Q |
| NegacyclicRing.AltSumAdd | rlwe.py:36 | the negacyclic sum is additive |
| NegacyclicRing.AltSumScale | rlwe.py:40 | the negacyclic sum commutes with scaling by a constant |
| NegacyclicRing.AltSumMulX | rlwe.py:10 | multiplying by x shifts the negacyclic sums, with x^N == -1 |
| NegacyclicRing.AddClass | rlwe.py:36 | the exact sum respects congruence in both operands |
| NegacyclicRing.MulClass | rlwe.py:40 | the exact product respects congruence in both operands |
| NegacyclicRing.MulClassRight | rlwe.py:40 | the exact product respects congruence in its right operand |
| NegacyclicRing.SameClass | rlwe.py:31-32 | arrays for the same polynomial are congruent |
| NegacyclicRing.ModQClass | rlwe.py:32 | `% Q` keeps the congruence class |
| NumpyPoly.PolyAdd | rlwe.py:36 | np.polyadd pads the shorter array and adds the coefficients of each degree |
| NumpyPoly.PolyMul | rlwe.py:40 | the product of arrays of lengths m and n has m + n - 1 coefficients (the coefficient law is CoeffPolyMul) |
| NumpyPoly.CoeffPolyMul | rlwe.py:40 | np.polymul's coefficient k is the sum of a_i * b_(k-i) |
| NumpyPoly.TrimZeros | rlwe.py:32 | the trim of np.polydiv's remainder keeps a suffix of at least one coefficient, drops only zeros, and leaves no leading zero unless the result is [0] |
| NumpyPoly.TrimSame | rlwe.py:32 | the trim keeps the polynomial |
| NumpyPoly.ZeroPrefixSame | rlwe.py:32 | dropping only leading zeros keeps the polynomial |
| NumpyPoly.MulCong | rlwe.py:40 | np.polymul depends on the polynomials, not on the leading zeros of their arrays |
| NumpyPoly.TrimCanonical | rlwe.py:32 | two arrays for the same polynomial trim to the same array |
| NumpyPoly.MulComm | rlwe.py:40 | np.polymul is commutative |
| NumpyPoly.MulOne | rlwe.py:40 | multiplying by [1] is the identity |
| NumpyPoly.MulAssoc | rlwe.py:40 | np.polymul is associative |
| NumpyPoly.MulDistLeft | rlwe.py:40 | np.polymul distributes over np.polyadd from the left |
| NumpyPoly.MulDistRight | rlwe.py:40 | np.polymul distributes over np.polyadd from the right |
| NumpyPoly.AddComm | rlwe.py:36 | np.polyadd is commutative |
| MainDemo.RingMod | main.py:20-21 | ring_mod returns a ring element congruent to its input |
| MainDemo.RingModIsModPoly | main.py:20-21 | ring_mod is the same function as rlwe.py's mod_poly |
| MainDemo.Add | main.py:24-25 | add has the longer operand's length, coefficients in [0, Q), and coefficient k equal to (a_k + b_k) mod Q |
| MainDemo.AddIsAddPoly | main.py:24-25 | add is rlwe.py's add_poly |
| MainDemo.Mul | main.py:28-29 | mul returns a ring element congruent to the exact product |
| MainDemo.MulIsMulPoly | main.py:28-29 | mul is rlwe.py's mul_poly |
| MainDemo.DiscreteGaussian | main.py:32-33 | the Gaussian polynomial is a ring element congruent to its draws |
| MainDemo.MakeP | main.py:48-49 | make_p(a, s, e) is congruent to a*s + e, and it is a ring element when e has 1 to N coefficients |
| MainDemo.MakeC | main.py:52-53 | make_c(p, s) is a ring element congruent to p*s |
| MainDemo.Minus | main.py:70 | for arrays of equal length, `c_0 - c_1` is the elementwise difference; at any lengths, coefficient k is the difference of the degree-k coefficients |
| MainDemo.AddComm | main.py:24-25 | add is commutative |
| MainDemo.MulComm | main.py:28-29 | mul is commutative |
| MainDemo.MulAssoc | main.py:28-29 | mul is associative on operands of at most N coefficients |
| MainDemo.MulDist | main.py:24-29 | mul(a, add(b, d)) == ring_mod(add(mul(a, b), mul(a, d))) on operands of at most N coefficients |
| MainDemo.CancelSides | main.py:70 | x + y ≡ z + w (with add) implies x - z ≡ w - y |
| MainDemo.SharedDifference | main.py:56-70 | with p_k = make_p(a, s_k, e_k), c_0 = make_c(p_1, s_0) and c_1 = make_c(p_0, s_1), c_0 - c_1 ≡ e_1*s_0 - e_0*s_1 in Z_Q[x]/(x^N + 1) |
| Modular.CancelSum | main.py:70 | u + v ≡ z + w (mod m) implies u - z ≡ w - v |

## Left out

- Random sampling: `npr.normal`, `npr.randint` and the rounding `np.rint` become inputs. Rounding half to even is float behaviour and is not modelled. `gen_base` and `gen_a` only fix the range `Rlwe.IsBaseDraw` states. `gen_s` and `gen_e` in `main.py` are `MainDemo.DiscreteGaussian` on their draws.
- Machine integers: np.polymul is modelled as exact integer convolution. With Q = 2^32 - 1 and N = 1024, its terms exceed int64, and the model does not reproduce numpy's wrap-around there. `ring_mod` in `main.py` casts with `.astype(int)` where `mod_poly` casts with `.astype(np.int64)`; on Windows before numpy 2.0 the default int is 32 bits, so residues of 2^31 and up would wrap there. The model treats both casts as exact.
- Floating point: np.polydiv computes in float64. The model divides exactly by x^N + 1, whose leading coefficient is 1. Float rounding in that division is not modelled.
- The float interval end points of `reconcile` are k/8 * Q. These are exact in float64, and the model compares 8x against kQ exactly.
- compute_shared_key can fail: when mod_poly trims the shared product to fewer than N (and more than one) coefficients, np.where cannot broadcast it against an N-coefficient reference key and raises. The model returns `None` there (`Rlwe.SharedKeyTrimmedProduct`).
- Empty arrays: np.polydiv raises on an empty array, so `ModPoly` and `RingMod` require at least one coefficient. np.polymul does not raise: it wraps its operands in poly1d, which trims leading zeros and turns [] into [0]. The model leaves that trim out, which does not change mul_poly (`Rlwe.MulPolyTrimmedOperands`, from `NumpyPoly.MulCong` and `Rlwe.ModPolySame`). `MulPoly` and `Mul` require non-empty operands; every caller passes keys, bases, draws of N values or results of mod_poly and add_poly, none of which is empty. mul_poly([], b) is not modelled.
- MainDemo.Minus: numpy's `c_0 - c_1` raises when the lengths differ and neither is 1, and broadcasts an operand of length 1 (`[3] - [1, 2]` is `[2, 1]`). `Minus` is numpy's `-` only for equal lengths; for other lengths it is the degree-wise difference, which is what the congruence of `MainDemo.SharedDifference` is about.
- Rlwe.ModPolyIdempotent: stated for inputs below degree 2N only. With longer inputs the trim runs before the final `% Q`, so a leading zero can survive (`Rlwe.ModPolyLongInput`). The code never passes it more than 2N - 1 coefficients.
- Rlwe.ModPolyCanonical: stated below degree 2N only, for the same reason.
- MainDemo.MulAssoc: stated for outer operands of at most N coefficients. Every ring_mod result has at most N.
- MainDemo.MulDist: stated for operands of at most N coefficients.
- MainDemo.SharedDifference: states the congruence only. The actual size of `c_0 - c_1`, i.e. the probability that the parties agree, is statistical and not proved.
- `example()` printing in `rlwe.py` and the `lin.norm` and cosine similarity printed by `main()` (main.py:70-76) are I/O and floating point, and are left out.
- The base: the protocol is usually described with a base reduced mod Q, but `gen_base` returns raw draws in [-Q+1, Q-1] and they are used unreduced. The model follows the code. `Rlwe.PublicKeyRawBase` shows that reducing the base would not change the public key.
