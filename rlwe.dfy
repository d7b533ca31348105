// rlwe.py: ring arithmetic over Z_Q[x]/(x^N + 1), key generation and the
// reconciliation of a noisy shared polynomial into key bits.  Polynomials are
// numpy coefficient arrays, highest degree first (see NumpyPoly.Coeff).
// Random draws are inputs: `npr.normal` rounded by `np.rint` and
// `npr.randint` become the integer sequences the caller passes in.
module Rlwe {
  import opened NumpyPoly
  import opened NegacyclicRing
  import Modular

  /** The module's parameter set: N = 2^10, Q = 2^32 - 1. */
  const Reference: Params := Config(1024, 4294967295)

  // ----- Ring arithmetic -----

  /** mod_poly: `% Q`, then the remainder of np.polydiv by x^N + 1 (leading
      zeros trimmed), then `% Q` again.  np.polydiv fails on an empty array. */
  function ModPoly(c: Params, p: seq<int>): (r: seq<int>)
    requires |p| >= 1
    ensures IsRingElement(c, r)
  {
    ModQ(c, TrimZeros(Fold(c, ModQ(c, p))))
  }

  /** add_poly: np.polyadd, then `% Q`. */
  function AddPoly(c: Params, a: seq<int>, b: seq<int>): (r: seq<int>)
    ensures |r| == Max(|a|, |b|)
    ensures forall i :: 0 <= i < |r| ==> 0 <= r[i] < c.q
    ensures forall k: nat {:trigger Coeff(r, k)} :: Coeff(r, k) == (Coeff(a, k) + Coeff(b, k)) % c.q
  {
    ModQ(c, PolyAdd(a, b))
  }

  /** mul_poly: np.polymul, then mod_poly.  Every caller passes non-empty
      arrays (keys, bases and results of mod_poly and add_poly); see
      MulPolyTrimmedOperands for np.polymul's trim of leading zeros. */
  function MulPoly(c: Params, a: seq<int>, b: seq<int>): (r: seq<int>)
    requires |a| >= 1 && |b| >= 1
    ensures IsRingElement(c, r)
  {
    ModPoly(c, PolyMul(a, b))
  }

  // ----- mod_poly -----

  /** mod_poly computes the negacyclic fold: its coefficient of x^i is
      sum_j (-1)^j * Coeff(p, i + j*N), reduced mod Q (and 0 from degree N on). */
  lemma ModPolyResidues(c: Params, p: seq<int>)
    requires |p| >= 1
    ensures forall i: nat :: i < c.n ==> Coeff(ModPoly(c, p), i) == AltSum(c, p, i) % c.q
    ensures forall i: nat :: i >= c.n ==> Coeff(ModPoly(c, p), i) == 0
  {
    var x := Fold(c, ModQ(c, p));
    forall i: nat | i < c.n ensures Coeff(ModPoly(c, p), i) == AltSum(c, p, i) % c.q {
      SameAt(TrimZeros(x), x, i);
      FoldAltSum(c, ModQ(c, p), i);
      AltSumModQ(c, p, i);
    }
  }

  /** mod_poly stays in the same class of the quotient ring. */
  lemma ModPolyClass(c: Params, p: seq<int>)
    requires |p| >= 1
    ensures RingEq(c, ModPoly(c, p), p)
  {
    ModPolyResidues(c, p);
    forall i: nat | i < c.n ensures AltSum(c, ModPoly(c, p), i) % c.q == AltSum(c, p, i) % c.q {
      AltSumShort(c, ModPoly(c, p), i);
      Modular.ModMod(AltSum(c, p, i), c.q);
    }
  }

  lemma ModQReduced(c: Params, p: seq<int>)
    requires forall i :: 0 <= i < |p| ==> 0 <= p[i] < c.q
    ensures ModQ(c, p) == p
  {
    forall i | 0 <= i < |p| ensures p[i] % c.q == p[i] {
      Modular.UniqueMod(p[i], 0, p[i], c.q);
    }
  }

  /** On a polynomial of at most N coefficients in [0, Q), mod_poly only trims leading zeros. */
  lemma ModPolyOnReduced(c: Params, p: seq<int>)
    requires IsRingElement(c, p)
    ensures ModPoly(c, p) == TrimZeros(p)
  {
    ModQReduced(c, p);
    var t := TrimZeros(p);
    ModQReduced(c, t);
  }

  /** mod_poly depends only on the polynomial, not on the leading zeros of its array. */
  lemma ModPolySame(c: Params, p: seq<int>, p': seq<int>)
    requires |p| >= 1 && |p'| >= 1 && Same(p, p')
    ensures ModPoly(c, p) == ModPoly(c, p')
  {
    var x, x' := Fold(c, ModQ(c, p)), Fold(c, ModQ(c, p'));
    forall k: nat ensures Coeff(x, k) == Coeff(x', k) {
      if k < c.n {
        FoldAltSum(c, ModQ(c, p), k);
        FoldAltSum(c, ModQ(c, p'), k);
        AltSumSame(c, ModQ(c, p), ModQ(c, p'), k);
      }
    }
    TrimCanonical(x, x');
  }

  /** On a fold of coefficients in (-Q, Q), `% Q` and the trim commute. */
  lemma {:induction false} TrimModQ(c: Params, x: seq<int>)
    requires forall i :: 0 <= i < |x| ==> -c.q < x[i] < c.q
    ensures ModQ(c, TrimZeros(x)) == TrimZeros(ModQ(c, x))
  {
    if |x| >= 2 {
      Modular.SmallMultiple(x[0], c.q);
      if x[0] == 0 {
        TrimModQ(c, x[1..]);
        assert ModQ(c, x)[1..] == ModQ(c, x[1..]);
      }
    }
  }

  /** Folding coefficients in [0, Q) of a polynomial of degree < 2N gives coefficients in (-Q, Q). */
  lemma FoldBounded(c: Params, s: seq<int>)
    requires |s| <= 2 * c.n
    requires forall i :: 0 <= i < |s| ==> 0 <= s[i] < c.q
    ensures forall i :: 0 <= i < |Fold(c, s)| ==> -c.q < Fold(c, s)[i] < c.q
  {
    var x := Fold(c, s);
    forall i | 0 <= i < |x| ensures -c.q < x[i] < c.q {
      var k := |x| - 1 - i;
      FoldAltSum(c, s, k);
      AltSumUnfold(c, s, k);
      AltSumUnfold(c, s, k + c.n);
    }
  }

  /** Below degree 2N, mod_poly is canonical: two polynomials in the same class
      of the quotient ring give the same array. */
  lemma ModPolyCanonical(c: Params, p: seq<int>, p': seq<int>)
    requires 1 <= |p| <= 2 * c.n && 1 <= |p'| <= 2 * c.n
    requires RingEq(c, p, p')
    ensures ModPoly(c, p) == ModPoly(c, p')
  {
    var x, x' := Fold(c, ModQ(c, p)), Fold(c, ModQ(c, p'));
    FoldBounded(c, ModQ(c, p));
    FoldBounded(c, ModQ(c, p'));
    TrimModQ(c, x);
    TrimModQ(c, x');
    forall k: nat ensures Coeff(ModQ(c, x), k) == Coeff(ModQ(c, x'), k) {
      if k < c.n {
        FoldAltSum(c, ModQ(c, p), k);
        FoldAltSum(c, ModQ(c, p'), k);
        AltSumModQ(c, p, k);
        AltSumModQ(c, p', k);
      }
    }
    TrimCanonical(ModQ(c, x), ModQ(c, x'));
  }

  /** Below degree 2N (every product of two ring elements), mod_poly is idempotent. */
  lemma ModPolyIdempotent(c: Params, p: seq<int>)
    requires 1 <= |p| <= 2 * c.n
    ensures ModPoly(c, ModPoly(c, p)) == ModPoly(c, p)
  {
    var r := ModPoly(c, p);
    ModPolyClass(c, p);
    ModPolyOnReduced(c, r);
    ModPolyCanonical(c, r, p);
    TrimTwice(r);
  }

  lemma TrimTwice(x: seq<int>)
    ensures TrimZeros(TrimZeros(x)) == TrimZeros(x)
  {
    TrimTrimmed(TrimZeros(x));
  }

  /** Past degree 2N the trim, which runs before the final `% Q`, can leave a
      leading zero: with N = 2, Q = 2, x^5 + x folds to 2x, which `% Q` makes
      [0, 0] (and mod_poly of [0, 0] is [0], see ModPolyZeroPair); mod_poly is
      then not idempotent.  rlwe.py never applies mod_poly to more than
      2N - 1 coefficients. */
  lemma ModPolyLongInput()
    ensures ModPoly(Config(2, 2), [1, 0, 0, 0, 1, 0]) == [0, 0]
  {
    LongInputFold();
    TrimLeadingTwo();
    ModQLeadingTwo();
  }

  lemma ModPolyZeroPair()
    ensures ModPoly(Config(2, 2), [0, 0]) == [0]
  {
    ModPolyOnReduced(Config(2, 2), [0, 0]);
    assert TrimZeros([0, 0]) == [0];
  }

  lemma TrimLeadingTwo()
    ensures TrimZeros([2, 0]) == [2, 0]
  {
  }

  lemma ModQLeadingTwo()
    ensures ModQ(Config(2, 2), [2, 0]) == [0, 0]
  {
    var r := ModQ(Config(2, 2), [2, 0]);
    assert Coeff(r, 0) == 0 && Coeff(r, 1) == 0;
    assert r[0] == Coeff(r, 1) && r[1] == Coeff(r, 0);
  }

  lemma LongInputFold()
    ensures Fold(Config(2, 2), ModQ(Config(2, 2), [1, 0, 0, 0, 1, 0])) == [2, 0]
  {
    var c: Params := Config(2, 2);
    var s := [1, 0, 0, 0, 1, 0];
    assert ModQ(c, s) == s;
    assert FoldStep(c, s) == [0, -1, 0, 1, 0];
    assert FoldStep(c, [0, -1, 0, 1, 0]) == [-1, 0, 1, 0];
    assert FoldStep(c, [-1, 0, 1, 0]) == [0, 2, 0];
    assert FoldStep(c, [0, 2, 0]) == [2, 0];
  }

  // ----- add_poly -----

  lemma AddPolyComm(c: Params, a: seq<int>, b: seq<int>)
    ensures AddPoly(c, a, b) == AddPoly(c, b, a)
  {
    AddComm(a, b);
  }

  /** The zero polynomial [0] is an identity for add_poly on reduced arrays. */
  lemma AddPolyZero(c: Params, a: seq<int>)
    requires |a| >= 1 && forall i :: 0 <= i < |a| ==> 0 <= a[i] < c.q
    ensures AddPoly(c, a, [0]) == a && AddPoly(c, [0], a) == a
  {
    forall k: nat ensures Coeff(AddPoly(c, a, [0]), k) == Coeff(a, k) {
      if k < |a| {
        Modular.UniqueMod(Coeff(a, k), 0, Coeff(a, k), c.q);
      }
    }
    SameEqual(AddPoly(c, a, [0]), a);
    AddPolyComm(c, a, [0]);
  }

  /** Two ring elements add to a ring element. */
  lemma AddPolyRingElement(c: Params, a: seq<int>, b: seq<int>)
    requires IsRingElement(c, a) && IsRingElement(c, b)
    ensures IsRingElement(c, AddPoly(c, a, b))
  {
  }

  lemma AddPolyClass(c: Params, a: seq<int>, b: seq<int>)
    ensures RingEq(c, AddPoly(c, a, b), PolyAdd(a, b))
  {
    ModQClass(c, PolyAdd(a, b));
  }

  // ----- mul_poly -----

  /** mul_poly's coefficient of x^i is that of the exact product folded by x^N == -1, mod Q. */
  lemma MulPolyResidues(c: Params, a: seq<int>, b: seq<int>, i: nat)
    requires |a| >= 1 && |b| >= 1 && i < c.n
    ensures Coeff(MulPoly(c, a, b), i) == AltSum(c, PolyMul(a, b), i) % c.q
  {
    ModPolyResidues(c, PolyMul(a, b));
  }

  lemma MulPolyComm(c: Params, a: seq<int>, b: seq<int>)
    requires |a| >= 1 && |b| >= 1
    ensures MulPoly(c, a, b) == MulPoly(c, b, a)
  {
    MulComm(a, b);
  }

  /** Multiplying by the constant 1 is mod_poly. */
  lemma MulPolyOne(c: Params, a: seq<int>)
    requires |a| >= 1
    ensures MulPoly(c, a, [1]) == ModPoly(c, a)
  {
    MulOne(a);
  }

  /** Only residues mod Q matter: raw coefficients (such as gen_base's, in
      [-Q+1, Q-1]) and their residues give the same mul_poly. */
  lemma MulPolyResiduesOnly(c: Params, a: seq<int>, b: seq<int>)
    requires |a| >= 1 && |b| >= 1
    ensures MulPoly(c, a, b) == MulPoly(c, ModQ(c, a), ModQ(c, b))
  {
    var p, p' := PolyMul(a, b), PolyMul(ModQ(c, a), ModQ(c, b));
    forall k: nat ensures Coeff(ModQ(c, p), k) == Coeff(ModQ(c, p'), k) {
      CoeffPolyMul(a, b, k);
      CoeffPolyMul(ModQ(c, a), ModQ(c, b), k);
      ConvSumModQ(c, a, b, k, 0);
    }
    SameEqual(ModQ(c, p), ModQ(c, p'));
  }

  /** Reducing both factors mod Q keeps every convolution sum mod Q. */
  lemma {:induction false} ConvSumModQ(c: Params, a: seq<int>, b: seq<int>, k: nat, lo: nat)
    ensures ConvSum(ModQ(c, a), ModQ(c, b), k, lo) % c.q == ConvSum(a, b, k, lo) % c.q
    decreases k + 1 - lo
  {
    if lo <= k {
      ConvSumModQ(c, a, b, k, lo + 1);
      Modular.CongMulAdd(ConvSum(a, b, k, lo), ConvSum(ModQ(c, a), ModQ(c, b), k, lo),
                         Coeff(a, lo), Coeff(ModQ(c, a), lo), Coeff(b, k - lo), Coeff(ModQ(c, b), k - lo),
                         ConvSum(a, b, k, lo + 1), ConvSum(ModQ(c, a), ModQ(c, b), k, lo + 1), c.q);
    }
  }

  /** np.polymul trims leading zeros of its operands (poly1d); the product
      without that trim gives the same mul_poly. */
  lemma MulPolyTrimmedOperands(c: Params, a: seq<int>, b: seq<int>)
    requires |a| >= 1 && |b| >= 1
    ensures MulPoly(c, a, b) == ModPoly(c, PolyMul(TrimZeros(a), TrimZeros(b)))
  {
    TrimSame(a);
    TrimSame(b);
    MulCong(a, TrimZeros(a), b, TrimZeros(b));
    ModPolySame(c, PolyMul(a, b), PolyMul(TrimZeros(a), TrimZeros(b)));
  }

  lemma MulPolyClass(c: Params, a: seq<int>, b: seq<int>)
    requires |a| >= 1 && |b| >= 1
    ensures RingEq(c, MulPoly(c, a, b), PolyMul(a, b))
  {
    ModPolyClass(c, PolyMul(a, b));
  }

  // ----- Sampling and key generation -----

  /** A draw of gen_base: N integers in [MIN_BASE, MAX_BASE] = [-Q+1, Q-1]; it is not reduced. */
  predicate IsBaseDraw(c: Params, base: seq<int>)
    ensures IsBaseDraw(c, base) ==> IsRingElement(c, ModQ(c, base)) && |ModQ(c, base)| == c.n
  {
    |base| == c.n && forall i :: 0 <= i < |base| ==> -c.q + 1 <= base[i] <= c.q - 1
  }

  /** discrete_gaussian_poly, given the N rounded normal draws. */
  function DiscreteGaussianPoly(c: Params, draws: seq<int>): (r: seq<int>)
    requires |draws| == c.n
    ensures IsRingElement(c, r)
  {
    ModPoly(c, draws)
  }

  /** The Gaussian polynomial is the draws reduced mod Q (negative draws become
      Q - |d|), with leading zeros trimmed; nothing is folded. */
  lemma DiscreteGaussianResidues(c: Params, draws: seq<int>)
    requires |draws| == c.n
    ensures DiscreteGaussianPoly(c, draws) == TrimZeros(ModQ(c, draws))
    ensures forall k: nat {:trigger Coeff(DiscreteGaussianPoly(c, draws), k)} :: Coeff(DiscreteGaussianPoly(c, draws), k) == Coeff(draws, k) % c.q
  {
    var t := TrimZeros(ModQ(c, draws));
    ModQReduced(c, t);
    forall k: nat ensures Coeff(t, k) == Coeff(draws, k) % c.q {
      SameAt(t, ModQ(c, draws), k);
    }
  }

  /** gen_private_key, given the N rounded draws of N(0, 1). */
  function GenPrivateKey(c: Params, draws: seq<int>): (sk: seq<int>)
    requires |draws| == c.n
    ensures IsRingElement(c, sk)
  {
    DiscreteGaussianPoly(c, draws)
  }

  /** gen_public_key, given the N rounded draws of its error polynomial. */
  function GenPublicKey(c: Params, base: seq<int>, sk: seq<int>, errorDraws: seq<int>): (pk: seq<int>)
    requires |base| >= 1 && |sk| >= 1 && |errorDraws| == c.n
    ensures IsRingElement(c, pk)
  {
    AddPoly(c, MulPoly(c, base, sk), DiscreteGaussianPoly(c, errorDraws))
  }

  /** The public key is base * sk + e in the quotient ring, with the exact product and the raw draws. */
  lemma PublicKeyClass(c: Params, base: seq<int>, sk: seq<int>, errorDraws: seq<int>)
    requires |base| >= 1 && |sk| >= 1 && |errorDraws| == c.n
    ensures RingEq(c, GenPublicKey(c, base, sk, errorDraws), PolyAdd(PolyMul(base, sk), errorDraws))
  {
    var m, e := MulPoly(c, base, sk), DiscreteGaussianPoly(c, errorDraws);
    AddPolyClass(c, m, e);
    MulPolyClass(c, base, sk);
    ModPolyClass(c, errorDraws);
    AddClass(c, m, PolyMul(base, sk), e, errorDraws);
    RingEqTrans(c, AddPoly(c, m, e), PolyAdd(m, e), PolyAdd(PolyMul(base, sk), errorDraws));
  }

  /** Reducing gen_base's raw draw first does not change the public key. */
  lemma PublicKeyRawBase(c: Params, base: seq<int>, sk: seq<int>, errorDraws: seq<int>)
    requires IsBaseDraw(c, base) && IsRingElement(c, sk) && |errorDraws| == c.n
    ensures GenPublicKey(c, base, sk, errorDraws) == GenPublicKey(c, ModQ(c, base), sk, errorDraws)
  {
    MulPolyResiduesOnly(c, base, sk);
    ModQReduced(c, sk);
  }

  datatype KeyPair = KeyPair(privateKey: seq<int>, publicKey: seq<int>)

  /** gen_key_pair, given the draws of the private key and of the public key's error. */
  function GenKeyPair(c: Params, base: seq<int>, keyDraws: seq<int>, errorDraws: seq<int>): (kp: KeyPair)
    requires |base| >= 1 && |keyDraws| == c.n && |errorDraws| == c.n
    ensures IsRingElement(c, kp.privateKey) && IsRingElement(c, kp.publicKey)
  {
    var sk := GenPrivateKey(c, keyDraws);
    KeyPair(sk, GenPublicKey(c, base, sk, errorDraws))
  }

  /** The pair holds the reduced draws as private key and the public key built on it. */
  lemma KeyPairShape(c: Params, base: seq<int>, keyDraws: seq<int>, errorDraws: seq<int>)
    requires |base| >= 1 && |keyDraws| == c.n && |errorDraws| == c.n
    ensures var kp := GenKeyPair(c, base, keyDraws, errorDraws);
      && kp.privateKey == TrimZeros(ModQ(c, keyDraws))
      && kp.publicKey == GenPublicKey(c, base, kp.privateKey, errorDraws)
  {
    DiscreteGaussianResidues(c, keyDraws);
  }

  // ----- Agreement of the two parties' shared polynomials -----

  /** With p0 = a*s0 + e0 and p1 = a*s1 + e1 built by add_poly and mul_poly, the
      shared values c0 = p0*s1 and c1 = p1*s0 satisfy c1 + e0*s1 == c0 + e1*s0 in
      Z_Q[x]/(x^N + 1): the a*s0*s1 terms cancel, so c1 - c0 == e1*s0 - e0*s1. */
  lemma SharedValueDifference(c: Params, a: seq<int>, s0: seq<int>, e0: seq<int>, s1: seq<int>, e1: seq<int>)
    requires |a| >= 1 && |s0| >= 1 && |s1| >= 1 && |e0| >= 1 && |e1| >= 1
    ensures var p0, p1 := AddPoly(c, MulPoly(c, a, s0), e0), AddPoly(c, MulPoly(c, a, s1), e1);
      RingEq(c, AddPoly(c, MulPoly(c, p1, s0), MulPoly(c, e0, s1)),
                AddPoly(c, MulPoly(c, p0, s1), MulPoly(c, e1, s0)))
  {
    var p0, p1 := AddPoly(c, MulPoly(c, a, s0), e0), AddPoly(c, MulPoly(c, a, s1), e1);
    var c0, c1 := MulPoly(c, p0, s1), MulPoly(c, p1, s0);
    var f0, f1 := MulPoly(c, e0, s1), MulPoly(c, e1, s0);
    var t, x0, x1 := PolyMul(PolyMul(a, s0), s1), PolyMul(e0, s1), PolyMul(e1, s0);
    assert PolyMul(PolyMul(a, s1), s0) == t by {
      MulAssoc(a, s1, s0);
      MulComm(s1, s0);
      MulAssoc(a, s0, s1);
    }
    PartyClass(c, a, s1, e1, s0);
    PartyClass(c, a, s0, e0, s1);
    MulPolyClass(c, e0, s1);
    MulPolyClass(c, e1, s0);
    AddClass(c, c1, PolyAdd(t, x1), f0, x0);
    AddClass(c, c0, PolyAdd(t, x0), f1, x1);
    AddSwap(t, x1, x0);
    SameClass(c, PolyAdd(PolyAdd(t, x1), x0), PolyAdd(PolyAdd(t, x0), x1));
    AddPolyClass(c, c1, f0);
    AddPolyClass(c, c0, f1);
    RingEqTrans(c, AddPoly(c, c1, f0), PolyAdd(c1, f0), PolyAdd(PolyAdd(t, x1), x0));
    RingEqTrans(c, AddPoly(c, c1, f0), PolyAdd(PolyAdd(t, x1), x0), PolyAdd(PolyAdd(t, x0), x1));
    RingEqSym(c, PolyAdd(c0, f1), PolyAdd(PolyAdd(t, x0), x1));
    RingEqTrans(c, AddPoly(c, c1, f0), PolyAdd(PolyAdd(t, x0), x1), PolyAdd(c0, f1));
    RingEqSym(c, AddPoly(c, c0, f1), PolyAdd(c0, f1));
    RingEqTrans(c, AddPoly(c, c1, f0), PolyAdd(c0, f1), AddPoly(c, c0, f1));
  }

  lemma AddSwap(t: seq<int>, x: seq<int>, y: seq<int>)
    ensures Same(PolyAdd(PolyAdd(t, x), y), PolyAdd(PolyAdd(t, y), x))
  {
  }

  /** A party's shared value (a*s + e)*s', computed with add_poly and mul_poly,
      lies in the class of the exact a*s*s' + e*s'. */
  lemma PartyClass(c: Params, a: seq<int>, s: seq<int>, e: seq<int>, s': seq<int>)
    requires |a| >= 1 && |s| >= 1 && |e| >= 1 && |s'| >= 1
    ensures RingEq(c, MulPoly(c, AddPoly(c, MulPoly(c, a, s), e), s'),
                      PolyAdd(PolyMul(PolyMul(a, s), s'), PolyMul(e, s')))
  {
    var p := AddPoly(c, MulPoly(c, a, s), e);
    MulPolyClass(c, p, s');
    MaskedProduct(c, a, s, e, s');
    RingEqTrans(c, MulPoly(c, p, s'), PolyMul(p, s'), PolyAdd(PolyMul(PolyMul(a, s), s'), PolyMul(e, s')));
  }

  /** (a*s + e)*s' lies in the class of a*s*s' + e*s', with add_poly and mul_poly reducing on the way. */
  lemma MaskedProduct(c: Params, a: seq<int>, s: seq<int>, e: seq<int>, s': seq<int>)
    requires |a| >= 1 && |s| >= 1 && |e| >= 1 && |s'| >= 1
    ensures RingEq(c, PolyMul(AddPoly(c, MulPoly(c, a, s), e), s'),
                      PolyAdd(PolyMul(PolyMul(a, s), s'), PolyMul(e, s')))
  {
    var m := MulPoly(c, a, s);
    var p := AddPoly(c, m, e);
    var raw := PolyAdd(PolyMul(a, s), e);
    MulPolyClass(c, a, s);
    ModQClass(c, PolyAdd(m, e));
    AddClass(c, m, PolyMul(a, s), e, e);
    RingEqTrans(c, p, PolyAdd(m, e), raw);
    RingEqRefl(c, s');
    MulClass(c, p, raw, s', s');
    MulDistLeft(PolyMul(a, s), e, s');
    SameClass(c, PolyMul(raw, s'), PolyAdd(PolyMul(PolyMul(a, s), s'), PolyMul(e, s')));
    RingEqTrans(c, PolyMul(p, s'), PolyMul(raw, s'), PolyAdd(PolyMul(PolyMul(a, s), s'), PolyMul(e, s')));
  }

  // ----- Reconciliation -----

  /** An interval of the reconciliation table, [lo8 / 8 * Q, hi8 / 8 * Q]. */
  datatype Interval = Interval(lo8: int, hi8: int)

  const SelectInterval0: Interval := Interval(0, 2)  // [0.0, 0.25] * Q
  const SelectInterval1: Interval := Interval(4, 6)  // [0.5, 0.75] * Q
  const BitInterval0: Interval := Interval(1, 5)     // [0.125, 0.625] * Q
  const BitInterval1: Interval := Interval(3, 7)     // [0.375, 0.875] * Q

  /** `lo <= x` and `hi >= x` against the float end points k/8 * Q, which are
      exact in float64 for Q = 2^32 - 1; here compared exactly as 8x against kQ. */
  predicate InInterval(c: Params, iv: Interval, x: int)
    ensures InInterval(c, iv, x) <==>
      (iv.lo8 as real / 8.0) * (c.q as real) <= x as real <= (iv.hi8 as real / 8.0) * (c.q as real)
  {
    iv.lo8 * c.q <= 8 * x && 8 * x <= iv.hi8 * c.q
  }

  /** The boolean mask of an interval test over an array. */
  function Mask(c: Params, iv: Interval, xs: seq<int>): (m: seq<bool>)
    ensures |m| == |xs|
  {
    seq(|xs|, i requires 0 <= i < |xs| => InInterval(c, iv, xs[i]))
  }

  function MaskOr(m: seq<bool>, m': seq<bool>): (r: seq<bool>)
    requires |m| == |m'|
    ensures |r| == |m|
  {
    seq(|m|, i requires 0 <= i < |m| => m[i] || m'[i])
  }

  datatype Option<T> = None | Some(value: T)

  /** numpy broadcasting of two 1-D shapes: equal, or one of them is 1. */
  function BroadcastLength(m: nat, n: nat): (r: Option<nat>)
    ensures r.Some? <==> (m == n || m == 1 || n == 1)
    ensures r.Some? ==> (m == r.value || m == 1) && (n == r.value || n == 1)
    ensures r.Some? ==> r.value == m || r.value == n
  {
    if m == n then Some(m) else if m == 1 then Some(n) else if n == 1 then Some(m) else None
  }

  /** Element i of an array broadcast from length 1. */
  function At<T>(xs: seq<T>, i: nat): (r: T)
    requires i < |xs| || |xs| == 1
    ensures r in xs
    ensures |xs| == 1 ==> r == xs[0]
    ensures |xs| != 1 ==> r == xs[i]
  {
    if |xs| == 1 then xs[0] else xs[i]
  }

  /** np.where(cond, x, y) on 1-D arrays, None where numpy raises on the shapes. */
  function Where(cond: seq<bool>, x: seq<bool>, y: seq<bool>): (r: Option<seq<bool>>)
    requires |x| == |y|
    ensures r.Some? <==> BroadcastLength(|cond|, |x|).Some?
    ensures r.Some? ==> |r.value| == BroadcastLength(|cond|, |x|).value
    ensures r.Some? ==> forall i :: 0 <= i < |r.value| ==>
      (r.value[i] <==> (At(cond, i) && At(x, i)) || (!At(cond, i) && At(y, i)))
  {
    match BroadcastLength(|cond|, |x|)
    case None => None
    case Some(n) => Some(seq(n, i requires 0 <= i < n => if At(cond, i) then At(x, i) else At(y, i)))
  }

  /** The key bit of one coefficient: the reference value w selects the bit
      interval, and the bit is whether the shared value v lies in it. */
  function KeyBit(c: Params, v: int, w: int): (b: int)
    ensures b == 0 || b == 1
    ensures var selectLow := (0 <= 4 * w <= c.q) || (2 * c.q <= 4 * w <= 3 * c.q);
      b == 1 <==> if selectLow then c.q <= 8 * v <= 5 * c.q else 3 * c.q <= 8 * v <= 7 * c.q
  {
    var iv := if InInterval(c, SelectInterval0, w) || InInterval(c, SelectInterval1, w)
              then BitInterval0 else BitInterval1;
    if InInterval(c, iv, v) then 1 else 0
  }

  /** reconcile, inside compute_shared_key: the masks over whole arrays and
      np.where, which is KeyBit coefficient by coefficient. */
  function Reconcile(c: Params, shared: seq<int>, ref: seq<int>): (r: Option<seq<int>>)
    ensures r.Some? <==> (|shared| == |ref| || |shared| == 1 || |ref| == 1)
    ensures r.Some? ==> |r.value| == if |ref| == 1 then |shared| else |ref|
    ensures r.Some? ==> forall i :: 0 <= i < |r.value| ==> r.value[i] == KeyBit(c, At(shared, i), At(ref, i))
  {
    var selectMask := MaskOr(Mask(c, SelectInterval0, ref), Mask(c, SelectInterval1, ref));
    var bitMask0 := Mask(c, BitInterval0, shared);
    var bitMask1 := Mask(c, BitInterval1, shared);
    match Where(selectMask, bitMask0, bitMask1)
    case None => None
    case Some(w) => Some(seq(|w|, i requires 0 <= i < |w| => if w[i] then 1 else 0))
  }

  /** compute_shared_key: the shared polynomial other_public_key * private_key, reconciled. */
  function ComputeSharedKey(c: Params, otherPublicKey: seq<int>, privateKey: seq<int>, refPublicKey: seq<int>): (r: Option<seq<int>>)
    requires |otherPublicKey| >= 1 && |privateKey| >= 1
    ensures var shared := MulPoly(c, otherPublicKey, privateKey);
      && (r.Some? <==> (|shared| == |refPublicKey| || |shared| == 1 || |refPublicKey| == 1))
      && (r.Some? ==> |r.value| == if |refPublicKey| == 1 then |shared| else |refPublicKey|)
      && (r.Some? ==> forall i :: 0 <= i < |r.value| ==> r.value[i] == KeyBit(c, At(shared, i), At(refPublicKey, i)))
    ensures |refPublicKey| == c.n && |MulPoly(c, otherPublicKey, privateKey)| == c.n
      ==> r.Some? && |r.value| == c.n
  {
    Reconcile(c, MulPoly(c, otherPublicKey, privateKey), refPublicKey)
  }

  /** Bit i of the key depends on coefficient i of the shared value and of the reference key only. */
  lemma ReconcileLocal(c: Params, shared: seq<int>, ref: seq<int>, shared': seq<int>, ref': seq<int>, i: nat)
    requires |shared| == |ref| == |shared'| == |ref'| >= 1 && i < |shared|
    requires shared[i] == shared'[i] && ref[i] == ref'[i]
    ensures Reconcile(c, shared, ref).value[i] == Reconcile(c, shared', ref').value[i]
  {
  }

  /** Error tolerance: a shared value v' within d of v yields the same bit whenever
      v lies more than d inside or outside each end of the selected bit interval. */
  lemma ReconcileTolerance(c: Params, shared: seq<int>, shared': seq<int>, ref: seq<int>, i: nat, d: nat)
    requires |shared| == |shared'| == |ref| && i < |ref|
    requires shared'[i] - d <= shared[i] <= shared'[i] + d
    requires var iv := if InInterval(c, SelectInterval0, ref[i]) || InInterval(c, SelectInterval1, ref[i])
                       then BitInterval0 else BitInterval1;
             (8 * (shared[i] + d) < iv.lo8 * c.q || iv.lo8 * c.q < 8 * (shared[i] - d))
             && (8 * (shared[i] + d) < iv.hi8 * c.q || iv.hi8 * c.q < 8 * (shared[i] - d))
    ensures Reconcile(c, shared, ref).value[i] == Reconcile(c, shared', ref).value[i]
  {
  }

  /** No shared key when mod_poly trims the shared product: compute_shared_key
      raises in np.where when the product's x^(N-1) coefficient is 0 mod Q, so
      it has fewer than N (and more than one) entries against an N-entry
      reference key.  With N = 3, Q = 2, a public key [0, 1, 0] (add_poly
      keeps leading zeros) and the private key [1], the product is [1, 0]. */
  lemma SharedKeyTrimmedProduct()
    ensures ComputeSharedKey(Config(3, 2), [0, 1, 0], [1], [0, 1, 1]) == None
  {
    var c: Params := Config(3, 2);
    var k: seq<int> := [0, 1, 0];
    MulOne(k);
    ModPolyOnReduced(c, k);
    assert TrimZeros(k) == [1, 0];
    assert MulPoly(c, k, [1]) == [1, 0];
  }

  /** The interval test with the end points kQ/8, 0 < k < 8, left open (the
      end point 0 stays closed). */
  predicate InOpenInterval(c: Params, iv: Interval, x: int) {
    (if iv.lo8 == 0 then 0 <= x else iv.lo8 * c.q < 8 * x) && 8 * x < iv.hi8 * c.q
  }

  /** KeyBit with the open intervals. */
  function KeyBitOpen(c: Params, v: int, w: int): int {
    var iv := if InOpenInterval(c, SelectInterval0, w) || InOpenInterval(c, SelectInterval1, w)
              then BitInterval0 else BitInterval1;
    if InOpenInterval(c, iv, v) then 1 else 0
  }

  /** With an odd Q, such as 2^32 - 1, no integer lies on an end point kQ/8,
      0 < k < 8, so closing or opening the intervals there (rlwe.py uses `<=`
      and `>=`) does not change any key bit. */
  lemma KeyBitEndPoints(c: Params, v: int, w: int)
    requires c.q % 2 == 1
    ensures KeyBit(c, v, w) == KeyBitOpen(c, v, w)
  {
    OddModulusNoTies(c, w, 2);
    OddModulusNoTies(c, w, 4);
    OddModulusNoTies(c, w, 6);
    OddModulusNoTies(c, v, 1);
    OddModulusNoTies(c, v, 3);
    OddModulusNoTies(c, v, 5);
    OddModulusNoTies(c, v, 7);
  }

  /** The module's parameters have an odd Q, so their key bits do not depend on the end points. */
  lemma ReferenceKeyBitEndPoints(v: int, w: int)
    ensures KeyBit(Reference, v, w) == KeyBitOpen(Reference, v, w)
  {
    KeyBitEndPoints(Reference, v, w);
  }

  lemma OddModulusNoTies(c: Params, v: int, k: int)
    requires c.q % 2 == 1 && 1 <= k <= 7
    ensures 8 * v != k * c.q
  {
    var t := c.q / 2;
    assert c.q == 2 * t + 1;
    if k == 1 {
    } else if k == 2 {
    } else if k == 3 {
    } else if k == 4 {
    } else if k == 5 {
    } else if k == 6 {
    } else {
    }
  }
}
