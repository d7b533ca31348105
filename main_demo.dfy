// main.py: a second copy of the ring code of rlwe.py (ring_mod, add, mul,
// discrete_gaussian) and the two-party computation main() performs with it
// (make_p, make_c).  Random draws are inputs, as in module Rlwe.
module MainDemo {
  import opened NumpyPoly
  import opened NegacyclicRing
  import Modular
  import Rlwe

  /** ring_mod: `% Q`, the remainder of np.polydiv by x^N + 1, `% Q` again. */
  function RingMod(c: Params, p: seq<int>): (r: seq<int>)
    requires |p| >= 1
    ensures IsRingElement(c, r) && RingEq(c, r, p)
  {
    Rlwe.ModPolyClass(c, p);
    ModQ(c, TrimZeros(Fold(c, ModQ(c, p))))
  }

  /** add: np.polyadd, then `% Q`. */
  function Add(c: Params, a: seq<int>, b: seq<int>): (r: seq<int>)
    ensures |r| == Max(|a|, |b|)
    ensures forall i :: 0 <= i < |r| ==> 0 <= r[i] < c.q
    ensures forall k: nat {:trigger Coeff(r, k)} :: Coeff(r, k) == (Coeff(a, k) + Coeff(b, k)) % c.q
  {
    ModQ(c, PolyAdd(a, b))
  }

  /** mul: np.polymul, then ring_mod. */
  function Mul(c: Params, a: seq<int>, b: seq<int>): (r: seq<int>)
    requires |a| >= 1 && |b| >= 1
    ensures IsRingElement(c, r) && RingEq(c, r, PolyMul(a, b))
  {
    RingMod(c, PolyMul(a, b))
  }

  /** discrete_gaussian, given the N rounded normal draws. */
  function DiscreteGaussian(c: Params, draws: seq<int>): (r: seq<int>)
    requires |draws| == c.n
    ensures IsRingElement(c, r) && RingEq(c, r, draws)
  {
    RingMod(c, draws)
  }

  /** make_p: a party's public value a*s + e. */
  function MakeP(c: Params, a: seq<int>, s: seq<int>, e: seq<int>): (p: seq<int>)
    requires |a| >= 1 && |s| >= 1
    ensures 1 <= |e| <= c.n ==> IsRingElement(c, p)
    ensures RingEq(c, p, PolyAdd(PolyMul(a, s), e))
  {
    var m := Mul(c, a, s);
    ModQClass(c, PolyAdd(m, e));
    RingEqRefl(c, e);
    AddClass(c, m, PolyMul(a, s), e, e);
    RingEqTrans(c, Add(c, m, e), PolyAdd(m, e), PolyAdd(PolyMul(a, s), e));
    Add(c, m, e)
  }

  /** make_c: a party's shared value p*s. */
  function MakeC(c: Params, p: seq<int>, s: seq<int>): (r: seq<int>)
    requires |p| >= 1 && |s| >= 1
    ensures IsRingElement(c, r) && RingEq(c, r, PolyMul(p, s))
  {
    Mul(c, p, s)
  }

  /** The degree-wise difference x - y of two polynomials.  For arrays of equal
      length it is numpy's elementwise `x - y`. */
  function Minus(x: seq<int>, y: seq<int>): (r: seq<int>)
    ensures forall k: nat {:trigger Coeff(r, k)} :: Coeff(r, k) == Coeff(x, k) - Coeff(y, k)
    ensures |x| == |y| ==> |r| == |x| && forall i :: 0 <= i < |r| ==> r[i] == x[i] - y[i]
  {
    PolyAdd(x, Scale(-1, y))
  }

  // ----- main.py repeats rlwe.py -----

  lemma RingModIsModPoly(c: Params, p: seq<int>)
    requires |p| >= 1
    ensures RingMod(c, p) == Rlwe.ModPoly(c, p)
  {
  }

  lemma AddIsAddPoly(c: Params, a: seq<int>, b: seq<int>)
    ensures Add(c, a, b) == Rlwe.AddPoly(c, a, b)
  {
  }

  lemma MulIsMulPoly(c: Params, a: seq<int>, b: seq<int>)
    requires |a| >= 1 && |b| >= 1
    ensures Mul(c, a, b) == Rlwe.MulPoly(c, a, b)
  {
  }

  // ----- Ring laws of add and mul -----

  lemma AddComm(c: Params, a: seq<int>, b: seq<int>)
    ensures Add(c, a, b) == Add(c, b, a)
  {
    NumpyPoly.AddComm(a, b);
  }

  lemma MulComm(c: Params, a: seq<int>, b: seq<int>)
    requires |a| >= 1 && |b| >= 1
    ensures Mul(c, a, b) == Mul(c, b, a)
  {
    NumpyPoly.MulComm(a, b);
  }

  /** mul is associative on operands of at most N coefficients (every result
      of ring_mod is one). */
  lemma MulAssoc(c: Params, a: seq<int>, b: seq<int>, d: seq<int>)
    requires 1 <= |a| <= c.n && |b| >= 1 && 1 <= |d| <= c.n
    ensures Mul(c, Mul(c, a, b), d) == Mul(c, a, Mul(c, b, d))
  {
    var ab, bd := Mul(c, a, b), Mul(c, b, d);
    RingEqRefl(c, a);
    RingEqRefl(c, d);
    MulClass(c, ab, PolyMul(a, b), d, d);
    MulClass(c, a, a, bd, PolyMul(b, d));
    NumpyPoly.MulAssoc(a, b, d);
    RingEqSym(c, PolyMul(a, bd), PolyMul(a, PolyMul(b, d)));
    RingEqTrans(c, PolyMul(ab, d), PolyMul(a, PolyMul(b, d)), PolyMul(a, bd));
    Rlwe.ModPolyCanonical(c, PolyMul(ab, d), PolyMul(a, bd));
  }

  /** mul distributes over add once the sum of products is ring-reduced. */
  lemma MulDist(c: Params, a: seq<int>, b: seq<int>, d: seq<int>)
    requires 1 <= |a| <= c.n && 1 <= |b| <= c.n && 1 <= |d| <= c.n
    ensures Mul(c, a, Add(c, b, d)) == RingMod(c, Add(c, Mul(c, a, b), Mul(c, a, d)))
  {
    var bd, ab, ad := Add(c, b, d), Mul(c, a, b), Mul(c, a, d);
    var sum := PolyAdd(PolyMul(a, b), PolyMul(a, d));
    RingEqRefl(c, a);
    ModQClass(c, PolyAdd(b, d));
    MulClass(c, a, a, bd, PolyAdd(b, d));
    MulDistRight(a, b, d);
    SameClass(c, PolyMul(a, PolyAdd(b, d)), sum);
    RingEqTrans(c, PolyMul(a, bd), PolyMul(a, PolyAdd(b, d)), sum);
    ModQClass(c, PolyAdd(ab, ad));
    AddClass(c, ab, PolyMul(a, b), ad, PolyMul(a, d));
    RingEqTrans(c, Add(c, ab, ad), PolyAdd(ab, ad), sum);
    RingEqSym(c, Add(c, ab, ad), sum);
    RingEqTrans(c, PolyMul(a, bd), sum, Add(c, ab, ad));
    Rlwe.ModPolyCanonical(c, PolyMul(a, bd), Add(c, ab, ad));
  }

  // ----- The two-party difference -----

  /** x + y == z + w in the ring, with the sums taken by add, rearranges to
      x - z == w - y. */
  lemma CancelSides(c: Params, x: seq<int>, y: seq<int>, z: seq<int>, w: seq<int>)
    requires RingEq(c, Add(c, x, y), Add(c, z, w))
    ensures RingEq(c, Minus(x, z), Minus(w, y))
  {
    ModQClass(c, PolyAdd(x, y));
    ModQClass(c, PolyAdd(z, w));
    RingEqSym(c, Add(c, x, y), PolyAdd(x, y));
    RingEqTrans(c, PolyAdd(x, y), Add(c, x, y), Add(c, z, w));
    RingEqTrans(c, PolyAdd(x, y), Add(c, z, w), PolyAdd(z, w));
    forall i: nat | i < c.n
      ensures AltSum(c, Minus(x, z), i) % c.q == AltSum(c, Minus(w, y), i) % c.q
    {
      AltSumAdd(c, x, y, i);
      AltSumAdd(c, z, w, i);
      AltSumAdd(c, x, Scale(-1, z), i);
      AltSumAdd(c, w, Scale(-1, y), i);
      AltSumScale(c, -1, z, i);
      AltSumScale(c, -1, y, i);
      Modular.CancelSum(AltSum(c, PolyAdd(x, y), i), AltSum(c, PolyAdd(z, w), i),
                        AltSum(c, x, i), AltSum(c, y, i), AltSum(c, z, i), AltSum(c, w, i),
                        AltSum(c, Minus(x, z), i), AltSum(c, Minus(w, y), i), c.q);
    }
  }

  /** main(): with p_0 = make_p(a, s_0, e_0), p_1 = make_p(a, s_1, e_1),
      c_0 = make_c(p_1, s_0) and c_1 = make_c(p_0, s_1), the difference
      c_0 - c_1 is congruent to e_1*s_0 - e_0*s_1 in Z_Q[x]/(x^N + 1): the
      a*s_0*s_1 terms cancel, leaving only products of small polynomials. */
  lemma SharedDifference(c: Params, a: seq<int>, s0: seq<int>, e0: seq<int>, s1: seq<int>, e1: seq<int>)
    requires |a| >= 1 && |s0| >= 1 && |s1| >= 1 && |e0| >= 1 && |e1| >= 1
    ensures var p0, p1 := MakeP(c, a, s0, e0), MakeP(c, a, s1, e1);
      RingEq(c, Minus(MakeC(c, p1, s0), MakeC(c, p0, s1)), Minus(Mul(c, e1, s0), Mul(c, e0, s1)))
  {
    var p0, p1 := MakeP(c, a, s0, e0), MakeP(c, a, s1, e1);
    Rlwe.SharedValueDifference(c, a, s0, e0, s1, e1);
    CancelSides(c, MakeC(c, p1, s0), Mul(c, e0, s1), MakeC(c, p0, s1), Mul(c, e1, s0));
  }
}
