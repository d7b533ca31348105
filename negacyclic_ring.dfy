// The quotient ring Z_Q[x]/(x^N + 1) behind the key exchange: the ring
// parameters, numpy's coefficient-wise `% Q`, the remainder of np.polydiv by
// the ideal x^N + 1 as an exact integer fold, and the residue of each
// coefficient class.  The lemmas show that `% Q`, np.polyadd and np.polymul
// are compatible with working in the quotient ring.
module NegacyclicRing {
  import opened NumpyPoly
  import Modular

  /** Ring dimension n (the ideal is x^n + 1) and coefficient modulus q. */
  datatype Config = Config(n: nat, q: int)

  /** Ring parameters: degree bound n > 0 and modulus q > 1. */
  type Params = c: Config | c.n >= 1 && c.q >= 2 witness Config(1, 2)

  /** A reduced ring element: 1 to n coefficients, each in [0, q). */
  predicate IsRingElement(c: Params, p: seq<int>) {
    1 <= |p| <= c.n && forall i :: 0 <= i < |p| ==> 0 <= p[i] < c.q
  }

  /** numpy's `p % Q`: every coefficient to its floored residue. */
  function ModQ(c: Params, p: seq<int>): (r: seq<int>)
    ensures |r| == |p|
    ensures forall i :: 0 <= i < |r| ==> 0 <= r[i] < c.q
    ensures forall k: nat {:trigger Coeff(r, k)} :: Coeff(r, k) == Coeff(p, k) % c.q
  {
    seq(|p|, i requires 0 <= i < |p| => p[i] % c.q)
  }

  /** The alternating sum Coeff(p, i) - Coeff(p, i + n) + Coeff(p, i + 2n) - ...:
      since x^n == -1 modulo the ideal, this is what lands on degree i. */
  function AltSum(c: Params, p: seq<int>, i: nat): int
    decreases |p| - i
  {
    if i >= |p| then 0 else Coeff(p, i) - AltSum(c, p, i + c.n)
  }

  /** p and p' are the same element of Z_q[x]/(x^n + 1). */
  ghost predicate RingEq(c: Params, p: seq<int>, p': seq<int>) {
    forall i: nat :: i < c.n ==> AltSum(c, p, i) % c.q == AltSum(c, p', i) % c.q
  }

  lemma RingEqRefl(c: Params, p: seq<int>)
    ensures RingEq(c, p, p)
  {
  }

  lemma RingEqTrans(c: Params, p: seq<int>, p': seq<int>, p'': seq<int>)
    requires RingEq(c, p, p') && RingEq(c, p', p'')
    ensures RingEq(c, p, p'')
  {
  }

  lemma RingEqSym(c: Params, p: seq<int>, p': seq<int>)
    requires RingEq(c, p, p')
    ensures RingEq(c, p', p)
  {
  }

  /** One step of np.polydiv by x^n + 1 (monic, so the quotient digit is the
      leading coefficient): the top coefficient is subtracted from the one n
      degrees below, and the zeroed top slot is dropped. */
  function FoldStep(c: Params, s: seq<int>): (r: seq<int>)
    requires |s| > c.n
    ensures |r| == |s| - 1
  {
    s[1..][c.n - 1 := s[c.n] - s[0]]
  }

  /** The remainder of np.polydiv(s, x^n + 1), before numpy trims leading zeros.
      numpy keeps the zeroed quotient slots in front; the trim removes them. */
  function Fold(c: Params, s: seq<int>): (r: seq<int>)
    ensures |r| == if |s| <= c.n then |s| else c.n
    decreases |s|
  {
    if |s| <= c.n then s else Fold(c, FoldStep(c, s))
  }

  // ----- The alternating sum -----

  lemma AltSumUnfold(c: Params, p: seq<int>, i: nat)
    ensures AltSum(c, p, i) == Coeff(p, i) - AltSum(c, p, i + c.n)
  {
  }

  /** A polynomial of at most n coefficients is its own fold. */
  lemma AltSumShort(c: Params, p: seq<int>, i: nat)
    requires |p| <= c.n
    ensures AltSum(c, p, i) == Coeff(p, i)
  {
  }

  lemma {:induction false} AltSumSame(c: Params, p: seq<int>, p': seq<int>, i: nat)
    requires Same(p, p')
    ensures AltSum(c, p, i) == AltSum(c, p', i)
    decreases Max(|p|, |p'|) - i
  {
    if i < Max(|p|, |p'|) {
      AltSumUnfold(c, p, i);
      AltSumUnfold(c, p', i);
      AltSumSame(c, p, p', i + c.n);
      SameAt(p, p', i);
    }
  }

  lemma {:induction false} AltSumAdd(c: Params, a: seq<int>, b: seq<int>, i: nat)
    ensures AltSum(c, PolyAdd(a, b), i) == AltSum(c, a, i) + AltSum(c, b, i)
    decreases Max(|a|, |b|) - i
  {
    if i < Max(|a|, |b|) {
      AltSumUnfold(c, a, i);
      AltSumUnfold(c, b, i);
      AltSumAdd(c, a, b, i + c.n);
    }
  }

  lemma {:induction false} AltSumScale(c: Params, s: int, p: seq<int>, i: nat)
    ensures AltSum(c, Scale(s, p), i) == s * AltSum(c, p, i)
    decreases |p| - i
  {
    if i < |p| {
      AltSumScale(c, s, p, i + c.n);
      var x, y := Coeff(p, i), AltSum(c, p, i + c.n);
      assert s * x - s * y == s * (x - y);
    }
  }

  lemma {:induction false} AltSumMulXHigh(c: Params, p: seq<int>, i: nat)
    requires i >= 1
    ensures AltSum(c, MulX(p), i) == AltSum(c, p, i - 1)
    decreases |p| + 1 - i
  {
    if i < |p| + 1 {
      AltSumMulXHigh(c, p, i + c.n);
      AltSumUnfold(c, p, i - 1);
    }
  }

  /** Multiplication by x is the negacyclic shift: degree n - 1 wraps to degree 0, negated. */
  lemma AltSumMulX(c: Params, p: seq<int>, i: nat)
    requires i < c.n
    ensures AltSum(c, MulX(p), i) == if i == 0 then -AltSum(c, p, c.n - 1) else AltSum(c, p, i - 1)
  {
    AltSumMulXHigh(c, p, if i == 0 then c.n else i);
  }

  lemma {:induction false} AltSumModQ(c: Params, p: seq<int>, i: nat)
    ensures AltSum(c, ModQ(c, p), i) % c.q == AltSum(c, p, i) % c.q
    decreases |p| - i
  {
    if i < |p| {
      AltSumModQ(c, p, i + c.n);
      Modular.ModMod(Coeff(p, i), c.q);
      Modular.CongSub(Coeff(ModQ(c, p), i), Coeff(p, i),
                      AltSum(c, ModQ(c, p), i + c.n), AltSum(c, p, i + c.n), c.q);
    }
  }

  // ----- The fold computes the alternating sums -----

  lemma {:induction false} FoldStepAltSum(c: Params, s: seq<int>, i: nat)
    requires |s| > c.n && i < |s| - 1
    ensures AltSum(c, FoldStep(c, s), i) == AltSum(c, s, i)
    decreases |s| - i
  {
    var t, d := FoldStep(c, s), |s| - 1;
    assert Coeff(t, d - c.n) == Coeff(s, d - c.n) - Coeff(s, d);
    assert i != d - c.n ==> Coeff(t, i) == Coeff(s, i);
    AltSumUnfold(c, s, i);
    if i == d - c.n {
      AltSumUnfold(c, s, d);
    } else if i < d - c.n {
      FoldStepAltSum(c, s, i + c.n);
    }
  }

  /** Coefficient i < n of the fold is the alternating sum of degrees i, i + n, ... */
  lemma {:induction false} FoldAltSum(c: Params, s: seq<int>, i: nat)
    requires i < c.n
    ensures Coeff(Fold(c, s), i) == AltSum(c, s, i)
    decreases |s|
  {
    if |s| <= c.n {
    } else {
      FoldAltSum(c, FoldStep(c, s), i);
      FoldStepAltSum(c, s, i);
    }
  }

  // ----- Compatibility of %, + and * with the quotient ring -----

  lemma ModQClass(c: Params, p: seq<int>)
    ensures RingEq(c, ModQ(c, p), p)
  {
    forall i: nat | i < c.n ensures AltSum(c, ModQ(c, p), i) % c.q == AltSum(c, p, i) % c.q {
      AltSumModQ(c, p, i);
    }
  }

  lemma SameClass(c: Params, p: seq<int>, p': seq<int>)
    requires Same(p, p')
    ensures RingEq(c, p, p')
  {
    forall i: nat | i < c.n ensures AltSum(c, p, i) % c.q == AltSum(c, p', i) % c.q {
      AltSumSame(c, p, p', i);
    }
  }

  lemma AddClass(c: Params, a: seq<int>, a': seq<int>, b: seq<int>, b': seq<int>)
    requires RingEq(c, a, a') && RingEq(c, b, b')
    ensures RingEq(c, PolyAdd(a, b), PolyAdd(a', b'))
  {
    forall i: nat | i < c.n
      ensures AltSum(c, PolyAdd(a, b), i) % c.q == AltSum(c, PolyAdd(a', b'), i) % c.q
    {
      AltSumAdd(c, a, b, i);
      AltSumAdd(c, a', b', i);
      Modular.CongAdd(AltSum(c, a, i), AltSum(c, a', i), AltSum(c, b, i), AltSum(c, b', i), c.q);
    }
  }

  lemma MulClassConstAt(c: Params, a: seq<int>, b: seq<int>, b': seq<int>, i: nat)
    requires |a| == 1 && |b| >= 1 && |b'| >= 1 && i < c.n
    requires AltSum(c, b, i) % c.q == AltSum(c, b', i) % c.q
    ensures AltSum(c, PolyMul(a, b), i) % c.q == AltSum(c, PolyMul(a, b'), i) % c.q
  {
    MulConstant(a, b);
    MulConstant(a, b');
    AltSumSame(c, PolyMul(a, b), Scale(a[0], b), i);
    AltSumSame(c, PolyMul(a, b'), Scale(a[0], b'), i);
    AltSumScale(c, a[0], b, i);
    AltSumScale(c, a[0], b', i);
    Modular.CongScale(a[0], AltSum(c, b, i), AltSum(c, b', i), c.q);
  }

  /** The schoolbook step a * b == x * ((a / x) * b) + a_0 * b, seen through the fold. */
  lemma AltSumMulStep(c: Params, a: seq<int>, b: seq<int>, i: nat)
    requires |a| >= 2 && |b| >= 1 && i < c.n
    ensures AltSum(c, PolyMul(a, b), i)
         == AltSum(c, MulX(PolyMul(DivX(a), b)), i) + Coeff(a, 0) * AltSum(c, b, i)
  {
    var m := PolyMul(DivX(a), b);
    MulRecursion(a, b);
    AltSumSame(c, PolyMul(a, b), PolyAdd(MulX(m), Scale(Coeff(a, 0), b)), i);
    AltSumAdd(c, MulX(m), Scale(Coeff(a, 0), b), i);
    AltSumScale(c, Coeff(a, 0), b, i);
  }

  lemma MulClassStepAt(c: Params, a: seq<int>, b: seq<int>, b': seq<int>, i: nat)
    requires |a| >= 2 && |b| >= 1 && |b'| >= 1 && i < c.n
    requires AltSum(c, b, i) % c.q == AltSum(c, b', i) % c.q
    requires RingEq(c, PolyMul(DivX(a), b), PolyMul(DivX(a), b'))
    ensures AltSum(c, PolyMul(a, b), i) % c.q == AltSum(c, PolyMul(a, b'), i) % c.q
  {
    var m, m' := PolyMul(DivX(a), b), PolyMul(DivX(a), b');
    AltSumMulStep(c, a, b, i);
    AltSumMulStep(c, a, b', i);
    AltSumMulX(c, m, i);
    AltSumMulX(c, m', i);
    var j := if i == 0 then c.n - 1 else i - 1;
    assert AltSum(c, m, j) % c.q == AltSum(c, m', j) % c.q;
    Modular.CongStep(AltSum(c, PolyMul(a, b), i), AltSum(c, PolyMul(a, b'), i),
                     AltSum(c, m, j), AltSum(c, m', j), i == 0,
                     Coeff(a, 0), AltSum(c, b, i), AltSum(c, b', i), c.q);
  }

  lemma {:induction false} MulClassRight(c: Params, a: seq<int>, b: seq<int>, b': seq<int>)
    requires |a| >= 1 && |b| >= 1 && |b'| >= 1
    requires RingEq(c, b, b')
    ensures RingEq(c, PolyMul(a, b), PolyMul(a, b'))
    decreases |a|
  {
    if |a| >= 2 {
      MulClassRight(c, DivX(a), b, b');
    }
    forall i: nat | i < c.n
      ensures AltSum(c, PolyMul(a, b), i) % c.q == AltSum(c, PolyMul(a, b'), i) % c.q
    {
      if |a| == 1 {
        MulClassConstAt(c, a, b, b', i);
      } else {
        MulClassStepAt(c, a, b, b', i);
      }
    }
  }

  /** np.polymul respects the quotient ring in both factors. */
  lemma MulClass(c: Params, a: seq<int>, a': seq<int>, b: seq<int>, b': seq<int>)
    requires |a| >= 1 && |a'| >= 1 && |b| >= 1 && |b'| >= 1
    requires RingEq(c, a, a') && RingEq(c, b, b')
    ensures RingEq(c, PolyMul(a, b), PolyMul(a', b'))
  {
    MulClassRight(c, a, b, b');
    MulComm(a, b');
    MulComm(a', b');
    MulClassRight(c, b', a, a');
  }
}
