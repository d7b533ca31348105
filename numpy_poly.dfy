// numpy's polynomial routines as the ring code uses them: coefficient
// arrays listed HIGHEST DEGREE FIRST, `polyadd` (pads the shorter operand
// on the high-degree end), `polymul` (full convolution) and the trim of
// leading zeros that `polydiv` applies to its remainder.  Integers are
// unbounded: numpy's int64 convolution wraps silently, this model does not.
module NumpyPoly {

  function Max(a: int, b: int): int { if a >= b then a else b }

  /** The coefficient of x^k in the array p (highest degree first); 0 past its end. */
  function Coeff(p: seq<int>, k: nat): int {
    if k < |p| then p[|p| - 1 - k] else 0
  }

  /** p and q denote the same polynomial: they differ at most in leading zeros. */
  ghost predicate Same(p: seq<int>, q: seq<int>) {
    forall k: nat :: Coeff(p, k) == Coeff(q, k)
  }

  /** Two arrays of one length that denote the same polynomial are equal. */
  lemma SameEqual(p: seq<int>, q: seq<int>)
    requires |p| == |q| && Same(p, q)
    ensures p == q
  {
    forall i | 0 <= i < |p| ensures p[i] == q[i] {
      assert Coeff(p, |p| - 1 - i) == Coeff(q, |p| - 1 - i);
    }
  }

  lemma SameAt(p: seq<int>, q: seq<int>, k: nat)
    requires Same(p, q)
    ensures Coeff(p, k) == Coeff(q, k)
  {
  }

  function Zeros(n: nat): (z: seq<int>)
    ensures |z| == n && forall k: nat :: Coeff(z, k) == 0
  {
    seq(n, _ => 0)
  }

  /** np.polyadd: left-pad the shorter array with zeros, add elementwise. */
  function PolyAdd(a: seq<int>, b: seq<int>): (r: seq<int>)
    ensures |r| == Max(|a|, |b|)
    ensures forall k: nat {:trigger Coeff(r, k)} :: Coeff(r, k) == Coeff(a, k) + Coeff(b, k)
  {
    var n := Max(|a|, |b|);
    var a' := Zeros(n - |a|) + a;
    var b' := Zeros(n - |b|) + b;
    seq(n, i requires 0 <= i < n => a'[i] + b'[i])
  }

  /** Multiplication of every coefficient by the constant s. */
  function Scale(s: int, p: seq<int>): (r: seq<int>)
    ensures |r| == |p|
    ensures forall k: nat {:trigger Coeff(r, k)} :: Coeff(r, k) == s * Coeff(p, k)
  {
    seq(|p|, i requires 0 <= i < |p| => s * p[i])
  }

  /** Multiplication by x: a zero is appended at the low-degree end. */
  function MulX(p: seq<int>): (r: seq<int>)
    ensures |r| == |p| + 1 && Coeff(r, 0) == 0
    ensures forall k: nat :: Coeff(p, k) == Coeff(r, k + 1)
  {
    p + [0]
  }

  /** Division by x, dropping the constant coefficient. */
  function DivX(p: seq<int>): (r: seq<int>)
    ensures |r| == if |p| == 0 then 0 else |p| - 1
    ensures forall k: nat {:trigger Coeff(r, k)} :: Coeff(r, k) == Coeff(p, k + 1)
  {
    if |p| == 0 then [] else p[..|p| - 1]
  }

  /** The convolution sum: sum over j in [lo, k] of Coeff(a, j) * Coeff(b, k - j). */
  function ConvSum(a: seq<int>, b: seq<int>, k: nat, lo: nat): int
    decreases k + 1 - lo
  {
    if lo > k then 0 else Coeff(a, lo) * Coeff(b, k - lo) + ConvSum(a, b, k, lo + 1)
  }

  /** np.polymul as the full convolution of two non-empty arrays; the entry for
      degree k is ConvSum(a, b, k, 0).  np.polymul first wraps its operands in
      poly1d, which trims leading zeros and turns [] into [0]: the model leaves
      out that trim, which does not change the polynomial (MulCong, TrimSame). */
  function PolyMul(a: seq<int>, b: seq<int>): (r: seq<int>)
    requires |a| >= 1 && |b| >= 1
    ensures |r| == |a| + |b| - 1
  {
    var n := |a| + |b| - 1;
    seq(n, i requires 0 <= i < n => ConvSum(a, b, n - 1 - i, 0))
  }

  /** The remainder trim of np.polydiv: leading zeros go while more than one
      coefficient is left. */
  function TrimZeros(x: seq<int>): (r: seq<int>)
    ensures |r| <= |x| && (|x| >= 1 ==> |r| >= 1)
    ensures |r| >= 2 ==> r[0] != 0
    ensures r == x[|x| - |r|..]
    ensures forall i :: 0 <= i < |x| - |r| ==> x[i] == 0
  {
    if |x| >= 2 && x[0] == 0 then
      var t := TrimZeros(x[1..]);
      TrimStep(x, t);
      t
    else
      x
  }

  /** One step of the trim: a suffix of x[1..] preceded by zeros there is a
      suffix of x preceded by zeros, when x[0] is zero. */
  lemma TrimStep(x: seq<int>, t: seq<int>)
    requires |x| >= 1 && x[0] == 0 && |t| <= |x| - 1
    requires t == x[1..][|x| - 1 - |t|..]
    requires forall i :: 0 <= i < |x| - 1 - |t| ==> x[1..][i] == 0
    ensures t == x[|x| - |t|..]
    ensures forall i :: 0 <= i < |x| - |t| ==> x[i] == 0
  {
    assert x[1..][|x| - 1 - |t|..] == x[|x| - |t|..];
    forall i | 0 <= i < |x| - |t| ensures x[i] == 0 {
      if i > 0 {
        assert x[i] == x[1..][i - 1];
      }
    }
  }

  /** The trim keeps the polynomial. */
  lemma TrimSame(x: seq<int>)
    ensures Same(TrimZeros(x), x)
  {
    ZeroPrefixSame(x, TrimZeros(x));
  }

  /** Dropping a prefix of zeros keeps the polynomial. */
  lemma ZeroPrefixSame(x: seq<int>, r: seq<int>)
    requires |r| <= |x| && r == x[|x| - |r|..]
    requires forall i :: 0 <= i < |x| - |r| ==> x[i] == 0
    ensures Same(r, x)
  {
    var d := |x| - |r|;
    forall k: nat ensures Coeff(r, k) == Coeff(x, k) {
      if k < |r| {
        assert r[|r| - 1 - k] == x[d + (|r| - 1 - k)];
      } else if k < |x| {
        assert x[|x| - 1 - k] == 0;
      }
    }
  }

  /** Trimmed arrays are canonical: equal polynomials trim to equal arrays. */
  lemma {:induction false} TrimCanonical(x: seq<int>, y: seq<int>)
    requires |x| >= 1 && |y| >= 1 && Same(x, y)
    ensures TrimZeros(x) == TrimZeros(y)
    decreases |x| + |y|
  {
    var tx, ty := TrimZeros(x), TrimZeros(y);
    TrimSame(x);
    TrimSame(y);
    assert Same(tx, ty) by {
      forall k: nat ensures Coeff(tx, k) == Coeff(ty, k) {
        SameAt(tx, x, k);
        SameAt(x, y, k);
        SameAt(ty, y, k);
      }
    }
    if |tx| < |ty| {
      SameAt(tx, ty, |ty| - 1);
      assert false;
    } else if |ty| < |tx| {
      SameAt(tx, ty, |tx| - 1);
      assert false;
    }
    SameEqual(tx, ty);
  }

  /** Trimming an array that has no leading zero changes nothing. */
  lemma TrimTrimmed(x: seq<int>)
    requires |x| <= 1 || x[0] != 0
    ensures TrimZeros(x) == x
  {
  }

  // ----- The convolution sum -----

  lemma {:induction false} ConvSumVanishes(a: seq<int>, b: seq<int>, k: nat, lo: nat)
    requires |a| + |b| <= k + 1
    ensures ConvSum(a, b, k, lo) == 0
    decreases k + 1 - lo
  {
    if lo <= k {
      ConvSumVanishes(a, b, k, lo + 1);
    }
  }

  lemma {:induction false} ConvSumPastLeft(a: seq<int>, b: seq<int>, k: nat, lo: nat)
    requires |a| <= lo
    ensures ConvSum(a, b, k, lo) == 0
    decreases k + 1 - lo
  {
    if lo <= k {
      ConvSumPastLeft(a, b, k, lo + 1);
    }
  }

  lemma {:induction false} ConvSumEmptyRight(a: seq<int>, k: nat, lo: nat)
    ensures ConvSum(a, [], k, lo) == 0
    decreases k + 1 - lo
  {
    if lo <= k {
      ConvSumEmptyRight(a, k, lo + 1);
    }
  }

  /** np.polymul's coefficient of x^k is the convolution sum, at every degree. */
  lemma CoeffPolyMul(a: seq<int>, b: seq<int>, k: nat)
    requires |a| >= 1 && |b| >= 1
    ensures Coeff(PolyMul(a, b), k) == ConvSum(a, b, k, 0)
  {
    if k >= |a| + |b| - 1 {
      ConvSumVanishes(a, b, k, 0);
    }
  }

  /** Peeling the constant coefficient of the left factor. */
  lemma {:induction false} ConvPeelLeft(a: seq<int>, b: seq<int>, k: nat, lo: nat)
    requires k >= 1
    ensures ConvSum(a, b, k, lo + 1) == ConvSum(DivX(a), b, k - 1, lo)
    decreases k + 1 - lo
  {
    if lo + 1 <= k {
      ConvPeelLeft(a, b, k, lo + 1);
      assert Coeff(a, lo + 1) == Coeff(DivX(a), lo);
    }
  }

  /** Peeling the constant coefficient of the right factor. */
  lemma {:induction false} ConvPeelRight(a: seq<int>, b: seq<int>, k: nat, lo: nat)
    requires 1 <= k && lo <= k
    ensures ConvSum(a, b, k, lo) == ConvSum(a, DivX(b), k - 1, lo) + Coeff(a, k) * Coeff(b, 0)
    decreases k - lo
  {
    if lo < k {
      ConvPeelRight(a, b, k, lo + 1);
      assert Coeff(b, k - lo) == Coeff(DivX(b), k - 1 - lo);
    }
  }

  lemma {:induction false} ConvComm(a: seq<int>, b: seq<int>, k: nat)
    ensures ConvSum(a, b, k, 0) == ConvSum(b, a, k, 0)
    decreases |a|
  {
    if |a| == 0 {
      ConvSumPastLeft(a, b, k, 0);
      ConvSumEmptyRight(b, k, 0);
    } else if k == 0 {
      assert ConvSum(a, b, 0, 0) == Coeff(a, 0) * Coeff(b, 0);
      assert ConvSum(b, a, 0, 0) == Coeff(b, 0) * Coeff(a, 0);
    } else {
      ConvPeelLeft(a, b, k, 0);
      ConvComm(DivX(a), b, k - 1);
      ConvPeelRight(b, a, k, 0);
    }
  }

  lemma {:induction false} ConvCongLeft(a: seq<int>, a': seq<int>, b: seq<int>, k: nat, lo: nat)
    requires Same(a, a')
    ensures ConvSum(a, b, k, lo) == ConvSum(a', b, k, lo)
    decreases k + 1 - lo
  {
    if lo <= k {
      ConvCongLeft(a, a', b, k, lo + 1);
      assert Coeff(a, lo) == Coeff(a', lo);
    }
  }

  lemma {:induction false} ConvCongRight(a: seq<int>, b: seq<int>, b': seq<int>, k: nat, lo: nat)
    requires Same(b, b')
    ensures ConvSum(a, b, k, lo) == ConvSum(a, b', k, lo)
    decreases k + 1 - lo
  {
    if lo <= k {
      ConvCongRight(a, b, b', k, lo + 1);
      assert Coeff(b, k - lo) == Coeff(b', k - lo);
    }
  }

  lemma {:induction false} ConvAddLeft(a1: seq<int>, a2: seq<int>, b: seq<int>, k: nat, lo: nat)
    ensures ConvSum(PolyAdd(a1, a2), b, k, lo) == ConvSum(a1, b, k, lo) + ConvSum(a2, b, k, lo)
    decreases k + 1 - lo
  {
    if lo <= k {
      ConvAddLeft(a1, a2, b, k, lo + 1);
      var x, y, z := Coeff(a1, lo), Coeff(a2, lo), Coeff(b, k - lo);
      assert (x + y) * z == x * z + y * z;
    }
  }

  lemma {:induction false} ConvAddRight(a: seq<int>, b1: seq<int>, b2: seq<int>, k: nat, lo: nat)
    ensures ConvSum(a, PolyAdd(b1, b2), k, lo) == ConvSum(a, b1, k, lo) + ConvSum(a, b2, k, lo)
    decreases k + 1 - lo
  {
    if lo <= k {
      ConvAddRight(a, b1, b2, k, lo + 1);
      var x, y, z := Coeff(b1, k - lo), Coeff(b2, k - lo), Coeff(a, lo);
      assert z * (x + y) == z * x + z * y;
    }
  }

  lemma {:induction false} ConvScaleLeft(s: int, a: seq<int>, b: seq<int>, k: nat, lo: nat)
    ensures ConvSum(Scale(s, a), b, k, lo) == s * ConvSum(a, b, k, lo)
    decreases k + 1 - lo
  {
    if lo <= k {
      ConvScaleLeft(s, a, b, k, lo + 1);
      var x, z, rest := Coeff(a, lo), Coeff(b, k - lo), ConvSum(a, b, k, lo + 1);
      assert (s * x) * z + s * rest == s * (x * z + rest);
    }
  }

  lemma ConvMulXLeft(p: seq<int>, b: seq<int>, k: nat)
    ensures ConvSum(MulX(p), b, k, 0) == if k == 0 then 0 else ConvSum(p, b, k - 1, 0)
  {
    if k >= 1 {
      ConvPeelLeft(MulX(p), b, k, 0);
      assert DivX(MulX(p)) == p;
    }
  }

  /** Schoolbook recursion: a * b == x * ((a / x) * b) + a_0 * b. */
  lemma MulRecursion(a: seq<int>, b: seq<int>)
    requires |a| >= 2 && |b| >= 1
    ensures Same(PolyMul(a, b), PolyAdd(MulX(PolyMul(DivX(a), b)), Scale(Coeff(a, 0), b)))
  {
    var rhs := PolyAdd(MulX(PolyMul(DivX(a), b)), Scale(Coeff(a, 0), b));
    forall k: nat ensures Coeff(PolyMul(a, b), k) == Coeff(rhs, k) {
      CoeffPolyMul(a, b, k);
      if k >= 1 {
        ConvPeelLeft(a, b, k, 0);
        CoeffPolyMul(DivX(a), b, k - 1);
        assert Coeff(MulX(PolyMul(DivX(a), b)), k) == Coeff(PolyMul(DivX(a), b), k - 1);
      }
    }
  }

  lemma MulConstant(a: seq<int>, b: seq<int>)
    requires |a| == 1 && |b| >= 1
    ensures Same(PolyMul(a, b), Scale(a[0], b))
  {
    forall k: nat ensures Coeff(PolyMul(a, b), k) == Coeff(Scale(a[0], b), k) {
      CoeffPolyMul(a, b, k);
      ConvSumPastLeft(a, b, k, 1);
    }
  }

  // ----- Integer polynomial ring laws for np.polyadd / np.polymul -----

  lemma AddComm(a: seq<int>, b: seq<int>)
    ensures PolyAdd(a, b) == PolyAdd(b, a)
  {
    SameEqual(PolyAdd(a, b), PolyAdd(b, a));
  }

  lemma MulComm(a: seq<int>, b: seq<int>)
    requires |a| >= 1 && |b| >= 1
    ensures PolyMul(a, b) == PolyMul(b, a)
  {
    forall k: nat ensures Coeff(PolyMul(a, b), k) == Coeff(PolyMul(b, a), k) {
      CoeffPolyMul(a, b, k);
      CoeffPolyMul(b, a, k);
      ConvComm(a, b, k);
    }
    SameEqual(PolyMul(a, b), PolyMul(b, a));
  }

  lemma MulOne(a: seq<int>)
    requires |a| >= 1
    ensures PolyMul(a, [1]) == a
  {
    MulComm(a, [1]);
    MulConstant([1], a);
    SameEqual(PolyMul(a, [1]), a);
  }

  lemma {:induction false} AssocAt(a: seq<int>, b: seq<int>, c: seq<int>, k: nat)
    requires |a| >= 1 && |b| >= 1 && |c| >= 1
    ensures ConvSum(PolyMul(a, b), c, k, 0) == ConvSum(a, PolyMul(b, c), k, 0)
    decreases |a|
  {
    var bc := PolyMul(b, c);
    CoeffPolyMul(b, c, k);
    if |a| == 1 {
      MulConstant(a, b);
      ConvCongLeft(PolyMul(a, b), Scale(a[0], b), c, k, 0);
      ConvScaleLeft(a[0], b, c, k, 0);
      ConvSumPastLeft(a, bc, k, 1);
    } else {
      var a', a0 := DivX(a), Coeff(a, 0);
      var m' := PolyMul(a', b);
      MulRecursion(a, b);
      ConvCongLeft(PolyMul(a, b), PolyAdd(MulX(m'), Scale(a0, b)), c, k, 0);
      ConvAddLeft(MulX(m'), Scale(a0, b), c, k, 0);
      ConvScaleLeft(a0, b, c, k, 0);
      ConvMulXLeft(m', c, k);
      if k >= 1 {
        AssocAt(a', b, c, k - 1);
        ConvPeelLeft(a, bc, k, 0);
      }
    }
  }

  lemma MulAssoc(a: seq<int>, b: seq<int>, c: seq<int>)
    requires |a| >= 1 && |b| >= 1 && |c| >= 1
    ensures PolyMul(PolyMul(a, b), c) == PolyMul(a, PolyMul(b, c))
  {
    forall k: nat ensures Coeff(PolyMul(PolyMul(a, b), c), k) == Coeff(PolyMul(a, PolyMul(b, c)), k) {
      CoeffPolyMul(PolyMul(a, b), c, k);
      CoeffPolyMul(a, PolyMul(b, c), k);
      AssocAt(a, b, c, k);
    }
    SameEqual(PolyMul(PolyMul(a, b), c), PolyMul(a, PolyMul(b, c)));
  }

  lemma MulDistLeft(a: seq<int>, b: seq<int>, c: seq<int>)
    requires |a| >= 1 && |b| >= 1 && |c| >= 1
    ensures Same(PolyMul(PolyAdd(a, b), c), PolyAdd(PolyMul(a, c), PolyMul(b, c)))
  {
    forall k: nat ensures Coeff(PolyMul(PolyAdd(a, b), c), k) == Coeff(PolyAdd(PolyMul(a, c), PolyMul(b, c)), k) {
      CoeffPolyMul(PolyAdd(a, b), c, k);
      CoeffPolyMul(a, c, k);
      CoeffPolyMul(b, c, k);
      ConvAddLeft(a, b, c, k, 0);
    }
  }

  lemma MulDistRight(a: seq<int>, b: seq<int>, c: seq<int>)
    requires |a| >= 1 && |b| >= 1 && |c| >= 1
    ensures Same(PolyMul(a, PolyAdd(b, c)), PolyAdd(PolyMul(a, b), PolyMul(a, c)))
  {
    forall k: nat ensures Coeff(PolyMul(a, PolyAdd(b, c)), k) == Coeff(PolyAdd(PolyMul(a, b), PolyMul(a, c)), k) {
      CoeffPolyMul(a, PolyAdd(b, c), k);
      CoeffPolyMul(a, b, k);
      CoeffPolyMul(a, c, k);
      ConvAddRight(a, b, c, k, 0);
    }
  }

  /** np.polymul depends only on the polynomials, not on leading zeros of the arrays. */
  lemma MulCong(a: seq<int>, a': seq<int>, b: seq<int>, b': seq<int>)
    requires |a| >= 1 && |a'| >= 1 && |b| >= 1 && |b'| >= 1
    requires Same(a, a') && Same(b, b')
    ensures Same(PolyMul(a, b), PolyMul(a', b'))
  {
    forall k: nat ensures Coeff(PolyMul(a, b), k) == Coeff(PolyMul(a', b'), k) {
      CoeffPolyMul(a, b, k);
      CoeffPolyMul(a', b', k);
      ConvCongLeft(a, a', b, k, 0);
      ConvCongRight(a', b, b', k, 0);
    }
  }
}
