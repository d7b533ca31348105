// Facts about Dafny's Euclidean remainder `%` with a positive modulus.
// For a positive modulus it coincides with the floored remainder that
// numpy's `%` computes, so these are the facts the ring code relies on.
module Modular {

  /** The remainder is determined by any decomposition a == d * m + r with 0 <= r < m. */
  lemma UniqueMod(a: int, d: int, r: int, m: int)
    requires m > 0 && 0 <= r < m && a == d * m + r
    ensures a % m == r
  {
    var d', r' := a / m, a % m;
    assert a == d' * m + r';
    assert (d - d') * m == r' - r;
    if d > d' {
      AtLeastModulus(d - d', m);
    } else if d < d' {
      AtLeastModulus(d' - d, m);
    }
  }

  lemma AtLeastModulus(k: int, m: int)
    requires k >= 1 && m > 0
    ensures k * m >= m
  {
    assert k * m == (k - 1) * m + m;
  }

  /** Adding a multiple of the modulus does not change the remainder. */
  lemma ShiftMod(x: int, k: int, m: int)
    requires m > 0
    ensures (x + k * m) % m == x % m
  {
    var d, r := x / m, x % m;
    assert x == d * m + r;
    assert x + k * m == (d + k) * m + r;
    UniqueMod(x + k * m, d + k, r, m);
  }

  lemma ModMod(x: int, m: int)
    requires m > 0
    ensures (x % m) % m == x % m
  {
    UniqueMod(x % m, 0, x % m, m);
  }

  lemma AddMod(x: int, y: int, m: int)
    requires m > 0
    ensures (x + y) % m == (x % m + y % m) % m
  {
    assert x == (x / m) * m + x % m;
    assert y == (y / m) * m + y % m;
    assert x + y == (x % m + y % m) + (x / m + y / m) * m;
    ShiftMod(x % m + y % m, x / m + y / m, m);
  }

  lemma SubMod(x: int, y: int, m: int)
    requires m > 0
    ensures (x - y) % m == (x % m - y % m) % m
  {
    assert x == (x / m) * m + x % m;
    assert y == (y / m) * m + y % m;
    assert x - y == (x % m - y % m) + (x / m - y / m) * m;
    ShiftMod(x % m - y % m, x / m - y / m, m);
  }

  lemma MulMod(x: int, y: int, m: int)
    requires m > 0
    ensures (x * y) % m == ((x % m) * (y % m)) % m
  {
    var a, r := x / m, x % m;
    var b, s := y / m, y % m;
    assert x == a * m + r;
    assert y == b * m + s;
    assert x * y == (a * m + r) * (b * m + s);
    assert (a * m + r) * (b * m + s) == r * s + (a * b * m + a * s + r * b) * m;
    ShiftMod(r * s, a * b * m + a * s + r * b, m);
  }

  /** Congruence mod m is preserved by +, -, negation and scaling. */
  lemma CongAdd(x: int, x': int, y: int, y': int, m: int)
    requires m > 0 && x % m == x' % m && y % m == y' % m
    ensures (x + y) % m == (x' + y') % m
  {
    AddMod(x, y, m);
    AddMod(x', y', m);
  }

  lemma CongSub(x: int, x': int, y: int, y': int, m: int)
    requires m > 0 && x % m == x' % m && y % m == y' % m
    ensures (x - y) % m == (x' - y') % m
  {
    SubMod(x, y, m);
    SubMod(x', y', m);
  }

  lemma CongScale(k: int, x: int, x': int, m: int)
    requires m > 0 && x % m == x' % m
    ensures (k * x) % m == (k * x') % m
  {
    MulMod(k, x, m);
    MulMod(k, x', m);
  }

  /** u + v == z + w (mod m) rearranges to u - z == w - v (mod m). */
  lemma CancelSum(s: int, s': int, u: int, v: int, z: int, w: int, d: int, d': int, m: int)
    requires m > 0 && s % m == s' % m
    requires s == u + v && s' == z + w && d == u - z && d' == w - v
    ensures d % m == d' % m
  {
    CongSub(s, s', v + z, v + z, m);
    assert s - (v + z) == d;
    assert s' - (v + z) == d';
  }

  /** The congruence of one schoolbook step: p == ±u + k*y and p' == ±u' + k*y'
      (the same sign on both sides) are congruent when u, u' and y, y' are. */
  lemma CongStep(p: int, p': int, u: int, u': int, neg: bool, k: int, y: int, y': int, m: int)
    requires m > 0 && u % m == u' % m && y % m == y' % m
    requires p == (if neg then -u else u) + k * y
    requires p' == (if neg then -u' else u') + k * y'
    ensures p % m == p' % m
  {
    var x, x' := if neg then -u else u, if neg then -u' else u';
    if neg {
      CongSub(0, 0, u, u', m);
      assert 0 - u == x && 0 - u' == x';
    }
    CongScale(k, y, y', m);
    CongAdd(x, x', k * y, k * y', m);
  }

  /** One term of a running sum: s == x*y + t and s' == x'*y' + t' are
      congruent when x', y' are the residues of x, y and t, t' are congruent. */
  lemma CongMulAdd(s: int, s': int, x: int, x': int, y: int, y': int, t: int, t': int, m: int)
    requires m > 0 && x' == x % m && y' == y % m && t % m == t' % m
    requires s == x * y + t && s' == x' * y' + t'
    ensures s % m == s' % m
  {
    MulMod(x, y, m);
    CongAdd(x * y, x' * y', t, t', m);
  }

  /** In (-m, m) only 0 is a multiple of m. */
  lemma SmallMultiple(x: int, m: int)
    requires m > 0 && -m < x < m
    ensures x % m == 0 <==> x == 0
  {
    if x < 0 {
      UniqueMod(x, -1, x + m, m);
    } else {
      UniqueMod(x, 0, x, m);
    }
  }
}
