/** The Wilson lower bound in exact reals (`_wilson_lower_bound` of `calibration.py`). */
module Wilson {

  ghost predicate IsRoot(root: real, x: real) { root >= 0.0 && root * root == x }

  function Rate(successes: nat, total: nat): real
    requires total > 0
  {
    successes as real / total as real
  }

  function Radicand(p: real, n: real, z: real): real
    requires n > 0.0
  {
    p * (1.0 - p) / n + z * z / (4.0 * n * n)
  }

  /** The bound before it is clamped at zero; `root` is the square root of the radicand. */
  function Unclamped(p: real, n: real, z: real, root: real): real
    requires n > 0.0
  {
    SquareNonNegative(z);
    NonNegativeQuotient(z * z, n);
    (p + z * z / (2.0 * n) - z * root) / (1.0 + z * z / n)
  }

  function LowerBound(successes: nat, total: nat, z: real, root: real): real {
    if total == 0 then 1.0
    else
      var l := Unclamped(Rate(successes, total), total as real, z, root);
      if l > 0.0 then l else 0.0
  }

  ghost predicate IsRootOf(root: real, successes: nat, total: nat, z: real)
    requires total > 0
  {
    IsRoot(root, Radicand(Rate(successes, total), total as real, z))
  }

  /* ---------- Real arithmetic ---------- */

  lemma NonNegativeQuotient(x: real, n: real)
    requires n > 0.0
    ensures x >= 0.0 ==> x / n >= 0.0
    ensures x > 0.0 ==> x / n > 0.0
  {}

  lemma ProductSign(x: real, y: real)
    ensures x >= 0.0 && y >= 0.0 ==> x * y >= 0.0
    ensures x > 0.0 && y > 0.0 ==> x * y > 0.0
  {}

  lemma SquareNonNegative(x: real)
    ensures x * x >= 0.0
  {}

  lemma DivideMultiply(x: real, n: real)
    requires n != 0.0
    ensures x / n * n == x
  {}

  lemma Cancel(x: real, y: real, k: real)
    requires k > 0.0 && x * k == y * k
    ensures x == y
  {
    assert (x - y) * k == x * k - y * k;
  }

  lemma SquareGrows(y: real, d: real)
    requires d > 0.0 && y >= 0.0
    ensures (y + d) * (y + d) > y * y
  {
    assert (y + d) * (y + d) == y * y + 2.0 * (y * d) + d * d;
    ProductSign(d, d);
    ProductSign(y, d);
  }

  lemma SquaresOrder(x: real, y: real)
    requires x >= 0.0 && y >= 0.0
    ensures x * x <= y * y ==> x <= y
    ensures x * x < y * y ==> x < y
  {
    if x > y {
      SquareGrows(y, x - y);
    }
  }

  lemma QuotientOrder(x: real, y: real, d: real)
    requires d > 0.0
    ensures x <= y ==> x / d <= y / d
    ensures x < y ==> x / d < y / d
  {}

  /* ---------- The bound in terms of p = s/n, a = z*z/n and m = z*root ---------- */

  ghost predicate IsMargin(p: real, a: real, m: real) {
    0.0 <= p <= 1.0 && a > 0.0 && m >= 0.0 && m * m == a * (p * (1.0 - p)) + a * a / 4.0
  }

  function Lower(p: real, a: real, m: real): real
    requires a > 0.0
  {
    (p + a / 2.0 - m) / (1.0 + a)
  }

  lemma ToMargin(p: real, n: real, z: real, root: real)
    requires 0.0 <= p <= 1.0 && n > 0.0 && z > 0.0 && IsRoot(root, Radicand(p, n, z))
    ensures z * z / n > 0.0 && IsMargin(p, z * z / n, z * root)
    ensures Unclamped(p, n, z, root) == Lower(p, z * z / n, z * root)
  {
    MarginSquare(p, n, z, root);
    PositiveWeight(z, z, n);
    ProductSign(z, root);
    HalfTerm(z * z, n);
  }

  lemma PositiveWeight(x: real, y: real, n: real)
    requires x > 0.0 && y > 0.0 && n > 0.0
    ensures x * y / n > 0.0
  {
    ProductSign(x, y);
    NonNegativeQuotient(x * y, n);
  }

  lemma RateInRange(successes: nat, total: nat)
    requires 0 < total && successes <= total
    ensures 0.0 <= Rate(successes, total) <= 1.0
    ensures successes == total ==> Rate(successes, total) == 1.0
  {
    var s, n := successes as real, total as real;
    DivideMultiply(n, n);
    Cancel(n / n, 1.0, n);
    NonNegativeQuotient(s, n);
    QuotientOrder(s, n, n);
  }

  lemma HalfTerm(x: real, n: real)
    requires n > 0.0
    ensures x / (2.0 * n) == x / n / 2.0
  {
    var a := x / n;
    DivideMultiply(x, n);
    assert (a / 2.0) * (2.0 * n) == a * n;
    DivideMultiply(x, 2.0 * n);
    Cancel(x / (2.0 * n), a / 2.0, 2.0 * n);
  }

  /** `z * sqrt(...)` squared: the two summands of the radicand, each times `z * z`. */
  lemma MarginSquare(p: real, n: real, z: real, root: real)
    requires n > 0.0 && root * root == Radicand(p, n, z)
    ensures var a := z * z / n; (z * root) * (z * root) == a * (p * (1.0 - p)) + a * a / 4.0
  {
    var q, zz := p * (1.0 - p), z * z;
    var a := zz / n;
    assert (z * root) * (z * root) == zz * (root * root);
    FirstSummand(zz, q, n);
    SecondSummand(zz, n);
    assert zz * (q / n + zz / (4.0 * n * n)) == zz * (q / n) + zz * (zz / (4.0 * n * n));
  }

  lemma FirstSummand(zz: real, q: real, n: real)
    requires n > 0.0
    ensures zz * (q / n) == (zz / n) * q
  {
    var a, u := zz / n, q / n;
    DivideMultiply(zz, n);
    DivideMultiply(q, n);
    assert zz * u == (a * n) * u == a * (n * u);
  }

  lemma SecondSummand(zz: real, n: real)
    requires n > 0.0
    ensures zz * (zz / (4.0 * n * n)) == (zz / n) * (zz / n) / 4.0
  {
    var a, k := zz / n, 4.0 * n;
    var v := zz / (k * n);
    DivideMultiply(zz, n);
    DivideMultiply(zz, k * n);
    // a*n == zz and v*(k*n) == zz
    assert (zz * v) * (k * n) == zz * (a * n);
    assert (zz * v * k) * n == (zz * a) * n;
    Cancel(zz * v * k, zz * a, n);
    assert (zz * v * 4.0) * n == (a * a) * n;
    Cancel(zz * v * 4.0, a * a, n);
  }

  /** The margin never exceeds the centre, and reaches at least from the centre to `p * (1 + a)`. */
  lemma MarginBounds(p: real, a: real, m: real)
    requires IsMargin(p, a, m)
    ensures m <= p + a / 2.0
    ensures a / 2.0 - a * p <= m
    ensures p > 0.0 ==> a / 2.0 - a * p < m
  {
    CentreSquare(p, a, m);
    SquaresOrder(m, p + a / 2.0);
    DistanceSquare(p, a, m);
    var d := a / 2.0 - a * p;
    if d >= 0.0 {
      SquaresOrder(d, m);
      HalfBelow(p, a);
    }
  }

  lemma CentreSquare(p: real, a: real, m: real)
    requires IsMargin(p, a, m)
    ensures m * m <= (p + a / 2.0) * (p + a / 2.0)
  {
    var c := p + a / 2.0;
    assert c * c == p * p + p * a + a * a / 4.0;
    assert a * (p * (1.0 - p)) == a * p - a * (p * p);
    ProductSign(p, p);
    ProductSign(a, p * p);
  }

  lemma DistanceSquare(p: real, a: real, m: real)
    requires IsMargin(p, a, m)
    ensures var d := a / 2.0 - a * p; d * d <= m * m && (0.0 < p < 1.0 ==> d * d < m * m)
  {
    var d, q := a / 2.0 - a * p, p * (1.0 - p);
    assert d * d == a * a / 4.0 - (a * a) * q;
    ProductSign(p, 1.0 - p);
    ProductSign(a, a);
    ProductSign(a, q);
    ProductSign(a * a, q);
  }

  lemma HalfBelow(p: real, a: real)
    requires a > 0.0 && a / 2.0 - a * p >= 0.0 && p <= 1.0
    ensures p < 1.0
  {
    assert p == 1.0 ==> a * p == a;
  }

  /** The clamp at zero is never needed, and the bound never exceeds the success rate. */
  lemma LowerInRange(p: real, a: real, m: real)
    requires IsMargin(p, a, m)
    ensures 0.0 <= Lower(p, a, m) <= p
  {
    MarginBounds(p, a, m);
    NonNegativeQuotient(p + a / 2.0 - m, 1.0 + a);
    QuotientOrder(p + a / 2.0 - m, p * (1.0 + a), 1.0 + a);
    DivideMultiply(p * (1.0 + a), 1.0 + a);
    Cancel(p * (1.0 + a) / (1.0 + a), p, 1.0 + a);
  }

  /** `e` is the distance from the rate to the bound, times `1 + a`. */
  lemma DistanceIdentity(p: real, a: real, m: real, q: real, d: real, e: real)
    requires q == p * (1.0 - p) && d == a / 2.0 - a * p && e == m - d && m * m == a * q + a * a / 4.0
    ensures e * e == a * q + a * a / 2.0 - 2.0 * (m * d) - (a * a) * q
  {
    assert d * d == a * a / 4.0 - (a * a) * q;
    assert e * e == m * m - 2.0 * (m * d) + d * d;
  }

  lemma ProductIdentity(p: real, a: real, m: real, q: real, d: real, u: real, v: real)
    requires q == p * (1.0 - p) && d == a / 2.0 - a * p && m * m == a * q + a * a / 4.0
    requires u == p + a / 2.0 - m && v == 1.0 - p + a / 2.0 + m
    ensures a * (u * v) == a * q + a * a / 2.0 - 2.0 * (m * d) - (a * a) * q
  {
    var c, c' := p + a / 2.0, 1.0 - p + a / 2.0;
    assert c * c' == q + a / 2.0 + a * a / 4.0;
    assert u * v == c * c' + m * (c - c') - m * m;
    Expand(a, c * c', m * (c - c'), m * m);
    Expand(a, q, a / 2.0, 0.0 - a * a / 4.0);
    TimesSquare(a, m, q);
    CrossTerm(a, m, p, d);
  }

  lemma Expand(a: real, x: real, y: real, z: real)
    ensures a * (x + y - z) == a * x + a * y - a * z
  {}

  lemma TimesSquare(a: real, m: real, q: real)
    requires m * m == a * q + a * a / 4.0
    ensures a * (m * m) == (a * a) * q + a * (a * a / 4.0)
  {
    assert a * (m * m) == a * (a * q + a * a / 4.0);
  }

  lemma CrossTerm(a: real, m: real, p: real, d: real)
    requires d == a / 2.0 - a * p
    ensures a * (m * ((p + a / 2.0) - (1.0 - p + a / 2.0))) == 0.0 - 2.0 * (m * d)
  {
    var t := 2.0 * p - 1.0;
    assert (p + a / 2.0) - (1.0 - p + a / 2.0) == t;
    assert a * t == 0.0 - 2.0 * d;
    Reorder(a, m, t);
  }

  lemma CancelProduct(x: real, y: real, d: real, e: real)
    requires d > 0.0 && e > 0.0 && x * (d * e) == y * (d * e)
    ensures x == y
  {
    ProductSign(d, e);
    Cancel(x, y, d * e);
  }

  lemma Scaled(w: real, u: real, p: real, a: real, d: real)
    requires u == w * d
    ensures ((p - w) * (p - w)) * (d * d) == (p * d - u) * (p * d - u)
    ensures (a * (w * (1.0 - w))) * (d * d) == a * (u * (d - u))
  {
    assert (p - w) * d == p * d - u && (1.0 - w) * d == d - u;
    assert ((p - w) * (p - w)) * (d * d) == ((p - w) * d) * ((p - w) * d);
    assert (w * (1.0 - w)) * (d * d) == (w * d) * ((1.0 - w) * d);
    Reorder(a, w * (1.0 - w), d * d);
    assert (a * (w * (1.0 - w))) * (d * d) == a * ((w * (1.0 - w)) * (d * d));
  }

  /** The bound is where the rate is as far away as the normal approximation around the bound itself allows. */
  lemma LowerSolves(p: real, a: real, m: real)
    requires IsMargin(p, a, m)
    ensures var w := Lower(p, a, m); (p - w) * (p - w) == a * (w * (1.0 - w))
  {
    var d, q, u, v := a / 2.0 - a * p, p * (1.0 - p), p + a / 2.0 - m, 1.0 - p + a / 2.0 + m;
    var w := Lower(p, a, m);
    DivideMultiply(u, 1.0 + a);
    Scaled(w, u, p, a, 1.0 + a);
    assert p * (1.0 + a) - u == m - d && 1.0 + a - u == v;
    DistanceIdentity(p, a, m, q, d, m - d);
    ProductIdentity(p, a, m, q, d, u, v);
    CancelProduct((p - w) * (p - w), a * (w * (1.0 - w)), 1.0 + a, 1.0 + a);
  }

  /** More successes, a strictly larger bound. */
  lemma LowerGrows(p1: real, m1: real, p2: real, m2: real, a: real)
    requires IsMargin(p1, a, m1) && IsMargin(p2, a, m2) && p1 < p2
    ensures Lower(p1, a, m1) < Lower(p2, a, m2)
  {
    MarginBounds(p1, a, m1);
    MarginBounds(p2, a, m2);
    DifferenceOfSquares(p1, m1, p2, m2, a);
    MarginGrowsSlowly(p1, m1, p2, m2, a);
    QuotientOrder(p1 + a / 2.0 - m1, p2 + a / 2.0 - m2, 1.0 + a);
  }

  lemma MarginGrowsSlowly(p1: real, m1: real, p2: real, m2: real, a: real)
    requires p1 < p2 && m1 >= 0.0 && m2 >= 0.0
    requires (m2 - m1) * (m1 + m2) == (p2 - p1) * (a * (1.0 - p1 - p2))
    requires a / 2.0 - a * p1 <= m1 && a / 2.0 - a * p2 < m2
    ensures m2 - m1 < p2 - p1
  {
    Distribute(a, p1, p2);
    SlowGrowth(p2 - p1, m2 - m1, m1 + m2, a * (1.0 - p1 - p2));
  }

  lemma Distribute(a: real, p1: real, p2: real)
    ensures a * (1.0 - p1 - p2) == a - a * p1 - a * p2
  {}

  lemma SlowGrowth(d: real, e: real, sum: real, slope: real)
    requires d > 0.0 && sum >= 0.0 && slope < sum && e * sum == d * slope
    ensures e < d
  {
    ProductSign(d, sum - slope);
    assert d * (sum - slope) == d * sum - d * slope;
    Compare(e, d, sum);
  }

  lemma DifferenceOfSquares(p1: real, m1: real, p2: real, m2: real, a: real)
    requires IsMargin(p1, a, m1) && IsMargin(p2, a, m2)
    ensures (m2 - m1) * (m1 + m2) == (p2 - p1) * (a * (1.0 - p1 - p2))
  {
    assert (m2 - m1) * (m1 + m2) == m2 * m2 - m1 * m1;
    var q1, q2 := p1 * (1.0 - p1), p2 * (1.0 - p2);
    assert q2 - q1 == (p2 - p1) * (1.0 - p1 - p2);
    assert a * q2 - a * q1 == a * (q2 - q1);
    Reorder(a, p2 - p1, 1.0 - p1 - p2);
  }

  lemma Reorder(x: real, y: real, z: real)
    ensures x * (y * z) == y * (x * z)
  {}

  lemma Compare(x: real, y: real, k: real)
    requires k >= 0.0 && x * k < y * k
    ensures x < y
  {
    assert (x - y) * k == x * k - y * k;
    ProductSign(x - y, k);
  }

  lemma CompareWeakly(x: real, y: real, k: real)
    requires k > 0.0 && x * k <= y * k
    ensures x <= y
  {
    assert (x - y) * k == x * k - y * k;
    ProductSign(x - y, k);
  }

  /* ---------- The bound itself ---------- */

  /** Between zero and the success rate, without any help from the clamp. */
  lemma BoundInRange(successes: nat, total: nat, z: real, root: real)
    requires 0 < total && successes <= total && z > 0.0 && IsRootOf(root, successes, total, z)
    ensures LowerBound(successes, total, z, root) == Unclamped(Rate(successes, total), total as real, z, root)
    ensures 0.0 <= LowerBound(successes, total, z, root) <= Rate(successes, total)
  {
    var p, n := Rate(successes, total), total as real;
    RateInRange(successes, total);
    ToMargin(p, n, z, root);
    LowerInRange(p, z * z / n, z * root);
  }

  /** It solves Wilson's equation: the squared distance to the rate is `z * z / n` times the variance at the bound. */
  lemma BoundSolves(successes: nat, total: nat, z: real, root: real)
    requires 0 < total && successes <= total && z > 0.0 && IsRootOf(root, successes, total, z)
    ensures var p, w := Rate(successes, total), LowerBound(successes, total, z, root);
      (p - w) * (p - w) == (z * z / total as real) * (w * (1.0 - w))
  {
    var p, n := Rate(successes, total), total as real;
    RateInRange(successes, total);
    BoundInRange(successes, total, z, root);
    ToMargin(p, n, z, root);
    LowerSolves(p, z * z / n, z * root);
  }

  /** Strictly increasing in the number of successes. */
  lemma BoundIncreases(s1: nat, s2: nat, total: nat, z: real, root1: real, root2: real)
    requires s1 < s2 <= total && z > 0.0
    requires IsRootOf(root1, s1, total, z) && IsRootOf(root2, s2, total, z)
    ensures LowerBound(s1, total, z, root1) < LowerBound(s2, total, z, root2)
  {
    var p1, p2, n := Rate(s1, total), Rate(s2, total), total as real;
    BoundInRange(s1, total, z, root1);
    BoundInRange(s2, total, z, root2);
    RateInRange(s1, total);
    RateInRange(s2, total);
    ToMargin(p1, n, z, root1);
    ToMargin(p2, n, z, root2);
    QuotientOrder(s1 as real, s2 as real, n);
    LowerGrows(p1, z * root1, p2, z * root2, z * z / n);
  }

  lemma BoundOfAllSuccesses(total: nat, z: real, root: real)
    requires 0 < total && z > 0.0 && IsRootOf(root, total, total, z)
    ensures LowerBound(total, total, z, root) == AllSuccesses(total, z)
  {
    var n, a, m := total as real, z * z / total as real, z * root;
    RateInRange(total, total);
    ToMargin(1.0, n, z, root);
    BoundInRange(total, total, z, root);
    FullMargin(a, m);
    SquareNonNegative(z);
    Reciprocal(z * z, n);
  }

  lemma FullMargin(a: real, m: real)
    requires IsMargin(1.0, a, m)
    ensures Lower(1.0, a, m) == 1.0 / (1.0 + a)
  {
    assert m * m == (a / 2.0) * (a / 2.0);
    SquaresOrder(m, a / 2.0);
    SquaresOrder(a / 2.0, m);
  }

  lemma Reciprocal(x: real, n: real)
    requires x >= 0.0 && n > 0.0 && x / n >= 0.0
    ensures 1.0 / (1.0 + x / n) == n / (n + x)
  {
    var a := x / n;
    var l := 1.0 / (1.0 + a);
    DivideMultiply(x, n);
    DivideMultiply(1.0, 1.0 + a);
    DivideMultiply(n, n + x);
    assert l * (n + x) == (l * (1.0 + a)) * n;
    Cancel(l, n / (n + x), n + x);
  }

  /** `n / (n + z*z)` */
  function AllSuccesses(total: nat, z: real): real
    requires total > 0
  {
    SquareNonNegative(z);
    total as real / (total as real + z * z)
  }

  lemma AllSuccessesGrows(m: nat, n: nat, z: real)
    requires 0 < m <= n
    ensures AllSuccesses(m, z) <= AllSuccesses(n, z)
  {
    var x, y, zz := m as real, n as real, z * z;
    SquareNonNegative(z);
    ProductSign(y - x, zz);
    assert x * (y + zz) <= y * (x + zz) by {
      assert y * (x + zz) - x * (y + zz) == (y - x) * zz;
    }
    CrossMultiply(x, x + zz, y, y + zz);
  }

  lemma CrossMultiply(x: real, b: real, y: real, d: real)
    requires b > 0.0 && d > 0.0 && x * d <= y * b
    ensures x / b <= y / d
  {
    var u, v := x / b, y / d;
    DivideMultiply(x, b);
    DivideMultiply(y, d);
    ProductSign(b, d);
    assert u * (b * d) == x * d && v * (b * d) == y * b;
    CompareWeakly(u, v, b * d);
  }
}
