/**
 * Dense real matrices and the handful of operations the modularity
 * co-clustering loop performs on them: sums, dot products, matrix products,
 * transposes, traces, the first-index argmax of a row and one-hot rows.
 *
 * A matrix is a sequence of rows. Exact reals stand for the floating-point
 * numbers of the original, so every identity below holds exactly.
 */
module Matrices {

  type Vector = seq<real>
  type Matrix = seq<Vector>

  /** m has `rows` rows of `cols` entries each. */
  predicate IsMatrix(m: Matrix, rows: nat, cols: nat)
  {
    |m| == rows && forall i | 0 <= i < |m| :: |m[i]| == cols
  }

  // ---------------------------------------------------------------- sums

  /** The sum of the first n entries of v. */
  function SumTo(v: Vector, n: nat): real
    requires n <= |v|
  {
    if n == 0 then 0.0 else SumTo(v, n - 1) + v[n - 1]
  }

  /** The sum of all entries of v. */
  function Sum(v: Vector): real
  {
    SumTo(v, |v|)
  }

  /** A prefix sum depends only on the entries it adds up. */
  lemma {:induction false} SumToSame(a: Vector, b: Vector, n: nat)
    requires n <= |a| && n <= |b|
    requires forall j | 0 <= j < n :: a[j] == b[j]
    ensures SumTo(a, n) == SumTo(b, n)
  {
    if n > 0 {
      SumToSame(a, b, n - 1);
    }
  }

  /** Summation is linear: adding x times b to a adds x times the sum of b. */
  lemma {:induction false} SumToAdd(a: Vector, b: Vector, c: Vector, x: real, n: nat)
    requires n <= |a| && n <= |b| && n <= |c|
    requires forall j | 0 <= j < n :: c[j] == a[j] + x * b[j]
    ensures SumTo(c, n) == SumTo(a, n) + x * SumTo(b, n)
  {
    if n > 0 {
      SumToAdd(a, b, c, x, n - 1);
      assert x * SumTo(b, n) == x * SumTo(b, n - 1) + x * b[n - 1];
    }
  }

  /** Summation is homogeneous: scaling every entry by x scales the sum by x. */
  lemma {:induction false} SumToScale(a: Vector, c: Vector, x: real, n: nat)
    requires n <= |a| && n <= |c|
    requires forall j | 0 <= j < n :: c[j] == x * a[j]
    ensures SumTo(c, n) == x * SumTo(a, n)
  {
    if n > 0 {
      SumToScale(a, c, x, n - 1);
      assert x * SumTo(a, n) == x * SumTo(a, n - 1) + x * a[n - 1];
    }
  }

  /** Summation is monotone in every entry. */
  lemma {:induction false} SumToMono(a: Vector, b: Vector, n: nat)
    requires n <= |a| && n <= |b|
    requires forall j | 0 <= j < n :: a[j] <= b[j]
    ensures SumTo(a, n) <= SumTo(b, n)
  {
    if n > 0 {
      SumToMono(a, b, n - 1);
    }
  }

  /** A sum of zeros is zero. */
  lemma {:induction false} SumToZero(a: Vector, n: nat)
    requires n <= |a|
    requires forall j | 0 <= j < n :: a[j] == 0.0
    ensures SumTo(a, n) == 0.0
  {
    if n > 0 {
      SumToZero(a, n - 1);
    }
  }

  /** A sum whose entries are all zero except the one at c equals that entry. */
  lemma {:induction false} SumToSingle(a: Vector, c: nat, n: nat)
    requires c < n <= |a|
    requires forall j | 0 <= j < n && j != c :: a[j] == 0.0
    ensures SumTo(a, n) == a[c]
  {
    if c == n - 1 {
      SumToZero(a, n - 1);
    } else {
      SumToSingle(a, c, n - 1);
    }
  }

  /** A sum of non-negative entries is non-negative, and it is zero only if every entry is. */
  lemma {:induction false} SumToNonNegative(a: Vector, n: nat)
    requires n <= |a|
    requires forall j | 0 <= j < n :: 0.0 <= a[j]
    ensures 0.0 <= SumTo(a, n)
    ensures SumTo(a, n) == 0.0 ==> forall j | 0 <= j < n :: a[j] == 0.0
  {
    if n > 0 {
      SumToNonNegative(a, n - 1);
    }
  }

  /** The absolute value of x. */
  function Abs(x: real): real
  {
    if x < 0.0 then -x else x
  }

  // --------------------------------------------------- rows and columns

  /** Column k of m. */
  function Column(m: Matrix, k: nat): Vector
    requires forall i | 0 <= i < |m| :: k < |m[i]|
  {
    seq(|m|, i requires 0 <= i < |m| => m[i][k])
  }

  /** The transpose of an |m| x cols matrix. */
  function Transpose(m: Matrix, cols: nat): (t: Matrix)
    requires IsMatrix(m, |m|, cols)
    ensures IsMatrix(t, cols, |m|)
  {
    seq(cols, k requires 0 <= k < cols => Column(m, k))
  }

  /** The sum of all entries of m, added up row by row. */
  function TotalByRows(m: Matrix): real
  {
    Sum(seq(|m|, i requires 0 <= i < |m| => Sum(m[i])))
  }

  /** The sum of all entries of an |m| x cols matrix, added up column by column. */
  function TotalByColumns(m: Matrix, cols: nat): real
    requires IsMatrix(m, |m|, cols)
  {
    Sum(seq(cols, k requires 0 <= k < cols => Sum(Column(m, k))))
  }

  /** Each column sum of m is that of m without its last row, plus the last row's entry. */
  lemma ColumnSumsOfLastRow(m: Matrix, cols: nat)
    requires IsMatrix(m, |m|, cols) && |m| > 0
    ensures forall k | 0 <= k < cols ::
      Sum(Column(m, k)) == Sum(Column(m[..|m| - 1], k)) + 1.0 * m[|m| - 1][k]
  {
    forall k | 0 <= k < cols
      ensures Sum(Column(m, k)) == Sum(Column(m[..|m| - 1], k)) + 1.0 * m[|m| - 1][k]
    {
      SumToSame(Column(m, k), Column(m[..|m| - 1], k), |m| - 1);
    }
  }

  /** Adding up a matrix by rows or by columns gives the same total. */
  lemma {:induction false} SumSwap(m: Matrix, cols: nat)
    requires IsMatrix(m, |m|, cols)
    ensures TotalByRows(m) == TotalByColumns(m, cols)
  {
    var n := |m|;
    var ct := seq(cols, k requires 0 <= k < cols => Sum(Column(m, k)));
    if n == 0 {
      forall k | 0 <= k < cols ensures ct[k] == 0.0 {
      }
      SumToZero(ct, cols);
    } else {
      var p := m[..n - 1];
      SumSwap(p, cols);
      var rt := seq(n, i requires 0 <= i < n => Sum(m[i]));
      var rtp := seq(n - 1, i requires 0 <= i < n - 1 => Sum(p[i]));
      SumToSame(rt, rtp, n - 1);
      var ctp := seq(cols, k requires 0 <= k < cols => Sum(Column(p, k)));
      ColumnSumsOfLastRow(m, cols);
      SumToAdd(ctp, m[n - 1], ct, 1.0, cols);
    }
  }

  // ------------------------------------------------------------ products

  /** The entrywise products of u and v. */
  function Products(u: Vector, v: Vector): Vector
    requires |u| == |v|
  {
    seq(|u|, j requires 0 <= j < |u| => u[j] * v[j])
  }

  /** The dot product of u and v. */
  function Dot(u: Vector, v: Vector): real
    requires |u| == |v|
  {
    Sum(Products(u, v))
  }

  /** The dot product is symmetric. */
  lemma DotSymmetric(u: Vector, v: Vector)
    requires |u| == |v|
    ensures Dot(u, v) == Dot(v, u)
  {
    assert Products(u, v) == Products(v, u);
  }

  /** The matrix product of an |a| x |b| matrix a and a |b| x p matrix b. */
  function MatMul(a: Matrix, b: Matrix, p: nat): Matrix
    requires IsMatrix(a, |a|, |b|) && IsMatrix(b, |b|, p)
  {
    seq(|a|, i requires 0 <= i < |a| =>
      seq(p, k requires 0 <= k < p => Dot(a[i], Column(b, k))))
  }

  /** The trace of a square matrix. */
  function Trace(m: Matrix): real
    requires IsMatrix(m, |m|, |m|)
  {
    Sum(seq(|m|, k requires 0 <= k < |m| => m[k][k]))
  }

  /** The sum over rows of the dot product of matching rows of z and s. */
  function Inner(z: Matrix, s: Matrix): real
    requires |z| == |s| && forall i | 0 <= i < |z| :: |z[i]| == |s[i]|
  {
    Sum(seq(|z|, i requires 0 <= i < |z| => Dot(z[i], s[i])))
  }

  /**
   * The trace of zᵗ·s is the entrywise inner product of z and s: the k-th
   * diagonal entry of zᵗ·s adds up column k of the entrywise product, and
   * adding those columns up gives the same total as adding up its rows.
   */
  lemma TraceOfTransposeProduct(z: Matrix, s: Matrix, k: nat)
    requires IsMatrix(z, |z|, k) && IsMatrix(s, |z|, k)
    ensures IsMatrix(Transpose(z, k), k, |s|)
    ensures Trace(MatMul(Transpose(z, k), s, k)) == Inner(z, s)
  {
    var n := |z|;
    var p := seq(n, i requires 0 <= i < n => Products(z[i], s[i]));
    assert IsMatrix(p, n, k);
    var t := MatMul(Transpose(z, k), s, k);
    var diag := seq(k, c requires 0 <= c < k => t[c][c]);
    var cols := seq(k, c requires 0 <= c < k => Sum(Column(p, c)));
    forall c | 0 <= c < k ensures diag[c] == cols[c] {
      assert forall i | 0 <= i < n :: Products(Column(z, c), Column(s, c))[i] == Column(p, c)[i];
      assert Products(Column(z, c), Column(s, c)) == Column(p, c);
    }
    assert diag == cols;
    var rows := seq(n, i requires 0 <= i < n => Sum(p[i]));
    var dots := seq(n, i requires 0 <= i < n => Dot(z[i], s[i]));
    assert rows == dots;
    SumSwap(p, k);
  }

  // --------------------------------------------------------------- argmax

  /**
   * The index of the first largest entry of v (numpy's argmax): every entry
   * is at most the one at k, and every entry before k is strictly smaller.
   */
  function ArgMax(v: Vector): (k: nat)
    requires |v| > 0
    ensures k < |v|
    ensures forall j | 0 <= j < |v| :: v[j] <= v[k]
    ensures forall j | 0 <= j < k :: v[j] < v[k]
  {
    if |v| == 1 then 0
    else
      var k := ArgMax(v[..|v| - 1]);
      if v[k] < v[|v| - 1] then |v| - 1 else k
  }

  /** The largest entry of v. */
  function Max(v: Vector): real
    requires |v| > 0
  {
    v[ArgMax(v)]
  }

  /** The two properties of ArgMax determine it: no other index has both. */
  lemma ArgMaxUnique(v: Vector, k: nat)
    requires k < |v|
    requires forall j | 0 <= j < |v| :: v[j] <= v[k]
    requires forall j | 0 <= j < k :: v[j] < v[k]
    ensures k == ArgMax(v)
  {
  }

  // -------------------------------------------------------------- one-hot

  /** The row of length n holding 1 at c and 0 everywhere else. */
  function OneHot(n: nat, c: nat): Vector
  {
    seq(n, j requires 0 <= j < n => if j == c then 1.0 else 0.0)
  }

  /** r is a one-hot row whose 1 sits at c. */
  predicate OneHotAt(r: Vector, c: nat)
  {
    c < |r| && r == OneHot(|r|, c)
  }

  /** r is a one-hot row. */
  predicate IsOneHot(r: Vector)
  {
    exists c: nat | c < |r| :: OneHotAt(r, c)
  }

  /** m is an indicator matrix: rows x cols, every row one-hot. */
  predicate IsIndicator(m: Matrix, rows: nat, cols: nat)
  {
    IsMatrix(m, rows, cols) && forall i | 0 <= i < rows :: IsOneHot(m[i])
  }

  /**
   * A row is one-hot exactly when its entries are all 0 or 1 and they add up
   * to 1, which is how an indicator matrix is described row by row.
   */
  lemma OneHotIffBinaryUnitSum(r: Vector)
    ensures IsOneHot(r) <==>
      (forall j | 0 <= j < |r| :: r[j] == 0.0 || r[j] == 1.0) && Sum(r) == 1.0
  {
    if IsOneHot(r) {
      var c: nat :| c < |r| && OneHotAt(r, c);
      assert forall j | 0 <= j < |r| && j != c :: r[j] == 0.0;
      SumToSingle(r, c, |r|);
    }
    if (forall j | 0 <= j < |r| :: r[j] == 0.0 || r[j] == 1.0) && Sum(r) == 1.0 {
      var c := BinaryUnitSumPosition(r, |r|);
      assert OneHotAt(r, c);
    }
  }

  /** Where the single 1 of a 0/1 prefix summing to 1 sits. */
  lemma {:induction false} BinaryUnitSumPosition(r: Vector, n: nat) returns (c: nat)
    requires n <= |r|
    requires forall j | 0 <= j < |r| :: r[j] == 0.0 || r[j] == 1.0
    requires SumTo(r, n) == 1.0
    requires forall j | n <= j < |r| :: r[j] == 0.0
    ensures c < n && r == OneHot(|r|, c)
  {
    if n == 0 {
      assert false;
    } else if r[n - 1] == 1.0 {
      SumToNonNegative(r, n - 1);
      c := n - 1;
      assert r == OneHot(|r|, c);
    } else {
      c := BinaryUnitSumPosition(r, n - 1);
    }
  }

  /** The dot product with a one-hot row picks out one entry. */
  lemma DotOneHot(r: Vector, c: nat, v: Vector)
    requires OneHotAt(r, c) && |v| == |r|
    ensures Dot(r, v) == v[c]
  {
    SumToSingle(Products(r, v), c, |r|);
  }

  /**
   * No one-hot row gets a larger dot product with v than the one whose 1
   * sits at the first argmax of v, and that one gets the maximum of v.
   */
  lemma DotOneHotAtMost(r: Vector, v: Vector)
    requires IsOneHot(r) && |v| == |r|
    ensures Dot(r, v) <= Max(v)
    ensures Dot(OneHot(|v|, ArgMax(v)), v) == Max(v)
  {
    var c: nat :| OneHotAt(r, c);
    DotOneHot(r, c, v);
    DotOneHot(OneHot(|v|, ArgMax(v)), ArgMax(v), v);
  }

  /** The indicator matrix whose row i is one-hot at the first argmax of row i of s. */
  function ArgMaxRows(s: Matrix, k: nat): (z: Matrix)
    requires IsMatrix(s, |s|, k) && k > 0
    ensures IsIndicator(z, |s|, k)
  {
    var z := seq(|s|, i requires 0 <= i < |s| => OneHot(k, ArgMax(s[i])));
    assert forall i | 0 <= i < |s| :: OneHotAt(z[i], ArgMax(s[i]));
    z
  }
}
