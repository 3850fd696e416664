/**
 * The graph-modularity criterion that the co-clustering loop raises
 * (Ailem, Role and Nadif, "Co-clustering Document-term Matrices by Direct
 * Maximization of Graph Modularity", 2015).
 *
 * For a data matrix X with row sums r, column sums c and total mass N, the
 * modularity matrix is B = X - r·cᵗ / N. For a row indicator Z (rows x
 * clusters) and a column indicator W (columns x clusters) the criterion is
 * trace(Zᵗ·(B·W)), the un-normalised modularity of the co-clustering.
 * The lemmas below show that choosing Z row by row at the argmax of B·W, and
 * then W row by row at the argmax of Bᵗ·Z, is coordinate ascent on it.
 */
module Modularity {
  import opened Matrices

  // ------------------------------------------------- the modularity matrix

  /** The row sums of x. */
  function RowSums(x: Matrix): Vector
  {
    seq(|x|, i requires 0 <= i < |x| => Sum(x[i]))
  }

  /** The column sums of an |x| x cols matrix x. */
  function ColumnSums(x: Matrix, cols: nat): Vector
    requires IsMatrix(x, |x|, cols)
  {
    seq(cols, j requires 0 <= j < cols => Sum(Column(x, j)))
  }

  /** The total mass N of x, the sum of all its entries. */
  function Total(x: Matrix): real
  {
    Sum(RowSums(x))
  }

  /** B = X - r·cᵗ / N, defined when the total mass N is not zero. */
  function ModularityMatrix(x: Matrix, cols: nat): (b: Matrix)
    requires IsMatrix(x, |x|, cols) && Total(x) != 0.0
    ensures IsMatrix(b, |x|, cols)
  {
    var r, c, n := RowSums(x), ColumnSums(x, cols), Total(x);
    seq(|x|, i requires 0 <= i < |x| =>
      seq(cols, j requires 0 <= j < cols => x[i][j] - r[i] * c[j] / n))
  }

  /** The column sums of x add up to its total mass N, as its row sums do. */
  lemma ColumnSumsTotal(x: Matrix, cols: nat)
    requires IsMatrix(x, |x|, cols)
    ensures Sum(ColumnSums(x, cols)) == Total(x)
  {
    SumSwap(x, cols);
    assert RowSums(x) == seq(|x|, i requires 0 <= i < |x| => Sum(x[i]));
    assert ColumnSums(x, cols) == seq(cols, k requires 0 <= k < cols => Sum(Column(x, k)));
  }

  /** An entry of the modularity matrix is the entry of x plus a multiple of either margin. */
  lemma NullModelEntry(a: real, p: real, q: real, n: real)
    requires n != 0.0
    ensures a - p * q / n == a + -(p / n) * q
    ensures a - p * q / n == a + -(q / n) * p
  {
  }

  /** Taking away s / n for each unit of a mass m equal to n removes s. */
  lemma MassCancels(t: real, s: real, m: real, n: real)
    requires n != 0.0 && m == n && t == s + -(s / n) * m
    ensures t == 0.0
  {
  }

  /** Entry (i, j) of the modularity matrix is x[i][j] less r[i]·c[j] / N, grouped by either margin. */
  lemma ModularityEntry(x: Matrix, cols: nat, i: nat, j: nat)
    requires IsMatrix(x, |x|, cols) && Total(x) != 0.0 && i < |x| && j < cols
    ensures ModularityMatrix(x, cols)[i][j] == x[i][j] + -(RowSums(x)[i] / Total(x)) * ColumnSums(x, cols)[j]
    ensures ModularityMatrix(x, cols)[i][j] == x[i][j] + -(ColumnSums(x, cols)[j] / Total(x)) * RowSums(x)[i]
  {
    NullModelEntry(x[i][j], RowSums(x)[i], ColumnSums(x, cols)[j], Total(x));
  }

  /** Row i of the modularity matrix is row i of x less r[i] / N times the column sums. */
  lemma ModularityRow(x: Matrix, cols: nat, i: nat)
    requires IsMatrix(x, |x|, cols) && Total(x) != 0.0 && i < |x|
    ensures forall j | 0 <= j < cols ::
      ModularityMatrix(x, cols)[i][j] == x[i][j] + -(RowSums(x)[i] / Total(x)) * ColumnSums(x, cols)[j]
  {
    forall j | 0 <= j < cols
      ensures ModularityMatrix(x, cols)[i][j] == x[i][j] + -(RowSums(x)[i] / Total(x)) * ColumnSums(x, cols)[j]
    {
      ModularityEntry(x, cols, i, j);
    }
  }

  /**
   * A vector that is xv less s / n times m adds up to zero when xv adds up
   * to s and m to n: the shape of every row and every column of B.
   */
  lemma VanishingSum(bv: Vector, xv: Vector, m: Vector, s: real, n: real)
    requires n != 0.0 && |bv| == |xv| == |m|
    requires forall j | 0 <= j < |bv| :: bv[j] == xv[j] + -(s / n) * m[j]
    requires Sum(xv) == s && Sum(m) == n
    ensures Sum(bv) == 0.0
  {
    SumToAdd(xv, m, bv, -(s / n), |bv|);
    MassCancels(Sum(bv), s, Sum(m), n);
  }

  /** Row i of the modularity matrix adds up to zero. */
  lemma ModularityRowVanishes(x: Matrix, cols: nat, i: nat)
    requires IsMatrix(x, |x|, cols) && Total(x) != 0.0 && i < |x|
    ensures Sum(ModularityMatrix(x, cols)[i]) == 0.0
  {
    ModularityRow(x, cols, i);
    ColumnSumsTotal(x, cols);
    VanishingSum(ModularityMatrix(x, cols)[i], x[i], ColumnSums(x, cols), RowSums(x)[i], Total(x));
  }

  /** Column j of the modularity matrix is column j of x less c[j] / N times the row sums. */
  lemma ModularityColumn(x: Matrix, cols: nat, j: nat)
    requires IsMatrix(x, |x|, cols) && Total(x) != 0.0 && j < cols
    ensures forall i | 0 <= i < |x| ::
      Column(ModularityMatrix(x, cols), j)[i] == Column(x, j)[i] + -(ColumnSums(x, cols)[j] / Total(x)) * RowSums(x)[i]
  {
    forall i | 0 <= i < |x|
      ensures Column(ModularityMatrix(x, cols), j)[i] == Column(x, j)[i] + -(ColumnSums(x, cols)[j] / Total(x)) * RowSums(x)[i]
    {
      ModularityEntry(x, cols, i, j);
    }
  }

  /** Column j of the modularity matrix adds up to zero. */
  lemma ModularityColumnVanishes(x: Matrix, cols: nat, j: nat)
    requires IsMatrix(x, |x|, cols) && Total(x) != 0.0 && j < cols
    ensures Sum(Column(ModularityMatrix(x, cols), j)) == 0.0
  {
    ModularityColumn(x, cols, j);
    VanishingSum(Column(ModularityMatrix(x, cols), j), Column(x, j), RowSums(x), ColumnSums(x, cols)[j], Total(x));
  }

  /**
   * Every row and every column of the modularity matrix adds up to zero:
   * the null model r·cᵗ / N has the same margins as X, because the column
   * sums of X add up to the same N as its row sums.
   */
  lemma ModularityMatrixMargins(x: Matrix, cols: nat)
    requires IsMatrix(x, |x|, cols) && Total(x) != 0.0
    ensures forall i | 0 <= i < |x| :: Sum(ModularityMatrix(x, cols)[i]) == 0.0
    ensures forall j | 0 <= j < cols :: Sum(Column(ModularityMatrix(x, cols), j)) == 0.0
  {
    forall i | 0 <= i < |x| ensures Sum(ModularityMatrix(x, cols)[i]) == 0.0 {
      ModularityRowVanishes(x, cols, i);
    }
    forall j | 0 <= j < cols ensures Sum(Column(ModularityMatrix(x, cols), j)) == 0.0 {
      ModularityColumnVanishes(x, cols, j);
    }
  }

  // ------------------------------------------------------------ criterion

  /** trace(zᵗ·(b·w)): the un-normalised modularity of the co-clustering (z, w). */
  function Criterion(z: Matrix, b: Matrix, w: Matrix, k: nat): real
    requires IsMatrix(z, |z|, k) && IsMatrix(b, |z|, |w|) && IsMatrix(w, |w|, k)
  {
    Trace(MatMul(Transpose(z, k), MatMul(b, w, k), k))
  }

  /** The sum over i of the largest entry of row i of s. */
  function SumOfRowMaxima(s: Matrix, k: nat): real
    requires IsMatrix(s, |s|, k) && k > 0
  {
    Sum(seq(|s|, i requires 0 <= i < |s| => Max(s[i])))
  }

  /**
   * The row pass is optimal: with w fixed, no indicator z gives a larger
   * criterion than the one that puts row i in the first argmax of row i of
   * b·w, and that one achieves the sum of the row maxima of b·w.
   */
  lemma RowPassOptimal(z: Matrix, b: Matrix, w: Matrix, k: nat)
    requires k > 0 && IsIndicator(z, |z|, k) && IsMatrix(b, |z|, |w|) && IsMatrix(w, |w|, k)
    ensures Criterion(z, b, w, k) <= Criterion(ArgMaxRows(MatMul(b, w, k), k), b, w, k)
    ensures Criterion(ArgMaxRows(MatMul(b, w, k), k), b, w, k) == SumOfRowMaxima(MatMul(b, w, k), k)
  {
    var s := MatMul(b, w, k);
    var best := ArgMaxRows(s, k);
    var n := |z|;
    TraceOfTransposeProduct(z, s, k);
    TraceOfTransposeProduct(best, s, k);
    var mine := seq(n, i requires 0 <= i < n => Dot(z[i], s[i]));
    var top := seq(n, i requires 0 <= i < n => Dot(best[i], s[i]));
    var maxima := seq(n, i requires 0 <= i < n => Max(s[i]));
    forall i | 0 <= i < n ensures mine[i] <= maxima[i] && top[i] == maxima[i] {
      DotOneHotAtMost(z[i], s[i]);
    }
    SumToMono(mine, maxima, n);
    assert top == maxima;
  }

  /**
   * Row j of (bᵗ·z) dotted with a row is the same double sum as row i of
   * (b·w): the criterion is a sum over pairs (i, j) of b[i][j] times the
   * agreement of row i's and column j's clusters.
   */
  function Pairs(z: Matrix, b: Matrix, w: Matrix, k: nat): Matrix
    requires IsMatrix(z, |z|, k) && IsMatrix(b, |z|, |w|) && IsMatrix(w, |w|, k)
  {
    seq(|z|, i requires 0 <= i < |z| =>
      seq(|w|, j requires 0 <= j < |w| => b[i][j] * Dot(z[i], w[j])))
  }

  /** The terms br[j]·zr[c]·w[j][c] of the double sum behind a vector-matrix-vector product. */
  function Spread(zr: Vector, br: Vector, w: Matrix, k: nat): (t: Matrix)
    requires |zr| == k && |br| == |w| && IsMatrix(w, |w|, k)
    ensures IsMatrix(t, |w|, k)
  {
    seq(|w|, j requires 0 <= j < |w| =>
      seq(k, c requires 0 <= c < k => br[j] * (zr[c] * w[j][c])))
  }

  /** Row j of Spread adds up to br[j]·(zr·w[j]). */
  lemma SpreadRow(zr: Vector, br: Vector, w: Matrix, k: nat, j: nat)
    requires |zr| == k && |br| == |w| && IsMatrix(w, |w|, k) && j < |w|
    ensures Sum(Spread(zr, br, w, k)[j]) == br[j] * Dot(zr, w[j])
  {
    SumToScale(Products(zr, w[j]), Spread(zr, br, w, k)[j], br[j], k);
  }

  /** Column c of Spread adds up to zr[c]·(br·column c of w). */
  lemma SpreadColumn(zr: Vector, br: Vector, w: Matrix, k: nat, c: nat)
    requires |zr| == k && |br| == |w| && IsMatrix(w, |w|, k) && c < k
    ensures Sum(Column(Spread(zr, br, w, k), c)) == zr[c] * Dot(br, Column(w, c))
  {
    var t := Spread(zr, br, w, k);
    forall j | 0 <= j < |w| ensures Column(t, c)[j] == zr[c] * Products(br, Column(w, c))[j] {
      assert br[j] * (zr[c] * w[j][c]) == zr[c] * (br[j] * w[j][c]);
    }
    SumToScale(Products(br, Column(w, c)), Column(t, c), zr[c], |w|);
  }

  /**
   * Dotting a row zr with the vector-matrix product br·w regroups into a sum
   * over the rows of w: Σc zr[c]·Σj br[j]·w[j][c] = Σj br[j]·(zr·w[j]).
   */
  lemma DotOfVectorMatrix(zr: Vector, br: Vector, w: Matrix, k: nat)
    requires |zr| == k && |br| == |w| && IsMatrix(w, |w|, k)
    ensures Dot(zr, seq(k, c requires 0 <= c < k => Dot(br, Column(w, c))))
         == Sum(seq(|w|, j requires 0 <= j < |w| => br[j] * Dot(zr, w[j])))
  {
    var m := |w|;
    var t := Spread(zr, br, w, k);
    SumSwap(t, k);
    var rows := seq(m, j requires 0 <= j < m => Sum(t[j]));
    var terms := seq(m, j requires 0 <= j < m => br[j] * Dot(zr, w[j]));
    forall j | 0 <= j < m ensures rows[j] == terms[j] {
      SpreadRow(zr, br, w, k, j);
    }
    assert rows == terms;
    var vm := seq(k, c requires 0 <= c < k => Dot(br, Column(w, c)));
    var cols := seq(k, c requires 0 <= c < k => Sum(Column(t, c)));
    forall c | 0 <= c < k ensures cols[c] == Products(zr, vm)[c] {
      SpreadColumn(zr, br, w, k, c);
    }
    assert cols == Products(zr, vm);
  }

  /** The criterion is the total of Pairs, added up row by row. */
  lemma CriterionAsPairs(z: Matrix, b: Matrix, w: Matrix, k: nat)
    requires IsMatrix(z, |z|, k) && IsMatrix(b, |z|, |w|) && IsMatrix(w, |w|, k)
    ensures Criterion(z, b, w, k) == TotalByRows(Pairs(z, b, w, k))
  {
    var n, m := |z|, |w|;
    var s := MatMul(b, w, k);
    var g := Pairs(z, b, w, k);
    TraceOfTransposeProduct(z, s, k);
    var dots := seq(n, i requires 0 <= i < n => Dot(z[i], s[i]));
    var rows := seq(n, i requires 0 <= i < n => Sum(g[i]));
    forall i | 0 <= i < n ensures dots[i] == rows[i] {
      DotOfVectorMatrix(z[i], b[i], w, k);
      assert g[i] == seq(m, j requires 0 <= j < m => b[i][j] * Dot(z[i], w[j]));
    }
    assert dots == rows;
  }

  /** Row j of the pair terms of (w, bᵗ, z) is column j of the pair terms of (z, b, w). */
  lemma PairsTransposed(z: Matrix, b: Matrix, w: Matrix, k: nat, j: nat)
    requires IsMatrix(z, |z|, k) && IsMatrix(b, |z|, |w|) && IsMatrix(w, |w|, k) && j < |w|
    ensures Pairs(w, Transpose(b, |w|), z, k)[j] == Column(Pairs(z, b, w, k), j)
  {
    var h, gj := Pairs(w, Transpose(b, |w|), z, k)[j], Column(Pairs(z, b, w, k), j);
    forall i | 0 <= i < |z| ensures h[i] == gj[i] {
      DotSymmetric(w[j], z[i]);
    }
  }

  /**
   * trace(zᵗ·b·w) == trace(wᵗ·bᵗ·z): the column pass sees the same criterion
   * as the row pass, with the roles of rows and columns exchanged.
   */
  lemma CriterionTransposed(z: Matrix, b: Matrix, w: Matrix, k: nat)
    requires IsMatrix(z, |z|, k) && IsMatrix(b, |z|, |w|) && IsMatrix(w, |w|, k)
    ensures IsMatrix(Transpose(b, |w|), |w|, |z|)
    ensures Criterion(z, b, w, k) == Criterion(w, Transpose(b, |w|), z, k)
  {
    var n, m := |z|, |w|;
    var bt := Transpose(b, m);
    var g := Pairs(z, b, w, k);
    var h := Pairs(w, bt, z, k);
    CriterionAsPairs(z, b, w, k);
    CriterionAsPairs(w, bt, z, k);
    SumSwap(g, m);
    var hr := seq(m, j requires 0 <= j < m => Sum(h[j]));
    var gc := seq(m, j requires 0 <= j < m => Sum(Column(g, j)));
    forall j | 0 <= j < m ensures hr[j] == gc[j] {
      PairsTransposed(z, b, w, k, j);
    }
    assert hr == gc;
  }

  /**
   * The column pass is optimal: with z fixed, no indicator w gives a larger
   * criterion than the one that puts column j in the first argmax of row j of
   * bᵗ·z.
   */
  lemma ColumnPassOptimal(z: Matrix, b: Matrix, w: Matrix, k: nat)
    requires k > 0 && IsMatrix(z, |z|, k) && IsMatrix(b, |z|, |w|) && IsIndicator(w, |w|, k)
    ensures IsMatrix(Transpose(b, |w|), |w|, |z|)
    ensures Criterion(z, b, w, k) <= Criterion(z, b, ArgMaxRows(MatMul(Transpose(b, |w|), z, k), k), k)
  {
    var bt := Transpose(b, |w|);
    var best := ArgMaxRows(MatMul(bt, z, k), k);
    CriterionTransposed(z, b, w, k);
    CriterionTransposed(z, b, best, k);
    RowPassOptimal(w, bt, z, k);
  }

  /**
   * One round of the loop (a row pass against w_prev, then a column pass,
   * then a row pass against the new columns) cannot lower the criterion:
   * the row pass at the end of the round scores at least as much as the one
   * at its start. Both earlier indicators must be one-hot.
   */
  lemma RoundImproves(zPrev: Matrix, b: Matrix, wPrev: Matrix, k: nat)
    requires k > 0 && IsMatrix(b, |b|, |wPrev|) && IsIndicator(wPrev, |wPrev|, k)
    requires zPrev == ArgMaxRows(MatMul(b, wPrev, k), k)
    ensures IsMatrix(Transpose(b, |wPrev|), |wPrev|, |b|)
    ensures var w := ArgMaxRows(MatMul(Transpose(b, |wPrev|), zPrev, k), k);
      Criterion(zPrev, b, wPrev, k) <= Criterion(ArgMaxRows(MatMul(b, w, k), k), b, w, k)
  {
    var w := ArgMaxRows(MatMul(Transpose(b, |wPrev|), zPrev, k), k);
    ColumnPassOptimal(zPrev, b, wPrev, k);
    RowPassOptimal(zPrev, b, w, k);
  }

  // ---------------------------------------------------------------- bound

  /** The sum of the absolute values of the entries of b. */
  function AbsTotal(b: Matrix): real
  {
    TotalByRows(seq(|b|, i requires 0 <= i < |b| =>
      seq(|b[i]|, j requires 0 <= j < |b[i]| => Abs(b[i][j]))))
  }

  /** Two one-hot rows agree (dot product 1) or not (dot product 0). */
  lemma DotOfOneHots(u: Vector, v: Vector)
    requires IsOneHot(u) && IsOneHot(v) && |u| == |v|
    ensures Dot(u, v) == 0.0 || Dot(u, v) == 1.0
  {
    var c: nat :| c < |u| && OneHotAt(u, c);
    DotOneHot(u, c, v);
  }

  /** For indicators z and w the criterion never exceeds the absolute mass of b. */
  lemma CriterionBounded(z: Matrix, b: Matrix, w: Matrix, k: nat)
    requires IsIndicator(z, |z|, k) && IsMatrix(b, |z|, |w|) && IsIndicator(w, |w|, k)
    ensures Criterion(z, b, w, k) <= AbsTotal(b)
  {
    var n, m := |z|, |w|;
    var g := Pairs(z, b, w, k);
    var a := seq(n, i requires 0 <= i < n =>
      seq(|b[i]|, j requires 0 <= j < |b[i]| => Abs(b[i][j])));
    CriterionAsPairs(z, b, w, k);
    var gr := seq(n, i requires 0 <= i < n => Sum(g[i]));
    var ar := seq(n, i requires 0 <= i < n => Sum(a[i]));
    forall i | 0 <= i < n ensures gr[i] <= ar[i] {
      forall j | 0 <= j < m ensures g[i][j] <= a[i][j] {
        DotOfOneHots(z[i], w[j]);
      }
      SumToMono(g[i], a[i], m);
    }
    SumToMono(gr, ar, n);
  }
}
