/** What a rotation conserves, and by how much it brings a symmetric matrix nearer to a diagonal one. */
module JacobiSums {
  import opened JacobiRotation

  ghost function Sum(s: seq<real>, k: nat): real
    requires k <= |s|
  {
    if k == 0 then 0.0 else Sum(s, k - 1) + s[k - 1]
  }

  ghost function Sq(x: real): real { x * x }

  /** What the entry `i` adds to the first `k`. */
  ghost function Part(i: nat, k: nat, x: real): real { if i < k then x else 0.0 }

  /** Two pairs of lists with equal sums everywhere but at `i` and `j`. */
  lemma {:induction false} SumPairs(x: seq<real>, y: seq<real>, x': seq<real>, y': seq<real>, i: nat, j: nat, k: nat)
    requires |x| == |y| == |x'| == |y'| && i < j < |x| && k <= |x|
    requires forall c | 0 <= c < |x| && c != i && c != j :: x'[c] + y'[c] == x[c] + y[c]
    ensures Sum(x', k) + Sum(y', k) == Sum(x, k) + Sum(y, k)
      + Part(i, k, x'[i] + y'[i] - x[i] - y[i]) + Part(j, k, x'[j] + y'[j] - x[j] - y[j])
  {
    if k > 0 {
      SumPairs(x, y, x', y', i, j, k - 1);
    }
  }

  lemma {:induction false} SumTwo(x: seq<real>, x': seq<real>, i: nat, j: nat, k: nat)
    requires |x| == |x'| && i < j < |x| && k <= |x| && forall c | 0 <= c < |x| && c != i && c != j :: x'[c] == x[c]
    ensures Sum(x', k) == Sum(x, k) + Part(i, k, x'[i] - x[i]) + Part(j, k, x'[j] - x[j])
  {
    if k > 0 {
      SumTwo(x, x', i, j, k - 1);
    }
  }

  lemma {:induction false} SumBound(s: seq<real>, q: real, k: nat)
    requires k <= |s| && forall c | 0 <= c < k :: s[c] <= q
    ensures Sum(s, k) <= k as real * q
  {
    if k > 0 {
      SumBound(s, q, k - 1);
      assert k as real * q == (k - 1) as real * q + q;
    }
  }

  lemma {:induction false} SumBoundBut(s: seq<real>, q: real, r: nat, k: nat)
    requires r < k <= |s| && s[r] == 0.0 && forall c | 0 <= c < k :: s[c] <= q
    ensures Sum(s, k) <= (k - 1) as real * q
  {
    if r == k - 1 {
      SumBound(s, q, k - 1);
    } else {
      SumBoundBut(s, q, r, k - 1);
      assert (k - 1) as real * q == (k - 2) as real * q + q;
    }
  }

  // ----- the sums -----

  ghost function Diagonal(a: seq<seq<real>>, n: nat): (d: seq<real>)
    requires Square(a, n)
    ensures |d| == n && forall r | 0 <= r < n :: d[r] == a[r][r]
  {
    seq(n, r requires 0 <= r < n => a[r][r])
  }

  ghost function Squares(x: seq<real>): (s: seq<real>)
    ensures |s| == |x| && forall k | 0 <= k < |x| :: s[k] == Sq(x[k])
  {
    seq(|x|, k requires 0 <= k < |x| => Sq(x[k]))
  }

  /** The squares of row `r`, without the one on the diagonal. */
  ghost function OffSquares(row: seq<real>, r: nat): (s: seq<real>)
    ensures |s| == |row| && forall k | 0 <= k < |row| :: s[k] == if k == r then 0.0 else Sq(row[k])
  {
    seq(|row|, k requires 0 <= k < |row| => if k == r then 0.0 else Sq(row[k]))
  }

  ghost function OffRows(a: seq<seq<real>>, n: nat): (s: seq<real>)
    requires Square(a, n)
    ensures |s| == n && forall r | 0 <= r < n :: s[r] == Sum(OffSquares(a[r], r), n)
  {
    seq(n, r requires 0 <= r < n => Sum(OffSquares(a[r], r), n))
  }

  ghost function Trace(a: seq<seq<real>>, n: nat): real
    requires Square(a, n)
  {
    Sum(Diagonal(a, n), n)
  }

  ghost function DiagonalSum(a: seq<seq<real>>, n: nat): real
    requires Square(a, n)
  {
    Sum(Squares(Diagonal(a, n)), n)
  }

  /** The sum of the squares off the diagonal. */
  ghost function OffSum(a: seq<seq<real>>, n: nat): real
    requires Square(a, n)
  {
    Sum(OffRows(a, n), n)
  }

  /** The square of the Frobenius norm. */
  ghost function Frobenius(a: seq<seq<real>>, n: nat): real
    requires Square(a, n)
  {
    DiagonalSum(a, n) + OffSum(a, n)
  }

  lemma TraceKept(a: seq<seq<real>>, b: seq<seq<real>>, i: nat, j: nat, c: real, s: real, t: real, n: nat)
    requires Rotated(a, b, i, j, c, s, t, n)
    ensures Trace(b, n) == Trace(a, n)
  {
    SumTwo(Diagonal(a, n), Diagonal(b, n), i, j, n);
  }

  lemma DiagonalSumGrows(a: seq<seq<real>>, b: seq<seq<real>>, i: nat, j: nat, c: real, s: real, t: real, n: nat)
    requires Rotated(a, b, i, j, c, s, t, n) && Angle(a[i][i], a[j][j], a[i][j], c, s, t)
    ensures DiagonalSum(b, n) == DiagonalSum(a, n) + 2.0 * Sq(a[i][j])
  {
    SumTwo(Squares(Diagonal(a, n)), Squares(Diagonal(b, n)), i, j, n);
    DiagonalGains(a[i][i], a[j][j], a[i][j], c, s, t);
  }

  /** A row that is not rotated itself keeps its sum: its entries `i` and `j` are rotated into each other. */
  lemma OtherRowKept(a: seq<seq<real>>, b: seq<seq<real>>, i: nat, j: nat, r: nat, c: real, s: real, t: real, n: nat)
    requires Rotated(a, b, i, j, c, s, t, n) && Symmetric(a, n) && c * c + s * s == 1.0 && r < n && r != i && r != j
    ensures OffRows(b, n)[r] == OffRows(a, n)[r]
  {
    assert OthersRotated(a, b, i, j, r, c, s, n);
    assert a[i][r] == a[r][i] && a[j][r] == a[r][j];
    PairRotates(a[r][i], a[r][j], c, s);
    assert Sq(b[r][i]) + Sq(b[r][j]) == Sq(a[r][i]) + Sq(a[r][j]);
    SumTwo(OffSquares(a[r], r), OffSquares(b[r], r), i, j, n);
  }

  /** The two rotated rows lose the squares of `(i, j)` and `(j, i)`. */
  lemma RotatedRowsLose(a: seq<seq<real>>, b: seq<seq<real>>, i: nat, j: nat, c: real, s: real, t: real, n: nat)
    requires Rotated(a, b, i, j, c, s, t, n) && Symmetric(a, n) && c * c + s * s == 1.0
    ensures OffRows(b, n)[i] + OffRows(b, n)[j] == OffRows(a, n)[i] + OffRows(a, n)[j] - 2.0 * Sq(a[i][j])
  {
    var x, y, x', y' := OffSquares(a[i], i), OffSquares(a[j], j), OffSquares(b[i], i), OffSquares(b[j], j);
    forall k | 0 <= k < n && k != i && k != j ensures x'[k] + y'[k] == x[k] + y[k] {
      assert OthersRotated(a, b, i, j, k, c, s, n);
      PairRotates(a[i][k], a[j][k], c, s);
    }
    SumPairs(x, y, x', y', i, j, n);
    assert a[j][i] == a[i][j];
  }

  /** Each rotation takes exactly twice the square of the pivot from the sum off the diagonal. */
  lemma OffSumFalls(a: seq<seq<real>>, b: seq<seq<real>>, i: nat, j: nat, c: real, s: real, t: real, n: nat)
    requires Rotated(a, b, i, j, c, s, t, n) && Symmetric(a, n) && c * c + s * s == 1.0
    ensures OffSum(b, n) == OffSum(a, n) - 2.0 * Sq(a[i][j])
  {
    forall r | 0 <= r < n && r != i && r != j ensures OffRows(b, n)[r] == OffRows(a, n)[r] {
      OtherRowKept(a, b, i, j, r, c, s, t, n);
    }
    RotatedRowsLose(a, b, i, j, c, s, t, n);
    SumTwo(OffRows(a, n), OffRows(b, n), i, j, n);
  }

  /** The pivot is an entry off the diagonal with the greatest absolute value. */
  ghost predicate GreatestOff(a: seq<seq<real>>, i: nat, j: nat, n: nat) {
    && Square(a, n) && i < j < n
    && forall r, k | 0 <= r < n && 0 <= k < n && r != k :: Sq(a[r][k]) <= Sq(a[i][j])
  }

  /** The sum off the diagonal is at most `n * (n - 1)` times the square of the pivot. */
  lemma OffSumBound(a: seq<seq<real>>, i: nat, j: nat, n: nat)
    requires GreatestOff(a, i, j, n)
    ensures OffSum(a, n) <= n as real * ((n - 1) as real * Sq(a[i][j]))
  {
    var q := Sq(a[i][j]);
    assert q >= 0.0;
    forall r | 0 <= r < n ensures OffRows(a, n)[r] <= (n - 1) as real * q {
      SumBoundBut(OffSquares(a[r], r), q, r, n);
    }
    SumBound(OffRows(a, n), (n - 1) as real * q, n);
  }

  /**
   * One rotation with the greatest pivot: the trace and the Frobenius norm are conserved, and the sum off the
   * diagonal falls by exactly twice the square of the pivot, hence at least by its `2 / (n * (n - 1))`th part.
   */
  lemma RotationConserves(a: seq<seq<real>>, b: seq<seq<real>>, i: nat, j: nat, c: real, s: real, t: real, n: nat)
    requires Rotated(a, b, i, j, c, s, t, n) && Symmetric(a, n) && Angle(a[i][i], a[j][j], a[i][j], c, s, t)
    ensures Trace(b, n) == Trace(a, n) && Frobenius(b, n) == Frobenius(a, n)
    ensures OffSum(b, n) == OffSum(a, n) - 2.0 * Sq(a[i][j])
    ensures GreatestOff(a, i, j, n) ==> n as real * (n - 1) as real * (OffSum(a, n) - OffSum(b, n)) >= 2.0 * OffSum(a, n)
  {
    TraceKept(a, b, i, j, c, s, t, n);
    DiagonalSumGrows(a, b, i, j, c, s, t, n);
    OffSumFalls(a, b, i, j, c, s, t, n);
    if GreatestOff(a, i, j, n) {
      OffSumBound(a, i, j, n);
      hide OffSum, Sq;
      TwiceShare(n as real, (n - 1) as real, Sq(a[i][j]), OffSum(a, n), OffSum(b, n));
    }
  }

  lemma TwiceShare(u: real, v: real, q: real, off: real, off': real)
    requires off' == off - 2.0 * q && off <= u * (v * q)
    ensures u * v * (off - off') >= 2.0 * off
  {
    assert u * v * (2.0 * q) == 2.0 * (u * (v * q));
  }
}
