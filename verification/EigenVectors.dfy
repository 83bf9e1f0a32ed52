/** How far the rows that the Jacobi method returns are eigenvectors. */
module EigenVectors {
  import opened LinearSystem
  import opened JacobiRotation
  import opened JacobiSums
  import opened Jacobi
  import opened FiniteSets

  ghost predicate Orthonormal(v: seq<seq<real>>, n: nat) {
    Square(v, n) && forall k, l | 0 <= k < n && 0 <= l < n :: UnitPair(v, k, l, n)
  }

  ghost predicate UnitPair(v: seq<seq<real>>, k: nat, l: nat, n: nat)
    requires k < |v| && l < |v|
  {
    Inner(v[k], v[l], n) == if k == l then 1.0 else 0.0
  }

  // ----- orthonormal rows are complete -----

  /** What is left of `x` without its parts along the first `k` rows. */
  ghost function Rest(v: seq<seq<real>>, x: seq<real>, k: nat, n: nat): (r: seq<real>)
    requires Square(v, n) && |x| == n && k <= n
    ensures |r| == n
  {
    if k == 0 then x else Combine(Rest(v, x, k - 1, n), v[k - 1], 1.0, -Inner(v[k - 1], x, n))
  }

  lemma RestNext(v: seq<seq<real>>, x: seq<real>, y: seq<real>, k: nat, l: nat, n: nat)
    requires Square(v, n) && |x| == |y| == n && k == l + 1 <= n
    ensures Inner(y, Rest(v, x, k, n), n) == Inner(y, Rest(v, x, l, n), n) - Inner(v[l], x, n) * Inner(y, v[l], n)
  {
    hide Inner, Combine;
    InnerLinear(Rest(v, x, l, n), v[l], y, 1.0, -Inner(v[l], x, n), n);
  }

  lemma {:induction false} RestOrthogonal(v: seq<seq<real>>, x: seq<real>, k: nat, r: nat, n: nat)
    requires Orthonormal(v, n) && |x| == n && k <= n && r < n
    ensures Inner(v[r], Rest(v, x, k, n), n) == if r < k then 0.0 else Inner(v[r], x, n)
  {
    hide Inner, Rest;
    if k > 0 {
      RestOrthogonal(v, x, k - 1, r, n);
      RestNext(v, x, v[r], k, k - 1, n);
      assert UnitPair(v, r, k - 1, n);
    } else {
      RestNone(v, x, n);
    }
  }

  lemma RestNone(v: seq<seq<real>>, x: seq<real>, n: nat)
    requires Square(v, n) && |x| == n
    ensures Rest(v, x, 0, n) == x
  {
  }

  /** The squares of the parts along the first `k` rows. */
  ghost function PartsSq(v: seq<seq<real>>, x: seq<real>, k: nat, n: nat): real
    requires k <= |v|
  {
    if k == 0 then 0.0 else PartsSq(v, x, k - 1, n) + Sq(Inner(v[k - 1], x, n))
  }

  /** Pythagoras. */
  lemma {:induction false} RestNorm(v: seq<seq<real>>, x: seq<real>, k: nat, n: nat)
    requires Orthonormal(v, n) && |x| == n && k <= n
    ensures Inner(Rest(v, x, k, n), Rest(v, x, k, n), n) == Inner(x, x, n) - PartsSq(v, x, k, n)
  {
    hide Inner, Rest;
    if k > 0 {
      var l := k - 1;
      var now, was := Rest(v, x, k, n), Rest(v, x, l, n);
      RestNorm(v, x, l, n);
      RestNext(v, x, now, k, l, n);
      RestNext(v, x, was, k, l, n);
      InnerCommutes(now, was, n);
      InnerCommutes(now, v[l], n);
      InnerCommutes(was, v[l], n);
      RestOrthogonal(v, x, k, l, n);
      RestOrthogonal(v, x, l, l, n);
    } else {
      RestNone(v, x, n);
    }
  }

  /** The squares of the first `k` entries of column `a`. */
  ghost function ColumnSq(v: seq<seq<real>>, a: nat, k: nat, n: nat): real
    requires Square(v, n) && a < n && k <= n
  {
    if k == 0 then 0.0 else ColumnSq(v, a, k - 1, n) + Sq(v[k - 1][a])
  }

  /** Those of the first `m` columns together. */
  ghost function BlockSq(v: seq<seq<real>>, k: nat, m: nat, n: nat): real
    requires Square(v, n) && k <= n && m <= n
  {
    if m == 0 then 0.0 else BlockSq(v, k, m - 1, n) + ColumnSq(v, m - 1, k, n)
  }

  lemma {:induction false} BlockRow(v: seq<seq<real>>, k: nat, l: nat, m: nat, n: nat)
    requires Square(v, n) && k == l + 1 <= n && m <= n
    ensures BlockSq(v, k, m, n) == BlockSq(v, l, m, n) + Inner(v[l], v[l], m)
  {
    if m > 0 {
      BlockRow(v, k, l, m - 1, n);
    }
  }

  lemma {:induction false} BlockNone(v: seq<seq<real>>, m: nat, n: nat)
    requires Square(v, n) && m <= n
    ensures BlockSq(v, 0, m, n) == 0.0
  {
    if m > 0 {
      BlockNone(v, m - 1, n);
    }
  }

  lemma {:induction false} BlockAll(v: seq<seq<real>>, k: nat, n: nat)
    requires Orthonormal(v, n) && k <= n
    ensures BlockSq(v, k, n, n) == k as real
  {
    hide Inner, BlockSq;
    if k > 0 {
      BlockAll(v, k - 1, n);
      BlockRow(v, k, k - 1, n, n);
      assert UnitPair(v, k - 1, k - 1, n);
    } else {
      BlockNone(v, n, n);
    }
  }

  lemma {:induction false} UnitParts(v: seq<seq<real>>, a: nat, k: nat, n: nat)
    requires Square(v, n) && a < n && k <= n
    ensures PartsSq(v, Identity(n)[a], k, n) == ColumnSq(v, a, k, n)
  {
    if k > 0 {
      hide Inner;
      UnitParts(v, a, k - 1, n);
      InnerUnitRight(a, v[k - 1], n);
    }
  }

  lemma AddSquare(a: real, x: real, y: real, sum: real)
    requires a >= 0.0 && x == y && sum == a + x * y
    ensures sum >= a
    ensures x != 0.0 ==> sum > a
    ensures x == 0.0 ==> sum == a
  {
    if x > 0.0 {
      assert x * y > 0.0;
    } else if x < 0.0 {
      assert x * y > 0.0;
    }
  }

  lemma {:induction false} SelfZero(x: seq<real>, k: nat)
    requires k <= |x|
    ensures Inner(x, x, k) >= 0.0
    ensures Inner(x, x, k) == 0.0 <==> forall j | 0 <= j < k :: x[j] == 0.0
  {
    if k > 0 {
      hide Inner;
      SelfZero(x, k - 1);
      InnerNext(x, x, k - 1, k);
      AddSquare(Inner(x, x, k - 1), x[k - 1], x[k - 1], Inner(x, x, k));
    }
  }

  /** No column is longer than 1, and all of them together are as long as they can be. */
  lemma {:induction false} ColumnsShort(v: seq<seq<real>>, m: nat, n: nat)
    requires Orthonormal(v, n) && m <= n
    ensures BlockSq(v, n, m, n) <= m as real
    ensures BlockSq(v, n, m, n) == m as real ==> forall a | 0 <= a < m :: ColumnSq(v, a, n, n) == 1.0
  {
    if m > 0 {
      hide Inner, Rest, ColumnSq, PartsSq;
      var a := m - 1;
      var e := Identity(n)[a];
      ColumnsShort(v, a, n);
      RestNorm(v, e, n, n);
      UnitParts(v, a, n, n);
      InnerUnitRight(a, e, n);
      SelfZero(Rest(v, e, n, n), n);
    }
  }

  lemma UnitComplete(v: seq<seq<real>>, a: nat, n: nat)
    requires Orthonormal(v, n) && a < n
    ensures forall b | 0 <= b < n :: Rest(v, Identity(n)[a], n, n)[b] == 0.0
  {
    hide Inner, Rest, ColumnSq, PartsSq, BlockSq;
    var e := Identity(n)[a];
    BlockAll(v, n, n);
    ColumnsShort(v, n, n);
    RestNorm(v, e, n, n);
    UnitParts(v, a, n, n);
    InnerUnitRight(a, e, n);
    SelfZero(Rest(v, e, n, n), n);
  }

  lemma {:induction false} OrthogonalToRest(v: seq<seq<real>>, w: seq<real>, y: seq<real>, k: nat, n: nat)
    requires Square(v, n) && |w| == |y| == n && k <= n
    requires forall j | 0 <= j < k :: Inner(w, v[j], n) == 0.0
    ensures Inner(w, Rest(v, y, k, n), n) == Inner(w, y, n)
  {
    hide Inner, Rest;
    if k > 0 {
      OrthogonalToRest(v, w, y, k - 1, n);
      RestNext(v, y, w, k, k - 1, n);
    } else {
      RestNone(v, y, n);
    }
  }

  lemma {:induction false} InnerZero(x: seq<real>, z: seq<real>, k: nat)
    requires k <= |x| == |z| && forall j | 0 <= j < k :: z[j] == 0.0
    ensures Inner(x, z, k) == 0.0
  {
    if k > 0 {
      InnerZero(x, z, k - 1);
    }
  }

  /** Every row is the sum of its parts along `n` orthonormal rows. */
  lemma Complete(v: seq<seq<real>>, x: seq<real>, n: nat)
    requires Orthonormal(v, n) && |x| == n
    ensures forall a | 0 <= a < n :: Rest(v, x, n, n)[a] == 0.0
  {
    hide Inner, Rest;
    var w := Rest(v, x, n, n);
    forall j | 0 <= j < n ensures Inner(w, v[j], n) == 0.0 {
      RestOrthogonal(v, x, n, j, n);
      InnerCommutes(w, v[j], n);
    }
    forall a | 0 <= a < n ensures w[a] == 0.0 {
      var e := Identity(n)[a];
      UnitComplete(v, a, n);
      OrthogonalToRest(v, w, e, n, n);
      InnerZero(w, Rest(v, e, n, n), n);
      InnerUnitRight(a, w, n);
    }
  }

  // ----- columns -----

  /** Entry `b` of the sum of the parts of `x` along the first `k` rows. */
  ghost function PartsAt(v: seq<seq<real>>, x: seq<real>, b: nat, k: nat, n: nat): real
    requires Square(v, n) && b < n && k <= n
  {
    if k == 0 then 0.0 else PartsAt(v, x, b, k - 1, n) + Inner(v[k - 1], x, n) * v[k - 1][b]
  }

  lemma {:induction false} RestAt(v: seq<seq<real>>, x: seq<real>, b: nat, k: nat, n: nat)
    requires Square(v, n) && |x| == n && b < n && k <= n
    ensures Rest(v, x, k, n)[b] == x[b] - PartsAt(v, x, b, k, n)
  {
    if k > 0 {
      hide Inner;
      RestAt(v, x, b, k - 1, n);
    }
  }

  ghost function Transposed(v: seq<seq<real>>, n: nat): (t: seq<seq<real>>)
    requires Square(v, n)
    ensures Square(t, n) && forall r, c | 0 <= r < n && 0 <= c < n :: t[r][c] == v[c][r]
  {
    seq(n, r requires 0 <= r < n => seq(n, c requires 0 <= c < n => v[c][r]))
  }

  lemma {:induction false} UnitPartsAt(v: seq<seq<real>>, a: nat, b: nat, k: nat, n: nat)
    requires Square(v, n) && a < n && b < n && k <= n
    ensures PartsAt(v, Identity(n)[a], b, k, n) == Inner(Transposed(v, n)[a], Transposed(v, n)[b], k)
  {
    if k > 0 {
      UnitPartsAt(v, a, b, k - 1, n);
      InnerUnitRight(a, v[k - 1], n);
    }
  }

  /** With `v * v^T` also `v^T * v` is the identity: the columns are orthonormal like the rows. */
  lemma ColumnsOrthonormal(v: seq<seq<real>>, n: nat)
    requires Orthonormal(v, n)
    ensures Orthonormal(Transposed(v, n), n)
  {
    hide Inner, Rest, PartsAt;
    var t := Transposed(v, n);
    forall a, b | 0 <= a < n && 0 <= b < n ensures UnitPair(t, a, b, n) {
      UnitComplete(v, a, n);
      RestAt(v, Identity(n)[a], b, n, n);
      UnitPartsAt(v, a, b, n, n);
    }
  }

  // ----- the equation of eigenvectors -----

  /** `a0 * v.row(i)^T - e(i) * v.row(i)^T` */
  ghost function Residual(a0: seq<seq<real>>, e: seq<real>, v: seq<seq<real>>, i: nat, n: nat): (r: seq<real>)
    requires Square(a0, n) && Square(v, n) && |e| == n && i < n
    ensures |r| == n
  {
    Combine(Image(a0, v[i], n), v[i], 1.0, -e[i])
  }

  /** The entry of the remaining matrix that belongs to the rows `k` and `i`, if they are different ones. */
  ghost function OffAt(d: seq<seq<real>>, p: seq<nat>, k: nat, i: nat, n: nat): real
    requires Square(d, n) && IsPermutation(p, n) && k < n && i < n
  {
    if k == i then 0.0 else d[p[k]][p[i]]
  }

  ghost function OffSq(d: seq<seq<real>>, p: seq<nat>, i: nat, k: nat, n: nat): real
    requires Square(d, n) && IsPermutation(p, n) && i < n && k <= n
  {
    if k == 0 then 0.0 else OffSq(d, p, i, k - 1, n) + Sq(OffAt(d, p, k - 1, i, n))
  }

  lemma ResultOrthonormal(a0: seq<seq<real>>, e: seq<real>, v: seq<seq<real>>, d: seq<seq<real>>, p: seq<nat>, rotations: nat, n: nat)
    requires EigenResult(a0, e, v, d, p, rotations, n)
    ensures Orthonormal(v, n)
  {
    hide Trace, Frobenius, OffSum, Decayed, NearlyDiagonal, Inner, Image;
    forall k, l | 0 <= k < n && 0 <= l < n ensures UnitPair(v, k, l, n) {
      assert EigenPair(a0, e, v, d, p, k, l, n);
    }
  }

  lemma ResidualPart(a0: seq<seq<real>>, e: seq<real>, v: seq<seq<real>>, d: seq<seq<real>>, p: seq<nat>, rotations: nat, k: nat, i: nat, n: nat)
    requires EigenResult(a0, e, v, d, p, rotations, n) && k < n && i < n
    ensures Inner(v[k], Residual(a0, e, v, i, n), n) == OffAt(d, p, k, i, n)
  {
    hide Trace, Frobenius, OffSum, Decayed, NearlyDiagonal, Inner, Image, Combine;
    assert EigenPair(a0, e, v, d, p, k, i, n);
    InnerLinear(Image(a0, v[i], n), v[i], v[k], 1.0, -e[i], n);
  }

  lemma {:induction false} ResidualParts(a0: seq<seq<real>>, e: seq<real>, v: seq<seq<real>>, d: seq<seq<real>>, p: seq<nat>, rotations: nat, i: nat, k: nat, n: nat)
    requires EigenResult(a0, e, v, d, p, rotations, n) && i < n && k <= n
    ensures PartsSq(v, Residual(a0, e, v, i, n), k, n) == OffSq(d, p, i, k, n)
  {
    hide Trace, Frobenius, OffSum, Decayed, NearlyDiagonal, EigenPair, Inner, Residual;
    if k > 0 {
      ResidualParts(a0, e, v, d, p, rotations, i, k - 1, n);
      ResidualPart(a0, e, v, d, p, rotations, k - 1, i, n);
    }
  }

  /**
   * The returned rows miss the equation of eigenvectors by exactly the entries that are left off the diagonal:
   * the square of the residual's length is the sum of their squares.
   */
  lemma ResidualLength(a0: seq<seq<real>>, e: seq<real>, v: seq<seq<real>>, d: seq<seq<real>>, p: seq<nat>, rotations: nat, i: nat, n: nat)
    requires EigenResult(a0, e, v, d, p, rotations, n) && i < n
    ensures var r := Residual(a0, e, v, i, n); Inner(r, r, n) == OffSq(d, p, i, n, n)
  {
    hide Trace, Frobenius, OffSum, Decayed, NearlyDiagonal, EigenPair, Inner, Rest, Residual, OffSq, PartsSq;
    var r := Residual(a0, e, v, i, n);
    ResultOrthonormal(a0, e, v, d, p, rotations, n);
    RestNorm(v, r, n, n);
    Complete(v, r, n);
    SelfZero(Rest(v, r, n, n), n);
    ResidualParts(a0, e, v, d, p, rotations, i, n, n);
  }

  lemma {:induction false} OffZero(d: seq<seq<real>>, p: seq<nat>, i: nat, k: nat, n: nat)
    requires Square(d, n) && IsPermutation(p, n) && i < n && k <= n
    ensures OffSq(d, p, i, k, n) >= 0.0
    ensures OffSq(d, p, i, k, n) == 0.0 <==> forall j | 0 <= j < k :: OffAt(d, p, j, i, n) == 0.0
  {
    if k > 0 {
      hide OffAt;
      OffZero(d, p, i, k - 1, n);
      AddSquare(OffSq(d, p, i, k - 1, n), OffAt(d, p, k - 1, i, n), OffAt(d, p, k - 1, i, n), OffSq(d, p, i, k, n));
    }
  }

  /** The documented equation for row `i`. */
  ghost predicate Equation(a0: seq<seq<real>>, e: seq<real>, v: seq<seq<real>>, i: nat, n: nat)
    requires Square(a0, n) && Square(v, n) && |e| == n && i < n
  {
    forall b | 0 <= b < n :: Image(a0, v[i], n)[b] == e[i] * v[i][b]
  }

  /** It holds exactly if nothing is left off the diagonal in the column of the row. */
  lemma EigenVectorIff(a0: seq<seq<real>>, e: seq<real>, v: seq<seq<real>>, d: seq<seq<real>>, p: seq<nat>, rotations: nat, i: nat, n: nat)
    requires EigenResult(a0, e, v, d, p, rotations, n) && i < n
    ensures Equation(a0, e, v, i, n) <==> forall k | 0 <= k < n && k != i :: d[p[k]][p[i]] == 0.0
  {
    hide Trace, Frobenius, OffSum, Decayed, NearlyDiagonal, Inner, Image, OffSq;
    ResidualLength(a0, e, v, d, p, rotations, i, n);
    var r := Residual(a0, e, v, i, n);
    SelfZero(r, n);
    OffZero(d, p, i, n, n);
    forall b | 0 <= b < n ensures r[b] == Image(a0, v[i], n)[b] - e[i] * v[i][b] {
      Minus(e[i], v[i][b]);
    }
    assert forall k | 0 <= k < n && k != i :: OffAt(d, p, k, i, n) == d[p[k]][p[i]];
  }

  lemma {:induction false} OffSmall(d: seq<seq<real>>, p: seq<nat>, i: nat, k: nat, n: nat)
    requires Square(d, n) && IsPermutation(p, n) && i < n && k <= n && NearlyDiagonal(d, n)
    ensures OffSq(d, p, i, k, n) <= (if k <= i then k as real else (k - 1) as real) * Sq(EPSILON)
  {
    if k > 0 {
      OffSmall(d, p, i, k - 1, n);
      if k - 1 != i {
        var x := OffAt(d, p, k - 1, i, n);
        assert p[k - 1] != p[i];
        assert Abs(x) < EPSILON;
        SmallSquare(x);
      }
    }
  }

  lemma SmallSquare(x: real)
    requires Abs(x) < EPSILON
    ensures Sq(x) <= Sq(EPSILON)
  {
    var y := Abs(x);
    assert Sq(x) == y * y by {
      assert y == x || y == -x;
    }
    SquareMonotone(y, EPSILON);
  }

  lemma ResidualSmall(a0: seq<seq<real>>, e: seq<real>, v: seq<seq<real>>, d: seq<seq<real>>, p: seq<nat>, rotations: nat, i: nat, n: nat)
    requires EigenResult(a0, e, v, d, p, rotations, n) && i < n && NearlyDiagonal(d, n)
    ensures var r := Residual(a0, e, v, i, n); Inner(r, r, n) <= (n - 1) as real * Sq(EPSILON)
  {
    hide Trace, Frobenius, OffSum, Decayed, Inner, Image, OffSq, Residual, NearlyDiagonal;
    ResidualLength(a0, e, v, d, p, rotations, i, n);
    OffSmall(d, p, i, n, n);
  }

  // ----- what can be told from the given matrix -----

  lemma {:induction false} SumHas(s: seq<real>, i: nat, j: nat, k: nat)
    requires i < j && k <= |s| && forall c | 0 <= c < |s| :: s[c] >= 0.0
    ensures Sum(s, k) >= 0.0
    ensures i < k ==> Sum(s, k) >= s[i]
    ensures j < k ==> Sum(s, k) >= s[i] + s[j]
  {
    if k > 0 {
      SumHas(s, i, j, k - 1);
    }
  }

  lemma SqNotNegative(x: real)
    ensures Sq(x) >= 0.0
  {
  }

  /** Each entry is found twice in the sum off the diagonal of a symmetric matrix. */
  lemma OffSumHas(d: seq<seq<real>>, i: nat, j: nat, n: nat)
    requires Square(d, n) && Symmetric(d, n) && i < j < n
    ensures OffSum(d, n) >= 2.0 * Sq(d[i][j])
  {
    hide Sq, Sum;
    forall r | 0 <= r < n ensures OffRows(d, n)[r] >= 0.0 {
      OffRowHas(d, r, if r == 0 then 1 else 0, n);
    }
    OffRowHas(d, i, j, n);
    OffRowHas(d, j, i, n);
    SumHas(OffRows(d, n), i, j, n);
    assert d[j][i] == d[i][j];
  }

  lemma OffRowHas(d: seq<seq<real>>, r: nat, c: nat, n: nat)
    requires Square(d, n) && r < n && c < n && r != c
    ensures OffRows(d, n)[r] >= Sq(d[r][c]) >= 0.0
  {
    hide Sq, Sum;
    forall k | 0 <= k < n ensures Sq(d[r][k]) >= 0.0 {
      SqNotNegative(d[r][k]);
    }
    SumHas(OffSquares(d[r], r), c, n, n);
  }

  lemma {:induction false} PowGrows(x: real, k: nat)
    requires x > 0.0
    ensures Pow(x, k) > 0.0
  {
    if k > 0 {
      PowGrows(x, k - 1);
    }
  }

  lemma Cancel(x: real, y: real, p: real)
    requires p > 0.0 && x * p < y * p
    ensures x < y
  {
  }

  /** So much off the diagonal is within what all rotations together take away. */
  ghost predicate Convergent(a0: seq<seq<real>>, n: nat)
    requires Square(a0, n)
  {
    var q := n as real * (n - 1) as real;
    OffSum(a0, n) * Pow(q - 2.0, n * n * 30) < 2.0 * Sq(EPSILON) * Pow(q, n * n * 30)
  }

  lemma SquareLarge(x: real)
    requires Abs(x) >= EPSILON
    ensures Sq(x) >= Sq(EPSILON)
  {
    var y := Abs(x);
    assert Sq(x) == y * y;
    TimesBoth(EPSILON, y, y);
    TimesBoth(EPSILON, y, EPSILON);
  }

  lemma SmallOffSum(d: seq<seq<real>>, n: nat)
    requires Square(d, n) && Symmetric(d, n) && OffSum(d, n) < 2.0 * Sq(EPSILON)
    ensures NearlyDiagonal(d, n)
  {
    hide OffSum, Sq;
    forall r, c | 0 <= r < n && 0 <= c < n && r != c ensures Abs(d[r][c]) < EPSILON {
      var i, j := if r < c then r else c, if r < c then c else r;
      assert d[i][j] == d[r][c];
      OffSumHas(d, i, j, n);
      if Abs(d[r][c]) >= EPSILON {
        SquareLarge(d[r][c]);
      }
    }
  }

  /** Then the iterations do not run out, and the residual of every row is small. */
  lemma ConvergentIsSmall(a0: seq<seq<real>>, e: seq<real>, v: seq<seq<real>>, d: seq<seq<real>>, p: seq<nat>, rotations: nat, i: nat, n: nat)
    requires EigenResult(a0, e, v, d, p, rotations, n) && i < n && Convergent(a0, n)
    ensures NearlyDiagonal(d, n)
    ensures var r := Residual(a0, e, v, i, n); Inner(r, r, n) <= (n - 1) as real * Sq(EPSILON)
  {
    hide Trace, Frobenius, OffSum, Inner, Image, Residual, NearlyDiagonal, Pow, Sq, EigenPair, LeftAsGiven;
    if !NearlyDiagonal(d, n) {
      var q := n as real * (n - 1) as real;
      TwoAtLeast(d, n);
      PowGrows(q, rotations);
      Cancel(OffSum(d, n), 2.0 * Sq(EPSILON), Pow(q, rotations));
      SmallOffSum(d, n);
    }
    ResidualSmall(a0, e, v, d, p, rotations, i, n);
  }

  lemma TwoAtLeast(d: seq<seq<real>>, n: nat)
    requires Square(d, n) && !NearlyDiagonal(d, n)
    ensures n >= 2 && n as real * (n - 1) as real > 0.0
  {
    var r, c :| 0 <= r < n && 0 <= c < n && r != c && Abs(d[r][c]) >= EPSILON;
    Positive(n as real, (n - 1) as real);
  }

  lemma Positive(x: real, y: real)
    requires x > 0.0 && y > 0.0
    ensures x * y > 0.0
  {
  }

  /** A matrix that is nearly diagonal is not rotated at all: then all rows satisfy the equation exactly if it is diagonal. */
  lemma NearlyDiagonalIff(a0: seq<seq<real>>, e: seq<real>, v: seq<seq<real>>, d: seq<seq<real>>, p: seq<nat>, rotations: nat, n: nat)
    requires EigenResult(a0, e, v, d, p, rotations, n) && NearlyDiagonal(a0, n)
    ensures (forall i | 0 <= i < n :: Equation(a0, e, v, i, n)) <==> forall r, c | 0 <= r < n && 0 <= c < n && r != c :: a0[r][c] == 0.0
  {
    hide Trace, Frobenius, OffSum, Decayed, NearlyDiagonal, EigenPair, Equation;
    forall i | 0 <= i < n ensures Equation(a0, e, v, i, n) <==> forall k | 0 <= k < n && k != i :: a0[p[k]][p[i]] == 0.0 {
      EigenVectorIff(a0, e, v, d, p, rotations, i, n);
    }
    if forall i | 0 <= i < n :: Equation(a0, e, v, i, n) {
      forall r, c | 0 <= r < n && 0 <= c < n && r != c ensures a0[r][c] == 0.0 {
        var k := PlaceOf(p, r, n);
        var i := PlaceOf(p, c, n);
        assert Equation(a0, e, v, i, n);
      }
    }
  }

  ghost function Values(p: seq<nat>, k: nat): set<nat>
    requires k <= |p|
  {
    if k == 0 then {} else Values(p, k - 1) + {p[k - 1]}
  }

  lemma {:induction false} ValueAt(p: seq<nat>, k: nat, x: nat) returns (j: nat)
    requires k <= |p| && x in Values(p, k)
    ensures j < k && p[j] == x
  {
    if p[k - 1] == x {
      j := k - 1;
    } else {
      j := ValueAt(p, k - 1, x);
    }
  }

  lemma {:induction false} ValuesSize(p: seq<nat>, k: nat, n: nat)
    requires IsPermutation(p, n) && k <= n
    ensures |Values(p, k)| == k
  {
    if k > 0 {
      ValuesSize(p, k - 1, n);
      NewValue(p, k - 1, n);
      OneMore(Values(p, k - 1), p[k - 1]);
    }
  }

  lemma NewValue(p: seq<nat>, k: nat, n: nat)
    requires IsPermutation(p, n) && k < n
    ensures p[k] !in Values(p, k)
  {
    if p[k] in Values(p, k) {
      var j := ValueAt(p, k, p[k]);
    }
  }

  lemma OneMore(s: set<nat>, x: nat)
    requires x !in s
    ensures |s + {x}| == |s| + 1
  {
  }

  /** Every position is taken by a permutation. */
  lemma PlaceOf(p: seq<nat>, r: nat, n: nat) returns (k: nat)
    requires IsPermutation(p, n) && r < n
    ensures k < n && p[k] == r
  {
    ValuesSize(p, n, n);
    if r !in Values(p, n) {
      forall x | x in Values(p, n) + {r} ensures x in UpTo(n) {
        if x != r {
          var j := ValueAt(p, n, x);
        }
      }
      OneMore(Values(p, n), r);
      SubsetSize(Values(p, n) + {r}, UpTo(n));
    }
    k := ValueAt(p, n, r);
  }

  // ----- two rows -----

  lemma {:induction false} PowZero(k: nat)
    requires k > 0
    ensures Pow(0.0, k) == 0.0
  {
  }

  /** One rotation leaves nothing off the diagonal of two rows. */
  lemma TwoRowsCleared(a0: seq<seq<real>>, d: seq<seq<real>>, rotations: nat)
    requires Square(a0, 2) && Square(d, 2) && Symmetric(d, 2) && rotations > 0
    requires Decayed(OffSum(a0, 2), OffSum(d, 2), rotations, 2.0)
    ensures d[0][1] == 0.0 && d[1][0] == 0.0
  {
    hide OffSum, Sq;
    PowZero(rotations);
    PowGrows(2.0, rotations);
    OffSumHas(d, 0, 1, 2);
    NotPositive(OffSum(d, 2), Pow(2.0, rotations));
    ZeroSquare(d[0][1]);
    assert d[1][0] == d[0][1];
  }

  lemma NotPositive(x: real, p: real)
    requires p > 0.0 && x * p <= 0.0
    ensures x <= 0.0
  {
  }

  lemma ZeroSquare(x: real)
    ensures Sq(x) <= 0.0 ==> x == 0.0
  {
    AddSquare(0.0, x, x, Sq(x));
  }

  /** For two rows, told from the given matrix alone: the equation holds exactly if the entry off the diagonal is 0 or not small. */
  lemma TwoRowsIff(a0: seq<seq<real>>, e: seq<real>, v: seq<seq<real>>, d: seq<seq<real>>, p: seq<nat>, rotations: nat, i: nat)
    requires EigenResult(a0, e, v, d, p, rotations, 2) && Symmetric(a0, 2) && i < 2
    ensures Equation(a0, e, v, i, 2) <==> a0[0][1] == 0.0 || Abs(a0[0][1]) >= EPSILON
  {
    hide Trace, Frobenius, OffSum, Decayed, EigenPair, Equation;
    EigenVectorIff(a0, e, v, d, p, rotations, i, 2);
    assert a0[0][1] == a0[1][0];
    if rotations > 0 {
      TwoRowsCleared(a0, d, rotations);
    }
    var k: nat := 1 - i;
    assert {p[i], p[k]} == {0, 1};
  }

  /** A small entry beside two different values on the diagonal: the row `(0, 1)` is returned for the value 1, and is mapped to `(x, 1)`. */
  lemma SmallEntryKept(a0: seq<seq<real>>, e: seq<real>, v: seq<seq<real>>, d: seq<seq<real>>, p: seq<nat>, rotations: nat, x: real)
    requires a0 == [[0.0, x], [x, 1.0]] && 0.0 < x < EPSILON && EigenResult(a0, e, v, d, p, rotations, 2)
    ensures v[0] == [0.0, 1.0] && e[0] == 1.0 && Image(a0, v[0], 2) == [x, 1.0] && !Equation(a0, e, v, 0, 2)
  {
    hide Trace, Frobenius, OffSum, Decayed;
    assert NearlyDiagonal(a0, 2);
    assert EigenPair(a0, e, v, d, p, 0, 0, 2) && EigenPair(a0, e, v, d, p, 1, 1, 2);
    assert e[1] <= e[0];
    assert p[0] != p[1] && p[0] == 1;
    assert v[0] == [0.0, 1.0];
    InnerTwo(a0[0], v[0]);
    InnerTwo(a0[1], v[0]);
  }

  lemma InnerTwo(a: seq<real>, b: seq<real>)
    requires |a| == |b| == 2
    ensures Inner(a, b, 2) == a[0] * b[0] + a[1] * b[1]
  {
    assert Inner(a, b, 1) == a[0] * b[0];
  }
}
