/** The Jacobi method in place: eigenvalues and eigenvectors of a symmetric matrix. */
module Jacobi {
  import opened LinearSystem
  import opened LinearSolve
  import opened JacobiRotation
  import opened JacobiSums

  /** A square root, of which nothing else is asked. */
  ghost predicate IsSqrt(sqrt: real -> real) {
    forall x | x >= 0.0 :: IsRoot(sqrt, x)
  }

  ghost predicate IsRoot(sqrt: real -> real, x: real) {
    sqrt(x) >= 0.0 && sqrt(x) * sqrt(x) == x
  }

  /** The entry above the diagonal with the greatest absolute value. */
  method FindMaxOff(a: array2<real>) returns (mv: real, i: nat, j: nat)
    requires a.Length0 == a.Length1
    ensures mv >= 0.0 && forall r, c | 0 <= r < c < a.Length0 :: Abs(a[r, c]) <= mv
    ensures mv > 0.0 ==> i < j < a.Length0 && mv == Abs(a[i, j])
    ensures mv > 0.0 ==> forall r, c | 0 <= r < c < a.Length0 && (r < i || (r == i && c < j)) :: Abs(a[r, c]) < mv
  {
    mv, i, j := 0.0, 0, 1;
    for r := 0 to a.Length0
      invariant mv >= 0.0 && (mv > 0.0 ==> i < r && i < j < a.Length0 && mv == Abs(a[i, j]))
      invariant forall l, c | 0 <= l < r && l < c < a.Length0 :: Abs(a[l, c]) <= mv
      invariant mv > 0.0 ==> forall l, c | 0 <= l < c < a.Length0 && (l < i || (l == i && c < j)) :: Abs(a[l, c]) < mv
    {
      for c := r + 1 to a.Length0
        invariant mv >= 0.0 && (mv > 0.0 ==> i < j < a.Length0 && mv == Abs(a[i, j]) && (i < r || (i == r && j < c)))
        invariant forall l, d | 0 <= l < r && l < d < a.Length0 :: Abs(a[l, d]) <= mv
        invariant forall d | r < d < c :: Abs(a[r, d]) <= mv
        invariant mv > 0.0 ==> forall l, d | 0 <= l < d < a.Length0 && (l < i || (l == i && d < j)) :: Abs(a[l, d]) < mv
      {
        if mv < Abs(a[r, c]) {
          mv, i, j := Abs(a[r, c]), r, c;
        }
      }
    }
  }

  /** The rotation has reached column `upto`. */
  ghost predicate RotatedUpto(a: seq<seq<real>>, b: seq<seq<real>>, i: nat, j: nat, c: real, s: real, t: real, upto: nat, n: nat) {
    && Square(a, n) && Square(b, n) && i < j < n && upto <= n
    && b[i][i] == a[i][i] - t * a[i][j] && b[j][j] == a[j][j] + t * a[i][j]
    && b[i][j] == 0.0 && b[j][i] == 0.0
    && (forall k | 0 <= k < upto && k != i && k != j :: OthersRotated(a, b, i, j, k, c, s, n))
    && (forall k | upto <= k < n && k != i && k != j :: b[i][k] == a[i][k] && b[j][k] == a[j][k])
    && (forall r, k | 0 <= r < n && 0 <= k < n && r != i && r != j && k != i && k != j :: b[r][k] == a[r][k])
  }

  /** One more row and column have been rotated. */
  lemma RotatedNext(a: seq<seq<real>>, b: seq<seq<real>>, b': seq<seq<real>>, i: nat, j: nat, c: real, s: real, t: real, k: nat, n: nat)
    requires RotatedUpto(a, b, i, j, c, s, t, k, n) && k < n && k != i && k != j && Square(b', n)
    requires b'[i][k] == b'[k][i] == c * b[i][k] - s * b[j][k] && b'[j][k] == b'[k][j] == c * b[j][k] + s * b[i][k]
    requires forall r, l | 0 <= r < n && 0 <= l < n && !((r == i || r == j) && l == k) && !((l == i || l == j) && r == k) :: b'[r][l] == b[r][l]
    ensures RotatedUpto(a, b', i, j, c, s, t, k + 1, n)
  {
    forall l | 0 <= l < k + 1 && l != i && l != j ensures OthersRotated(a, b', i, j, l, c, s, n) {
      if l < k {
        assert OthersRotated(a, b, i, j, l, c, s, n);
      }
    }
  }

  method RotatePair(a: array2<real>, i: nat, j: nat, k: nat, s: real, c: real)
    requires a.Length0 == a.Length1 && i < j < a.Length0 && k < a.Length0 && k != i && k != j
    modifies a
    ensures a[i, k] == a[k, i] == c * old(a[i, k]) - s * old(a[j, k])
    ensures a[j, k] == a[k, j] == c * old(a[j, k]) + s * old(a[i, k])
    ensures forall r, l | 0 <= r < a.Length0 && 0 <= l < a.Length0 && !((r == i || r == j) && l == k) && !((l == i || l == j) && r == k) ::
      a[r, l] == old(a[r, l])
  {
    var v0 := c * a[i, k] - s * a[j, k];
    var v1 := c * a[j, k] + s * a[i, k];
    a[i, k], a[k, i] := v0, v0;
    a[j, k], a[k, j] := v1, v1;
  }

  method RotateBlock(a: array2<real>, i: nat, j: nat, t: real)
    requires a.Length0 == a.Length1 && i < j < a.Length0
    modifies a
    ensures a[i, i] == old(a[i, i]) - t * old(a[i, j]) && a[j, j] == old(a[j, j]) + t * old(a[i, j]) && a[i, j] == a[j, i] == 0.0
    ensures forall r, l | 0 <= r < a.Length0 && 0 <= l < a.Length0 && !((r == i || r == j) && (l == i || l == j)) :: a[r, l] == old(a[r, l])
  {
    a[i, i] := a[i, i] - t * a[i, j];
    a[j, j] := a[j, j] + t * a[i, j];
    a[i, j], a[j, i] := 0.0, 0.0;
  }

  /** With the block rotated, the rest has still to be rotated. */
  lemma BlockDone(a: array2<real>, was: seq<seq<real>>, now: seq<seq<real>>, i: nat, j: nat, c: real, s: real, t: real, n: nat)
    requires a.Length0 == a.Length1 == n && now == Matrix(a) && Square(was, n) && i < j < n
    requires a[i, i] == was[i][i] - t * was[i][j] && a[j, j] == was[j][j] + t * was[i][j] && a[i, j] == a[j, i] == 0.0
    requires forall r, l | 0 <= r < n && 0 <= l < n && !((r == i || r == j) && (l == i || l == j)) :: a[r, l] == was[r][l]
    ensures RotatedUpto(was, now, i, j, c, s, t, 0, n)
  {
    assert forall r, l | 0 <= r < n && 0 <= l < n :: now[r][l] == a[r, l];
  }

  /** Row and column `i` and `j` of the matrix are rotated. */
  method RotateMatrix(a: array2<real>, i: nat, j: nat, t: real, s: real, c: real)
    requires a.Length0 == a.Length1 && i < j < a.Length0
    modifies a
    ensures Rotated(old(Matrix(a)), Matrix(a), i, j, c, s, t, a.Length0)
  {
    ghost var was, n := Matrix(a), a.Length0;
    RotateBlock(a, i, j, t);
    BlockDone(a, was, Matrix(a), i, j, c, s, t, n);
    for k := 0 to a.Length0
      invariant RotatedUpto(was, Matrix(a), i, j, c, s, t, k, n)
    {
      if k != i && k != j {
        ghost var before := Matrix(a);
        RotatePair(a, i, j, k, s, c);
        SameEntries(a, Matrix(a), before, was, i, j, c, s, t, k, n);
      }
    }
  }

  lemma SameEntries(a: array2<real>, now: seq<seq<real>>, before: seq<seq<real>>, was: seq<seq<real>>, i: nat, j: nat, c: real, s: real, t: real, k: nat, n: nat)
    requires a.Length0 == a.Length1 == n && now == Matrix(a) && k < n && k != i && k != j && RotatedUpto(was, before, i, j, c, s, t, k, n)
    requires a[i, k] == a[k, i] == c * before[i][k] - s * before[j][k] && a[j, k] == a[k, j] == c * before[j][k] + s * before[i][k]
    requires forall r, l | 0 <= r < n && 0 <= l < n && !((r == i || r == j) && l == k) && !((l == i || l == j) && r == k) :: a[r, l] == before[r][l]
    ensures RotatedUpto(was, now, i, j, c, s, t, k + 1, n)
  {
    assert forall r, l | 0 <= r < n && 0 <= l < n :: now[r][l] == a[r, l];
    RotatedNext(was, before, now, i, j, c, s, t, k, n);
  }

  /** The rotation of two rows has reached column `upto`. */
  ghost predicate RowsUpto(v: seq<seq<real>>, u: seq<seq<real>>, i: nat, j: nat, c: real, s: real, upto: nat, n: nat) {
    && Square(v, n) && Square(u, n) && i < j < n && upto <= n
    && (forall l | 0 <= l < upto :: EntriesRotated(v, u, i, j, c, s, l, n))
    && (forall l | upto <= l < n :: u[i][l] == v[i][l] && u[j][l] == v[j][l])
    && (forall r | 0 <= r < n && r != i && r != j :: u[r] == v[r])
  }

  ghost predicate EntriesRotated(v: seq<seq<real>>, u: seq<seq<real>>, i: nat, j: nat, c: real, s: real, l: nat, n: nat)
    requires Square(v, n) && Square(u, n) && i < n && j < n && l < n
  {
    u[i][l] == c * v[i][l] - s * v[j][l] && u[j][l] == c * v[j][l] + s * v[i][l]
  }

  method RotateEntries(v: array2<real>, i: nat, j: nat, k: nat, s: real, c: real)
    requires v.Length0 == v.Length1 && i < j < v.Length0 && k < v.Length0
    modifies v
    ensures v[i, k] == c * old(v[i, k]) - s * old(v[j, k]) && v[j, k] == c * old(v[j, k]) + s * old(v[i, k])
    ensures forall r, l | 0 <= r < v.Length0 && 0 <= l < v.Length0 && !((r == i || r == j) && l == k) :: v[r, l] == old(v[r, l])
  {
    var v0 := c * v[i, k] - s * v[j, k];
    var v1 := c * v[j, k] + s * v[i, k];
    v[i, k] := v0;
    v[j, k] := v1;
  }

  lemma EntriesNext(v: array2<real>, was: seq<seq<real>>, before: seq<seq<real>>, now: seq<seq<real>>, i: nat, j: nat, c: real, s: real, k: nat, n: nat)
    requires v.Length0 == v.Length1 == n && now == Matrix(v) && k < n && RowsUpto(was, before, i, j, c, s, k, n)
    requires v[i, k] == c * before[i][k] - s * before[j][k] && v[j, k] == c * before[j][k] + s * before[i][k]
    requires forall r, l | 0 <= r < n && 0 <= l < n && !((r == i || r == j) && l == k) :: v[r, l] == before[r][l]
    ensures RowsUpto(was, now, i, j, c, s, k + 1, n)
  {
    assert forall r, l | 0 <= r < n && 0 <= l < n :: now[r][l] == v[r, l];
    forall l | 0 <= l < k + 1 ensures EntriesRotated(was, now, i, j, c, s, l, n) {
      assert l < k ==> EntriesRotated(was, before, i, j, c, s, l, n);
    }
    forall r | 0 <= r < n && r != i && r != j ensures now[r] == was[r] {
      assert now[r] == before[r];
    }
  }

  lemma RowsDone(v: seq<seq<real>>, u: seq<seq<real>>, i: nat, j: nat, c: real, s: real, n: nat)
    requires RowsUpto(v, u, i, j, c, s, n, n)
    ensures RowsRotated(v, u, i, j, c, s, n)
  {
    forall k | 0 <= k < n
      ensures u[i][k] == c * v[i][k] - s * v[j][k] && u[j][k] == c * v[j][k] + s * v[i][k]
    {
      assert EntriesRotated(v, u, i, j, c, s, k, n);
    }
    RowIs(u[i], v[i], v[j], c, s);
    RowJs(u[j], v[i], v[j], c, s);
  }

  /** Rows `i` and `j` of the eigenvectors are rotated. */
  method RotateRows(v: array2<real>, i: nat, j: nat, s: real, c: real)
    requires v.Length0 == v.Length1 && i < j < v.Length0
    modifies v
    ensures RowsRotated(old(Matrix(v)), Matrix(v), i, j, c, s, v.Length0)
  {
    ghost var was, n := Matrix(v), v.Length0;
    for k := 0 to v.Length0
      invariant RowsUpto(was, Matrix(v), i, j, c, s, k, n)
    {
      ghost var before := Matrix(v);
      RotateEntries(v, i, j, k, s, c);
      EntriesNext(v, was, before, Matrix(v), i, j, c, s, k, n);
    }
    RowsDone(was, Matrix(v), i, j, c, s, n);
  }

  lemma RowIs(now: seq<real>, x: seq<real>, y: seq<real>, c: real, s: real)
    requires |now| == |x| == |y| && forall k | 0 <= k < |x| :: now[k] == c * x[k] - s * y[k]
    ensures now == Combine(x, y, c, -s)
  {
    var want := Combine(x, y, c, -s);
    forall k | 0 <= k < |x| ensures now[k] == want[k] {
      Minus(s, y[k]);
    }
  }

  lemma RowJs(now: seq<real>, x: seq<real>, y: seq<real>, c: real, s: real)
    requires |now| == |x| == |y| && forall k | 0 <= k < |x| :: now[k] == c * y[k] + s * x[k]
    ensures now == Combine(y, x, c, s)
  {
  }

  lemma Minus(s: real, x: real)
    ensures -s * x == -(s * x)
  {
  }

  ghost function Identity(n: nat): (m: seq<seq<real>>)
    ensures Square(m, n) && forall r, c | 0 <= r < n && 0 <= c < n :: m[r][c] == if r == c then 1.0 else 0.0
  {
    seq(n, r requires 0 <= r < n => seq(n, c requires 0 <= c < n => if r == c then 1.0 else 0.0))
  }

  /** The identity does not change under rotations. */
  lemma IdentityRotated(i: nat, j: nat, c: real, s: real, t: real, n: nat)
    requires i < j < n
    ensures Angle(1.0, 1.0, 0.0, c, s, t) ==> Rotated(Identity(n), Identity(n), i, j, c, s, t, n)
  {
  }

  // ----- the whole method -----

  /** `v` diagonalises `a0` as far as `a` is diagonal: `v * a0 * v^T == a` and `v * v^T == I`. */
  ghost predicate Diagonalises(a0: seq<seq<real>>, v: seq<seq<real>>, a: seq<seq<real>>, n: nat) {
    && Square(a0, n) && Square(v, n) && Square(a, n) && Symmetric(a, n)
    && Gram(MatrixForm(a0, n), v, a, n)
    && Gram(InnerForm(n), v, Identity(n), n)
  }

  lemma {:induction false} InnerUnit(r: nat, x: seq<real>, k: nat, n: nat)
    requires r < n && |x| == n && k <= n
    ensures Inner(Identity(n)[r], x, k) == if r < k then x[r] else 0.0
  {
    if k > 0 {
      InnerUnit(r, x, k - 1, n);
      InnerNext(Identity(n)[r], x, k - 1, k);
    }
  }

  lemma InnerUnitRight(r: nat, x: seq<real>, n: nat)
    requires r < n && |x| == n
    ensures Inner(x, Identity(n)[r], n) == x[r]
  {
    InnerCommutes(x, Identity(n)[r], n);
    InnerUnit(r, x, n, n);
  }

  /** At the beginning. */
  lemma IdentityDiagonalises(a0: seq<seq<real>>, n: nat)
    requires Square(a0, n) && Symmetric(a0, n)
    ensures Diagonalises(a0, Identity(n), a0, n)
  {
    var v := Identity(n);
    forall r, k | 0 <= r < n && 0 <= k < n
      ensures GramAt(MatrixForm(a0, n), v, a0, r, k, n) && GramAt(InnerForm(n), v, Identity(n), r, k, n)
    {
      InnerUnit(r, Image(a0, v[k], n), n, n);
      InnerUnitRight(k, a0[r], n);
      InnerUnit(r, v[k], n, n);
    }
  }

  /** And behind every rotation. */
  lemma RotationDiagonalises(a0: seq<seq<real>>, v: seq<seq<real>>, u: seq<seq<real>>, a: seq<seq<real>>, b: seq<seq<real>>,
                             i: nat, j: nat, c: real, s: real, t: real, n: nat)
    requires Diagonalises(a0, v, a, n) && RowsRotated(v, u, i, j, c, s, n) && Rotated(a, b, i, j, c, s, t, n)
    requires Angle(a[i][i], a[j][j], a[i][j], c, s, t)
    ensures Diagonalises(a0, u, b, n)
  {
    MatrixBilinear(a0, n);
    InnerBilinear(n);
    GramRotates(MatrixForm(a0, n), v, u, a, b, i, j, c, s, t, n);
    IdentityRotated(i, j, c, s, t, n);
    GramRotates(InnerForm(n), v, u, Identity(n), Identity(n), i, j, c, s, t, n);
    RotatedSymmetric(a, b, i, j, c, s, t, n);
  }

  ghost function Pow(x: real, k: nat): real {
    if k == 0 then 1.0 else x * Pow(x, k - 1)
  }

  /** `k` rotations with the greatest pivot have left at most the `(1 - 2 / d)^k`th part of `off0`, for `d == n * (n - 1)`. */
  ghost predicate Decayed(off0: real, off: real, k: nat, d: real) {
    off * Pow(d, k) <= off0 * Pow(d - 2.0, k)
  }

  lemma {:induction false} PowPositive(x: real, k: nat)
    requires x >= 0.0
    ensures Pow(x, k) >= 0.0
  {
    if k > 0 {
      PowPositive(x, k - 1);
    }
  }

  lemma DecaysOn(off0: real, off: real, off': real, k: nat, d: real)
    requires Decayed(off0, off, k, d) && d >= 2.0 && d * (off - off') >= 2.0 * off
    ensures Decayed(off0, off', k + 1, d)
  {
    PowPositive(d, k);
    DecayStep(off0, off, off', Pow(d, k), Pow(d - 2.0, k), d);
  }

  lemma DecayStep(off0: real, off: real, off': real, p: real, q: real, d: real)
    requires off * p <= off0 * q && p >= 0.0 && d >= 2.0 && d * (off - off') >= 2.0 * off
    ensures off' * (d * p) <= off0 * ((d - 2.0) * q)
  {
    var x, y, u, v := d * off', (d - 2.0) * off, off * p, off0 * q;
    assert x <= y;
    TimesBoth(x, y, p);
    TimesBoth(u, v, d - 2.0);
    assert off' * (d * p) == x * p;
    assert y * p == (d - 2.0) * u;
    assert off0 * ((d - 2.0) * q) == (d - 2.0) * v;
  }

  lemma TimesBoth(x: real, y: real, p: real)
    requires x <= y && p >= 0.0
    ensures x * p <= y * p && p * x <= p * y
  {
  }

  /** What holds behind `k` rotations. */
  ghost predicate Behind(a0: seq<seq<real>>, v: seq<seq<real>>, a: seq<seq<real>>, k: nat, n: nat) {
    && Diagonalises(a0, v, a, n)
    && Trace(a, n) == Trace(a0, n) && Frobenius(a, n) == Frobenius(a0, n)
    && Decayed(OffSum(a0, n), OffSum(a, n), k, n as real * (n - 1) as real)
  }

  lemma BehindNone(a0: seq<seq<real>>, n: nat)
    requires Square(a0, n) && Symmetric(a0, n)
    ensures Behind(a0, Identity(n), a0, 0, n)
  {
    IdentityDiagonalises(a0, n);
  }

  lemma BehindNext(a0: seq<seq<real>>, v: seq<seq<real>>, u: seq<seq<real>>, a: seq<seq<real>>, b: seq<seq<real>>,
                   i: nat, j: nat, c: real, s: real, t: real, k: nat, n: nat)
    requires Behind(a0, v, a, k, n) && RowsRotated(v, u, i, j, c, s, n) && Rotated(a, b, i, j, c, s, t, n)
    requires Angle(a[i][i], a[j][j], a[i][j], c, s, t) && GreatestOff(a, i, j, n)
    ensures Behind(a0, u, b, k + 1, n)
  {
    hide Trace, Frobenius, OffSum, Decayed, Rotated, RowsRotated, Gram, Sq;
    RotationDiagonalises(a0, v, u, a, b, i, j, c, s, t, n);
    RotationConserves(a, b, i, j, c, s, t, n);
    AtLeastTwo(n);
    DecaysOn(OffSum(a0, n), OffSum(a, n), OffSum(b, n), k, n as real * (n - 1) as real);
  }

  lemma AtLeastTwo(n: nat)
    requires n >= 2
    ensures n as real * (n - 1) as real >= 2.0
  {
    TimesBoth(1.0, (n - 1) as real, n as real);
  }

  /** With entries below `mv` above the diagonal of a symmetric matrix, the one that reaches it is the greatest. */
  lemma GreatestIs(a: seq<seq<real>>, i: nat, j: nat, mv: real, n: nat)
    requires Square(a, n) && Symmetric(a, n) && i < j < n && mv == Abs(a[i][j])
    requires forall r, c | 0 <= r < c < n :: Abs(a[r][c]) <= mv
    ensures GreatestOff(a, i, j, n)
  {
    forall r, k | 0 <= r < n && 0 <= k < n && r != k ensures Sq(a[r][k]) <= Sq(a[i][j]) {
      var x := if r < k then a[r][k] else a[k][r];
      assert Abs(x) <= mv && x == a[r][k];
      SqMonotone(x, a[i][j]);
    }
  }

  lemma SqMonotone(x: real, y: real)
    requires Abs(x) <= Abs(y)
    ensures Sq(x) <= Sq(y)
  {
    SqAbs(x);
    SqAbs(y);
    SquareMonotone(Abs(x), Abs(y));
  }

  lemma SqAbs(x: real)
    ensures Sq(x) == Abs(x) * Abs(x)
  {
    assert -x * -x == x * x;
  }

  lemma SquareMonotone(p: real, q: real)
    requires 0.0 <= p <= q
    ensures p * p <= q * q
  {
    TimesBoth(p, q, p);
    TimesBoth(p, q, q);
  }

  /** Of the two angles that make the pivot vanish the code takes the smaller one. */
  lemma SmallTangent(w: real, root: real, t: real)
    requires root >= 0.0 && root * root == 1.0 + w * w && t == -w + (if w > 0.0 then root else -root)
    ensures -1.0 <= t <= 1.0 && (t > 0.0 <==> w > 0.0)
  {
    var v := if w > 0.0 then w else -w;
    assert v * v == w * w;
    if root <= v {
      SquareMonotone(root, v);
    }
    if root > 1.0 + v {
      TimesBoth(1.0 + v, root, root);
      TimesBoth(1.0 + v, root, v);
    }
  }

  lemma SameSign(q: real, w: real, d: real, x: real)
    requires x != 0.0 && q == d / x && w == 0.5 * d / x
    ensures q > 0.0 <==> w > 0.0
  {
    assert 0.5 * d / x == 0.5 * (d / x);
  }

  /** One rotation, of matrix and rows. */
  method Rotate(a: array2<real>, v: array2<real>, i: nat, j: nat, sqrt: real -> real) returns (ghost c: real, ghost s: real, ghost t: real)
    requires a.Length0 == a.Length1 == v.Length0 == v.Length1 && a != v && i < j < a.Length0 && a[i, j] != 0.0 && IsSqrt(sqrt)
    modifies a, v
    ensures Rotated(old(Matrix(a)), Matrix(a), i, j, c, s, t, a.Length0) && RowsRotated(old(Matrix(v)), Matrix(v), i, j, c, s, a.Length0)
    ensures Angle(old(a[i, i]), old(a[j, j]), old(a[i, j]), c, s, t)
    ensures c > 0.0 && -1.0 <= t <= 1.0 && (t > 0.0 <==> old((a[j, j] - a[i, i]) / a[i, j]) > 0.0)
  {
    var w := 0.5 * (a[j, j] - a[i, i]) / a[i, j];
    SquaresPositive(w);
    assert IsRoot(sqrt, 1.0 + w * w);
    var tan := -w + (if w > 0.0 then sqrt(1.0 + w * w) else -sqrt(1.0 + w * w));
    SquaresPositive(tan);
    assert IsRoot(sqrt, 1.0 + tan * tan);
    RootPositive(sqrt(1.0 + tan * tan), tan);
    var sin := tan / sqrt(1.0 + tan * tan);
    var cos := 1.0 / sqrt(1.0 + tan * tan);
    AngleComputed(a[i, i], a[j, j], a[i, j], w, sqrt(1.0 + w * w), tan, sqrt(1.0 + tan * tan), sin, cos);
    SmallTangent(w, sqrt(1.0 + w * w), tan);
    SameSign((a[j, j] - a[i, i]) / a[i, j], w, a[j, j] - a[i, i], a[i, j]);
    RotateMatrix(a, i, j, tan, sin, cos);
    RotateRows(v, i, j, sin, cos);
    c, s, t := cos, sin, tan;
  }

  lemma SquaresPositive(x: real)
    ensures x * x >= 0.0
  {
  }

  lemma RootPositive(q: real, t: real)
    requires q >= 0.0 && q * q == 1.0 + t * t && t * t >= 0.0
    ensures q > 0.0
  {
  }

  method InitRows(v: array2<real>)
    requires v.Length0 == v.Length1
    modifies v
    ensures Matrix(v) == Identity(v.Length0)
  {
    for r := 0 to v.Length0
      invariant forall l, c | 0 <= l < r && 0 <= c < v.Length1 :: v[l, c] == if l == c then 1.0 else 0.0
    {
      for c := 0 to v.Length1
        invariant forall l, d | 0 <= l < r && 0 <= d < v.Length1 :: v[l, d] == if l == d then 1.0 else 0.0
        invariant forall d | 0 <= d < c :: v[r, d] == if r == d then 1.0 else 0.0
      {
        v[r, c] := if r == c then 1.0 else 0.0;
      }
    }
    ghost var now, want := Matrix(v), Identity(v.Length0);
    forall r | 0 <= r < v.Length0 ensures now[r] == want[r] {
      assert forall c | 0 <= c < v.Length0 :: now[r][c] == v[r, c];
    }
  }

  /** Every entry off the diagonal is smaller than `epsilon`. */
  ghost predicate NearlyDiagonal(a: seq<seq<real>>, n: nat)
    requires Square(a, n)
  {
    forall r, c | 0 <= r < n && 0 <= c < n && r != c :: Abs(a[r][c]) < EPSILON
  }

  /** A matrix that is nearly diagonal is left as it is, and only such a one. */
  ghost predicate Untouched(a0: seq<seq<real>>, v: seq<seq<real>>, a: seq<seq<real>>, rotations: nat, n: nat)
    requires Square(a0, n)
  {
    && (rotations == 0 <==> NearlyDiagonal(a0, n))
    && (rotations == 0 ==> a == a0 && v == Identity(n))
  }

  lemma NotNearly(a: seq<seq<real>>, i: nat, j: nat, mv: real, n: nat)
    requires Square(a, n) && i < j < n && mv == Abs(a[i][j]) && mv >= EPSILON
    ensures !NearlyDiagonal(a, n)
  {
  }

  /** What holds in the loop behind `k` rotations. */
  ghost predicate Running(a0: seq<seq<real>>, v: seq<seq<real>>, a: seq<seq<real>>, k: nat, n: nat) {
    && Behind(a0, v, a, k, n)
    && if k == 0 then a == a0 && v == Identity(n) else !NearlyDiagonal(a0, n)
  }

  lemma RunningNext(a0: seq<seq<real>>, v: seq<seq<real>>, u: seq<seq<real>>, a: seq<seq<real>>, b: seq<seq<real>>,
                    i: nat, j: nat, c: real, s: real, t: real, k: nat, mv: real, n: nat)
    requires Running(a0, v, a, k, n) && i < j < n && RowsRotated(v, u, i, j, c, s, n) && Rotated(a, b, i, j, c, s, t, n)
    requires Angle(a[i][i], a[j][j], a[i][j], c, s, t)
    requires mv >= EPSILON && mv == Abs(a[i][j]) && forall r, c | 0 <= r < c < n :: Abs(a[r][c]) <= mv
    ensures Running(a0, u, b, k + 1, n)
  {
    hide Rotated, RowsRotated, Angle, Trace, Frobenius, OffSum, Decayed, Gram, Identity;
    GreatestIs(a, i, j, mv, n);
    NotNearly(a, i, j, mv, n);
    BehindNext(a0, v, u, a, b, i, j, c, s, t, k, n);
  }

  /** One round of the loop: it ends it, or rotates. */
  method NextRotation(a: array2<real>, v: array2<real>, sqrt: real -> real, ghost a0: seq<seq<real>>, ghost k: nat) returns (done: bool)
    requires a.Length0 == a.Length1 == v.Length0 == v.Length1 && a != v && IsSqrt(sqrt)
    requires Running(a0, Matrix(v), Matrix(a), k, a.Length0)
    modifies a, v
    ensures done ==> Running(a0, Matrix(v), Matrix(a), k, a.Length0) && NearlyDiagonal(Matrix(a), a.Length0)
    ensures !done ==> Running(a0, Matrix(v), Matrix(a), k + 1, a.Length0)
  {
    hide Trace, Frobenius, OffSum, Decayed, Gram, Rotated, RowsRotated;
    ghost var n := a.Length0;
    var mv, i, j := FindMaxOff(a);
    ghost var m, u := Matrix(a), Matrix(v);
    assert forall r, c | 0 <= r < n && 0 <= c < n :: m[r][c] == a[r, c];
    if mv < EPSILON {
      NearlyIs(m, mv, n);
      return true;
    }
    ghost var c, s, t := Rotate(a, v, i, j, sqrt);
    RunningNext(a0, u, Matrix(v), m, Matrix(a), i, j, c, s, t, k, mv, n);
    done := false;
  }

  /** The rotations: until the matrix is nearly diagonal, but at most `30 * n * n` of them. */
  method Diagonalise(a: array2<real>, v: array2<real>, sqrt: real -> real) returns (ghost rotations: nat)
    requires a.Length0 == a.Length1 == v.Length0 == v.Length1 && a != v && IsSqrt(sqrt)
    requires Symmetric(Matrix(a), a.Length0)
    modifies a, v
    ensures Behind(old(Matrix(a)), Matrix(v), Matrix(a), rotations, a.Length0)
    ensures NearlyDiagonal(Matrix(a), a.Length0) || rotations == a.Length0 * a.Length0 * 30
    ensures Untouched(old(Matrix(a)), Matrix(v), Matrix(a), rotations, a.Length0)
  {
    hide Behind, IsSqrt, Symmetric;
    ghost var a0, n := Matrix(a), a.Length0;
    InitRows(v);
    BehindNone(a0, n);
    var iterations := a.Length0 * a.Length0 * 30;
    rotations := 0;
    for it := 0 to iterations
      invariant rotations == it && Running(a0, Matrix(v), Matrix(a), it, n)
    {
      var done := NextRotation(a, v, sqrt, a0, it);
      if done {
        break;
      }
      rotations := rotations + 1;
    }
  }

  lemma NearlyIs(a: seq<seq<real>>, mv: real, n: nat)
    requires Square(a, n) && Symmetric(a, n) && mv < EPSILON && forall r, c | 0 <= r < c < n :: Abs(a[r][c]) <= mv
    ensures NearlyDiagonal(a, n)
  {
    forall r, c | 0 <= r < n && 0 <= c < n && r != c ensures Abs(a[r][c]) < EPSILON {
      var x := if r < c then a[r][c] else a[c][r];
      assert Abs(x) <= mv;
    }
  }

  // ----- sorting -----

  /** Every position occurs once. */
  ghost predicate IsPermutation(p: seq<nat>, n: nat) {
    && |p| == n && (forall k | 0 <= k < n :: p[k] < n)
    && forall k, l | 0 <= k < l < n :: p[k] != p[l]
  }

  /** The eigenvalues and rows are those of `e0` and `v0`, rearranged together. */
  ghost predicate Rearranged(e: seq<real>, v: seq<seq<real>>, e0: seq<real>, v0: seq<seq<real>>, p: seq<nat>, n: nat) {
    && IsPermutation(p, n) && |e| == |e0| == |v| == |v0| == n
    && forall k | 0 <= k < n :: e[k] == e0[p[k]] && v[k] == v0[p[k]]
  }

  lemma RearrangedSwap(e: seq<real>, v: seq<seq<real>>, e': seq<real>, v': seq<seq<real>>, e0: seq<real>, v0: seq<seq<real>>, p: seq<nat>, k: nat, m: nat, n: nat)
    requires Rearranged(e, v, e0, v0, p, n) && k < n && m < n && |e'| == |v'| == n
    requires e' == e[k := e[m]][m := e[k]] && v' == v[k := v[m]][m := v[k]]
    ensures Rearranged(e', v', e0, v0, p[k := p[m]][m := p[k]], n)
  {
  }

  method SwapVectors(v: array2<real>, k: nat, m: nat)
    requires v.Length0 == v.Length1 && k < v.Length0 && m < v.Length0
    modifies v
    ensures Matrix(v) == old(Matrix(v))[k := old(Matrix(v))[m]][m := old(Matrix(v))[k]]
  {
    SwapEntries(v, k, m, 0);
  }

  method FindGreatest(e: array<real>, k: nat) returns (m: nat)
    requires k < e.Length
    ensures k <= m < e.Length && (forall i | k <= i < e.Length :: e[i] <= e[m]) && forall i | k <= i < m :: e[i] < e[m]
  {
    m := k;
    for i := k + 1 to e.Length
      invariant k <= m < i && (forall l | k <= l < i :: e[l] <= e[m]) && forall l | k <= l < m :: e[l] < e[m]
    {
      if e[m] < e[i] {
        m := i;
      }
    }
  }

  /** The greatest of the values from `k` on is swapped to position `k`, and its row with it. */
  method PlaceGreatest(e: array<real>, v: array2<real>, k: nat, ghost p: seq<nat>, ghost e0: seq<real>, ghost v0: seq<seq<real>>)
    returns (ghost q: seq<nat>)
    requires v.Length0 == v.Length1 == e.Length && k < e.Length && Rearranged(e[..], Matrix(v), e0, v0, p, e.Length)
    requires forall i, j | 0 <= i < k && i < j < e.Length :: e[j] <= e[i]
    modifies e, v
    ensures Rearranged(e[..], Matrix(v), e0, v0, q, e.Length)
    ensures forall i, j | 0 <= i < k + 1 && i < j < e.Length :: e[j] <= e[i]
  {
    q := p;
    var m := FindGreatest(e, k);
    if m != k {
      ghost var was, rows := e[..], Matrix(v);
      e[k], e[m] := e[m], e[k];
      SwapVectors(v, k, m);
      q := p[k := p[m]][m := p[k]];
      RearrangedSwap(was, rows, e[..], Matrix(v), e0, v0, p, k, m, e.Length);
    }
  }

  method SortEigen(e: array<real>, v: array2<real>) returns (ghost p: seq<nat>)
    requires v.Length0 == v.Length1 == e.Length
    modifies e, v
    ensures Rearranged(e[..], Matrix(v), old(e[..]), old(Matrix(v)), p, e.Length)
    ensures forall i, j | 0 <= i < j < e.Length :: e[j] <= e[i]
  {
    ghost var e0, v0 := e[..], Matrix(v);
    p := seq(e.Length, k requires 0 <= k < e.Length => k);
    var k := 0;
    while k < e.Length - 1
      invariant 0 <= k && (k <= e.Length - 1 || e.Length == 0)
      invariant Rearranged(e[..], Matrix(v), e0, v0, p, e.Length)
      invariant forall i, j | 0 <= i < k && i < j < e.Length :: e[j] <= e[i]
    {
      p := PlaceGreatest(e, v, k, p, e0, v0);
      k := k + 1;
    }
  }

  /**
   * What the method returns: orthonormal rows, in the order of their values, for which `a0` has these values
   * on the diagonal and entries of `d` elsewhere; `d` conserves trace and norm of `a0`, and is nearly diagonal
   * unless all iterations were needed.
   */
  ghost predicate EigenResult(a0: seq<seq<real>>, e: seq<real>, v: seq<seq<real>>, d: seq<seq<real>>, p: seq<nat>, rotations: nat, n: nat) {
    && Square(a0, n) && Square(v, n) && Square(d, n) && |e| == n && IsPermutation(p, n)
    && (forall k, l | 0 <= k < n && 0 <= l < n :: EigenPair(a0, e, v, d, p, k, l, n))
    && (forall i, j | 0 <= i < j < n :: e[j] <= e[i])
    && Trace(d, n) == Trace(a0, n) && Frobenius(d, n) == Frobenius(a0, n)
    && Decayed(OffSum(a0, n), OffSum(d, n), rotations, n as real * (n - 1) as real)
    && (NearlyDiagonal(d, n) || rotations == n * n * 30)
    && Symmetric(d, n) && LeftAsGiven(a0, v, d, p, rotations, n)
  }

  /** Of a matrix that is nearly diagonal the entries on the diagonal are returned with unit rows, and only of such a one. */
  ghost predicate LeftAsGiven(a0: seq<seq<real>>, v: seq<seq<real>>, d: seq<seq<real>>, p: seq<nat>, rotations: nat, n: nat)
    requires Square(a0, n) && |v| == n && IsPermutation(p, n)
  {
    && (rotations == 0 <==> NearlyDiagonal(a0, n))
    && (rotations == 0 ==> d == a0 && forall k | 0 <= k < n :: v[k] == Identity(n)[p[k]])
  }

  ghost predicate EigenPair(a0: seq<seq<real>>, e: seq<real>, v: seq<seq<real>>, d: seq<seq<real>>, p: seq<nat>, k: nat, l: nat, n: nat)
    requires Square(a0, n) && Square(v, n) && Square(d, n) && |e| == n && IsPermutation(p, n) && k < n && l < n
  {
    && Inner(v[k], v[l], n) == (if k == l then 1.0 else 0.0)
    && Inner(v[k], Image(a0, v[l], n), n) == d[p[k]][p[l]]
    && (k == l ==> e[k] == d[p[k]][p[k]])
  }

  lemma ResultHolds(a0: seq<seq<real>>, e: seq<real>, v: seq<seq<real>>, e0: seq<real>, v0: seq<seq<real>>, d: seq<seq<real>>, p: seq<nat>, rotations: nat, n: nat)
    requires Square(a0, n) && Behind(a0, v0, d, rotations, n) && Rearranged(e, v, e0, v0, p, n)
    requires |e0| == n && forall k | 0 <= k < n :: e0[k] == d[k][k]
    requires forall i, j | 0 <= i < j < n :: e[j] <= e[i]
    requires NearlyDiagonal(d, n) || rotations == n * n * 30
    requires Untouched(a0, v0, d, rotations, n)
    ensures EigenResult(a0, e, v, d, p, rotations, n)
  {
    hide Trace, Frobenius, OffSum, Decayed, NearlyDiagonal, Inner, Image;
    forall k, l | 0 <= k < n && 0 <= l < n ensures EigenPair(a0, e, v, d, p, k, l, n) {
      assert GramAt(MatrixForm(a0, n), v0, d, p[k], p[l], n);
      assert GramAt(InnerForm(n), v0, Identity(n), p[k], p[l], n);
      assert k != l ==> p[k] != p[l];
    }
  }

  /** The diagonal is taken for the eigenvalues. */
  method ReadDiagonal(a: array2<real>, e: array<real>)
    requires a.Length0 == a.Length1 == e.Length
    modifies e
    ensures forall k | 0 <= k < e.Length :: e[k] == Matrix(a)[k][k]
  {
    ghost var d := Matrix(a);
    for k := 0 to e.Length
      invariant forall l | 0 <= l < k :: e[l] == d[l][l]
    {
      assert a[k, k] == d[k][k];
      e[k] := a[k, k];
    }
  }

  /** `jacobi_eigen` */
  method JacobiEigen(a: array2<real>, v: array2<real>, e: array<real>, sqrt: real -> real)
    returns (ghost p: seq<nat>, ghost rotations: nat)
    requires a.Length0 == a.Length1 == v.Length0 == v.Length1 == e.Length && a != v && IsSqrt(sqrt)
    requires Symmetric(Matrix(a), a.Length0)
    modifies a, v, e
    ensures EigenResult(old(Matrix(a)), e[..], Matrix(v), Matrix(a), p, rotations, a.Length0)
  {
    hide Behind, Rearranged, EigenResult, Untouched, Symmetric, NearlyDiagonal, IsSqrt;
    ghost var a0, n := Matrix(a), a.Length0;
    rotations := Diagonalise(a, v, sqrt);
    ghost var d := Matrix(a);
    ReadDiagonal(a, e);
    ghost var e0, v0 := e[..], Matrix(v);
    p := SortEigen(e, v);
    ResultHolds(a0, e[..], Matrix(v), e0, v0, d, p, rotations, n);
  }
}
