/** What the verdict of the solvers says about the matrix: when it tells non-singular ones from singular ones. */
module LinearSingular {
  import opened LinearSystem
  import opened LinearSolve

  // ----- non-singular matrices -----

  /** The same matrix with one right-hand side, which is zero. */
  ghost function Homogeneous(s: seq<Row>): (h: seq<Row>)
    ensures |h| == |s| && forall i | 0 <= i < |s| :: h[i] == Row(s[i].a, [0.0])
  {
    seq(|s|, i requires 0 <= i < |s| => Row(s[i].a, [0.0]))
  }

  ghost function Zero(m: nat): (z: seq<seq<real>>)
    ensures |z| == m && forall i | 0 <= i < m :: z[i] == [0.0]
  {
    seq(m, i => [0.0])
  }

  /** Nothing but zero is mapped to zero. */
  ghost predicate NonSingular(s: seq<Row>, m: nat, n: nat)
    requires Shaped(s, m, n)
  {
    forall z | Solves(Homogeneous(s), z, m, 1) :: z == Zero(m)
  }

  // ----- elimination that stops at a pivot of zero only -----

  ghost predicate Continues(s: seq<Row>, t: seq<Row>, j: nat, jordan: bool, m: nat, n: nat) {
    exists k: nat :: Eliminated(s, t, j, k, jordan, m, n)
  }

  ghost predicate ExactSteps(run: seq<seq<Row>>, s: seq<Row>, jordan: bool, m: nat, n: nat) {
    && Shaped(s, m, n) && run != [] && run[0] == s && |run| <= m + 1
    && forall j | 0 <= j < |run| - 1 :: Continues(run[j], run[j + 1], j, jordan, m, n)
  }

  /** Nothing is left in column `j` from row `j` on. */
  ghost predicate ZeroColumn(s: seq<Row>, j: nat, m: nat, n: nat) {
    Shaped(s, m, n) && j < m && forall i | j <= i < m :: s[i].a[j] == 0.0
  }

  ghost predicate Exact(run: seq<seq<Row>>, s: seq<Row>, jordan: bool, full: bool, m: nat, n: nat) {
    && ExactSteps(run, s, jordan, m, n)
    && if full then |run| == m + 1 else |run| <= m && ZeroColumn(run[|run| - 1], |run| - 1, m, n)
  }

  lemma {:induction false} ExactSolves(run: seq<seq<Row>>, s: seq<Row>, jordan: bool, j: nat, x: seq<seq<real>>, m: nat, n: nat)
    requires ExactSteps(run, s, jordan, m, n) && j < |run|
    ensures Shaped(run[j], m, n) && (Solves(run[j], x, m, n) <==> Solves(s, x, m, n))
  {
    if j > 0 {
      ExactSolves(run, s, jordan, j - 1, x, m, n);
      assert Continues(run[j - 1], run[j - 1 + 1], j - 1, jordan, m, n);
      var k: nat :| Eliminated(run[j - 1], run[j], j - 1, k, jordan, m, n);
      StepSolves(run[j - 1], run[j], j - 1, k, jordan, x, m, n);
    }
  }

  lemma {:induction false} ExactTriangular(run: seq<seq<Row>>, s: seq<Row>, jordan: bool, j: nat, m: nat, n: nat)
    requires ExactSteps(run, s, jordan, m, n) && j < |run|
    ensures Triangular(run[j], j, jordan, m, n)
  {
    if j > 0 {
      ExactTriangular(run, s, jordan, j - 1, m, n);
      assert Continues(run[j - 1], run[j - 1 + 1], j - 1, jordan, m, n);
      var k: nat :| Eliminated(run[j - 1], run[j], j - 1, k, jordan, m, n);
      StepTriangular(run[j - 1], run[j], j - 1, k, jordan, m, n);
    }
  }

  // ----- the homogeneous system is eliminated along -----

  ghost function Homogeneouses(run: seq<seq<Row>>): (h: seq<seq<Row>>)
    ensures |h| == |run| && forall j | 0 <= j < |run| :: h[j] == Homogeneous(run[j])
  {
    seq(|run|, j requires 0 <= j < |run| => Homogeneous(run[j]))
  }

  lemma HomogeneousStep(s: seq<Row>, t: seq<Row>, j: nat, k: nat, jordan: bool, m: nat, n: nat)
    requires Eliminated(s, t, j, k, jordan, m, n)
    ensures Eliminated(Homogeneous(s), Homogeneous(t), j, k, jordan, m, 1)
  {
    var h, from := Homogeneous(s), if jordan then 0 else j + 1;
    var w, v := Swapped(s, j, k), Swapped(h, j, k);
    assert forall i | 0 <= i < m :: v[i] == Row(w[i].a, [0.0]);
    forall i | 0 <= i < m ensures Homogeneous(t)[i] == ClearedRow(v, j, from, i) {
      assert t[i] == ClearedRow(w, j, from, i);
      HomogeneousRow(w[i], w[j], Factor(w[i].a[j], w[j].a[j]));
    }
  }

  lemma HomogeneousRow(r: Row, p: Row, alpha: real)
    requires |r.a| == |p.a| && |r.b| == |p.b|
    ensures AddRow(Row(r.a, [0.0]), Row(p.a, [0.0]), alpha) == Row(AddRow(r, p, alpha).a, [0.0])
  {
  }

  lemma HomogeneousSteps(run: seq<seq<Row>>, s: seq<Row>, jordan: bool, m: nat, n: nat)
    requires ExactSteps(run, s, jordan, m, n)
    ensures ExactSteps(Homogeneouses(run), Homogeneous(s), jordan, m, 1)
  {
    hide Eliminated;
    var h := Homogeneouses(run);
    forall j | 0 <= j < |h| - 1 ensures Continues(h[j], h[j + 1], j, jordan, m, 1) {
      assert Continues(run[j], run[j + 1], j, jordan, m, n);
      var k: nat :| Eliminated(run[j], run[j + 1], j, k, jordan, m, n);
      HomogeneousStep(run[j], run[j + 1], j, k, jordan, m, n);
    }
  }

  // ----- a run through all columns -----

  lemma {:induction false} DotWithZero(row: seq<real>, m: nat, lo: nat)
    requires lo <= m == |row|
    ensures Dot(row, Zero(m), 0, lo, m) == 0.0
    decreases m - lo
  {
    if lo < m {
      DotWithZero(row, m, lo + 1);
    }
  }

  lemma FullIsNonSingular(run: seq<seq<Row>>, s: seq<Row>, jordan: bool, m: nat, n: nat)
    requires ExactSteps(run, s, jordan, m, n) && |run| == m + 1
    ensures NonSingular(s, m, n)
  {
    var h, f := Homogeneouses(run), Homogeneous(run[m]);
    HomogeneousSteps(run, s, jordan, m, n);
    ExactTriangular(h, Homogeneous(s), jordan, m, m, 1);
    forall i, c | 0 <= i < m && 0 <= c < 1 ensures EntrySolved(f, Zero(m), i, c, m, 1) {
      DotWithZero(f[i].a, m, i + 1);
    }
    BackSolves(f, Zero(m), jordan, m, 1);
    forall z | Solves(Homogeneous(s), z, m, 1) ensures z == Zero(m) {
      ExactSolves(h, Homogeneous(s), jordan, m, z, m, 1);
    }
  }

  // ----- a run that stops at a zero column -----

  /** What is mapped to zero by the rows from `i` on: 1 in row `j`, and nothing behind it. */
  ghost predicate KernelFrom(s: seq<Row>, z: seq<seq<real>>, i: nat, j: nat, m: nat, n: nat)
    requires Shaped(s, m, n)
  {
    && IsMatrix(z, m, 1) && i <= j < m && z[j] == [1.0] && (forall l | j < l < m :: z[l] == [0.0])
    && forall r | i <= r < m :: Dot(s[r].a, z, 0, 0, m) == 0.0
  }

  lemma {:induction false} DotZeroEnd(row: seq<real>, z: seq<seq<real>>, m: nat, lo: nat)
    requires lo <= m == |row| && IsMatrix(z, m, 1) && forall l | lo <= l < m :: z[l] == [0.0]
    ensures Dot(row, z, 0, lo, m) == 0.0
    decreases m - lo
  {
    if lo < m {
      DotZeroEnd(row, z, m, lo + 1);
    }
  }

  /** The rows from `j` on have nothing in the first columns, and `z` has nothing behind them. */
  lemma KernelBegins(s: seq<Row>, j: nat, jordan: bool, m: nat, n: nat) returns (z: seq<seq<real>>)
    requires Triangular(s, j, jordan, m, n) && ZeroColumn(s, j, m, n)
    ensures KernelFrom(s, z, j, j, m, n)
  {
    z := Zero(m)[j := [1.0]];
    forall r | j <= r < m ensures Dot(s[r].a, z, 0, 0, m) == 0.0 {
      forall c | 0 <= c < j ensures s[r].a[c] == 0.0 {
        assert EntryCleared(s, c, r, jordan);
      }
      DotSplit(s[r].a, z, 0, 0, j, m);
      DotZero(s[r].a, z, 0, 0, j);
      DotZeroEnd(s[r].a, z, m, j + 1);
    }
  }

  /** Row `i` determines entry `i`, which the later rows do not see. */
  lemma KernelStep(s: seq<Row>, z: seq<seq<real>>, i: nat, j: nat, jordan: bool, m: nat, n: nat) returns (z': seq<seq<real>>)
    requires Triangular(s, j, jordan, m, n) && 0 < i && KernelFrom(s, z, i, j, m, n)
    ensures KernelFrom(s, z', i - 1, j, m, n)
  {
    var q := i - 1;
    var p, rest := s[q].a[q], Dot(s[q].a, z, 0, i, m);
    assert EntryCleared(s, q, q, jordan);
    z' := z[q := [Quotient(-rest, p)]];
    forall r | q <= r < m ensures Dot(s[r].a, z', 0, 0, m) == 0.0 {
      RowSeesFrom(s, z, z', q, r, j, jordan, m, n);
      if r == q {
        TimesQuotient(-rest, p);
      }
    }
  }

  lemma RowSeesFrom(s: seq<Row>, z: seq<seq<real>>, z': seq<seq<real>>, q: nat, r: nat, j: nat, jordan: bool, m: nat, n: nat)
    requires Triangular(s, j, jordan, m, n) && q < j <= m && q <= r < m && IsMatrix(z, m, 1) && IsMatrix(z', m, 1)
    requires forall l | 0 <= l < m && l != q :: z'[l] == z[l]
    ensures Dot(s[r].a, z', 0, 0, m) == s[r].a[q] * z'[q][0] + Dot(s[r].a, z, 0, q + 1, m)
    ensures r > q ==> Dot(s[r].a, z', 0, 0, m) == Dot(s[r].a, z, 0, 0, m)
  {
    hide Dot, Triangular;
    NothingBefore(s, q, r, j, jordan, m, n);
    DotFrom(s[r].a, z', q, m);
    DotFrom(s[r].a, z, q, m);
    DotSame(s[r].a, z', z, 0, q + 1, m);
  }

  lemma NothingBefore(s: seq<Row>, q: nat, r: nat, j: nat, jordan: bool, m: nat, n: nat)
    requires Triangular(s, j, jordan, m, n) && q < j <= m && q <= r < m
    ensures |s| == m && |s[r].a| == m && (forall c | 0 <= c < q :: s[r].a[c] == 0.0) && (r > q ==> s[r].a[q] == 0.0)
  {
    forall c | 0 <= c <= q && c < r ensures s[r].a[c] == 0.0 {
      assert EntryCleared(s, c, r, jordan);
    }
  }

  lemma DotFrom(row: seq<real>, z: seq<seq<real>>, q: nat, m: nat)
    requires q < m == |row| && IsMatrix(z, m, 1) && forall c | 0 <= c < q :: row[c] == 0.0
    ensures Dot(row, z, 0, 0, m) == row[q] * z[q][0] + Dot(row, z, 0, q + 1, m)
  {
    hide Dot;
    DotSplit(row, z, 0, 0, q, m);
    DotZero(row, z, 0, 0, q);
    DotOpen(row, z, q, m);
  }

  lemma DotOpen(row: seq<real>, z: seq<seq<real>>, q: nat, m: nat)
    requires q < m == |row| && IsMatrix(z, m, 1)
    ensures Dot(row, z, 0, q, m) == row[q] * z[q][0] + Dot(row, z, 0, q + 1, m)
  {
  }

  lemma {:induction false} KernelOf(s: seq<Row>, i: nat, j: nat, jordan: bool, m: nat, n: nat) returns (z: seq<seq<real>>)
    requires Triangular(s, j, jordan, m, n) && ZeroColumn(s, j, m, n) && i <= j
    ensures KernelFrom(s, z, i, j, m, n)
    decreases j - i
  {
    if i == j {
      z := KernelBegins(s, j, jordan, m, n);
    } else {
      var y := KernelOf(s, i + 1, j, jordan, m, n);
      z := KernelStep(s, y, i + 1, j, jordan, m, n);
    }
  }

  lemma ZeroColumnIsSingular(run: seq<seq<Row>>, s: seq<Row>, jordan: bool, j: nat, m: nat, n: nat)
    requires ExactSteps(run, s, jordan, m, n) && |run| == j + 1 <= m && ZeroColumn(run[j], j, m, n)
    ensures !NonSingular(s, m, n)
  {
    var h := Homogeneouses(run);
    HomogeneousSteps(run, s, jordan, m, n);
    ExactTriangular(run, s, jordan, j, m, n);
    var z := KernelOf(run[j], 0, j, jordan, m, n);
    forall i | 0 <= i < m ensures Satisfies(h[j][i], z, m, 1) {
      assert Dot(run[j][i].a, z, 0, 0, m) == 0.0;
    }
    ExactSolves(h, Homogeneous(s), jordan, j, z, m, 1);
    assert z[j] != Zero(m)[j];
  }

  /** Exact elimination goes through all columns if and only if the matrix is non-singular. */
  lemma ExactDecides(run: seq<seq<Row>>, s: seq<Row>, jordan: bool, full: bool, m: nat, n: nat)
    requires Exact(run, s, jordan, full, m, n)
    ensures full <==> NonSingular(s, m, n)
  {
    if full {
      FullIsNonSingular(run, s, jordan, m, n);
    } else {
      ZeroColumnIsSingular(run, s, jordan, |run| - 1, m, n);
    }
  }

  // ----- exact elimination and the elimination of the code -----

  /** There is exact elimination of every system. */
  lemma ExactExists(s: seq<Row>, jordan: bool, m: nat, n: nat) returns (run: seq<seq<Row>>, full: bool)
    requires Shaped(s, m, n)
    ensures Exact(run, s, jordan, full, m, n)
  {
    run, full := ExactFrom([s], s, jordan, m, n);
  }

  lemma {:induction false} ExactFrom(run: seq<seq<Row>>, s: seq<Row>, jordan: bool, m: nat, n: nat) returns (run': seq<seq<Row>>, full: bool)
    requires ExactSteps(run, s, jordan, m, n)
    ensures Exact(run', s, jordan, full, m, n)
    decreases m + 1 - |run|
  {
    hide Eliminated, ZeroColumn;
    var j := |run| - 1;
    run', full := run, j == m;
    if j < m {
      ExactTriangular(run, s, jordan, j, m, n);
      var k := PivotExists(run[j], j, m, n);
      if run[j][k].a[j] == 0.0 {
        PivotZero(run[j], j, k, m, n);
      } else {
        var t := EliminatedExists(run[j], j, k, jordan, m, n);
        run', full := ExactFrom(run + [t], s, jordan, m, n);
      }
    }
  }

  lemma PivotExists(s: seq<Row>, j: nat, m: nat, n: nat) returns (k: nat)
    requires Shaped(s, m, n) && j < m
    ensures IsPivot(s, j, k, m, n)
  {
    k := j;
    for i := j to m
      invariant j <= k < m && (i > j ==> k < i) && (i == j ==> k == j)
      invariant forall l | j <= l < k :: Abs(s[l].a[j]) < Abs(s[k].a[j])
      invariant forall l | k <= l < i :: Abs(s[l].a[j]) <= Abs(s[k].a[j])
    {
      if Abs(s[i].a[j]) > Abs(s[k].a[j]) {
        k := i;
      }
    }
  }

  /** The code gives up at column `j` exactly if all its entries from row `j` on lie between -0.00000000001 and 0.00000000001. */
  lemma StuckIff(s: seq<Row>, j: nat, m: nat, n: nat)
    requires Shaped(s, m, n) && j < m
    ensures Stuck(s, j, m, n) <==> forall i | j <= i < m :: -0.00000000001 < s[i].a[j] < 0.00000000001
  {
    var k := PivotExists(s, j, m, n);
    if Stuck(s, j, m, n) {
      var l: nat :| IsPivot(s, j, l, m, n) && Abs(s[l].a[j]) < EPSILON;
      PivotUnique(s, j, k, l, m, n);
      forall i | j <= i < m ensures -0.00000000001 < s[i].a[j] < 0.00000000001 {
        assert Abs(s[i].a[j]) <= Abs(s[k].a[j]);
      }
    }
  }

  lemma PivotZero(s: seq<Row>, j: nat, k: nat, m: nat, n: nat)
    requires Shaped(s, m, n) && j < m && IsPivot(s, j, k, m, n)
    ensures s[k].a[j] == 0.0 <==> ZeroColumn(s, j, m, n)
  {
  }

  lemma EliminatedExists(s: seq<Row>, j: nat, k: nat, jordan: bool, m: nat, n: nat) returns (t: seq<Row>)
    requires Shaped(s, m, n) && j < m && IsPivot(s, j, k, m, n) && s[k].a[j] != 0.0
    ensures Eliminated(s, t, j, k, jordan, m, n)
  {
    var w := Swapped(s, j, k);
    t := seq(m, i requires 0 <= i < m => ClearedRow(w, j, if jordan then 0 else j + 1, i));
  }

  /** The pivots are determined, and so is what comes behind them. */
  lemma ContinuesOnce(s: seq<Row>, t: seq<Row>, t': seq<Row>, j: nat, jordan: bool, m: nat, n: nat)
    requires Continues(s, t, j, jordan, m, n) && Continues(s, t', j, jordan, m, n)
    ensures t == t'
  {
    var k: nat :| Eliminated(s, t, j, k, jordan, m, n);
    var k': nat :| Eliminated(s, t', j, k', jordan, m, n);
    PivotUnique(s, j, k, k', m, n);
    var w, from := Swapped(s, j, k), if jordan then 0 else j + 1;
    forall i | 0 <= i < m ensures t[i] == t'[i] {
      assert t[i] == ClearedRow(w, j, from, i) == t'[i];
    }
  }

  /** The greatest entry of column `j` from row `j` on is not too small. */
  ghost predicate LargePivot(s: seq<Row>, j: nat, m: nat, n: nat) {
    Shaped(s, m, n) && j < m && exists k: nat :: IsPivot(s, j, k, m, n) && Abs(s[k].a[j]) >= EPSILON
  }

  ghost predicate AllLarge(run: seq<seq<Row>>, m: nat, n: nat) {
    forall j: nat | j < |run| - 1 :: LargePivot(run[j], j, m, n)
  }

  lemma StepsExact(run: seq<seq<Row>>, s: seq<Row>, jordan: bool, m: nat, n: nat)
    requires Steps(run, s, jordan, m, n)
    ensures ExactSteps(run, s, jordan, m, n) && AllLarge(run, m, n)
  {
    hide Eliminated;
    forall j: nat | j < |run| - 1 ensures Continues(run[j], run[j + 1], j, jordan, m, n) && LargePivot(run[j], j, m, n) {
      assert StepAt(run, j, jordan, m, n);
      var k: nat :| Step(run[j], run[j + 1], j, k, jordan, m, n);
      StepLarge(run[j], run[j + 1], j, k, jordan, m, n);
    }
  }

  lemma StepLarge(s: seq<Row>, t: seq<Row>, j: nat, k: nat, jordan: bool, m: nat, n: nat)
    requires Step(s, t, j, k, jordan, m, n)
    ensures LargePivot(s, j, m, n)
  {
  }

  /** The elimination of the code is the beginning of the exact one. */
  lemma {:induction false} SameSystems(run: seq<seq<Row>>, exact: seq<seq<Row>>, s: seq<Row>, jordan: bool, j: nat, m: nat, n: nat)
    requires ExactSteps(run, s, jordan, m, n) && ExactSteps(exact, s, jordan, m, n) && j < |run| && j < |exact|
    ensures run[j] == exact[j]
  {
    if j > 0 {
      SameSystems(run, exact, s, jordan, j - 1, m, n);
      assert Continues(run[j - 1], run[j - 1 + 1], j - 1, jordan, m, n);
      assert Continues(exact[j - 1], exact[j - 1 + 1], j - 1, jordan, m, n);
      ContinuesOnce(run[j - 1], run[j], exact[j], j - 1, jordan, m, n);
    }
  }

  lemma NotBehindZero(s: seq<Row>, t: seq<Row>, j: nat, jordan: bool, m: nat, n: nat)
    requires Continues(s, t, j, jordan, m, n)
    ensures !ZeroColumn(s, j, m, n)
  {
  }

  lemma NotStuckLarge(s: seq<Row>, j: nat, m: nat, n: nat)
    requires LargePivot(s, j, m, n)
    ensures !Stuck(s, j, m, n)
  {
    if Stuck(s, j, m, n) {
      var k: nat :| IsPivot(s, j, k, m, n) && Abs(s[k].a[j]) >= EPSILON;
      var k': nat :| IsPivot(s, j, k', m, n) && Abs(s[k'].a[j]) < EPSILON;
      PivotUnique(s, j, k, k', m, n);
    }
  }

  /** The code accepts a system if and only if exact elimination goes through all columns without a pivot that is too small. */
  lemma CodeDecides(run: seq<seq<Row>>, exact: seq<seq<Row>>, s: seq<Row>, jordan: bool, ok: bool, full: bool, m: nat, n: nat)
    requires Finished(run, s, jordan, ok, m, n) && Exact(exact, s, jordan, full, m, n)
    ensures ok <==> full && AllLarge(exact, m, n)
  {
    hide Continues, LargePivot, Stuck, ZeroColumn;
    StepsExact(run, s, jordan, m, n);
    var j := if |run| <= |exact| then |run| - 1 else |exact| - 1;
    SameSystems(run, exact, s, jordan, j, m, n);
    if ok {
      if !full {
        assert Continues(run[j], run[j + 1], j, jordan, m, n);
        NotBehindZero(run[j], run[j + 1], j, jordan, m, n);
      } else {
        forall i: nat | i < m ensures LargePivot(exact[i], i, m, n) {
          SameSystems(run, exact, s, jordan, i, m, n);
          assert LargePivot(run[i], i, m, n);
        }
      }
    } else if full && AllLarge(exact, m, n) {
      assert LargePivot(exact[j], j, m, n);
      NotStuckLarge(exact[j], j, m, n);
    }
  }

  /**
   * The documentation has the solvers return true if the matrix is non-singular. They tell non-singular matrices from
   * singular ones if and only if exact elimination does not go through all columns with a pivot that is too small.
   */
  lemma VerdictRightIff(exact: seq<seq<Row>>, s: seq<Row>, jordan: bool, ok: bool, full: bool, m: nat, n: nat)
    requires Shaped(s, m, n) && Verdict(s, jordan, ok, m, n) && Exact(exact, s, jordan, full, m, n)
    ensures (ok <==> NonSingular(s, m, n)) <==> !(full && !AllLarge(exact, m, n))
    ensures ok ==> NonSingular(s, m, n)
  {
    hide Exact, AllLarge, NonSingular;
    var run :| Finished(run, s, jordan, ok, m, n);
    CodeDecides(run, exact, s, jordan, ok, full, m, n);
    ExactDecides(exact, s, jordan, full, m, n);
  }

  /** The run of the code stops at a pivot that is not zero. */
  ghost predicate StopsSmall(run: seq<seq<Row>>, m: nat, n: nat) {
    run != [] && Stuck(run[|run| - 1], |run| - 1, m, n) && !ZeroColumn(run[|run| - 1], |run| - 1, m, n)
  }

  /**
   * In terms of the run of the code: when it does not stop at a small pivot that is not zero its verdict is right; when
   * it does, the verdict is right if and only if the matrix is singular all the same.
   */
  lemma VerdictOfRun(run: seq<seq<Row>>, s: seq<Row>, jordan: bool, ok: bool, m: nat, n: nat)
    requires Finished(run, s, jordan, ok, m, n)
    ensures !StopsSmall(run, m, n) || ok ==> (ok <==> NonSingular(s, m, n))
    ensures StopsSmall(run, m, n) && !ok ==> ((ok <==> NonSingular(s, m, n)) <==> !NonSingular(s, m, n))
  {
    hide NonSingular;
    StepsExact(run, s, jordan, m, n);
    if ok {
      FullIsNonSingular(run, s, jordan, m, n);
    } else if !StopsSmall(run, m, n) {
      ZeroColumnIsSingular(run, s, jordan, |run| - 1, m, n);
    }
  }

  /** Both happen: a small pivot in a non-singular matrix .. */
  lemma SmallButNonSingular(s: seq<Row>, p: real, jordan: bool)
    requires s == [Row([p], [0.0])] && 0.0 < p < EPSILON
    ensures Finished([s], s, jordan, false, 1, 1) && StopsSmall([s], 1, 1) && NonSingular(s, 1, 1)
  {
    assert IsPivot(s, 0, 0, 1, 1);
    OneSolution(s, p, 0.0, jordan);
    assert Homogeneous(s) == s;
    forall z | Solves(Homogeneous(s), z, 1, 1) ensures z == Zero(1) {
      assert z == [[0.0 / p]];
    }
  }

  /** .. and one in front of a column of zeros. */
  lemma SmallAndSingular(s: seq<Row>, p: real, jordan: bool)
    requires s == [Row([p, 0.0], [0.0]), Row([0.0, 0.0], [0.0])] && 0.0 < p < EPSILON
    ensures Finished([s], s, jordan, false, 2, 1) && StopsSmall([s], 2, 1) && !NonSingular(s, 2, 1)
  {
    assert IsPivot(s, 0, 0, 2, 1);
    IsSingular(s, p);
  }

  lemma IsSingular(s: seq<Row>, p: real)
    requires s == [Row([p, 0.0], [0.0]), Row([0.0, 0.0], [0.0])]
    ensures Shaped(s, 2, 1) && !NonSingular(s, 2, 1)
  {
    hide Solves;
    var z := [[0.0], [1.0]];
    MapsToZero(s, p, z);
    assert z[1] != Zero(2)[1];
  }

  lemma MapsToZero(s: seq<Row>, p: real, z: seq<seq<real>>)
    requires s == [Row([p, 0.0], [0.0]), Row([0.0, 0.0], [0.0])] && z == [[0.0], [1.0]]
    ensures Solves(Homogeneous(s), z, 2, 1)
  {
    var h := Homogeneous(s);
    forall i | 0 <= i < 2 ensures Satisfies(h[i], z, 2, 1) {
      DotOpen(h[i].a, z, 0, 2);
      DotOpen(h[i].a, z, 1, 2);
    }
  }
}
