/** Systems of linear equations over the reals, and what row operations do to their solutions. */
module LinearSystem {

  /** One equation for every right-hand side: a row of the matrix and the row of right-hand sides. */
  datatype Row = Row(a: seq<real>, b: seq<real>)

  ghost predicate Shaped(s: seq<Row>, m: nat, n: nat) {
    |s| == m && forall i | 0 <= i < m :: |s[i].a| == m && |s[i].b| == n
  }

  ghost predicate IsMatrix(x: seq<seq<real>>, m: nat, n: nat) {
    |x| == m && forall i | 0 <= i < m :: |x[i]| == n
  }

  /** `row[lo] * x[lo][c] + .. + row[hi - 1] * x[hi - 1][c]` */
  ghost function Dot(row: seq<real>, x: seq<seq<real>>, c: nat, lo: nat, hi: nat): real
    requires hi <= |row| && hi <= |x| && forall i | lo <= i < hi :: c < |x[i]|
    decreases hi - lo
  {
    if hi <= lo then 0.0 else row[lo] * x[lo][c] + Dot(row, x, c, lo + 1, hi)
  }

  /** `x` satisfies the equations of a row. */
  ghost predicate Satisfies(r: Row, x: seq<seq<real>>, m: nat, n: nat)
    requires |r.a| == m && |r.b| == n && IsMatrix(x, m, n)
  {
    forall c | 0 <= c < n :: Dot(r.a, x, c, 0, m) == r.b[c]
  }

  ghost predicate Solves(s: seq<Row>, x: seq<seq<real>>, m: nat, n: nat)
    requires Shaped(s, m, n)
  {
    IsMatrix(x, m, n) && forall i | 0 <= i < m :: Satisfies(s[i], x, m, n)
  }

  // ----- row operations -----

  /** `x + alpha * y` */
  ghost function AddTimes(x: seq<real>, y: seq<real>, alpha: real): (r: seq<real>)
    requires |x| == |y|
    ensures |r| == |x| && forall c | 0 <= c < |x| :: r[c] == x[c] + y[c] * alpha
  {
    seq(|x|, c requires 0 <= c < |x| => x[c] + y[c] * alpha)
  }

  ghost function AddRow(r: Row, p: Row, alpha: real): Row
    requires |r.a| == |p.a| && |r.b| == |p.b|
  {
    Row(AddTimes(r.a, p.a, alpha), AddTimes(r.b, p.b, alpha))
  }

  lemma {:induction false} DotAddTimes(x: seq<real>, y: seq<real>, alpha: real, z: seq<seq<real>>, c: nat, lo: nat, hi: nat)
    requires |x| == |y| && hi <= |x| && hi <= |z| && forall i | lo <= i < hi :: c < |z[i]|
    ensures Dot(AddTimes(x, y, alpha), z, c, lo, hi) == Dot(x, z, c, lo, hi) + alpha * Dot(y, z, c, lo, hi)
    decreases hi - lo
  {
    if lo < hi {
      DotAddTimes(x, y, alpha, z, c, lo + 1, hi);
      var t := Dot(y, z, c, lo + 1, hi);
      Distribute(x[lo], y[lo], alpha, z[lo][c], t);
    }
  }

  lemma Distribute(x: real, y: real, alpha: real, z: real, t: real)
    ensures (x + y * alpha) * z == x * z + alpha * (y * z)
    ensures alpha * (y * z + t) == alpha * (y * z) + alpha * t
  {
  }

  /** Adding a multiple of a row that is satisfied changes nothing about another row. */
  lemma AddRowSatisfied(r: Row, p: Row, alpha: real, x: seq<seq<real>>, m: nat, n: nat)
    requires |r.a| == |p.a| == m && |r.b| == |p.b| == n && IsMatrix(x, m, n) && Satisfies(p, x, m, n)
    ensures Satisfies(AddRow(r, p, alpha), x, m, n) <==> Satisfies(r, x, m, n)
  {
    forall c | 0 <= c < n
      ensures Dot(AddRow(r, p, alpha).a, x, c, 0, m) == AddRow(r, p, alpha).b[c] <==> Dot(r.a, x, c, 0, m) == r.b[c]
    {
      DotAddTimes(r.a, p.a, alpha, x, c, 0, m);
      assert Dot(p.a, x, c, 0, m) == p.b[c];
    }
  }

  ghost function Swapped(s: seq<Row>, j: nat, k: nat): (r: seq<Row>)
    requires j < |s| && k < |s|
    ensures |r| == |s| && r[j] == s[k] && r[k] == s[j]
    ensures forall i | 0 <= i < |s| && i != j && i != k :: r[i] == s[i]
  {
    s[j := s[k]][k := s[j]]
  }

  lemma SwappedSolves(s: seq<Row>, j: nat, k: nat, x: seq<seq<real>>, m: nat, n: nat)
    requires Shaped(s, m, n) && j < m && k < m
    ensures Shaped(Swapped(s, j, k), m, n)
    ensures Solves(Swapped(s, j, k), x, m, n) <==> Solves(s, x, m, n)
  {
    var t := Swapped(s, j, k);
    if IsMatrix(x, m, n) {
      forall i | 0 <= i < m ensures exists l :: 0 <= l < m && t[l] == s[i] {
        var l := if i == j then k else if i == k then j else i;
        assert t[l] == s[i];
      }
    }
  }

  /** The factor that clears the entry `x` with the pivot `p`. */
  ghost function Factor(x: real, p: real): real
    requires p != 0.0
  {
    -x / p
  }

  lemma Cancels(x: real, p: real)
    requires p != 0.0
    ensures x + p * Factor(x, p) == 0.0
  {
    assert p * (-x / p) == -x;
  }

  /** Row `k` behind clearing column `j` in the rows from `from` on. */
  ghost function ClearedRow(s: seq<Row>, j: nat, from: nat, k: nat): Row
    requires j < |s| && k < |s| && |s[k].a| == |s[j].a| > j && |s[k].b| == |s[j].b| && s[j].a[j] != 0.0
  {
    if k == j || k < from then s[k] else AddRow(s[k], s[j], Factor(s[k].a[j], s[j].a[j]))
  }

  /** Column `j` is cleared in the rows from `from` on, except in row `j` itself. */
  ghost predicate Cleared(s: seq<Row>, t: seq<Row>, j: nat, from: nat, upto: nat, m: nat, n: nat) {
    && Shaped(s, m, n) && Shaped(t, m, n) && j < m && upto <= m && s[j].a[j] != 0.0
    && (forall k | 0 <= k < upto :: t[k] == ClearedRow(s, j, from, k))
    && (forall k | upto <= k < m :: t[k] == s[k])
  }

  lemma ClearedSolves(s: seq<Row>, t: seq<Row>, j: nat, from: nat, x: seq<seq<real>>, m: nat, n: nat)
    requires Cleared(s, t, j, from, m, m, n)
    ensures Solves(t, x, m, n) <==> Solves(s, x, m, n)
  {
    if IsMatrix(x, m, n) {
      assert t[j] == s[j];
      if Satisfies(s[j], x, m, n) {
        forall k | 0 <= k < m ensures Satisfies(t[k], x, m, n) <==> Satisfies(s[k], x, m, n) {
          if k != j && k >= from {
            AddRowSatisfied(s[k], s[j], Factor(s[k].a[j], s[j].a[j]), x, m, n);
          }
        }
      }
    }
  }

  // ----- elimination -----

  function Abs(x: real): (r: real)
    ensures r >= 0.0 && (r == x || r == -x)
  {
    if x < 0.0 then -x else x
  }

  /** `epsilon` */
  const EPSILON: real := 0.00000000001

  /** `k` is the first of the rows from `j` on whose entry in column `j` has the greatest absolute value. */
  ghost predicate IsPivot(s: seq<Row>, j: nat, k: nat, m: nat, n: nat)
    requires Shaped(s, m, n) && j < m
  {
    && j <= k < m
    && (forall i | j <= i < k :: Abs(s[i].a[j]) < Abs(s[k].a[j]))
    && (forall i | k <= i < m :: Abs(s[i].a[j]) <= Abs(s[k].a[j]))
  }

  /** One column of elimination: with the pivot of column `j` swapped into row `j`, the column is cleared. */
  ghost predicate Eliminated(s: seq<Row>, t: seq<Row>, j: nat, k: nat, jordan: bool, m: nat, n: nat) {
    && Shaped(s, m, n) && j < m && IsPivot(s, j, k, m, n) && s[k].a[j] != 0.0
    && Cleared(Swapped(s, j, k), t, j, if jordan then 0 else j + 1, m, m, n)
  }

  /** The code does so if the pivot is not too small. */
  ghost predicate Step(s: seq<Row>, t: seq<Row>, j: nat, k: nat, jordan: bool, m: nat, n: nat) {
    Eliminated(s, t, j, k, jordan, m, n) && Abs(s[k].a[j]) >= EPSILON
  }

  /** The systems behind column 0, 1, .., of which the first is `s`. */
  ghost predicate Steps(run: seq<seq<Row>>, s: seq<Row>, jordan: bool, m: nat, n: nat) {
    && Shaped(s, m, n) && run != [] && run[0] == s && |run| <= m + 1
    && forall j | 0 <= j < |run| - 1 :: StepAt(run, j, jordan, m, n)
  }

  ghost predicate StepAt(run: seq<seq<Row>>, j: nat, jordan: bool, m: nat, n: nat)
    requires j + 1 < |run|
  {
    StepTo(run[j], run[j + 1], j, jordan, m, n)
  }

  ghost predicate StepTo(s: seq<Row>, t: seq<Row>, j: nat, jordan: bool, m: nat, n: nat) {
    exists k: nat :: Step(s, t, j, k, jordan, m, n)
  }

  /** The pivot of the next column is too small. */
  ghost predicate Stuck(s: seq<Row>, j: nat, m: nat, n: nat) {
    && Shaped(s, m, n) && j < m
    && exists k: nat :: IsPivot(s, j, k, m, n) && Abs(s[k].a[j]) < EPSILON
  }

  lemma PivotUnique(s: seq<Row>, j: nat, k: nat, k': nat, m: nat, n: nat)
    requires Shaped(s, m, n) && j < m && IsPivot(s, j, k, m, n) && IsPivot(s, j, k', m, n)
    ensures k == k'
  {
    var row, row' := s[k], s[k'];
    assert Abs(row.a[j]) <= Abs(row'.a[j]) <= Abs(row.a[j]);
  }

  /** Elimination keeps the solutions. */
  lemma StepSolves(s: seq<Row>, t: seq<Row>, j: nat, k: nat, jordan: bool, x: seq<seq<real>>, m: nat, n: nat)
    requires Eliminated(s, t, j, k, jordan, m, n)
    ensures Solves(t, x, m, n) <==> Solves(s, x, m, n)
  {
    SwappedSolves(s, j, k, x, m, n);
    ClearedSolves(Swapped(s, j, k), t, j, if jordan then 0 else j + 1, x, m, n);
  }

  lemma {:induction false} StepsSolve(run: seq<seq<Row>>, s: seq<Row>, jordan: bool, j: nat, x: seq<seq<real>>, m: nat, n: nat)
    requires Steps(run, s, jordan, m, n) && j < |run|
    ensures Shaped(run[j], m, n) && (Solves(run[j], x, m, n) <==> Solves(s, x, m, n))
  {
    if j > 0 {
      StepsSolve(run, s, jordan, j - 1, x, m, n);
      assert StepAt(run, j - 1, jordan, m, n);
      var k: nat :| Step(run[j - 1], run[j], j - 1, k, jordan, m, n);
      StepSolves(run[j - 1], run[j], j - 1, k, jordan, x, m, n);
    }
  }

  /** In the first `j` columns nothing but the diagonal is left: below it, or, when `jordan`, on both sides of it. */
  ghost predicate Triangular(s: seq<Row>, j: nat, jordan: bool, m: nat, n: nat) {
    && Shaped(s, m, n) && j <= m
    && forall c, i | 0 <= c < j && 0 <= i < m :: EntryCleared(s, c, i, jordan)
  }

  ghost predicate EntryCleared(s: seq<Row>, c: nat, i: nat, jordan: bool)
    requires i < |s| && c < |s[i].a|
  {
    && (i == c ==> s[i].a[c] != 0.0)
    && (i > c || (jordan && i < c) ==> s[i].a[c] == 0.0)
  }

  lemma StepTriangular(s: seq<Row>, t: seq<Row>, j: nat, k: nat, jordan: bool, m: nat, n: nat)
    requires Eliminated(s, t, j, k, jordan, m, n) && Triangular(s, j, jordan, m, n)
    ensures Triangular(t, j + 1, jordan, m, n)
  {
    hide ClearedRow, Cleared;
    var w, from := Swapped(s, j, k), if jordan then 0 else j + 1;
    ClearedEntry(w, t, j, from, j, j, m, n);
    forall c, i | 0 <= c < j + 1 && 0 <= i < m ensures EntryCleared(t, c, i, jordan) {
      ClearedEntry(w, t, j, from, c, i, m, n);
      if c < j {
        assert EntryCleared(s, c, i, jordan) && EntryCleared(s, c, j, jordan) && EntryCleared(s, c, k, jordan);
        assert w[j].a[c] == 0.0;
        assert w[i].a[c] == s[i].a[c];
      }
    }
  }

  /** An entry behind clearing column `j`. */
  lemma ClearedEntry(s: seq<Row>, t: seq<Row>, j: nat, from: nat, c: nat, i: nat, m: nat, n: nat)
    requires Cleared(s, t, j, from, m, m, n) && c < m && i < m
    ensures Shaped(s, m, n) && Shaped(t, m, n) && j < m && s[j].a[j] != 0.0
    ensures i == j || i < from || s[j].a[c] == 0.0 ==> t[i].a[c] == s[i].a[c]
    ensures i != j && i >= from && c == j ==> t[i].a[c] == 0.0
  {
    assert t[i] == ClearedRow(s, j, from, i);
    if i != j && i >= from {
      Cancels(s[i].a[j], s[j].a[j]);
    }
  }

  lemma {:induction false} StepsTriangular(run: seq<seq<Row>>, s: seq<Row>, jordan: bool, j: nat, m: nat, n: nat)
    requires Steps(run, s, jordan, m, n) && j < |run|
    ensures Triangular(run[j], j, jordan, m, n)
  {
    if j > 0 {
      StepsTriangular(run, s, jordan, j - 1, m, n);
      assert StepAt(run, j - 1, jordan, m, n);
      var k: nat :| Step(run[j - 1], run[j], j - 1, k, jordan, m, n);
      StepTriangular(run[j - 1], run[j], j - 1, k, jordan, m, n);
    }
  }

  /** Both eliminations have the same rows from `j` on. */
  ghost predicate SameFrom(s: seq<Row>, t: seq<Row>, j: nat) {
    |s| == |t| && forall i | j <= i < |s| :: s[i] == t[i]
  }

  lemma StepSame(s: seq<Row>, t: seq<Row>, s': seq<Row>, t': seq<Row>, j: nat, k: nat, k': nat, m: nat, n: nat)
    requires Step(s, t, j, k, false, m, n) && Step(s', t', j, k', true, m, n) && SameFrom(s, s', j)
    ensures k == k' && SameFrom(t, t', j + 1)
  {
    PivotOfSame(s, s', j, k, k', m, n);
    forall i | j + 1 <= i < m ensures t[i] == t'[i] {
      assert Swapped(s, j, k)[i] == Swapped(s', j, k)[i] && Swapped(s, j, k)[j] == Swapped(s', j, k)[j];
    }
  }

  lemma PivotOfSame(s: seq<Row>, s': seq<Row>, j: nat, k: nat, k': nat, m: nat, n: nat)
    requires Shaped(s, m, n) && Shaped(s', m, n) && j < m && IsPivot(s, j, k, m, n) && IsPivot(s', j, k', m, n) && SameFrom(s, s', j)
    ensures k == k' && s[k] == s'[k']
  {
    assert IsPivot(s', j, k, m, n);
    PivotUnique(s', j, k, k', m, n);
  }

  lemma {:induction false} StepsSame(run: seq<seq<Row>>, run': seq<seq<Row>>, s: seq<Row>, j: nat, m: nat, n: nat)
    requires Steps(run, s, false, m, n) && Steps(run', s, true, m, n) && j < |run| && j < |run'|
    ensures Shaped(run[j], m, n) && Shaped(run'[j], m, n) && SameFrom(run[j], run'[j], j)
  {
    if j > 0 {
      StepsSame(run, run', s, j - 1, m, n);
      assert StepAt(run, j - 1, false, m, n) && StepAt(run', j - 1, true, m, n);
      var k: nat :| Step(run[j - 1], run[j], j - 1, k, false, m, n);
      var k': nat :| Step(run'[j - 1], run'[j], j - 1, k', true, m, n);
      StepSame(run[j - 1], run[j], run'[j - 1], run'[j], j - 1, k, k', m, n);
    }
  }

  /** A run goes as far as it can: through all columns, or up to a pivot that is too small. */
  ghost predicate Finished(run: seq<seq<Row>>, s: seq<Row>, jordan: bool, ok: bool, m: nat, n: nat) {
    && Steps(run, s, jordan, m, n)
    && (ok ==> |run| == m + 1)
    && (!ok ==> |run| <= m && Stuck(run[|run| - 1], |run| - 1, m, n))
  }

  /** With the same rows from `j` on, a pivot that is too small in one system is so in the other. */
  lemma StuckPivot(s: seq<Row>, s': seq<Row>, j: nat, k: nat, m: nat, n: nat)
    requires Shaped(s, m, n) && j < m && IsPivot(s, j, k, m, n) && Stuck(s', j, m, n) && SameFrom(s, s', j)
    ensures Abs(s[k].a[j]) < EPSILON
  {
    var k': nat :| IsPivot(s', j, k', m, n) && Abs(s'[k'].a[j]) < EPSILON;
    PivotOfSame(s, s', j, k, k', m, n);
  }

  lemma NotStuckAt(run: seq<seq<Row>>, run': seq<seq<Row>>, s: seq<Row>, jordan: bool, m: nat, n: nat)
    requires Steps(run, s, jordan, m, n) && Finished(run', s, !jordan, false, m, n)
    ensures |run| <= |run'|
  {
    var j := |run'| - 1;
    if j + 1 < |run| {
      SameAt(run, run', s, jordan, j, m, n);
      assert StepAt(run, j, jordan, m, n);
      var k: nat :| Step(run[j], run[j + 1], j, k, jordan, m, n);
      StuckPivot(run[j], run'[j], j, k, m, n);
    }
  }

  lemma SameAt(run: seq<seq<Row>>, run': seq<seq<Row>>, s: seq<Row>, jordan: bool, j: nat, m: nat, n: nat)
    requires Steps(run, s, jordan, m, n) && Steps(run', s, !jordan, m, n) && j < |run| && j < |run'|
    ensures Shaped(run[j], m, n) && Shaped(run'[j], m, n) && SameFrom(run[j], run'[j], j)
  {
    if jordan {
      StepsSame(run', run, s, j, m, n);
    } else {
      StepsSame(run, run', s, j, m, n);
    }
  }

  /** Gauss and Gauss-Jordan elimination succeed or fail on the same systems. */
  lemma SameVerdict(run: seq<seq<Row>>, run': seq<seq<Row>>, s: seq<Row>, ok: bool, ok': bool, m: nat, n: nat)
    requires Finished(run, s, false, ok, m, n) && Finished(run', s, true, ok', m, n)
    ensures ok == ok' && |run| == |run'|
  {
    if !ok {
      NotStuckAt(run', run, s, true, m, n);
    }
    if !ok' {
      NotStuckAt(run, run', s, false, m, n);
    }
  }

  // ----- the same, told from the entries alone -----

  /** With a column that is 1 in row `k` and 0 elsewhere the product is entry `k`. */
  lemma {:induction false} DotUnit(row: seq<real>, x: seq<seq<real>>, c: nat, lo: nat, hi: nat, k: nat)
    requires lo <= k < hi <= |row| && hi <= |x| && (forall i | lo <= i < hi :: c < |x[i]|)
    requires x[k][c] == 1.0 && forall i | lo <= i < hi && i != k :: x[i][c] == 0.0
    ensures Dot(row, x, c, lo, hi) == row[k]
    decreases hi - lo
  {
    if lo < k {
      DotUnit(row, x, c, lo + 1, hi, k);
    } else {
      DotNothing(row, x, c, lo + 1, hi);
    }
  }

  lemma {:induction false} DotNothing(row: seq<real>, x: seq<seq<real>>, c: nat, lo: nat, hi: nat)
    requires lo <= hi <= |row| && hi <= |x| && forall i | lo <= i < hi :: c < |x[i]| && x[i][c] == 0.0
    ensures Dot(row, x, c, lo, hi) == 0.0
    decreases hi - lo
  {
    if lo < hi {
      DotNothing(row, x, c, lo + 1, hi);
    }
  }

  /** `x` is between `-y` and `y`. */
  ghost predicate Within(x: real, y: real) { -y <= x <= y || y <= x <= -y }
  ghost predicate StrictlyWithin(x: real, y: real) { -y < x < y || y < x < -y }

  /** The pivot is the first entry of its column, from its row on, that all others there are within. */
  lemma PivotIff(s: seq<Row>, j: nat, k: nat, m: nat, n: nat)
    requires Shaped(s, m, n) && j < m
    ensures IsPivot(s, j, k, m, n) <==>
      && j <= k < m && (forall i | j <= i < m :: Within(s[i].a[j], s[k].a[j]))
      && (forall i | j <= i < k :: StrictlyWithin(s[i].a[j], s[k].a[j]))
  {
    if j <= k < m {
      forall i | j <= i < m
        ensures Abs(s[i].a[j]) <= Abs(s[k].a[j]) <==> Within(s[i].a[j], s[k].a[j])
        ensures Abs(s[i].a[j]) < Abs(s[k].a[j]) <==> StrictlyWithin(s[i].a[j], s[k].a[j])
      {
      }
    }
  }

  /** Row `i` when the rows `j` and `k` have changed places. */
  ghost function Exchanged(s: seq<Row>, j: nat, k: nat, i: nat): Row
    requires j < |s| && k < |s| && i < |s|
  {
    if i == j then s[k] else if i == k then s[j] else s[i]
  }

  /** `t` is `r` less the multiple of `p` that clears entry `j`. */
  ghost predicate LessMultiple(r: Row, p: Row, t: Row, j: nat)
    requires |r.a| == |p.a| == |t.a| && |r.b| == |p.b| == |t.b| && j < |r.a|
  {
    && (forall c | 0 <= c < |r.a| :: t.a[c] * p.a[j] == r.a[c] * p.a[j] - r.a[j] * p.a[c])
    && (forall c | 0 <= c < |r.b| :: t.b[c] * p.a[j] == r.b[c] * p.a[j] - r.a[j] * p.b[c])
  }

  /**
   * One step of the code: its pivot is not between -0.00000000001 and 0.00000000001 and comes to row `j`; the multiple of that
   * row that clears column `j` is taken from the rows behind it, by Gauss and Jordan from those in front of it as well.
   */
  lemma StepIs(s: seq<Row>, t: seq<Row>, j: nat, k: nat, jordan: bool, m: nat, n: nat)
    requires Step(s, t, j, k, jordan, m, n)
    ensures Shaped(s, m, n) && Shaped(t, m, n) && j <= k < m
    ensures s[k].a[j] <= -0.00000000001 || 0.00000000001 <= s[k].a[j]
    ensures t[j] == s[k]
    ensures forall i | 0 <= i < j && !jordan :: t[i] == s[i]
    ensures forall i | 0 <= i < m && (i > j || (jordan && i < j)) :: LessMultiple(Exchanged(s, j, k, i), s[k], t[i], j)
  {
    hide AddRow;
    var from := if jordan then 0 else j + 1;
    var w := Swapped(s, j, k);
    forall i | 0 <= i < m && (i > j || (jordan && i < j)) ensures LessMultiple(Exchanged(s, j, k, i), s[k], t[i], j) {
      assert w[i] == Exchanged(s, j, k, i) && w[j] == s[k];
      assert t[i] == ClearedRow(w, j, from, i);
      RowCleared(w[i], w[j], t[i], j);
    }
    forall i | 0 <= i < j && !jordan ensures t[i] == s[i] {
      assert t[i] == ClearedRow(w, j, from, i);
    }
    assert t[j] == ClearedRow(w, j, from, j);
  }

  lemma RowCleared(r: Row, p: Row, t: Row, j: nat)
    requires |r.a| == |p.a| && |r.b| == |p.b| && j < |r.a| && p.a[j] != 0.0 && t == AddRow(r, p, Factor(r.a[j], p.a[j]))
    ensures LessMultiple(r, p, t, j)
  {
    hide Factor;
    var f := Factor(r.a[j], p.a[j]);
    Cancels(r.a[j], p.a[j]);
    forall c | 0 <= c < |r.a| ensures t.a[c] * p.a[j] == r.a[c] * p.a[j] - r.a[j] * p.a[c] {
      TimesPivot(r.a[c], p.a[c], f, p.a[j], r.a[j]);
    }
    forall c | 0 <= c < |r.b| ensures t.b[c] * p.a[j] == r.b[c] * p.a[j] - r.a[j] * p.b[c] {
      TimesPivot(r.b[c], p.b[c], f, p.a[j], r.a[j]);
    }
  }

  lemma TimesPivot(x: real, y: real, f: real, p: real, r: real)
    requires r + p * f == 0.0
    ensures (x + y * f) * p == x * p - r * y
  {
    assert p * f == -r;
    assert (x + y * f) * p == x * p + y * (p * f);
  }
}
