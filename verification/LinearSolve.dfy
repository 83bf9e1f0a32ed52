/** Gauss and Gauss-Jordan elimination in place. */
module LinearSolve {
  import opened LinearSystem

  // ----- what the last column leaves is solved -----

  ghost predicate OnlySolution(s: seq<Row>, x: seq<seq<real>>, m: nat, n: nat)
    requires Shaped(s, m, n)
  {
    Solves(s, x, m, n) && forall y | Solves(s, y, m, n) :: y == x
  }

  lemma {:induction false} DotZero(row: seq<real>, x: seq<seq<real>>, c: nat, lo: nat, hi: nat)
    requires hi <= |row| && hi <= |x| && (forall i | lo <= i < hi :: c < |x[i]|) && forall i | lo <= i < hi :: row[i] == 0.0
    ensures Dot(row, x, c, lo, hi) == 0.0
    decreases hi - lo
  {
    if lo < hi {
      DotZero(row, x, c, lo + 1, hi);
    }
  }

  lemma {:induction false} DotSplit(row: seq<real>, x: seq<seq<real>>, c: nat, lo: nat, j: nat, hi: nat)
    requires lo <= j <= hi <= |row| && hi <= |x| && forall i | lo <= i < hi :: c < |x[i]|
    ensures Dot(row, x, c, lo, hi) == Dot(row, x, c, lo, j) + Dot(row, x, c, j, hi)
    decreases j - lo
  {
    if lo < j {
      DotSplit(row, x, c, lo + 1, j, hi);
    }
  }

  lemma {:induction false} DotSame(row: seq<real>, x: seq<seq<real>>, y: seq<seq<real>>, c: nat, lo: nat, hi: nat)
    requires hi <= |row| && hi <= |x| && hi <= |y| && forall i | lo <= i < hi :: c < |x[i]| && c < |y[i]| && x[i][c] == y[i][c]
    ensures Dot(row, x, c, lo, hi) == Dot(row, y, c, lo, hi)
    decreases hi - lo
  {
    if lo < hi {
      DotSame(row, x, y, c, lo + 1, hi);
    }
  }

  /** In a triangular system row `j` concerns the unknowns from `j` on only. */
  lemma RowFrom(s: seq<Row>, j: nat, jordan: bool, y: seq<seq<real>>, c: nat, m: nat, n: nat)
    requires Triangular(s, m, jordan, m, n) && IsMatrix(y, m, n) && j < m && c < n
    ensures s[j].a[j] != 0.0
    ensures Dot(s[j].a, y, c, 0, m) == s[j].a[j] * y[j][c] + Dot(s[j].a, y, c, j + 1, m)
    ensures jordan ==> Dot(s[j].a, y, c, j + 1, m) == 0.0
  {
    assert EntryCleared(s, j, j, jordan);
    forall i | 0 <= i < m && (i < j || (jordan && i > j)) ensures s[j].a[i] == 0.0 {
      assert EntryCleared(s, i, j, jordan);
    }
    DotSplit(s[j].a, y, c, 0, j, m);
    DotZero(s[j].a, y, c, 0, j);
    if jordan {
      DotZero(s[j].a, y, c, j + 1, m);
    }
  }

  /** The rows of `x` from `j` on solve their equations one behind the other, the last one first. */
  ghost predicate SolvedFrom(s: seq<Row>, x: seq<seq<real>>, j: nat, m: nat, n: nat)
    requires Shaped(s, m, n) && IsMatrix(x, m, n)
  {
    forall i, c | j <= i < m && 0 <= c < n :: EntrySolved(s, x, i, c, m, n)
  }

  ghost predicate EntrySolved(s: seq<Row>, x: seq<seq<real>>, i: nat, c: nat, m: nat, n: nat)
    requires Shaped(s, m, n) && IsMatrix(x, m, n) && i < m && c < n
  {
    s[i].a[i] * x[i][c] + Dot(s[i].a, x, c, i + 1, m) == s[i].b[c]
  }

  lemma {:induction false} BackUnique(s: seq<Row>, x: seq<seq<real>>, y: seq<seq<real>>, j: nat, jordan: bool, m: nat, n: nat)
    requires Triangular(s, m, jordan, m, n) && IsMatrix(x, m, n) && SolvedFrom(s, x, 0, m, n) && Solves(s, y, m, n) && j <= m
    ensures forall i, c | j <= i < m && 0 <= c < n :: y[i][c] == x[i][c]
    decreases m - j
  {
    if j < m {
      BackUnique(s, x, y, j + 1, jordan, m, n);
      forall c | 0 <= c < n ensures y[j][c] == x[j][c] {
        RowFrom(s, j, jordan, y, c, m, n);
        assert EntrySolved(s, x, j, c, m, n) && Satisfies(s[j], y, m, n);
        DotSame(s[j].a, x, y, c, j + 1, m);
        Divides(s[j].a[j], x[j][c], y[j][c]);
      }
    }
  }

  lemma Divides(p: real, x: real, y: real)
    requires p != 0.0 && p * x == p * y
    ensures x == y
  {
    assert p * (x - y) == 0.0;
  }

  /** What back substitution yields is the only solution. */
  lemma BackSolves(s: seq<Row>, x: seq<seq<real>>, jordan: bool, m: nat, n: nat)
    requires Triangular(s, m, jordan, m, n) && IsMatrix(x, m, n) && SolvedFrom(s, x, 0, m, n)
    ensures OnlySolution(s, x, m, n)
  {
    forall i | 0 <= i < m ensures Satisfies(s[i], x, m, n) {
      forall c | 0 <= c < n ensures Dot(s[i].a, x, c, 0, m) == s[i].b[c] {
        RowFrom(s, i, jordan, x, c, m, n);
        assert EntrySolved(s, x, i, c, m, n);
      }
    }
    forall y | Solves(s, y, m, n) ensures y == x {
      BackUnique(s, x, y, 0, jordan, m, n);
      assert forall i | 0 <= i < m :: y[i] == x[i];
    }
  }

  /** What a solver promises: its verdict is that of the elimination, and if it succeeds `x` is the only solution. */
  ghost predicate Solved(s: seq<Row>, jordan: bool, ok: bool, x: seq<seq<real>>, m: nat, n: nat)
    requires Shaped(s, m, n)
  {
    Verdict(s, jordan, ok, m, n) && (ok ==> OnlySolution(s, x, m, n))
  }

  ghost predicate Verdict(s: seq<Row>, jordan: bool, ok: bool, m: nat, n: nat) {
    exists run :: Finished(run, s, jordan, ok, m, n)
  }

  /** Both algorithms give the same verdict, and when they succeed the same solution. */
  lemma SolversAgree(s: seq<Row>, ok: bool, x: seq<seq<real>>, ok': bool, x': seq<seq<real>>, m: nat, n: nat)
    requires Shaped(s, m, n) && Solved(s, false, ok, x, m, n) && Solved(s, true, ok', x', m, n)
    ensures ok == ok' && (ok ==> x == x')
  {
    var run :| Finished(run, s, false, ok, m, n);
    var run' :| Finished(run', s, true, ok', m, n);
    SameVerdict(run, run', s, ok, ok', m, n);
  }

  /**
   * Not every non-singular matrix is accepted: a single equation `p * x == b` has exactly one solution as soon as `p` is
   * not 0, but is solved exactly when `p` is not below `EPSILON`.
   */
  lemma OneEquation(p: real, b: real, jordan: bool, ok: bool)
    requires Verdict([Row([p], [b])], jordan, ok, 1, 1)
    ensures ok <==> Abs(p) >= EPSILON
    ensures p != 0.0 ==> OnlySolution([Row([p], [b])], [[b / p]], 1, 1)
  {
    hide Verdict, OnlySolution;
    var s := [Row([p], [b])];
    if p != 0.0 {
      OneSolution(s, p, b, jordan);
    }
    OneVerdict(s, p, b, jordan, ok);
  }

  lemma OneSolution(s: seq<Row>, p: real, b: real, jordan: bool)
    requires s == [Row([p], [b])] && p != 0.0
    ensures OnlySolution(s, [[b / p]], 1, 1)
  {
    var x := [[b / p]];
    assert Triangular(s, 1, jordan, 1, 1);
    assert EntrySolved(s, x, 0, 0, 1, 1);
    BackSolves(s, x, jordan, 1, 1);
  }

  lemma OneVerdict(s: seq<Row>, p: real, b: real, jordan: bool, ok: bool)
    requires s == [Row([p], [b])] && Verdict(s, jordan, ok, 1, 1)
    ensures ok <==> Abs(p) >= EPSILON
  {
    hide Cleared, Swapped;
    var run :| Finished(run, s, jordan, ok, 1, 1);
    if ok {
      assert StepAt(run, 0, jordan, 1, 1);
      var k: nat :| Step(run[0], run[1], 0, k, jordan, 1, 1);
    }
  }

  lemma RunSolved(run: seq<seq<Row>>, s: seq<Row>, jordan: bool, x: seq<seq<real>>, m: nat, n: nat)
    requires Finished(run, s, jordan, true, m, n) && Shaped(run[m], m, n) && IsMatrix(x, m, n) && SolvedFrom(run[m], x, 0, m, n)
    ensures Solved(s, jordan, true, x, m, n)
  {
    StepsTriangular(run, s, jordan, m, m, n);
    BackSolves(run[m], x, jordan, m, n);
    forall y ensures Solves(s, y, m, n) <==> Solves(run[m], y, m, n) {
      StepsSolve(run, s, jordan, m, y, m, n);
    }
  }

  // ----- in place -----

  ghost function RowOf(a: array2<real>, i: nat): (r: seq<real>)
    requires i < a.Length0
    reads a
    ensures |r| == a.Length1 && forall c | 0 <= c < a.Length1 :: r[c] == a[i, c]
  {
    seq(a.Length1, c requires 0 <= c < a.Length1 reads a => a[i, c])
  }

  /** The system that the arrays hold. */
  ghost function Snap(a: array2<real>, b: array2<real>): (s: seq<Row>)
    requires a.Length0 == b.Length0
    reads a, b
    ensures |s| == a.Length0 && forall i | 0 <= i < |s| :: s[i] == Row(RowOf(a, i), RowOf(b, i))
  {
    seq(a.Length0, i requires 0 <= i < a.Length0 reads a, b => Row(RowOf(a, i), RowOf(b, i)))
  }

  ghost function Matrix(b: array2<real>): (x: seq<seq<real>>)
    reads b
    ensures |x| == b.Length0 && forall i | 0 <= i < |x| :: x[i] == RowOf(b, i)
  {
    seq(b.Length0, i requires 0 <= i < b.Length0 reads b => RowOf(b, i))
  }

  ghost predicate Arrays(a: array2<real>, b: array2<real>) {
    a != b && a.Length0 == a.Length1 == b.Length0
  }

  /** The row with the greatest entry in column `j`, from row `j` on. */
  method FindPivot(a: array2<real>, b: array2<real>, j: nat) returns (k: nat)
    requires Arrays(a, b) && j < a.Length0
    ensures Shaped(Snap(a, b), a.Length0, b.Length1) && IsPivot(Snap(a, b), j, k, a.Length0, b.Length1)
  {
    ghost var s := Snap(a, b);
    k := j;
    for i := j + 1 to a.Length0
      invariant j <= k < i
      invariant forall l | j <= l < k :: Abs(s[l].a[j]) < Abs(s[k].a[j])
      invariant forall l | k <= l < i :: Abs(s[l].a[j]) <= Abs(s[k].a[j])
    {
      assert a[i, j] == s[i].a[j] && a[k, j] == s[k].a[j];
      if Abs(a[i, j]) > Abs(a[k, j]) {
        k := i;
      }
    }
  }

  method SwapEntries(a: array2<real>, j: nat, k: nat, from: nat)
    requires j < a.Length0 && k < a.Length0 && from <= a.Length1
    requires forall c | 0 <= c < from :: a[j, c] == a[k, c]
    modifies a
    ensures RowOf(a, j) == old(RowOf(a, k)) && RowOf(a, k) == old(RowOf(a, j))
    ensures forall i | 0 <= i < a.Length0 && i != j && i != k :: RowOf(a, i) == old(RowOf(a, i))
  {
    for i := from to a.Length1
      invariant forall c | 0 <= c < i :: a[j, c] == old(a[k, c]) && a[k, c] == old(a[j, c])
      invariant forall c | i <= c < a.Length1 :: a[j, c] == old(a[j, c]) && a[k, c] == old(a[k, c])
      invariant forall r, c | 0 <= r < a.Length0 && r != j && r != k && 0 <= c < a.Length1 :: a[r, c] == old(a[r, c])
    {
      a[j, i], a[k, i] := a[k, i], a[j, i];
    }
  }

  method AddEntries(a: array2<real>, k: nat, j: nat, alpha: real, from: nat)
    requires j < a.Length0 && k < a.Length0 && j != k && from <= a.Length1
    requires forall c | 0 <= c < from :: a[j, c] == 0.0
    modifies a
    ensures RowOf(a, k) == AddTimes(old(RowOf(a, k)), old(RowOf(a, j)), alpha)
    ensures forall i | 0 <= i < a.Length0 && i != k :: RowOf(a, i) == old(RowOf(a, i))
  {
    for i := from to a.Length1
      invariant forall c | 0 <= c < i :: a[k, c] == old(a[k, c]) + old(a[j, c]) * alpha
      invariant forall c | i <= c < a.Length1 :: a[k, c] == old(a[k, c])
      invariant forall r, c | 0 <= r < a.Length0 && r != k && 0 <= c < a.Length1 :: a[r, c] == old(a[r, c])
    {
      a[k, i] := a[k, i] + a[j, i] * alpha;
    }
    ghost var sum := AddTimes(old(RowOf(a, k)), old(RowOf(a, j)), alpha);
    assert forall c | 0 <= c < a.Length1 :: RowOf(a, k)[c] == sum[c];
  }

  /** Swaps the pivot row `k` into row `j`; in the columns in front of `from` both rows agree. */
  method SwapRows(a: array2<real>, b: array2<real>, j: nat, k: nat, from: nat)
    requires Arrays(a, b) && j < a.Length0 && k < a.Length0 && from <= a.Length1
    requires forall c | 0 <= c < from :: a[j, c] == a[k, c]
    modifies a, b
    ensures Snap(a, b) == Swapped(old(Snap(a, b)), j, k)
  {
    if k != j {
      SwapEntries(a, j, k, from);
      SwapEntries(b, j, k, 0);
    }
  }

  /** Clears column `j` of row `k` by adding a multiple of row `j`, which is zero in front of `from`. */
  method ClearRow(a: array2<real>, b: array2<real>, j: nat, k: nat, from: nat)
    requires Arrays(a, b) && j < a.Length0 && k < a.Length0 && j != k && from <= a.Length1 && a[j, j] != 0.0
    requires forall c | 0 <= c < from :: a[j, c] == 0.0
    modifies a, b
    ensures Snap(a, b)[k] == AddRow(old(Snap(a, b)[k]), old(Snap(a, b)[j]), Factor(old(a[k, j]), old(a[j, j])))
    ensures forall i | 0 <= i < a.Length0 && i != k :: Snap(a, b)[i] == old(Snap(a, b)[i])
  {
    var alpha := -a[k, j] / a[j, j];
    AddEntries(a, k, j, alpha, from);
    AddEntries(b, k, j, alpha, 0);
  }

  /** Clears column `j` in the rows from `from` on. */
  method ClearColumn(a: array2<real>, b: array2<real>, j: nat, from: nat, fromCol: nat)
    requires Arrays(a, b) && j < a.Length0 && from <= a.Length0 && fromCol <= a.Length0 && a[j, j] != 0.0
    requires forall c | 0 <= c < fromCol :: a[j, c] == 0.0
    modifies a, b
    ensures Cleared(old(Snap(a, b)), Snap(a, b), j, from, a.Length0, a.Length0, b.Length1)
  {
    ghost var s := Snap(a, b);
    for k := from to a.Length0
      invariant Cleared(s, Snap(a, b), j, from, k, a.Length0, b.Length1)
    {
      assert Snap(a, b)[j] == s[j] && Snap(a, b)[k] == s[k];
      assert a[j, j] == s[j].a[j] && a[k, j] == s[k].a[j];
      forall c | 0 <= c < fromCol ensures a[j, c] == 0.0 {
        assert a[j, c] == s[j].a[c];
      }
      if k != j {
        ClearRow(a, b, j, k, fromCol);
      }
    }
  }

  /** One column of either algorithm; `false` if its pivot is too small. */
  method EliminateColumn(a: array2<real>, b: array2<real>, j: nat, jordan: bool) returns (ok: bool)
    requires Arrays(a, b) && j < a.Length0 && Triangular(Snap(a, b), j, jordan, a.Length0, b.Length1)
    modifies a, b
    ensures !ok ==> Snap(a, b) == old(Snap(a, b)) && Stuck(Snap(a, b), j, a.Length0, b.Length1)
    ensures ok ==> StepTo(old(Snap(a, b)), Snap(a, b), j, jordan, a.Length0, b.Length1)
  {
    ghost var s := Snap(a, b);
    ghost var m, n := a.Length0, b.Length1;
    var k := FindPivot(a, b, j);
    assert a[k, j] == s[k].a[j];
    if Abs(a[k, j]) < EPSILON {
      return false;
    }
    var fromCol := if jordan then 0 else j;
    forall c | 0 <= c < j ensures a[j, c] == 0.0 && a[k, c] == 0.0 {
      assert EntryCleared(s, c, j, jordan) && EntryCleared(s, c, k, jordan);
      assert a[j, c] == s[j].a[c] && a[k, c] == s[k].a[c];
    }
    SwapRows(a, b, j, k, fromCol);
    ghost var t := Snap(a, b);
    assert a[j, j] == t[j].a[j] == s[k].a[j];
    forall c | 0 <= c < fromCol ensures a[j, c] == 0.0 {
      assert a[j, c] == t[j].a[c] == s[k].a[c];
    }
    ClearColumn(a, b, j, if jordan then 0 else j + 1, fromCol);
    assert Step(s, Snap(a, b), j, k, jordan, m, n);
    return true;
  }

  /** Both algorithms up to where they take the solution from what is left. */
  method Eliminate(a: array2<real>, b: array2<real>, jordan: bool) returns (ok: bool, ghost run: seq<seq<Row>>)
    requires Arrays(a, b)
    modifies a, b
    ensures Finished(run, old(Snap(a, b)), jordan, ok, a.Length0, b.Length1) && run[|run| - 1] == Snap(a, b)
  {
    ghost var s, m, n := Snap(a, b), a.Length0, b.Length1;
    run := [s];
    for j := 0 to a.Length0
      invariant |run| == j + 1 && Steps(run, s, jordan, m, n) && run[j] == Snap(a, b)
    {
      StepsTriangular(run, s, jordan, j, m, n);
      ghost var before := Snap(a, b);
      ok := EliminateColumn(a, b, j, jordan);
      if !ok {
        return;
      }
      RunGrows(run, s, Snap(a, b), jordan, m, n);
      run := run + [Snap(a, b)];
    }
    ok := true;
  }

  lemma RunGrows(run: seq<seq<Row>>, s: seq<Row>, t: seq<Row>, jordan: bool, m: nat, n: nat)
    requires Steps(run, s, jordan, m, n) && |run| <= m && StepTo(run[|run| - 1], t, |run| - 1, jordan, m, n)
    ensures Steps(run + [t], s, jordan, m, n)
  {
    var longer := run + [t];
    forall j | 0 <= j < |longer| - 1 ensures StepAt(longer, j, jordan, m, n) {
      assert j < |run| - 1 ==> StepAt(run, j, jordan, m, n);
    }
  }

  method DivideRow(a: array2<real>, b: array2<real>, j: nat)
    requires Arrays(a, b) && j < a.Length0 && a[j, j] != 0.0
    modifies b
    ensures forall c | 0 <= c < b.Length1 :: b[j, c] == Quotient(old(b[j, c]), a[j, j])
    ensures forall i, c | 0 <= i < b.Length0 && i != j && 0 <= c < b.Length1 :: b[i, c] == old(b[i, c])
  {
    for i := 0 to b.Length1
      invariant forall c | 0 <= c < i :: b[j, c] == Quotient(old(b[j, c]), a[j, j])
      invariant forall c | i <= c < b.Length1 :: b[j, c] == old(b[j, c])
      invariant forall r, c | 0 <= r < b.Length0 && r != j && 0 <= c < b.Length1 :: b[r, c] == old(b[r, c])
    {
      b[j, i] := b[j, i] / a[j, j];
    }
  }

  /** The right-hand sides divided by the diagonal. */
  method DivideRows(a: array2<real>, b: array2<real>, ghost f: seq<Row>)
    requires Arrays(a, b) && f == Snap(a, b) && Triangular(f, a.Length0, true, a.Length0, b.Length1)
    modifies b
    ensures forall i, c | 0 <= i < b.Length0 && 0 <= c < b.Length1 :: b[i, c] == Quotient(f[i].b[c], f[i].a[i])
  {
    for j := 0 to a.Length0
      invariant forall i, c | 0 <= i < j && 0 <= c < b.Length1 :: b[i, c] == Quotient(f[i].b[c], f[i].a[i])
      invariant forall i, c | j <= i < b.Length0 && 0 <= c < b.Length1 :: b[i, c] == f[i].b[c]
    {
      assert EntryCleared(f, j, j, true) && a[j, j] == f[j].a[j];
      DivideRow(a, b, j);
    }
  }

  /** `gauss_jordan_solve`: `b` becomes the only solution of the system, or a pivot is too small. */
  method GaussJordanSolve(a: array2<real>, b: array2<real>) returns (ok: bool)
    requires Arrays(a, b)
    modifies a, b
    ensures Shaped(old(Snap(a, b)), a.Length0, b.Length1)
    ensures Solved(old(Snap(a, b)), true, ok, Matrix(b), a.Length0, b.Length1)
  {
    hide Finished, Solved, Triangular;
    ghost var s, m, n := Snap(a, b), a.Length0, b.Length1;
    ghost var run;
    ok, run := Eliminate(a, b, true);
    if !ok {
      RunFails(run, s, true, Matrix(b), m, n);
      return;
    }
    ghost var f := Snap(a, b);
    StepsTriangular(run, s, true, m, m, n);
    DivideRows(a, b, f);
    QuotientsSolve(run, s, f, Matrix(b), m, n);
  }

  /** Nothing but the diagonal is left, so the quotients are the solution. */
  lemma QuotientsSolve(run: seq<seq<Row>>, s: seq<Row>, f: seq<Row>, x: seq<seq<real>>, m: nat, n: nat)
    requires Finished(run, s, true, true, m, n) && f == run[m] && Triangular(f, m, true, m, n) && IsMatrix(x, m, n)
    requires forall i, c | 0 <= i < m && 0 <= c < n :: x[i][c] == Quotient(f[i].b[c], f[i].a[i])
    ensures Solved(s, true, true, x, m, n)
  {
    hide Quotient, Triangular, Finished, Solved;
    TriangularShaped(f, m, n);
    forall i, c | 0 <= i < m && 0 <= c < n ensures EntrySolved(f, x, i, c, m, n) {
      RowFrom(f, i, true, x, c, m, n);
      TimesQuotient(f[i].b[c], f[i].a[i]);
    }
    RunSolved(run, s, true, x, m, n);
  }

  lemma RunFails(run: seq<seq<Row>>, s: seq<Row>, jordan: bool, x: seq<seq<real>>, m: nat, n: nat)
    requires Shaped(s, m, n) && Finished(run, s, jordan, false, m, n)
    ensures Solved(s, jordan, false, x, m, n)
  {
  }

  lemma TriangularShaped(f: seq<Row>, m: nat, n: nat)
    requires Triangular(f, m, true, m, n)
    ensures Shaped(f, m, n)
  {
  }

  ghost function Quotient(x: real, p: real): real {
    if p == 0.0 then 0.0 else x / p
  }

  lemma TimesQuotient(x: real, p: real)
    requires p != 0.0
    ensures p * Quotient(x, p) == x
  {
  }

  lemma DotNone(row: seq<real>, x: seq<seq<real>>, c: nat, lo: nat)
    requires lo <= |row| && lo <= |x|
    ensures Dot(row, x, c, lo, lo) == 0.0
  {
  }

  lemma DotNext(row: seq<real>, x: seq<seq<real>>, c: nat, lo: nat, i: nat)
    requires lo <= i < |row| && i < |x| && forall l | lo <= l <= i :: c < |x[l]|
    ensures Dot(row, x, c, lo, i + 1) == Dot(row, x, c, lo, i) + row[i] * x[i][c]
  {
    DotSplit(row, x, c, lo, i, i + 1);
    assert Dot(row, x, c, i, i + 1) == row[i] * x[i][c] + Dot(row, x, c, i + 1, i + 1);
  }

  /** What is left of `b[j, k]` when the known part of its equation is taken away and the pivot divided out. */
  method SolveEntry(a: array2<real>, b: array2<real>, j: nat, k: nat)
    requires Arrays(a, b) && j < a.Length0 && k < b.Length1 && a[j, j] != 0.0
    modifies b
    ensures b[j, k] == Quotient(old(b[j, k]) - Dot(RowOf(a, j), old(Matrix(b)), k, j + 1, a.Length0), a[j, j])
    ensures forall r, c | 0 <= r < b.Length0 && 0 <= c < b.Length1 && !(r == j && c == k) :: b[r, c] == old(b[r, c])
  {
    hide Dot;
    ghost var row, x := RowOf(a, j), Matrix(b);
    DotNone(row, x, k, j + 1);
    for i := j + 1 to a.Length0
      invariant b[j, k] == old(b[j, k]) - Dot(row, x, k, j + 1, i)
      invariant forall r, c | 0 <= r < b.Length0 && 0 <= c < b.Length1 && !(r == j && c == k) :: b[r, c] == old(b[r, c])
    {
      DotNext(row, x, k, j + 1, i);
      assert a[j, i] == row[i] && b[i, k] == x[i][k];
      b[j, k] := b[j, k] - a[j, i] * b[i, k];
    }
    b[j, k] := b[j, k] / a[j, j];
  }

  /** A solved entry depends on its own row and the later ones only. */
  lemma EntryKept(s: seq<Row>, x: seq<seq<real>>, y: seq<seq<real>>, i: nat, c: nat, m: nat, n: nat)
    requires Shaped(s, m, n) && IsMatrix(x, m, n) && IsMatrix(y, m, n) && i < m && c < n && EntrySolved(s, x, i, c, m, n)
    requires forall l | i <= l < m :: y[l][c] == x[l][c]
    ensures EntrySolved(s, y, i, c, m, n)
  {
    DotSame(s[i].a, x, y, c, i + 1, m);
  }

  /** The entry that `SolveEntry` leaves solves its equation. */
  lemma EntryNowSolved(s: seq<Row>, x: seq<seq<real>>, y: seq<seq<real>>, j: nat, k: nat, m: nat, n: nat)
    requires Shaped(s, m, n) && IsMatrix(x, m, n) && IsMatrix(y, m, n) && j < m && k < n && s[j].a[j] != 0.0
    requires forall l | j < l < m :: y[l][k] == x[l][k]
    requires y[j][k] == Quotient(s[j].b[k] - Dot(s[j].a, x, k, j + 1, m), s[j].a[j])
    ensures EntrySolved(s, y, j, k, m, n)
  {
    DotSame(s[j].a, x, y, k, j + 1, m);
    TimesQuotient(s[j].b[k] - Dot(s[j].a, x, k, j + 1, m), s[j].a[j]);
  }

  lemma OneMoreSolved(f: seq<Row>, x: seq<seq<real>>, y: seq<seq<real>>, j: nat, k: nat, m: nat, n: nat)
    requires Shaped(f, m, n) && IsMatrix(x, m, n) && IsMatrix(y, m, n) && j < m && k < n && f[j].a[j] != 0.0
    requires forall i, c | 0 <= i < m && 0 <= c < n && !(i == j && c == k) :: y[i][c] == x[i][c]
    requires y[j][k] == Quotient(f[j].b[k] - Dot(f[j].a, x, k, j + 1, m), f[j].a[j])
    requires SolvedFrom(f, x, j + 1, m, n) && forall c | 0 <= c < k :: EntrySolved(f, x, j, c, m, n)
    ensures SolvedFrom(f, y, j + 1, m, n) && forall c | 0 <= c < k + 1 :: EntrySolved(f, y, j, c, m, n)
  {
    EntryNowSolved(f, x, y, j, k, m, n);
    forall c | 0 <= c < k ensures EntrySolved(f, y, j, c, m, n) {
      EntryKept(f, x, y, j, c, m, n);
    }
    forall i, c | j + 1 <= i < m && 0 <= c < n ensures EntrySolved(f, y, i, c, m, n) {
      assert EntrySolved(f, x, i, c, m, n);
      EntryKept(f, x, y, i, c, m, n);
    }
  }

  /** The unknowns of one row, the later ones being known. */
  method SolveRow(a: array2<real>, b: array2<real>, j: nat, ghost f: seq<Row>)
    requires Arrays(a, b) && j < a.Length0 && Triangular(f, a.Length0, false, a.Length0, b.Length1)
    requires forall i | 0 <= i < a.Length0 :: RowOf(a, i) == f[i].a
    requires forall c | 0 <= c < b.Length1 :: b[j, c] == f[j].b[c]
    requires SolvedFrom(f, Matrix(b), j + 1, a.Length0, b.Length1)
    modifies b
    ensures SolvedFrom(f, Matrix(b), j, a.Length0, b.Length1)
    ensures forall i, c | 0 <= i < j && 0 <= c < b.Length1 :: b[i, c] == old(b[i, c])
  {
    ghost var m, n := a.Length0, b.Length1;
    assert EntryCleared(f, j, j, false) && a[j, j] == f[j].a[j];
    for k := 0 to b.Length1
      invariant forall i, c | 0 <= i < j && 0 <= c < n :: b[i, c] == old(b[i, c])
      invariant forall c | k <= c < n :: b[j, c] == f[j].b[c]
      invariant SolvedFrom(f, Matrix(b), j + 1, m, n)
      invariant forall c | 0 <= c < k :: EntrySolved(f, Matrix(b), j, c, m, n)
    {
      ghost var x := Matrix(b);
      SolveEntry(a, b, j, k);
      ghost var y := Matrix(b);
      forall i, c | 0 <= i < m && 0 <= c < n && !(i == j && c == k) ensures y[i][c] == x[i][c] {
        assert y[i][c] == b[i, c];
      }
      assert y[j][k] == b[j, k];
      OneMoreSolved(f, x, y, j, k, m, n);
    }
  }

  /** `gauss_solve`: `b` becomes the only solution of the system, or a pivot is too small. */
  method GaussSolve(a: array2<real>, b: array2<real>) returns (ok: bool)
    requires Arrays(a, b)
    modifies a, b
    ensures Shaped(old(Snap(a, b)), a.Length0, b.Length1)
    ensures Solved(old(Snap(a, b)), false, ok, Matrix(b), a.Length0, b.Length1)
  {
    ghost var s, m, n := Snap(a, b), a.Length0, b.Length1;
    ghost var run;
    ok, run := Eliminate(a, b, false);
    if !ok {
      return;
    }
    ghost var f := Snap(a, b);
    StepsTriangular(run, s, false, m, m, n);
    var j := a.Length0;
    while j > 0
      invariant 0 <= j <= m
      invariant forall i | 0 <= i < m :: RowOf(a, i) == f[i].a
      invariant forall i, c | 0 <= i < j && 0 <= c < n :: b[i, c] == f[i].b[c]
      invariant SolvedFrom(f, Matrix(b), j, m, n)
    {
      j := j - 1;
      SolveRow(a, b, j, f);
    }
    RunSolved(run, s, false, Matrix(b), m, n);
  }
}
