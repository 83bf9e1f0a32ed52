/** What one rotation of the Jacobi method does to a symmetric matrix and to the rows that diagonalise it. */
module JacobiRotation {

  ghost predicate Square(a: seq<seq<real>>, n: nat) {
    |a| == n && forall r | 0 <= r < n :: |a[r]| == n
  }

  ghost predicate Symmetric(a: seq<seq<real>>, n: nat)
    requires Square(a, n)
  {
    forall r, c | 0 <= r < n && 0 <= c < n :: a[r][c] == a[c][r]
  }

  // ----- the angle -----

  /** `c` and `s` are cosine and sine of an angle with tangent `t`, which makes the entry `(i, j)` vanish. */
  ghost predicate Angle(aii: real, ajj: real, aij: real, c: real, s: real, t: real) {
    && c * c + s * s == 1.0 && s == t * c
    && t * t * aij + t * (ajj - aii) == aij
  }

  lemma HalfAngle(w: real, root: real, up: bool, t: real)
    requires root * root == 1.0 + w * w && t == -w + (if up then root else -root)
    ensures t * t + 2.0 * w * t == 1.0
  {
    var q := if up then root else -root;
    assert q * q == 1.0 + w * w;
    assert t + w == q;
    assert (t + w) * (t + w) == t * t + 2.0 * w * t + w * w;
  }

  lemma SinCos(t: real, q: real, s: real, c: real)
    requires q > 0.0 && q * q == 1.0 + t * t && s == t / q && c == 1.0 / q
    ensures c * c + s * s == 1.0 && s == t * c
  {
    assert c * q == 1.0 && s * q == t;
    assert t * c == s by {
      assert t * c == s * q * c;
      assert s * q * c == s * (q * c);
    }
    var x := c * c + s * s;
    assert x * (q * q) == (c * q) * (c * q) + (s * q) * (s * q) by {
      assert c * c * (q * q) == (c * q) * (c * q);
      assert s * s * (q * q) == (s * q) * (s * q);
    }
    assert x * (q * q) == q * q;
    Only(x, q * q);
  }

  lemma Only(x: real, y: real)
    requires y > 0.0 && x * y == y
    ensures x == 1.0
  {
    assert (x - 1.0) * y == 0.0;
  }

  /** The angle that the code computes, from a square root of the right value. */
  lemma AngleComputed(aii: real, ajj: real, aij: real, w: real, root: real, t: real, q: real, s: real, c: real)
    requires aij != 0.0 && w == 0.5 * (ajj - aii) / aij
    requires root * root == 1.0 + w * w && t == -w + (if w > 0.0 then root else -root)
    requires q >= 0.0 && q * q == 1.0 + t * t && s == t / q && c == 1.0 / q
    ensures Angle(aii, ajj, aij, c, s, t)
  {
    HalfAngle(w, root, w > 0.0, t);
    assert q > 0.0 by {
      assert q * q >= 1.0;
    }
    SinCos(t, q, s, c);
    assert 2.0 * w * aij == ajj - aii;
    assert (t * t + 2.0 * w * t) * aij == t * t * aij + t * (2.0 * w * aij);
  }

  /** The entries that the rotation gives to the rows and columns `i` and `j`, among themselves. */
  lemma BlockRotates(aii: real, ajj: real, aij: real, c: real, s: real, t: real)
    requires Angle(aii, ajj, aij, c, s, t)
    ensures c * c * aii - 2.0 * (c * s * aij) + s * s * ajj == aii - t * aij
    ensures c * c * ajj + 2.0 * (c * s * aij) + s * s * aii == ajj + t * aij
    ensures c * s * (aii - ajj) + (c * c - s * s) * aij == 0.0
  {
    var k := c * c;
    var d := ajj - aii;
    assert s * s == t * t * k && c * s == t * k;
    assert k + t * t * k == 1.0;
    assert t * t * aij == aij - t * d;
    // s^2 d - 2 c s aij == -t aij
    assert s * s * d - 2.0 * (c * s * aij) == k * (t * t * d - 2.0 * t * aij);
    assert t * (t * t * aij) == t * aij - t * t * d;
    assert t * t * d - 2.0 * t * aij == -(t * aij) - t * (t * t * aij);
    assert k * (t * aij + t * (t * t * aij)) == (k + t * t * k) * (t * aij);
    assert s * s * d - 2.0 * (c * s * aij) == -(t * aij);
    assert k * aii + s * s * aii == (k + s * s) * aii == aii;
    assert k * ajj + s * s * ajj == (k + s * s) * ajj == ajj;
    assert s * s * d == s * s * ajj - s * s * aii;
    // the entry (i, j)
    assert c * s * (aii - ajj) + (k - s * s) * aij == k * (aij - t * t * aij - t * d);
  }

  /** Sums of squares are kept by a rotation. */
  lemma PairRotates(x: real, y: real, c: real, s: real)
    requires c * c + s * s == 1.0
    ensures (c * x - s * y) * (c * x - s * y) + (c * y + s * x) * (c * y + s * x) == x * x + y * y
  {
    assert (c * x - s * y) * (c * x - s * y) == c * c * (x * x) - 2.0 * (c * s * (x * y)) + s * s * (y * y);
    assert (c * y + s * x) * (c * y + s * x) == c * c * (y * y) + 2.0 * (c * s * (x * y)) + s * s * (x * x);
    assert (c * c + s * s) * (x * x) == x * x && (c * c + s * s) * (y * y) == y * y;
  }

  /** So the squares on the diagonal gain what the entry `(i, j)` loses twice. */
  lemma DiagonalGains(aii: real, ajj: real, aij: real, c: real, s: real, t: real)
    requires Angle(aii, ajj, aij, c, s, t)
    ensures (aii - t * aij) * (aii - t * aij) + (ajj + t * aij) * (ajj + t * aij) == aii * aii + ajj * ajj + 2.0 * (aij * aij)
  {
    var d := ajj - aii;
    assert (aii - t * aij) * (aii - t * aij) == aii * aii - 2.0 * (aii * (t * aij)) + t * aij * (t * aij);
    assert (ajj + t * aij) * (ajj + t * aij) == ajj * ajj + 2.0 * (ajj * (t * aij)) + t * aij * (t * aij);
    assert aij * (t * t * aij + t * d) == aij * aij;
    assert t * aij * (t * aij) + d * (t * aij) == aij * (t * t * aij + t * d);
    assert d * (t * aij) == ajj * (t * aij) - aii * (t * aij);
  }

  // ----- the matrix -----

  /** `b` is `a` with rows and columns `i` and `j` rotated. */
  ghost predicate Rotated(a: seq<seq<real>>, b: seq<seq<real>>, i: nat, j: nat, c: real, s: real, t: real, n: nat) {
    && Square(a, n) && Square(b, n) && i < j < n
    && b[i][i] == a[i][i] - t * a[i][j] && b[j][j] == a[j][j] + t * a[i][j]
    && b[i][j] == 0.0 && b[j][i] == 0.0
    && (forall k | 0 <= k < n && k != i && k != j :: OthersRotated(a, b, i, j, k, c, s, n))
    && (forall r, k | 0 <= r < n && 0 <= k < n && r != i && r != j && k != i && k != j :: b[r][k] == a[r][k])
  }

  ghost predicate OthersRotated(a: seq<seq<real>>, b: seq<seq<real>>, i: nat, j: nat, k: nat, c: real, s: real, n: nat)
    requires Square(a, n) && Square(b, n) && i < n && j < n && k < n
  {
    && b[i][k] == b[k][i] == c * a[i][k] - s * a[j][k]
    && b[j][k] == b[k][j] == c * a[j][k] + s * a[i][k]
  }

  lemma RotatedSymmetric(a: seq<seq<real>>, b: seq<seq<real>>, i: nat, j: nat, c: real, s: real, t: real, n: nat)
    requires Rotated(a, b, i, j, c, s, t, n) && Symmetric(a, n)
    ensures Symmetric(b, n)
  {
    forall r, k | 0 <= r < n && 0 <= k < n ensures b[r][k] == b[k][r] {
      assert r != i && r != j ==> OthersRotated(a, b, i, j, r, c, s, n);
      assert k != i && k != j ==> OthersRotated(a, b, i, j, k, c, s, n);
    }
  }

  // ----- forms -----

  /** `alpha * x + beta * y` */
  ghost function Combine(x: seq<real>, y: seq<real>, alpha: real, beta: real): (r: seq<real>)
    requires |x| == |y|
    ensures |r| == |x| && forall k | 0 <= k < |x| :: r[k] == alpha * x[k] + beta * y[k]
  {
    seq(|x|, k requires 0 <= k < |x| => alpha * x[k] + beta * y[k])
  }

  type Form = (seq<real>, seq<real>) -> real

  /** The form is linear in both arguments, for rows of length `n`. */
  ghost predicate Bilinear(f: Form, n: nat) {
    && (forall x, y, z, alpha, beta | |x| == |y| == |z| == n :: LinearLeft(f, x, y, z, alpha, beta))
    && (forall x, y, z, alpha, beta | |x| == |y| == |z| == n :: LinearRight(f, x, y, z, alpha, beta))
  }

  ghost predicate LinearLeft(f: Form, x: seq<real>, y: seq<real>, z: seq<real>, alpha: real, beta: real)
    requires |x| == |y|
  {
    f(Combine(x, y, alpha, beta), z) == alpha * f(x, z) + beta * f(y, z)
  }

  ghost predicate LinearRight(f: Form, x: seq<real>, y: seq<real>, z: seq<real>, alpha: real, beta: real)
    requires |x| == |y|
  {
    f(z, Combine(x, y, alpha, beta)) == alpha * f(z, x) + beta * f(z, y)
  }

  /** `v * F * v^T == g`: the values of the form on the rows of `v` are the entries of `g`. */
  ghost predicate Gram(f: Form, v: seq<seq<real>>, g: seq<seq<real>>, n: nat)
    requires Square(v, n) && Square(g, n)
  {
    forall r, k | 0 <= r < n && 0 <= k < n :: GramAt(f, v, g, r, k, n)
  }

  ghost predicate GramAt(f: Form, v: seq<seq<real>>, g: seq<seq<real>>, r: nat, k: nat, n: nat)
    requires Square(v, n) && Square(g, n) && r < n && k < n
  {
    f(v[r], v[k]) == g[r][k]
  }

  /** Rows `i` and `j` of `v` are rotated. */
  ghost predicate RowsRotated(v: seq<seq<real>>, u: seq<seq<real>>, i: nat, j: nat, c: real, s: real, n: nat) {
    && Square(v, n) && Square(u, n) && i < j < n
    && u[i] == Combine(v[i], v[j], c, -s) && u[j] == Combine(v[j], v[i], c, s)
    && forall r | 0 <= r < n && r != i && r != j :: u[r] == v[r]
  }

  /** The form of two rotated rows. */
  lemma FormOfRotated(f: Form, x: seq<real>, y: seq<real>, z: seq<real>, c: real, s: real, n: nat)
    requires Bilinear(f, n) && |x| == |y| == |z| == n
    ensures f(Combine(x, y, c, -s), z) == c * f(x, z) - s * f(y, z)
    ensures f(z, Combine(x, y, c, -s)) == c * f(z, x) - s * f(z, y)
    ensures f(Combine(y, x, c, s), z) == c * f(y, z) + s * f(x, z)
    ensures f(z, Combine(y, x, c, s)) == c * f(z, y) + s * f(z, x)
  {
    assert LinearLeft(f, x, y, z, c, -s) && LinearRight(f, x, y, z, c, -s);
    assert LinearLeft(f, y, x, z, c, s) && LinearRight(f, y, x, z, c, s);
  }

  /** A rotation of rows of `v` rotates the values of the form in the same way. */
  lemma GramRotates(f: Form, v: seq<seq<real>>, u: seq<seq<real>>, g: seq<seq<real>>, h: seq<seq<real>>,
                    i: nat, j: nat, c: real, s: real, t: real, n: nat)
    requires Bilinear(f, n) && RowsRotated(v, u, i, j, c, s, n) && Square(g, n) && Symmetric(g, n) && Gram(f, v, g, n)
    requires Rotated(g, h, i, j, c, s, t, n) && Angle(g[i][i], g[j][j], g[i][j], c, s, t)
    ensures Gram(f, u, h, n)
  {
    forall r, k | 0 <= r < n && 0 <= k < n ensures GramAt(f, u, h, r, k, n) {
      if (r == i || r == j) && (k == i || k == j) {
        GramBlock(f, v, u, g, h, i, j, c, s, t, n);
      } else if r == i || r == j {
        assert OthersRotated(g, h, i, j, k, c, s, n);
        assert GramAt(f, v, g, i, k, n) && GramAt(f, v, g, j, k, n);
        FormOfRotated(f, v[i], v[j], v[k], c, s, n);
      } else if k == i || k == j {
        assert OthersRotated(g, h, i, j, r, c, s, n);
        assert GramAt(f, v, g, r, i, n) && GramAt(f, v, g, r, j, n);
        FormOfRotated(f, v[i], v[j], v[r], c, s, n);
      } else {
        assert GramAt(f, v, g, r, k, n);
      }
    }
  }

  lemma GramBlock(f: Form, v: seq<seq<real>>, u: seq<seq<real>>, g: seq<seq<real>>, h: seq<seq<real>>,
                  i: nat, j: nat, c: real, s: real, t: real, n: nat)
    requires Bilinear(f, n) && RowsRotated(v, u, i, j, c, s, n) && Square(g, n) && Symmetric(g, n) && Gram(f, v, g, n)
    requires Rotated(g, h, i, j, c, s, t, n) && Angle(g[i][i], g[j][j], g[i][j], c, s, t)
    ensures GramAt(f, u, h, i, i, n) && GramAt(f, u, h, i, j, n) && GramAt(f, u, h, j, i, n) && GramAt(f, u, h, j, j, n)
  {
    assert GramAt(f, v, g, i, i, n) && GramAt(f, v, g, i, j, n) && GramAt(f, v, g, j, i, n) && GramAt(f, v, g, j, j, n);
    FormBlock(f, v[i], v[j], g[i][i], g[i][j], g[j][j], c, s, n);
    BlockRotates(g[i][i], g[j][j], g[i][j], c, s, t);
    Expand(g[i][i], g[j][j], g[i][j], c, s);
  }

  /** The form of a rotated row and another row `z`, from the forms of the rows that it was made of. */
  lemma FormBlock(f: Form, x: seq<real>, y: seq<real>, xx: real, xy: real, yy: real, c: real, s: real, n: nat)
    requires Bilinear(f, n) && |x| == |y| == n && f(x, x) == xx && f(x, y) == f(y, x) == xy && f(y, y) == yy
    ensures var x', y' := Combine(x, y, c, -s), Combine(y, x, c, s);
      && f(x', x') == c * (c * xx - s * xy) - s * (c * xy - s * yy)
      && f(y', y') == c * (c * yy + s * xy) + s * (c * xy + s * xx)
      && f(x', y') == c * (c * xy + s * xx) - s * (c * yy + s * xy)
      && f(y', x') == c * (c * xy - s * yy) + s * (c * xx - s * xy)
  {
    hide Bilinear, Combine, LinearLeft, LinearRight;
    var x', y' := Combine(x, y, c, -s), Combine(y, x, c, s);
    FormOfRotated(f, x, y, x, c, s, n);
    FormOfRotated(f, x, y, y, c, s, n);
    FormPair(f, x, y, x', c * xx - s * xy, c * xy - s * yy, c, s, n);
    FormPair(f, x, y, y', c * xy + s * xx, c * yy + s * xy, c, s, n);
  }

  lemma FormPair(f: Form, x: seq<real>, y: seq<real>, z: seq<real>, xz: real, yz: real, c: real, s: real, n: nat)
    requires Bilinear(f, n) && |x| == |y| == |z| == n && f(x, z) == xz && f(y, z) == yz
    ensures f(Combine(x, y, c, -s), z) == c * xz - s * yz && f(Combine(y, x, c, s), z) == c * yz + s * xz
  {
    hide Bilinear, Combine;
    FormOfRotated(f, x, y, z, c, s, n);
  }

  lemma Expand(aii: real, ajj: real, aij: real, c: real, s: real)
    ensures c * (c * aii - s * aij) - s * (c * aij - s * ajj) == c * c * aii - 2.0 * (c * s * aij) + s * s * ajj
    ensures c * (c * ajj + s * aij) + s * (c * aij + s * aii) == c * c * ajj + 2.0 * (c * s * aij) + s * s * aii
    ensures c * (c * aij + s * aii) - s * (c * ajj + s * aij) == c * s * (aii - ajj) + (c * c - s * s) * aij
    ensures c * (c * aij - s * ajj) + s * (c * aii - s * aij) == c * s * (aii - ajj) + (c * c - s * s) * aij
  {
    assert c * (c * aii - s * aij) == c * c * aii - c * s * aij && s * (c * aij - s * ajj) == c * s * aij - s * s * ajj;
    assert c * (c * ajj + s * aij) == c * c * ajj + c * s * aij && s * (c * aij + s * aii) == c * s * aij + s * s * aii;
    assert c * (c * aij + s * aii) == c * c * aij + c * s * aii && s * (c * ajj + s * aij) == c * s * ajj + s * s * aij;
    assert c * (c * aij - s * ajj) == c * c * aij - c * s * ajj && s * (c * aii - s * aij) == c * s * aii - s * s * aij;
  }

  // ----- the two forms of interest -----

  ghost function Inner(x: seq<real>, y: seq<real>, k: nat): real {
    if k == 0 || k > |x| || k > |y| then 0.0 else Inner(x, y, k - 1) + x[k - 1] * y[k - 1]
  }

  lemma {:induction false} InnerCommutes(x: seq<real>, y: seq<real>, k: nat)
    ensures Inner(x, y, k) == Inner(y, x, k)
  {
    if 0 < k && k <= |x| && k <= |y| {
      InnerCommutes(x, y, k - 1);
      assert x[k - 1] * y[k - 1] == y[k - 1] * x[k - 1];
    }
  }

  lemma {:induction false} InnerLeft(x: seq<real>, y: seq<real>, z: seq<real>, alpha: real, beta: real, k: nat)
    requires |x| == |y| == |z| && k <= |x|
    ensures Inner(Combine(x, y, alpha, beta), z, k) == alpha * Inner(x, z, k) + beta * Inner(y, z, k)
  {
    if k > 0 {
      hide Inner;
      var l := k - 1;
      InnerLeft(x, y, z, alpha, beta, l);
      var w := Combine(x, y, alpha, beta);
      InnerNext(w, z, l, k);
      InnerNext(x, z, l, k);
      InnerNext(y, z, l, k);
      Spread(x[l], y[l], z[l], alpha, beta, Inner(x, z, l), Inner(y, z, l));
    }
  }

  lemma InnerNext(x: seq<real>, z: seq<real>, l: nat, k: nat)
    requires k == l + 1 <= |x| == |z|
    ensures Inner(x, z, k) == Inner(x, z, l) + x[l] * z[l]
  {
  }

  lemma Spread(x: real, y: real, z: real, alpha: real, beta: real, p: real, q: real)
    ensures alpha * p + beta * q + (alpha * x + beta * y) * z == alpha * (p + x * z) + beta * (q + y * z)
  {
  }

  lemma InnerLinear(x: seq<real>, y: seq<real>, z: seq<real>, alpha: real, beta: real, k: nat)
    requires |x| == |y| == |z| && k <= |x|
    ensures Inner(Combine(x, y, alpha, beta), z, k) == alpha * Inner(x, z, k) + beta * Inner(y, z, k)
    ensures Inner(z, Combine(x, y, alpha, beta), k) == alpha * Inner(z, x, k) + beta * Inner(z, y, k)
  {
    InnerLeft(x, y, z, alpha, beta, k);
    InnerCommutes(z, Combine(x, y, alpha, beta), k);
    InnerCommutes(z, x, k);
    InnerCommutes(z, y, k);
  }

  /** The products of the rows of a matrix with a row. */
  ghost function Image(a: seq<seq<real>>, y: seq<real>, n: nat): (r: seq<real>)
    requires |a| == n
    ensures |r| == n && forall k | 0 <= k < n :: r[k] == Inner(a[k], y, n)
  {
    seq(n, k requires 0 <= k < n => Inner(a[k], y, n))
  }

  lemma ImageLinear(a: seq<seq<real>>, x: seq<real>, y: seq<real>, alpha: real, beta: real, n: nat)
    requires Square(a, n) && |x| == |y| == n
    ensures Image(a, Combine(x, y, alpha, beta), n) == Combine(Image(a, x, n), Image(a, y, n), alpha, beta)
  {
    forall k | 0 <= k < n
      ensures Image(a, Combine(x, y, alpha, beta), n)[k] == Combine(Image(a, x, n), Image(a, y, n), alpha, beta)[k]
    {
      InnerLinear(x, y, a[k], alpha, beta, n);
    }
  }

  ghost function InnerForm(n: nat): Form {
    (x: seq<real>, y: seq<real>) => Inner(x, y, n)
  }

  /** `x * a * y^T` */
  ghost function MatrixForm(a: seq<seq<real>>, n: nat): Form
    requires |a| == n
  {
    (x: seq<real>, y: seq<real>) => Inner(x, Image(a, y, n), n)
  }

  lemma InnerBilinear(n: nat)
    ensures Bilinear(InnerForm(n), n)
  {
    forall x: seq<real>, y: seq<real>, z: seq<real>, alpha, beta | |x| == |y| == |z| == n
      ensures LinearLeft(InnerForm(n), x, y, z, alpha, beta) && LinearRight(InnerForm(n), x, y, z, alpha, beta)
    {
      InnerLinear(x, y, z, alpha, beta, n);
    }
  }

  lemma MatrixBilinear(a: seq<seq<real>>, n: nat)
    requires Square(a, n)
    ensures Bilinear(MatrixForm(a, n), n)
  {
    forall x: seq<real>, y: seq<real>, z: seq<real>, alpha, beta | |x| == |y| == |z| == n
      ensures LinearLeft(MatrixForm(a, n), x, y, z, alpha, beta) && LinearRight(MatrixForm(a, n), x, y, z, alpha, beta)
    {
      InnerLinear(x, y, Image(a, z, n), alpha, beta, n);
      ImageLinear(a, x, y, alpha, beta, n);
      InnerLinear(Image(a, x, n), Image(a, y, n), z, alpha, beta, n);
    }
  }
}
