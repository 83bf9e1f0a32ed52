/**
 * The last check before two corners are linked: what it is meant to find, what it finds, and when that is the same.
 */
module OtherCorners {
  import opened QuadGraph
  import opened FindCorners

  /** A free corner of quad `j` is nearer to the found one. */
  ghost predicate QuadNearer(qs: seq<Quad>, idx: nat, i: nat, b: nat, c: nat, j: nat)
    requires idx < |qs| && i < 4 && b < |qs| && c < 4 && j < |qs|
  {
    exists k :: 0 <= k < 4 && Free(qs[j], k) && Dist2(qs[b].corners[c], qs[j].corners[k]) < Dist2(qs[idx].corners[i], qs[b].corners[c])
  }

  /** What the check is there for: a third quad has a nearer free corner. */
  ghost predicate ThirdNearer(qs: seq<Quad>, idx: nat, i: nat, b: nat, c: nat)
    requires idx < |qs| && i < 4 && b < |qs| && c < 4
  {
    exists j :: 0 <= j < |qs| && j != idx && j != b && QuadNearer(qs, idx, i, b, c, j)
  }

  /** The corners that are to be linked if the check does what it is there for. */
  ghost predicate MeantToLink(qs: seq<Quad>, idx: nat, i: nat, b: nat, c: nat)
    requires idx < |qs| && i < 4 <= |qs|
  {
    && Free(qs[idx], i) && Nearest(qs, idx, i, b, c)
    && qs[idx].count < 4 && qs[b].count < 4
    && OwnCornersAgree(qs, idx, i, b, c) && !ThirdNearer(qs, idx, i, b, c)
  }

  /** Behind the check of the own corners, the quad with the number of the corner counts as a third one only if it is one. */
  lemma LooksAtOne(qs: seq<Quad>, idx: nat, i: nat, b: nat, c: nat)
    requires idx < |qs| && i < 4 <= |qs| && b < |qs| && c < 4 && OwnCornersAgree(qs, idx, i, b, c)
    ensures OtherNearer(qs, idx, i, b, c) <==> i != b && i != idx && QuadNearer(qs, idx, i, b, c, i)
  {
    forall k | 0 <= k < 4 ensures Dist2(qs[b].corners[c], qs[idx].corners[k]) >= Dist2(qs[idx].corners[i], qs[b].corners[c]) {
      assert qs[idx].neighbors[k] != b;
    }
  }

  /** The check rejects nothing but what it is meant to reject: what is meant to be linked is linked. */
  lemma MeantIsLinked(qs: seq<Quad>, idx: nat, i: nat, b: nat, c: nat)
    requires idx < |qs| && i < 4 <= |qs| && MeantToLink(qs, idx, i, b, c)
    ensures ToLink(qs, idx, i, b, c)
  {
    LooksAtOne(qs, idx, i, b, c);
  }

  /**
   * The check does what it is meant to do if and only if no third quad has a nearer free corner, or the quad with
   * the number of the corner is a third one and has one. Everywhere else corners are linked that should not be.
   */
  lemma AgreesIff(qs: seq<Quad>, idx: nat, i: nat, b: nat, c: nat)
    requires idx < |qs| && i < 4 <= |qs| && b < |qs| && c < 4 && OwnCornersAgree(qs, idx, i, b, c)
    ensures (OtherNearer(qs, idx, i, b, c) <==> ThirdNearer(qs, idx, i, b, c)) <==>
      (i != b && i != idx && QuadNearer(qs, idx, i, b, c, i)) || forall j | 0 <= j < |qs| && j != idx && j != b :: !QuadNearer(qs, idx, i, b, c, j)
  {
    LooksAtOne(qs, idx, i, b, c);
  }

  /** The same for the corners that are linked. */
  lemma LinksAsMeantIff(qs: seq<Quad>, idx: nat, i: nat, b: nat, c: nat)
    requires idx < |qs| && i < 4 <= |qs| && ToLink(qs, idx, i, b, c)
    ensures MeantToLink(qs, idx, i, b, c) <==> forall j | 0 <= j < |qs| && j != idx && j != b :: !QuadNearer(qs, idx, i, b, c, j)
  {
  }

  // ----- an input -----

  /** The lengths of the diagonals and sides that `generateQuads` computes. */
  datatype Lengths = Lengths(d1: real, d2: real, d3: real, d4: real, d5: real, d6: real)

  predicate IsLength(d: real, p: Point, q: Point) { d >= 0.0 && d * d == Dist2(p, q) }

  /** Twice the area, with a sign, of the triangle. */
  function Cross(p: Point, q: Point, r: Point): real {
    (q.x - p.x) * (r.y - p.y) - (q.y - p.y) * (r.x - p.x)
  }

  /** `isContourConvex` and `contourArea` for four points in this turn. */
  predicate Convex(c: Corners) {
    Cross(c[0], c[1], c[2]) > 0.0 && Cross(c[1], c[2], c[3]) > 0.0 && Cross(c[2], c[3], c[0]) > 0.0 && Cross(c[3], c[0], c[1]) > 0.0
  }

  function Area(c: Corners): real {
    (Cross(c[0], c[1], c[2]) + Cross(c[0], c[2], c[3])) * 0.5
  }

  /** What `generateQuads` asks of a quad. */
  ghost predicate Generated(c: Corners, d: Lengths) {
    && Convex(c) && Area(c) >= 121.0
    && IsLength(d.d1, c[0], c[2]) && IsLength(d.d2, c[1], c[3])
    && IsLength(d.d3, c[0], c[1]) && IsLength(d.d4, c[1], c[2]) && IsLength(d.d5, c[2], c[3]) && IsLength(d.d6, c[3], c[0])
    && var p := d.d3 + d.d4 + d.d5 + d.d6;
       && 5.0 * d.d3 > d.d4 && 5.0 * d.d4 > d.d3 && d.d3 * d.d4 < 1.5 * Area(c) && d.d1 > 0.15 * p && d.d2 > 0.15 * p
       && 1.5 * d.d3 > d.d5 && 1.5 * d.d5 > d.d3 && 1.5 * d.d4 > d.d6 && 1.5 * d.d6 > d.d4
  }

  /** How `orderQuads` leaves the corners. */
  predicate Ordered(c: Corners) {
    var y := 0.25 * (c[0].y + c[1].y + c[2].y + c[3].y);
    c[0].x < c[1].x && c[0].y < y && c[1].y < y && c[2].x > c[3].x && c[2].y > y && c[3].y > y
  }

  /** A box of 40 by 30 pixels, not linked yet. */
  function Box(x: real, y: real): Quad {
    Quad(0, -1, [Point(x, y), Point(x + 40.0, y), Point(x + 40.0, y + 30.0), Point(x, y + 30.0)], [-1, -1, -1, -1])
  }

  lemma BoxGenerated(x: real, y: real)
    ensures Generated(Box(x, y).corners, Lengths(50.0, 50.0, 40.0, 30.0, 40.0, 30.0)) && Ordered(Box(x, y).corners)
  {
    var c := Box(x, y).corners;
    Sides(x, y);
    assert Area(c) == 1200.0;
  }

  lemma Sides(x: real, y: real)
    ensures var c := Box(x, y).corners;
      && Dist2(c[0], c[1]) == Dist2(c[2], c[3]) == 1600.0 && Dist2(c[1], c[2]) == Dist2(c[3], c[0]) == 900.0
      && Dist2(c[0], c[2]) == Dist2(c[1], c[3]) == 2500.0
      && Cross(c[0], c[1], c[2]) == Cross(c[1], c[2], c[3]) == Cross(c[2], c[3], c[0]) == Cross(c[3], c[0], c[1]) == 1200.0
      && Cross(c[0], c[2], c[3]) == 1200.0
  {
    var u, v := 40.0, 30.0;
    assert x + u - x == u && y + v - y == v && x - (x + u) == -u && y - (y + v) == -v;
  }

  /** Eight boxes: the places of their upper left corners. */
  function XAt(k: nat): real { if k == 0 then 100.0 else if k == 1 then 148.0 else if k == 3 then 152.0 else 100.0 * (k as real) + 200.0 }
  function YAt(k: nat): real { if k == 1 then 132.0 else if k == 3 then 98.0 else 100.0 }

  function Board(): (qs: seq<Quad>)
    ensures |qs| == 8 && forall k | 0 <= k < 8 :: qs[k] == Box(XAt(k), YAt(k))
  {
    seq(8, k requires 0 <= k < 8 => Box(XAt(k), YAt(k)))
  }

  /** The boxes do not overlap. */
  predicate Disjoint(q: Quad, r: Quad) {
    || q.corners[1].x < r.corners[0].x || r.corners[1].x < q.corners[0].x
    || q.corners[3].y < r.corners[0].y || r.corners[3].y < q.corners[0].y
  }

  lemma FreshLinked(qs: seq<Quad>)
    requires forall a | 0 <= a < |qs| :: qs[a].neighbors == [-1, -1, -1, -1] && qs[a].count == 0
    ensures Linked(qs)
  {
    forall a | 0 <= a < |qs| ensures qs[a].count == Filled(qs[a].neighbors, 4) {
      FilledBound(qs[a].neighbors, 4);
    }
  }

  /** The board is one that the program may find in an image. */
  lemma BoardIsInput()
    ensures Linked(Board()) && forall k | 0 <= k < 8 :: Generated(Board()[k].corners, Lengths(50.0, 50.0, 40.0, 30.0, 40.0, 30.0)) && Ordered(Board()[k].corners)
    ensures forall j, k | 0 <= j < k < 8 :: Disjoint(Board()[j], Board()[k])
  {
    FreshLinked(Board());
    forall k | 0 <= k < 8 ensures Generated(Board()[k].corners, Lengths(50.0, 50.0, 40.0, 30.0, 40.0, 30.0)) && Ordered(Board()[k].corners) {
      BoxGenerated(XAt(k), YAt(k));
    }
  }

  /** Corner 2 of the first box is at (140, 130). Every other corner is no nearer to it than (148, 132). */
  lemma FarFromCorner(k: nat, j: nat)
    requires 0 < k < 8 && j < 4
    ensures Dist2(Board()[0].corners[2], Board()[k].corners[j]) > 68.0 || (k == 1 && j == 0)
  {
    var p := Board()[k].corners[j];
    var u, v := 140.0 - p.x, 130.0 - p.y;
    if k == 1 && j > 0 {
      assert u <= -48.0 || v <= -32.0;
    } else if k == 3 {
      assert u <= -12.0;
    } else if k != 1 {
      assert u <= -260.0;
    }
    Far(u, v);
  }

  lemma Far(u: real, v: real)
    ensures u <= -12.0 || v <= -12.0 ==> u * u + v * v > 68.0
  {
    Squared(u);
    Squared(v);
  }

  lemma Squared(u: real)
    ensures u * u >= 0.0 && (u <= -12.0 ==> u * u >= 144.0)
  {
  }

  /**
   * On that board the lower right corner of the first box is linked with the upper left one of the second, although the
   * lower left one of the fourth box is nearer to that: for corner 2 the check looks at the third box only.
   */
  lemma LinkedPastANearerOne()
    ensures ToLink(Board(), 0, 2, 1, 0) && QuadNearer(Board(), 0, 2, 1, 0, 3) && !MeantToLink(Board(), 0, 2, 1, 0)
  {
    hide Dist2;
    var qs := Board();
    Near(140.0, 130.0, 148.0, 132.0);
    Near(148.0, 132.0, 152.0, 128.0);
    assert Dist2(qs[0].corners[2], qs[1].corners[0]) == 68.0 && Dist2(qs[1].corners[0], qs[3].corners[3]) == 32.0 && Free(qs[3], 3);
    forall k, j | 0 <= k < 8 && 0 <= j < 4 && k != 0 && Free(qs[k], j) ensures NotNearer(qs, 0, 2, 1, 0, k, j) {
      FarFromCorner(k, j);
    }
    FirstBoxApart();
    assert !QuadNearer(qs, 0, 2, 1, 0, 2) by {
      ThirdBoxFar();
    }
    LooksAtOne(qs, 0, 2, 1, 0);
  }

  lemma Near(x: real, y: real, u: real, v: real)
    ensures Dist2(Point(x, y), Point(u, v)) == (x - u) * (x - u) + (y - v) * (y - v)
  {
  }

  lemma FirstBoxApart()
    ensures OwnCornersAgree(Board(), 0, 2, 1, 0)
  {
    forall j | 0 <= j < 4 ensures Dist2(Board()[1].corners[0], Board()[0].corners[j]) >= Dist2(Board()[0].corners[2], Board()[1].corners[0]) {
      var p := Board()[0].corners[j];
      if j != 2 {
        Far(p.x - 148.0, p.y - 132.0);
      }
    }
  }

  lemma ThirdBoxFar()
    ensures forall j | 0 <= j < 4 :: Dist2(Board()[1].corners[0], Board()[2].corners[j]) > 68.0
  {
    forall j | 0 <= j < 4 ensures Dist2(Board()[1].corners[0], Board()[2].corners[j]) > 68.0 {
      var p := Board()[2].corners[j];
      Far(148.0 - p.x, 132.0 - p.y);
    }
  }
}
