/** Linking the corners of quads, and labelling the groups of linked quads. */
module FindCorners {
  import opened QuadGraph

  function Dist2(p: Point, q: Point): real {
    (p.x - q.x) * (p.x - q.x) + (p.y - q.y) * (p.y - q.y)
  }

  function Middle(p: Point, q: Point): Point {
    Point((p.x + q.x) * 0.5, (p.y + q.y) * 0.5)
  }

  /** The middle lies on the line between both points, equally far from them. */
  lemma MiddleBetween(p: Point, q: Point)
    ensures var m := Middle(p, q);
      && m.x - p.x == q.x - m.x && m.y - p.y == q.y - m.y
      && Dist2(p, m) == Dist2(m, q) && Dist2(p, q) == 4.0 * Dist2(p, m)
  {
    var m := Middle(p, q);
    Doubled(p.x - m.x);
    Doubled(p.y - m.y);
    assert p.x - q.x == (p.x - m.x) + (p.x - m.x) && p.y - q.y == (p.y - m.y) + (p.y - m.y);
  }

  lemma Doubled(a: real)
    ensures (a + a) * (a + a) == 4.0 * (a * a)
  {
  }

  lemma SquarePositive(a: real, b: real)
    requires a == b
    ensures a * b >= 0.0 && (a * b == 0.0 <==> a == 0.0)
  {
    if a > 0.0 {
      assert a * b > 0.0;
    } else if a < 0.0 {
      assert (-a) * (-b) > 0.0;
    }
  }

  /** The square of the distance: by the theorem of Pythagoras, and zero for the same point only. */
  lemma DistanceSquared(p: Point, u: real, v: real)
    ensures Dist2(p, Point(p.x + u, p.y + v)) == u * u + v * v == Dist2(Point(p.x + u, p.y + v), p)
    ensures Dist2(p, Point(p.x + u, p.y + v)) >= 0.0
    ensures Dist2(p, Point(p.x + u, p.y + v)) == 0.0 <==> u == 0.0 && v == 0.0
  {
    assert p.x - (p.x + u) == -u && (p.x + u) - p.x == u;
    assert p.y - (p.y + v) == -v && (p.y + v) - p.y == v;
    assert u * u == (-u) * (-u) && v * v == (-v) * (-v);
    SquarePositive(u, u);
    SquarePositive(v, v);
  }

  // ----- linking -----

  predicate Free(q: Quad, j: nat)
    requires j < 4
  {
    q.neighbors[j] < 0
  }

  /** A corner is free exactly if no quad of the vector is linked there. */
  lemma FreeIff(qs: seq<Quad>, a: nat, j: nat)
    requires Linked(qs) && a < |qs| && j < 4
    ensures Free(qs[a], j) <==> qs[a].neighbors[j] == -1
    ensures !Free(qs[a], j) <==> 0 <= qs[a].neighbors[j] < |qs|
  {
    assert SlotLinked(qs, a, j);
  }

  /** Corner `j` of quad `k` comes before corner `c` of quad `b`. */
  predicate Earlier(k: nat, j: nat, b: nat, c: nat) { k < b || (k == b && j < c) }

  /** Of the free corners of other quads, corner `c` of `b` is the first that is nearest to corner `i` of `idx`, within 11 pixels. */
  ghost predicate Nearest(qs: seq<Quad>, idx: nat, i: nat, b: nat, c: nat)
    requires idx < |qs| && i < 4
  {
    && b < |qs| && c < 4 && b != idx && Free(qs[b], c)
    && Dist2(qs[idx].corners[i], qs[b].corners[c]) < 121.0
    && forall k, j | 0 <= k < |qs| && 0 <= j < 4 && k != idx && Free(qs[k], j) :: NotNearer(qs, idx, i, b, c, k, j)
  }

  ghost predicate NotNearer(qs: seq<Quad>, idx: nat, i: nat, b: nat, c: nat, k: nat, j: nat)
    requires idx < |qs| && i < 4 && b < |qs| && c < 4 && k < |qs| && j < 4
  {
    var pt := qs[idx].corners[i];
    && Dist2(pt, qs[b].corners[c]) <= Dist2(pt, qs[k].corners[j])
    && (Earlier(k, j, b, c) ==> Dist2(pt, qs[b].corners[c]) < Dist2(pt, qs[k].corners[j]))
  }

  /** No corner of `idx` itself is nearer to the found one, and the two quads are not linked yet. */
  ghost predicate OwnCornersAgree(qs: seq<Quad>, idx: nat, i: nat, b: nat, c: nat)
    requires idx < |qs| && i < 4 && b < |qs| && c < 4
  {
    forall j | 0 <= j < 4 ::
      qs[idx].neighbors[j] != b && Dist2(qs[b].corners[c], qs[idx].corners[j]) >= Dist2(qs[idx].corners[i], qs[b].corners[c])
  }

  /** A free corner of the quad with the number of the corner is nearer to the found one. */
  ghost predicate OtherNearer(qs: seq<Quad>, idx: nat, i: nat, b: nat, c: nat)
    requires idx < |qs| && i < 4 <= |qs| && b < |qs| && c < 4
  {
    i != b && exists k :: 0 <= k < 4 && Free(qs[i], k) && Dist2(qs[b].corners[c], qs[i].corners[k]) < Dist2(qs[idx].corners[i], qs[b].corners[c])
  }

  /** Corner `i` of `idx` is to be linked with corner `c` of `b`. */
  ghost predicate ToLink(qs: seq<Quad>, idx: nat, i: nat, b: nat, c: nat)
    requires idx < |qs| && i < 4 <= |qs|
  {
    && Free(qs[idx], i) && Nearest(qs, idx, i, b, c)
    && qs[idx].count < 4 && qs[b].count < 4
    && OwnCornersAgree(qs, idx, i, b, c) && !OtherNearer(qs, idx, i, b, c)
  }

  lemma NearestUnique(qs: seq<Quad>, idx: nat, i: nat, b: nat, c: nat, b': nat, c': nat)
    requires idx < |qs| && i < 4 && Nearest(qs, idx, i, b, c) && Nearest(qs, idx, i, b', c')
    ensures b == b' && c == c'
  {
    assert NotNearer(qs, idx, i, b, c, b', c') && NotNearer(qs, idx, i, b', c', b, c);
  }

  /** The search has seen all corners before corner `j` of quad `k`, and `(b, c)` is the first nearest of them, if any is near. */
  ghost predicate NearestSoFar(qs: seq<Quad>, idx: nat, i: nat, k: nat, j: nat, found: bool, b: nat, c: nat, minDist: real)
    requires idx < |qs| && i < 4
  {
    && (found ==> b < |qs| && c < 4 && b != idx && Free(qs[b], c) && Earlier(b, c, k, j))
    && (found ==> minDist == Dist2(qs[idx].corners[i], qs[b].corners[c]) < 121.0)
    && (!found ==> minDist == 1111111111.0)
    && forall x, y | 0 <= x < |qs| && 0 <= y < 4 && x != idx && Free(qs[x], y) && Earlier(x, y, k, j) :: Seen(qs, idx, i, found, b, c, minDist, x, y)
  }

  ghost predicate Seen(qs: seq<Quad>, idx: nat, i: nat, found: bool, b: nat, c: nat, minDist: real, x: nat, y: nat)
    requires idx < |qs| && i < 4 && x < |qs| && y < 4
  {
    var d := Dist2(qs[idx].corners[i], qs[x].corners[y]);
    && (found ==> minDist <= d && (Earlier(x, y, b, c) ==> minDist < d))
    && (!found ==> d >= 121.0)
  }

  /** The nearest free corner of all other quads. */
  method FindClosest(quads: array<Quad>, idx: nat, i: nat) returns (found: bool, b: nat, c: nat, minDist: real)
    requires idx < quads.Length && i < 4
    ensures found ==> Nearest(quads[..], idx, i, b, c) && minDist == Dist2(quads[idx].corners[i], quads[b].corners[c])
    ensures !found ==> forall x: nat, y: nat :: !Nearest(quads[..], idx, i, x, y)
  {
    found, b, c, minDist := false, 0, 0, 1111111111.0;
    ghost var qs := quads[..];
    var pt := quads[idx].corners[i];
    for k := 0 to quads.Length
      invariant NearestSoFar(qs, idx, i, k, 0, found, b, c, minDist)
    {
      if k != idx {
        for j := 0 to 4
          invariant NearestSoFar(qs, idx, i, k, j, found, b, c, minDist)
        {
          ghost var was, wb, wc, wd := found, b, c, minDist;
          if Free(quads[k], j) {
            var dist := Dist2(pt, quads[k].corners[j]);
            if dist < minDist && dist < 121.0 {
              found, b, c, minDist := true, k, j, dist;
            }
          }
          SoFarStep(qs, idx, i, k, j, was, wb, wc, wd, found, b, c, minDist);
        }
      }
      NextQuad(qs, idx, i, k, found, b, c, minDist);
    }
    SoFarAll(qs, idx, i, quads.Length, found, b, c, minDist);
  }

  lemma SoFarStep(qs: seq<Quad>, idx: nat, i: nat, k: nat, j: nat, was: bool, wb: nat, wc: nat, wd: real, found: bool, b: nat, c: nat, minDist: real)
    requires idx < |qs| && i < 4 && k < |qs| && k != idx && j < 4 && NearestSoFar(qs, idx, i, k, j, was, wb, wc, wd)
    requires var d := Dist2(qs[idx].corners[i], qs[k].corners[j]);
      if Free(qs[k], j) && d < wd && d < 121.0
      then found && b == k && c == j && minDist == d
      else found == was && b == wb && c == wc && minDist == wd
    ensures NearestSoFar(qs, idx, i, k, j + 1, found, b, c, minDist)
  {
    forall x, y | 0 <= x < |qs| && 0 <= y < 4 && x != idx && Free(qs[x], y) && Earlier(x, y, k, j + 1)
      ensures Seen(qs, idx, i, found, b, c, minDist, x, y)
    {
      if Earlier(x, y, k, j) {
        assert Seen(qs, idx, i, was, wb, wc, wd, x, y);
      }
    }
  }

  lemma NextQuad(qs: seq<Quad>, idx: nat, i: nat, k: nat, found: bool, b: nat, c: nat, minDist: real)
    requires idx < |qs| && i < 4 && k < |qs|
    requires NearestSoFar(qs, idx, i, k, if k == idx then 0 else 4, found, b, c, minDist)
    ensures NearestSoFar(qs, idx, i, k + 1, 0, found, b, c, minDist)
  {
    var j := if k == idx then 0 else 4;
    forall x, y | 0 <= x < |qs| && 0 <= y < 4 && x != idx && Free(qs[x], y) && Earlier(x, y, k + 1, 0)
      ensures Seen(qs, idx, i, found, b, c, minDist, x, y)
    {
      assert Earlier(x, y, k, j);
    }
  }

  lemma SoFarAll(qs: seq<Quad>, idx: nat, i: nat, n: nat, found: bool, b: nat, c: nat, minDist: real)
    requires idx < |qs| == n && i < 4 && NearestSoFar(qs, idx, i, n, 0, found, b, c, minDist)
    ensures found ==> Nearest(qs, idx, i, b, c)
    ensures !found ==> forall x: nat, y: nat :: !Nearest(qs, idx, i, x, y)
  {
    if found {
      forall k, j | 0 <= k < |qs| && 0 <= j < 4 && k != idx && Free(qs[k], j) ensures NotNearer(qs, idx, i, b, c, k, j) {
        assert Seen(qs, idx, i, found, b, c, minDist, k, j);
      }
    } else {
      forall x: nat, y: nat ensures !Nearest(qs, idx, i, x, y) {
        if x < |qs| && y < 4 && x != idx && Free(qs[x], y) {
          assert Seen(qs, idx, i, found, b, c, minDist, x, y);
        }
      }
    }
  }

  /** The checks on the own corners of a quad. */
  method CheckOwnCorners(quads: array<Quad>, idx: nat, i: nat, b: nat, c: nat, minDist: real) returns (ok: bool)
    requires idx < quads.Length && i < 4 && b < quads.Length && c < 4 && minDist == Dist2(quads[idx].corners[i], quads[b].corners[c])
    ensures ok <==> OwnCornersAgree(quads[..], idx, i, b, c)
  {
    var closestCorner := quads[b].corners[c];
    for j := 0 to 4
      invariant forall l | 0 <= l < j :: quads[idx].neighbors[l] != b && Dist2(closestCorner, quads[idx].corners[l]) >= minDist
    {
      if quads[idx].neighbors[j] == b {
        return false;
      }
      if Dist2(closestCorner, quads[idx].corners[j]) < minDist {
        return false;
      }
    }
    return true;
  }

  /** The check among the first slots of the other quad; it finds nothing that the own slots do not show. */
  method CheckOtherSlots(quads: array<Quad>, idx: nat, b: nat) returns (ok: bool)
    requires Linked(quads[..]) && idx < quads.Length && b < quads.Length && NotYet(quads[..], idx, b)
    ensures ok
  {
    CountPositive(quads[..], b);
    NotYetSymmetric(quads[..], idx, b);
    for j := 0 to quads[b].count {
      if quads[b].neighbors[j] == idx {
        return false;
      }
    }
    return true;
  }

  /** The check that no other corner is nearer; it looks at the quad with the number of the corner, again and again. */
  method CheckOthers(quads: array<Quad>, idx: nat, i: nat, b: nat, c: nat, minDist: real) returns (ok: bool)
    requires 4 <= quads.Length && idx < quads.Length && i < 4 && b < quads.Length && b != idx && c < 4
    requires minDist == Dist2(quads[idx].corners[i], quads[b].corners[c])
    ensures ok <==> !OtherNearer(quads[..], idx, i, b, c)
  {
    var closestCorner := quads[b].corners[c];
    for j := 0 to quads.Length
      invariant j > 0 && (j > 1 || idx != 0) ==> !OtherNearer(quads[..], idx, i, b, c)
    {
      if j == idx || i == b {
        continue;
      }
      for k := 0 to 4
        invariant forall l | 0 <= l < k :: !(Free(quads[i], l) && Dist2(closestCorner, quads[i].corners[l]) < minDist)
      {
        if Free(quads[i], k) {
          if Dist2(closestCorner, quads[i].corners[k]) < minDist {
            return false;
          }
        }
      }
    }
    return true;
  }

  /** Both slots are filled, and both corners moved to the middle between them. */
  method LinkCorners(quads: array<Quad>, idx: nat, i: nat, b: nat, c: nat)
    requires Linked(quads[..]) && idx < quads.Length && i < 4 && b < quads.Length && c < 4 && b != idx
    requires Free(quads[idx], i) && Free(quads[b], c) && NotYet(quads[..], idx, b)
    modifies quads
    ensures quads[..] == old(Link(quads[..], idx, i, b, c, Middle(quads[idx].corners[i], quads[b].corners[c])))
    ensures Linked(quads[..])
  {
    var p := Middle(quads[idx].corners[i], quads[b].corners[c]);
    LinkKeeps(quads[..], idx, i, b, c, p);
    quads[b] := quads[b].(corners := quads[b].corners[c := p]);
    quads[idx] := quads[idx].(count := quads[idx].count + 1, neighbors := quads[idx].neighbors[i := b], corners := quads[idx].corners[i := p]);
    quads[b] := quads[b].(count := quads[b].count + 1, neighbors := quads[b].neighbors[c := idx]);
  }

  /**
   * Corner `i` of `a` and corner `c` of `b`, which were free, name each other; both have moved to the middle of the line between
   * them. Both quads have one neighbour more, and nothing else has changed.
   */
  ghost predicate Joined(qs: seq<Quad>, rs: seq<Quad>, a: nat, i: nat, b: nat, c: nat) {
    && a < |qs| == |rs| && b < |qs| && a != b && i < 4 && c < 4
    && qs[a].neighbors[i] < 0 && qs[b].neighbors[c] < 0
    && rs[a].neighbors == qs[a].neighbors[i := b] && rs[b].neighbors == qs[b].neighbors[c := a]
    && rs[a].count == qs[a].count + 1 && rs[b].count == qs[b].count + 1
    && rs[a].groupId == qs[a].groupId && rs[b].groupId == qs[b].groupId
    && (forall j | 0 <= j < 4 && j != i :: rs[a].corners[j] == qs[a].corners[j])
    && (forall j | 0 <= j < 4 && j != c :: rs[b].corners[j] == qs[b].corners[j])
    && (forall k | 0 <= k < |qs| && k != a && k != b :: rs[k] == qs[k])
    && var p, q, m := qs[a].corners[i], qs[b].corners[c], rs[a].corners[i];
       rs[b].corners[c] == m && m.x - p.x == q.x - m.x && m.y - p.y == q.y - m.y
  }

  lemma LinkJoins(qs: seq<Quad>, idx: nat, i: nat, b: nat, c: nat)
    requires idx < |qs| && i < 4 && b < |qs| && c < 4 && b != idx && Free(qs[idx], i) && Free(qs[b], c)
    ensures Joined(qs, Link(qs, idx, i, b, c, Middle(qs[idx].corners[i], qs[b].corners[c])), idx, i, b, c)
  {
    MiddleBetween(qs[idx].corners[i], qs[b].corners[c]);
  }

  /** One corner of one quad: it is linked exactly when there is a corner to link it with. */
  method TryCorner(quads: array<Quad>, idx: nat, i: nat) returns (linked: bool, b: nat, c: nat)
    requires Linked(quads[..]) && 4 <= quads.Length && idx < quads.Length && i < 4
    modifies quads
    ensures Linked(quads[..])
    ensures linked ==>
      && old(ToLink(quads[..], idx, i, b, c))
      && quads[..] == old(Link(quads[..], idx, i, b, c, Middle(quads[idx].corners[i], quads[b].corners[c])))
    ensures !linked ==> quads[..] == old(quads[..]) && forall x: nat, y: nat :: !ToLink(quads[..], idx, i, x, y)
    ensures linked ==> Joined(old(quads[..]), quads[..], idx, i, b, c)
  {
    linked, b, c := false, 0, 0;
    ghost var qs := quads[..];
    if !Free(quads[idx], i) {
      return;
    }
    var found, minDist;
    found, b, c, minDist := FindClosest(quads, idx, i);
    if !found {
      return;
    }
    forall x: nat, y: nat | ToLink(qs, idx, i, x, y) ensures x == b && y == c {
      NearestUnique(qs, idx, i, x, y, b, c);
    }
    if quads[idx].count >= 4 || quads[b].count >= 4 {
      return;
    }
    var own := CheckOwnCorners(quads, idx, i, b, c, minDist);
    if !own {
      return;
    }
    var slots := CheckOtherSlots(quads, idx, b);
    if !slots {
      return;
    }
    var others := CheckOthers(quads, idx, i, b, c, minDist);
    if !others {
      return;
    }
    LinkCorners(quads, idx, i, b, c);
    linked := true;
    LinkJoins(qs, idx, i, b, c);
  }

  /** Nothing but slots, counts and corners differs. */
  ghost predicate SameGroups(qs: seq<Quad>, rs: seq<Quad>) {
    |qs| == |rs| && forall a | 0 <= a < |qs| :: rs[a].groupId == qs[a].groupId
  }

  /** Corner `i` of `idx` linked with corner `c` of `b`. */
  ghost function LinkedWith(qs: seq<Quad>, idx: nat, i: nat, b: nat, c: nat): (r: seq<Quad>)
    requires idx < |qs| && i < 4
    ensures |r| == |qs|
  {
    if b < |qs| && c < 4 && b != idx then Link(qs, idx, i, b, c, Middle(qs[idx].corners[i], qs[b].corners[c])) else qs
  }

  /** What trying one corner makes of the vector. */
  ghost function Tried(qs: seq<Quad>, idx: nat, i: nat): (r: seq<Quad>)
    requires idx < |qs| && i < 4 <= |qs|
    ensures |r| == |qs|
  {
    if exists b: nat, c: nat :: ToLink(qs, idx, i, b, c) then
      var b: nat, c: nat :| ToLink(qs, idx, i, b, c);
      LinkedWith(qs, idx, i, b, c)
    else qs
  }

  lemma ToLinkUnique(qs: seq<Quad>, idx: nat, i: nat, b: nat, c: nat, b': nat, c': nat)
    requires idx < |qs| && i < 4 <= |qs| && ToLink(qs, idx, i, b, c) && ToLink(qs, idx, i, b', c')
    ensures b == b' && c == c'
  {
    NearestUnique(qs, idx, i, b, c, b', c');
  }

  /** Behind trying, one after the other, all corners of the quads in front of `idx` and the first `i` corners of `idx`. */
  ghost function TriedUpto(qs: seq<Quad>, idx: nat, i: nat): (r: seq<Quad>)
    requires idx <= |qs| && i <= 4 <= |qs| && (i > 0 ==> idx < |qs|)
    ensures |r| == |qs|
    decreases idx, i
  {
    if i > 0 then Tried(TriedUpto(qs, idx, i - 1), idx, i - 1)
    else if idx > 0 then TriedUpto(qs, idx - 1, 4)
    else qs
  }

  /** One try after the other: all corners of all quads, quad by quad and corner by corner. */
  ghost predicate InTurn(qs: seq<Quad>, rs: seq<Quad>) {
    exists steps: seq<seq<Quad>> :: AreTries(qs, rs, steps)
  }

  ghost predicate AreTries(qs: seq<Quad>, rs: seq<Quad>, steps: seq<seq<Quad>>) {
    && |steps| == 4 * |qs| + 1 && steps[0] == qs && steps[4 * |qs|] == rs
    && forall k | 0 <= k < 4 * |qs| :: IsTry(|qs|, steps[k], steps[k + 1], k / 4, k % 4)
  }

  /** The corner is linked if there is one to link it with; if not, nothing changes. */
  ghost predicate IsTry(n: nat, qs: seq<Quad>, rs: seq<Quad>, idx: nat, i: nat) {
    && |qs| == n >= 4 && idx < n && i < 4
    && (rs == qs || exists b: nat, c: nat :: ToLink(qs, idx, i, b, c) && Joined(qs, rs, idx, i, b, c))
    && (rs == qs ==> forall b: nat, c: nat :: !ToLink(qs, idx, i, b, c))
  }

  lemma TriedIsTry(qs: seq<Quad>, idx: nat, i: nat)
    requires idx < |qs| && i < 4 <= |qs|
    ensures IsTry(|qs|, qs, Tried(qs, idx, i), idx, i)
  {
    hide ToLink, LinkedWith, Joined;
    if b: nat, c: nat :| ToLink(qs, idx, i, b, c) {
      var x: nat, y: nat :| ToLink(qs, idx, i, x, y) && Tried(qs, idx, i) == LinkedWith(qs, idx, i, x, y);
      ToLinkJoins(qs, idx, i, x, y);
    }
  }

  lemma ToLinkJoins(qs: seq<Quad>, idx: nat, i: nat, b: nat, c: nat)
    requires idx < |qs| && i < 4 <= |qs| && ToLink(qs, idx, i, b, c)
    ensures Joined(qs, LinkedWith(qs, idx, i, b, c), idx, i, b, c) && LinkedWith(qs, idx, i, b, c) != qs
  {
    hide OwnCornersAgree, OtherNearer;
    LinkJoins(qs, idx, i, b, c);
    assert LinkedWith(qs, idx, i, b, c)[idx].count == qs[idx].count + 1;
  }

  lemma {:induction false} TriesUpto(qs: seq<Quad>, idx: nat, i: nat) returns (steps: seq<seq<Quad>>)
    requires idx <= |qs| && i <= 4 <= |qs| && (i > 0 ==> idx < |qs|)
    ensures |steps| == 4 * idx + i + 1 && steps[0] == qs && steps[4 * idx + i] == TriedUpto(qs, idx, i)
    ensures forall k | 0 <= k < 4 * idx + i :: IsTry(|qs|, steps[k], steps[k + 1], k / 4, k % 4)
    decreases idx, i
  {
    hide IsTry, Tried;
    if i > 0 {
      var before := TriesUpto(qs, idx, i - 1);
      var last := before[4 * idx + (i - 1)];
      steps := before + [Tried(last, idx, i - 1)];
      TriedIsTry(last, idx, i - 1);
      assert (4 * idx + (i - 1)) / 4 == idx && (4 * idx + (i - 1)) % 4 == i - 1;
      forall k | 0 <= k < 4 * idx + i ensures IsTry(|qs|, steps[k], steps[k + 1], k / 4, k % 4) {
        if k < 4 * idx + (i - 1) {
          assert IsTry(|qs|, before[k], before[k + 1], k / 4, k % 4);
        }
      }
    } else if idx > 0 {
      steps := TriesUpto(qs, idx - 1, 4);
    } else {
      steps := [qs];
    }
  }

  lemma TriedIs(qs: seq<Quad>, rs: seq<Quad>, idx: nat, i: nat, linked: bool, b: nat, c: nat)
    requires idx < |qs| && i < 4 <= |qs|
    requires linked ==> ToLink(qs, idx, i, b, c) && rs == LinkedWith(qs, idx, i, b, c)
    requires !linked ==> rs == qs && forall x: nat, y: nat :: !ToLink(qs, idx, i, x, y)
    ensures rs == Tried(qs, idx, i)
  {
    hide ToLink, LinkedWith;
    if linked {
      var x: nat, y: nat :| ToLink(qs, idx, i, x, y) && Tried(qs, idx, i) == LinkedWith(qs, idx, i, x, y);
      ToLinkUnique(qs, idx, i, b, c, x, y);
    }
  }

  /** `findQuadNeighbors`: all corners of all quads are tried, and the relation stays symmetric and simple all along. */
  method FindQuadNeighbors(quads: array<Quad>)
    requires Linked(quads[..]) && 4 <= quads.Length
    modifies quads
    ensures Linked(quads[..]) && SameGroups(old(quads[..]), quads[..])
    ensures quads[..] == TriedUpto(old(quads[..]), quads.Length, 0)
    ensures InTurn(old(quads[..]), quads[..])
  {
    hide Linked, InTurn, Tried, OwnCornersAgree, OtherNearer, Dist2;
    ghost var qs := quads[..];
    for idx := 0 to quads.Length
      invariant Linked(quads[..]) && SameGroups(qs, quads[..]) && quads[..] == TriedUpto(qs, idx, 0)
    {
      for i := 0 to 4
        invariant Linked(quads[..]) && SameGroups(qs, quads[..]) && quads[..] == TriedUpto(qs, idx, i)
      {
        ghost var was := quads[..];
        var linked, b, c := TryCorner(quads, idx, i);
        TriedIs(was, quads[..], idx, i, linked, b, c);
      }
    }
    AllTried(qs);
  }

  lemma AllTried(qs: seq<Quad>)
    requires 4 <= |qs|
    ensures InTurn(qs, TriedUpto(qs, |qs|, 0))
  {
    hide IsTry, TriedUpto;
    var steps := TriesUpto(qs, |qs|, 0);
    assert AreTries(qs, TriedUpto(qs, |qs|, 0), steps);
  }
}
