/** Quads whose corners are linked: a symmetric relation without loops and without double links. */
module QuadGraph {

  datatype Point = Point(x: real, y: real)

  type Corners = s: seq<Point> | |s| == 4 witness [Point(0.0, 0.0), Point(0.0, 0.0), Point(0.0, 0.0), Point(0.0, 0.0)]
  type Slots = s: seq<int> | |s| == 4 witness [-1, -1, -1, -1]

  /** A quad of the vector; a neighbour is named by its position in the vector, none by -1. */
  datatype Quad = Quad(count: nat, groupId: int, corners: Corners, neighbors: Slots)

  /** Number of filled slots among the first `k`. */
  ghost function Filled(nb: Slots, k: nat): nat
    requires k <= 4
  {
    if k == 0 then 0 else Filled(nb, k - 1) + if nb[k - 1] >= 0 then 1 else 0
  }

  /** Slot `c` of `b` answers slot `i` of `a`: it names `a`, and both corners are the same point. */
  ghost predicate Answers(qs: seq<Quad>, a: nat, i: nat, b: nat, c: nat)
    requires a < |qs| && b < |qs| && i < 4 && c < 4
  {
    qs[b].neighbors[c] == a && qs[b].corners[c] == qs[a].corners[i]
  }

  ghost predicate Answered(qs: seq<Quad>, a: nat, i: nat, b: nat)
    requires a < |qs| && b < |qs| && i < 4
  {
    exists c: nat :: c < 4 && Answers(qs, a, i, b, c)
  }

  ghost predicate SlotLinked(qs: seq<Quad>, a: nat, i: nat)
    requires a < |qs| && i < 4
  {
    var b := qs[a].neighbors[i];
    -1 <= b < |qs| && (b >= 0 ==> b != a && Answered(qs, a, i, b))
  }

  ghost predicate NoDouble(nb: Slots) {
    forall i, j | 0 <= i < j < 4 :: nb[i] >= 0 ==> nb[i] != nb[j]
  }

  /** The relation is symmetric and simple, and every count is the number of filled slots. */
  ghost predicate Linked(qs: seq<Quad>) {
    && (forall a | 0 <= a < |qs| :: qs[a].count == Filled(qs[a].neighbors, 4) && NoDouble(qs[a].neighbors))
    && (forall a, i | 0 <= a < |qs| && 0 <= i < 4 :: SlotLinked(qs, a, i))
  }

  ghost predicate Neighbors(qs: seq<Quad>, a: nat, b: nat) {
    a < |qs| && b < |qs| && exists i :: 0 <= i < 4 && qs[a].neighbors[i] == b
  }

  lemma NeighborsSymmetric(qs: seq<Quad>, a: nat, b: nat)
    requires Linked(qs) && Neighbors(qs, a, b)
    ensures Neighbors(qs, b, a)
  {
    var i :| 0 <= i < 4 && qs[a].neighbors[i] == b;
    assert SlotLinked(qs, a, i);
    var c: nat :| c < 4 && Answers(qs, a, i, b, c);
    assert qs[b].neighbors[c] == a;
  }

  lemma {:induction false} FilledSet(nb: Slots, i: nat, b: int, k: nat)
    requires i < 4 && k <= 4 && nb[i] < 0 <= b
    ensures Filled(nb[i := b], k) == Filled(nb, k) + if i < k then 1 else 0
  {
    if k > 0 {
      FilledSet(nb, i, b, k - 1);
    }
  }

  lemma {:induction false} FilledBound(nb: Slots, k: nat)
    requires k <= 4
    ensures Filled(nb, k) <= k
    ensures Filled(nb, k) == k <==> forall i | 0 <= i < k :: nb[i] >= 0
    ensures Filled(nb, k) == 0 <==> forall i | 0 <= i < k :: nb[i] < 0
  {
    if k > 0 {
      FilledBound(nb, k - 1);
    }
  }

  /** A quad has a neighbour exactly when its count is positive. */
  lemma CountPositive(qs: seq<Quad>, a: nat)
    requires Linked(qs) && a < |qs|
    ensures qs[a].count <= 4
    ensures qs[a].count > 0 <==> exists b :: Neighbors(qs, a, b)
  {
    var nb := qs[a].neighbors;
    FilledBound(nb, 4);
    if qs[a].count > 0 {
      var i :| 0 <= i < 4 && nb[i] >= 0;
      assert SlotLinked(qs, a, i);
      assert Neighbors(qs, a, nb[i]);
    }
  }

  function LinkedQuad(q: Quad, i: nat, b: int, p: Point): Quad
    requires i < 4
  {
    q.(count := q.count + 1, corners := q.corners[i := p], neighbors := q.neighbors[i := b])
  }

  /** The slot `i` of `a` and the slot `c` of `b` are linked, and their corners moved together. */
  ghost function Link(qs: seq<Quad>, a: nat, i: nat, b: nat, c: nat, p: Point): (r: seq<Quad>)
    requires a < |qs| && b < |qs| && i < 4 && c < 4 && a != b
    ensures |r| == |qs|
  {
    qs[a := LinkedQuad(qs[a], i, b, p)][b := LinkedQuad(qs[b], c, a, p)]
  }

  /** `b` is not yet a neighbour of `a`. */
  ghost predicate NotYet(qs: seq<Quad>, a: nat, b: nat)
    requires a < |qs|
  {
    forall j | 0 <= j < 4 :: qs[a].neighbors[j] != b
  }

  lemma NotYetSymmetric(qs: seq<Quad>, a: nat, b: nat)
    requires Linked(qs) && a < |qs| && b < |qs| && NotYet(qs, a, b)
    ensures NotYet(qs, b, a)
  {
    forall j | 0 <= j < 4 ensures qs[b].neighbors[j] != a {
      if qs[b].neighbors[j] == a {
        assert Neighbors(qs, b, a);
        NeighborsSymmetric(qs, b, a);
      }
    }
  }

  /** A slot that was linked stays so when two other, empty slots are linked. */
  lemma OtherSlot(qs: seq<Quad>, a: nat, i: nat, b: nat, c: nat, p: Point, x: nat, k: nat)
    requires Linked(qs) && a < |qs| && b < |qs| && i < 4 && c < 4 && a != b && x < |qs| && k < 4
    requires qs[a].neighbors[i] < 0 && qs[b].neighbors[c] < 0 && !(x == a && k == i) && !(x == b && k == c)
    ensures SlotLinked(Link(qs, a, i, b, c, p), x, k)
  {
    var r := Link(qs, a, i, b, c, p);
    assert SlotLinked(qs, x, k);
    var y := qs[x].neighbors[k];
    if y >= 0 {
      var d: nat :| d < 4 && Answers(qs, x, k, y, d);
      assert Answers(r, x, k, y, d);
    }
  }

  lemma LinkCounts(qs: seq<Quad>, a: nat, i: nat, b: nat, c: nat, p: Point, x: nat)
    requires Linked(qs) && a < |qs| && b < |qs| && i < 4 && c < 4 && a != b && x < |qs|
    requires qs[a].neighbors[i] < 0 && qs[b].neighbors[c] < 0 && NotYet(qs, a, b) && NotYet(qs, b, a)
    ensures var r := Link(qs, a, i, b, c, p); r[x].count == Filled(r[x].neighbors, 4) && NoDouble(r[x].neighbors)
  {
    FilledSet(qs[a].neighbors, i, b, 4);
    FilledSet(qs[b].neighbors, c, a, 4);
    assert NoDouble(qs[x].neighbors);
  }

  /** Linking two empty slots of quads that are not neighbours yet keeps the relation symmetric and simple. */
  lemma LinkKeeps(qs: seq<Quad>, a: nat, i: nat, b: nat, c: nat, p: Point)
    requires Linked(qs) && a < |qs| && b < |qs| && i < 4 && c < 4 && a != b
    requires qs[a].neighbors[i] < 0 && qs[b].neighbors[c] < 0 && NotYet(qs, a, b)
    ensures Linked(Link(qs, a, i, b, c, p))
  {
    var r := Link(qs, a, i, b, c, p);
    NotYetSymmetric(qs, a, b);
    assert Answers(r, a, i, b, c) && Answers(r, b, c, a, i);
    forall x, k | 0 <= x < |r| && 0 <= k < 4 ensures SlotLinked(r, x, k) {
      if !(x == a && k == i) && !(x == b && k == c) {
        OtherSlot(qs, a, i, b, c, p, x, k);
      }
    }
    forall x | 0 <= x < |r| ensures r[x].count == Filled(r[x].neighbors, 4) && NoDouble(r[x].neighbors) {
      LinkCounts(qs, a, i, b, c, p, x);
    }
  }

  // ----- connected quads -----

  /** A walk of `n` steps from neighbour to neighbour. */
  ghost predicate Walk(qs: seq<Quad>, a: nat, b: nat, n: nat)
    decreases n
  {
    if n == 0 then a == b < |qs| else exists c: nat :: Walk(qs, a, c, n - 1) && Neighbors(qs, c, b)
  }

  ghost predicate Connected(qs: seq<Quad>, a: nat, b: nat) {
    exists n: nat :: Walk(qs, a, b, n)
  }

  lemma ConnectedSelf(qs: seq<Quad>, a: nat)
    requires a < |qs|
    ensures Connected(qs, a, a)
  {
    assert Walk(qs, a, a, 0);
  }

  lemma ConnectedStep(qs: seq<Quad>, a: nat, b: nat, c: nat)
    requires Connected(qs, a, b) && Neighbors(qs, b, c)
    ensures Connected(qs, a, c)
  {
    var n: nat :| Walk(qs, a, b, n);
    assert Walk(qs, a, c, n + 1);
  }

  lemma {:induction false} ConnectedThrough(qs: seq<Quad>, a: nat, b: nat, c: nat, n: nat)
    requires Connected(qs, a, b) && Walk(qs, b, c, n)
    ensures Connected(qs, a, c)
    decreases n
  {
    if n > 0 {
      var d: nat :| Walk(qs, b, d, n - 1) && Neighbors(qs, d, c);
      ConnectedThrough(qs, a, b, d, n - 1);
      ConnectedStep(qs, a, d, c);
    }
  }

  lemma {:induction false} ConnectedBack(qs: seq<Quad>, a: nat, b: nat, n: nat)
    requires Linked(qs) && Walk(qs, a, b, n)
    ensures Connected(qs, b, a)
    decreases n
  {
    if n == 0 {
      ConnectedSelf(qs, a);
    } else {
      var c: nat :| Walk(qs, a, c, n - 1) && Neighbors(qs, c, b);
      ConnectedBack(qs, a, c, n - 1);
      NeighborsSymmetric(qs, c, b);
      ConnectedSelf(qs, b);
      ConnectedStep(qs, b, b, c);
      var m: nat :| Walk(qs, c, a, m);
      ConnectedThrough(qs, b, c, a, m);
    }
  }

  /** Being connected is an equivalence on the quads of the vector. */
  lemma ConnectedEquivalence(qs: seq<Quad>, a: nat, b: nat, c: nat)
    requires Linked(qs) && a < |qs|
    ensures Connected(qs, a, a)
    ensures Connected(qs, a, b) ==> Connected(qs, b, a)
    ensures Connected(qs, a, b) && Connected(qs, b, c) ==> Connected(qs, a, c)
  {
    ConnectedSelf(qs, a);
    if Connected(qs, a, b) {
      var n: nat :| Walk(qs, a, b, n);
      ConnectedBack(qs, a, b, n);
    }
    if Connected(qs, a, b) && Connected(qs, b, c) {
      var n: nat :| Walk(qs, b, c, n);
      ConnectedThrough(qs, a, b, c, n);
    }
  }
}
