/** Groups of connected quads, found by depth-first search. */
module QuadGroups {
  import opened QuadGraph
  import opened FiniteSets

  /** The vector `rs` is `qs` with other group ids. */
  ghost predicate Relabelled(qs: seq<Quad>, rs: seq<Quad>) {
    |rs| == |qs| && forall a | 0 <= a < |qs| :: rs[a] == qs[a].(groupId := rs[a].groupId)
  }

  ghost function Label(rs: seq<Quad>, a: nat): int
    requires a < |rs|
  {
    rs[a].groupId
  }

  /** Labels are below `g`, or negative where there is none; neighbours share their label, and what shares a label is connected. */
  ghost predicate Classes(qs: seq<Quad>, rs: seq<Quad>, g: int) {
    && Relabelled(qs, rs)
    && (forall a | 0 <= a < |qs| :: Label(rs, a) < g && (Label(rs, a) >= 0 ==> qs[a].count > 0))
    && (forall a, b | Neighbors(qs, a, b) :: SameLabel(rs, a, b))
    && (forall a, b | 0 <= a < |qs| && 0 <= b < |qs| && Label(rs, a) == Label(rs, b) >= 0 :: Connected(qs, a, b))
  }

  /** Both have the same label, or neither has one. */
  ghost predicate SameLabel(rs: seq<Quad>, a: nat, b: nat)
    requires a < |rs| && b < |rs|
  {
    Label(rs, a) == Label(rs, b) || (Label(rs, a) < 0 && Label(rs, b) < 0)
  }

  lemma {:induction false} SameLabelAlong(qs: seq<Quad>, rs: seq<Quad>, g: int, a: nat, b: nat, n: nat)
    requires Classes(qs, rs, g) && Walk(qs, a, b, n)
    ensures a < |qs| && b < |qs| && SameLabel(rs, a, b)
    decreases n
  {
    if n > 0 {
      var c: nat :| Walk(qs, a, c, n - 1) && Neighbors(qs, c, b);
      SameLabelAlong(qs, rs, g, a, c, n - 1);
      assert SameLabel(rs, c, b);
    }
  }

  /** Labelled quads have the same label exactly when they are connected. */
  lemma SameGroupIff(qs: seq<Quad>, rs: seq<Quad>, g: int, a: nat, b: nat)
    requires Classes(qs, rs, g) && a < |qs| && b < |qs| && Label(rs, a) >= 0 && Label(rs, b) >= 0
    ensures Label(rs, a) == Label(rs, b) <==> Connected(qs, a, b)
  {
    if Connected(qs, a, b) {
      var n: nat :| Walk(qs, a, b, n);
      SameLabelAlong(qs, rs, g, a, b, n);
    }
  }

  /** A list of positions without repetition. */
  ghost predicate Distinct(s: seq<nat>, n: nat) {
    && (forall k | 0 <= k < |s| :: s[k] < n)
    && forall k, l | 0 <= k < l < |s| :: s[k] != s[l]
  }

  ghost function Elements(s: seq<nat>): (r: set<nat>)
    ensures forall x :: x in r <==> x in s
  {
    if s == [] then {} else Elements(s[..|s| - 1]) + {s[|s| - 1]}
  }

  lemma {:induction false} DistinctSize(s: seq<nat>, n: nat)
    requires Distinct(s, n)
    ensures |Elements(s)| == |s|
  {
    if s != [] {
      DistinctSize(s[..|s| - 1], n);
    }
  }

  /** There are no more of them than positions. */
  lemma DistinctFits(s: seq<nat>, n: nat)
    requires Distinct(s, n)
    ensures |s| <= n
  {
    DistinctSize(s, n);
    SubsetSize(Elements(s), UpTo(n));
  }

  /** The list names exactly the quads with label `g`, each once. */
  ghost predicate Lists(group: seq<nat>, rs: seq<Quad>, g: int) {
    && Distinct(group, |rs|)
    && (forall k | 0 <= k < |group| :: Label(rs, group[k]) == g)
    && forall a | 0 <= a < |rs| && Label(rs, a) == g :: a in group
  }

  /**
   * A search from `root` for group `g`: the labels of before are untouched, what has been labelled is
   * connected with the root, and all neighbours of it are labelled, but for what is on the stack.
   */
  ghost predicate Searching(qs: seq<Quad>, before: seq<Quad>, rs: seq<Quad>, g: int, root: nat, stack: seq<nat>, group: seq<nat>) {
    && Relabelled(qs, rs) && |before| == |qs| && root < |qs|
    && (forall a | 0 <= a < |qs| :: Label(rs, a) == Label(before, a) || (Label(before, a) < 0 && Label(rs, a) == g && qs[a].count > 0))
    && Label(rs, root) == g && Lists(group, rs, g)
    && (forall a | 0 <= a < |qs| && Label(rs, a) == g :: Connected(qs, root, a))
    && (forall k | 0 <= k < |stack| :: stack[k] < |qs| && Label(rs, stack[k]) == g)
    && (forall a, b | Neighbors(qs, a, b) && Label(rs, a) == g && a !in stack :: Label(rs, b) == g)
  }

  /** A neighbour of a quad of the group is in the group or has no label. */
  lemma NeighborFree(qs: seq<Quad>, before: seq<Quad>, rs: seq<Quad>, g: int, root: nat, stack: seq<nat>, group: seq<nat>, a: nat, b: nat)
    requires |before| == |qs| && Linked(qs) && Classes(qs, before, g) && g >= 0
    requires Relabelled(qs, rs)
    requires forall x | 0 <= x < |qs| :: Label(rs, x) == Label(before, x) || (Label(before, x) < 0 && Label(rs, x) == g && qs[x].count > 0)
    requires Neighbors(qs, a, b) && Label(rs, a) == g
    ensures Label(rs, b) < 0 || Label(rs, b) == g
    ensures qs[b].count > 0
  {
    assert SameLabel(before, a, b);
    NeighborsSymmetric(qs, a, b);
    CountPositive(qs, b);
  }

  /** When the stack is empty the group is complete, and one class more has been found. */
  lemma SearchDone(qs: seq<Quad>, before: seq<Quad>, rs: seq<Quad>, g: int, root: nat, group: seq<nat>)
    requires Linked(qs) && |before| == |qs| && Classes(qs, before, g) && g >= 0 && Searching(qs, before, rs, g, root, [], group)
    ensures Classes(qs, rs, g + 1)
  {
    forall a, b | Neighbors(qs, a, b) ensures SameLabel(rs, a, b) {
      assert SameLabel(before, a, b);
      NeighborsSymmetric(qs, a, b);
    }
    forall a, b | 0 <= a < |qs| && 0 <= b < |qs| && Label(rs, a) == Label(rs, b) >= 0 ensures Connected(qs, a, b) {
      if Label(rs, a) == g {
        ConnectedEquivalence(qs, root, a, b);
        ConnectedEquivalence(qs, a, root, b);
      } else {
        assert Label(before, a) == Label(before, b);
      }
    }
  }

  /** The next quad of the search: its neighbours are labelled one by one. */
  ghost predicate Visiting(qs: seq<Quad>, before: seq<Quad>, rs: seq<Quad>, g: int, root: nat, stack: seq<nat>, group: seq<nat>, q: nat, upto: nat) {
    && q < |qs| && upto <= 4 && Searching(qs, before, rs, g, root, stack + [q], group)
    && forall k | 0 <= k < upto && qs[q].neighbors[k] >= 0 :: SlotLabelled(qs, rs, g, q, k)
  }

  ghost predicate SlotLabelled(qs: seq<Quad>, rs: seq<Quad>, g: int, q: nat, k: nat)
    requires q < |qs| && k < 4
  {
    0 <= qs[q].neighbors[k] < |rs| && Label(rs, qs[q].neighbors[k]) == g
  }

  /** When all slots of a quad have been visited it needs no place on the stack any more. */
  lemma VisitDone(qs: seq<Quad>, before: seq<Quad>, rs: seq<Quad>, g: int, root: nat, stack: seq<nat>, group: seq<nat>, q: nat)
    requires Visiting(qs, before, rs, g, root, stack, group, q, 4)
    ensures Searching(qs, before, rs, g, root, stack, group)
  {
    forall k | 0 <= k < |stack| ensures stack[k] < |qs| && Label(rs, stack[k]) == g {
      assert (stack + [q])[k] == stack[k];
    }
    forall a, b | Neighbors(qs, a, b) && Label(rs, a) == g && a !in stack ensures Label(rs, b) == g {
      if a == q {
        var k :| 0 <= k < 4 && qs[q].neighbors[k] == b;
        assert SlotLabelled(qs, rs, g, q, k);
      } else {
        assert a !in stack + [q];
      }
    }
  }

  /** A neighbour that has no label yet gets one, and a place on the stack. */
  lemma VisitLabels(qs: seq<Quad>, before: seq<Quad>, rs: seq<Quad>, rs': seq<Quad>, g: int, root: nat, stack: seq<nat>, group: seq<nat>, q: nat, k: nat, b: nat)
    requires Linked(qs) && |before| == |qs| && Classes(qs, before, g) && g >= 0
    requires Visiting(qs, before, rs, g, root, stack, group, q, k) && k < 4 && qs[q].neighbors[k] == b < |qs| && Label(rs, b) < 0
    requires rs' == rs[b := rs[b].(groupId := g)]
    ensures Visiting(qs, before, rs', g, root, stack + [b], group + [b], q, k + 1)
  {
    assert Neighbors(qs, q, b) && (stack + [q])[|stack|] == q;
    hide Classes, Linked, Lists, Connected, Neighbors;
    NeighborFree(qs, before, rs, g, root, stack + [q], group, q, b);
    ConnectedStep(qs, root, q, b);
    ListsMore(group, rs, rs', g, b);
    var old', new' := stack + [q], stack + [b] + [q];
    forall l | 0 <= l < |new'| ensures new'[l] < |qs| && Label(rs', new'[l]) == g {
      if l < |stack| {
        assert new'[l] == old'[l];
      }
    }
    forall x, y | Neighbors(qs, x, y) && Label(rs', x) == g && x !in new' ensures Label(rs', y) == g {
      assert x !in old';
    }
    forall l | 0 <= l < k + 1 && qs[q].neighbors[l] >= 0 ensures SlotLabelled(qs, rs', g, q, l) {
      assert l < k ==> SlotLabelled(qs, rs, g, q, l);
    }
  }

  lemma ListsMore(group: seq<nat>, rs: seq<Quad>, rs': seq<Quad>, g: int, b: nat)
    requires Lists(group, rs, g) && b < |rs| && Label(rs, b) < 0 <= g && rs' == rs[b := rs[b].(groupId := g)]
    ensures Lists(group + [b], rs', g)
  {
    forall k | 0 <= k < |group| ensures group[k] != b && Label(rs', group[k]) == g {
      assert Label(rs, group[k]) == g;
    }
    forall a | 0 <= a < |rs'| && Label(rs', a) == g ensures a in group + [b] {
      if a != b {
        assert a in group;
      }
    }
  }

  lemma VisitSkips(qs: seq<Quad>, before: seq<Quad>, rs: seq<Quad>, g: int, root: nat, stack: seq<nat>, group: seq<nat>, q: nat, k: nat)
    requires Linked(qs) && |before| == |qs| && Classes(qs, before, g) && g >= 0
    requires Visiting(qs, before, rs, g, root, stack, group, q, k) && k < 4
    requires var b := qs[q].neighbors[k]; b >= 0 ==> b < |qs| && !(qs[b].count > 0 && Label(rs, b) < 0)
    ensures Visiting(qs, before, rs, g, root, stack, group, q, k + 1)
  {
    var b := qs[q].neighbors[k];
    if b >= 0 {
      assert Neighbors(qs, q, b) && (stack + [q])[|stack|] == q;
      NeighborFree(qs, before, rs, g, root, stack + [q], group, q, b);
    }
  }

  /** One quad off the stack: its unlabelled neighbours are labelled and pushed. */
  method VisitNeighbors(quads: array<Quad>, q: nat, g: int, stack: seq<nat>, group: seq<nat>,
                        ghost qs: seq<Quad>, ghost before: seq<Quad>, ghost root: nat)
    returns (stack': seq<nat>, group': seq<nat>)
    requires Linked(qs) && |before| == |qs| && Classes(qs, before, g) && g >= 0 && q < |qs|
    requires Searching(qs, before, quads[..], g, root, stack + [q], group)
    modifies quads
    ensures Searching(qs, before, quads[..], g, root, stack', group')
    ensures |group'| > |group| || (group' == group && stack' == stack)
  {
    stack', group' := stack, group;
    for k := 0 to 4
      invariant Visiting(qs, before, quads[..], g, root, stack', group', q, k)
      invariant |group'| > |group| || (group' == group && stack' == stack)
    {
      var neighbor := quads[q].neighbors[k];
      assert neighbor == qs[q].neighbors[k] && SlotLinked(qs, q, k);
      ghost var rs := quads[..];
      if neighbor >= 0 && quads[neighbor].count > 0 && quads[neighbor].groupId < 0 {
        VisitLabels(qs, before, rs, rs[neighbor := rs[neighbor].(groupId := g)], g, root, stack', group', q, k, neighbor);
        stack' := stack' + [neighbor];
        group' := group' + [neighbor];
        quads[neighbor] := quads[neighbor].(groupId := g);
        assert quads[..] == rs[neighbor := rs[neighbor].(groupId := g)];
      } else {
        VisitSkips(qs, before, rs, g, root, stack', group', q, k);
      }
    }
    VisitDone(qs, before, quads[..], g, root, stack', group', q);
  }

  /** The group of the quad `root`, depth first. */
  method Search(quads: array<Quad>, root: nat, g: int, ghost qs: seq<Quad>) returns (group: seq<nat>)
    requires Linked(qs) && Classes(qs, quads[..], g) && g >= 0 && root < quads.Length
    requires quads[root].count > 0 && quads[root].groupId < 0
    modifies quads
    ensures Classes(qs, quads[..], g + 1) && Lists(group, quads[..], g) && group != [] && quads[root].groupId == g
    ensures forall a | 0 <= a < quads.Length :: quads[a].groupId == old(quads[a].groupId) || (old(quads[a].groupId) < 0 && quads[a].groupId == g)
  {
    ghost var before := quads[..];
    var stack := [root];
    group := [root];
    quads[root] := quads[root].(groupId := g);
    SearchStarts(qs, before, quads[..], g, root);
    while stack != []
      invariant Searching(qs, before, quads[..], g, root, stack, group) && group != []
      decreases quads.Length - |group|, |stack|
    {
      DistinctFits(group, quads.Length);
      ghost var n := |group|;
      var q := stack[|stack| - 1];
      assert stack == stack[..|stack| - 1] + [q];
      stack := stack[..|stack| - 1];
      stack, group := VisitNeighbors(quads, q, g, stack, group, qs, before, root);
      DistinctFits(group, quads.Length);
    }
    SearchDone(qs, before, quads[..], g, root, group);
  }

  lemma SearchStarts(qs: seq<Quad>, before: seq<Quad>, rs: seq<Quad>, g: int, root: nat)
    requires Linked(qs) && Classes(qs, before, g) && g >= 0 && root < |qs| && qs[root].count > 0 && Label(before, root) < 0
    requires rs == before[root := before[root].(groupId := g)]
    ensures Searching(qs, before, rs, g, root, [root], [root])
  {
    ConnectedSelf(qs, root);
  }

  /** The quads still without a label that should have one. */
  ghost function Open(rs: seq<Quad>, k: nat): nat
    requires k <= |rs|
  {
    if k == 0 then 0 else Open(rs, k - 1) + if rs[k - 1].count > 0 && rs[k - 1].groupId < 0 then 1 else 0
  }

  lemma {:induction false} OpenFalls(rs: seq<Quad>, rs': seq<Quad>, g: int, k: nat)
    requires |rs| == |rs'| && k <= |rs| && g >= 0
    requires forall a | 0 <= a < |rs| :: rs'[a].count == rs[a].count
    requires forall a | 0 <= a < |rs| :: rs'[a].groupId == rs[a].groupId || (rs[a].groupId < 0 && rs'[a].groupId == g)
    ensures Open(rs', k) <= Open(rs, k)
    ensures forall a | 0 <= a < k && rs[a].count > 0 && rs[a].groupId < 0 <= rs'[a].groupId :: Open(rs', k) < Open(rs, k)
  {
    if k > 0 {
      OpenFalls(rs, rs', g, k - 1);
    }
  }

  lemma {:induction false} OpenNone(rs: seq<Quad>, k: nat)
    requires k <= |rs|
    ensures Open(rs, k) <= k
    ensures Open(rs, k) == 0 <==> forall a | 0 <= a < k :: rs[a].count > 0 ==> rs[a].groupId >= 0
  {
    if k > 0 {
      OpenNone(rs, k - 1);
    }
  }

  /** `findConnectedQuads`: the group of the first quad without a label, or nothing if all have one. */
  method FindConnectedQuads(quads: array<Quad>, g: int, ghost qs: seq<Quad>) returns (group: seq<nat>)
    requires Linked(qs) && Classes(qs, quads[..], g) && g >= 0
    modifies quads
    ensures Classes(qs, quads[..], g + 1) && Lists(group, quads[..], g)
    ensures Keeps(old(quads[..]), quads[..], g)
    ensures group == [] ==> Open(quads[..], quads.Length) == 0 && quads[..] == old(quads[..])
    ensures group != [] ==> Open(quads[..], quads.Length) < old(Open(quads[..], quads.Length))
  {
    group := [];
    ghost var before := quads[..];
    for i := 0 to quads.Length
      invariant quads[..] == before && group == []
      invariant forall a | 0 <= a < i :: quads[a].count > 0 ==> quads[a].groupId >= 0
    {
      if quads[i].count <= 0 || quads[i].groupId >= 0 {
        continue;
      }
      group := Search(quads, i, g, qs);
      OpenFalls(before, quads[..], g, quads.Length);
      return;
    }
    OpenNone(before, quads.Length);
  }

  /** The lists name the labelled quads, group by group. */
  ghost predicate Collected(groups: seq<seq<nat>>, rs: seq<Quad>, g: int) {
    && (forall k | 0 <= k < |groups| :: IsGroup(groups[k], rs, g))
    && forall a | 0 <= a < |rs| && 0 <= Label(rs, a) < g :: InSome(groups, a)
  }

  /** The list names the quads of one label below `g`. */
  ghost predicate IsGroup(group: seq<nat>, rs: seq<Quad>, g: int) {
    exists l: nat :: l < g && Lists(group, rs, l)
  }

  ghost predicate InSome(groups: seq<seq<nat>>, a: nat) {
    exists k :: 0 <= k < |groups| && a in groups[k]
  }

  /** A group has more than one quad: with every quad it holds a neighbour of it. */
  lemma GroupHasTwo(qs: seq<Quad>, rs: seq<Quad>, group: seq<nat>, g: int)
    requires Linked(qs) && Classes(qs, rs, g + 1) && g >= 0 && Lists(group, rs, g) && group != []
    ensures |group| >= 2
  {
    hide Connected, Linked;
    var a := group[0];
    assert Label(rs, a) == g;
    var b := OtherMember(qs, rs, g, a);
    assert b in group && b != group[0];
  }

  lemma OtherMember(qs: seq<Quad>, rs: seq<Quad>, g: int, a: nat) returns (b: nat)
    requires Linked(qs) && Classes(qs, rs, g + 1) && g >= 0 && a < |qs| && Label(rs, a) == g
    ensures b < |qs| && b != a && Label(rs, b) == g
  {
    CountPositive(qs, a);
    b :| Neighbors(qs, a, b);
    NotSelf(qs, a, b);
    assert SameLabel(rs, a, b);
  }

  lemma NotSelf(qs: seq<Quad>, a: nat, b: nat)
    requires Linked(qs) && Neighbors(qs, a, b)
    ensures a != b
  {
    var i :| 0 <= i < 4 && qs[a].neighbors[i] == b;
    assert SlotLinked(qs, a, i);
  }

  /** Labels that were given stay. */
  ghost predicate Keeps(rs: seq<Quad>, rs': seq<Quad>, g: int) {
    && |rs| == |rs'|
    && forall a | 0 <= a < |rs| :: Label(rs', a) == Label(rs, a) || (Label(rs, a) < 0 && Label(rs', a) == g)
  }

  lemma ListsStay(group: seq<nat>, rs: seq<Quad>, rs': seq<Quad>, l: int, g: int)
    requires Lists(group, rs, l) && Keeps(rs, rs', g) && 0 <= l < g
    ensures Lists(group, rs', l)
  {
    forall k | 0 <= k < |group| ensures Label(rs', group[k]) == l {
      assert Label(rs, group[k]) == l;
    }
  }

  lemma CollectedMore(groups: seq<seq<nat>>, group: seq<nat>, rs: seq<Quad>, rs': seq<Quad>, g: int)
    requires Collected(groups, rs, g) && Keeps(rs, rs', g) && Lists(group, rs', g) && g >= 0
    ensures group != [] ==> Collected(groups + [group], rs', g + 1)
    ensures group == [] ==> Collected(groups, rs', g + 1)
  {
    var more := if group == [] then groups else groups + [group];
    forall k | 0 <= k < |more| ensures IsGroup(more[k], rs', g + 1) {
      if k < |groups| {
        assert IsGroup(groups[k], rs, g);
        var l: nat :| l < g && Lists(groups[k], rs, l);
        ListsStay(groups[k], rs, rs', l, g);
      } else {
        assert more[k] == group;
      }
    }
    forall a | 0 <= a < |rs'| && 0 <= Label(rs', a) < g + 1 ensures InSome(more, a) {
      if Label(rs', a) == g {
        assert a in group && more[|groups|] == group;
      } else {
        assert InSome(groups, a);
        var k :| 0 <= k < |groups| && a in groups[k];
        assert more[k] == groups[k];
      }
    }
  }

  /**
   * The grouping loop of `findBoardCorners`: behind it every quad with a neighbour is in exactly one group,
   * and two of them are in the same group exactly when they are connected.
   */
  method GroupQuads(quads: array<Quad>) returns (groups: seq<seq<nat>>)
    requires Linked(quads[..]) && forall a | 0 <= a < quads.Length :: quads[a].groupId == -1
    modifies quads
    ensures Relabelled(old(quads[..]), quads[..])
    ensures forall a | 0 <= a < quads.Length :: quads[a].count > 0 <==> quads[a].groupId >= 0
    ensures forall a, b | 0 <= a < quads.Length && 0 <= b < quads.Length && quads[a].groupId >= 0 && quads[b].groupId >= 0 ::
      quads[a].groupId == quads[b].groupId <==> Connected(old(quads[..]), a, b)
    ensures Collected(groups, quads[..], quads.Length)
  {
    ghost var qs := quads[..];
    groups := [];
    OpenNone(qs, quads.Length);
    for groupId := 0 to quads.Length
      invariant Classes(qs, quads[..], groupId) && Collected(groups, quads[..], groupId)
      invariant Open(quads[..], quads.Length) <= quads.Length - groupId
    {
      ghost var before := quads[..];
      var group := FindConnectedQuads(quads, groupId, qs);
      CollectedMore(groups, group, before, quads[..], groupId);
      if |group| < 2 {
        if group != [] {
          GroupHasTwo(qs, quads[..], group, groupId);
        }
        continue;
      }
      groups := groups + [group];
    }
    OpenNone(quads[..], quads.Length);
    forall a, b | 0 <= a < quads.Length && 0 <= b < quads.Length && quads[a].groupId >= 0 && quads[b].groupId >= 0
      ensures quads[a].groupId == quads[b].groupId <==> Connected(qs, a, b)
    {
      SameGroupIff(qs, quads[..], quads.Length, a, b);
    }
  }
}
