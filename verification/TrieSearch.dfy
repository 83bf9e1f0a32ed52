/** The bounded breadth-first search, the quick index of the first layer, and what they have to agree with. */
module TrieSearch {
  import opened DictDef
  import opened TrieLayout
  import opened TrieScan

  const MAX_EXTENDBUF_LEN: nat := 200

  // ----- sons ascend -----

  /** The sons of a block have strictly ascending spelling ids, beginning with the one of the first lemma. */
  lemma {:induction false} BlockAscends(t: Nodes, ls: seq<LemmaEntry>, lo: nat, s: nat, hi: nat, level: nat, first: nat, u: nat)
    requires ValidLemmas(ls) && lo <= s <= hi <= |ls| && SharedPrefix(ls, lo, hi, level) && RepBlock(t, ls, s, hi, level, first, u)
    ensures s < hi ==> first + GroupCount(ls, s, hi, level) <= t.Size(level)
    ensures forall i | first <= i < first + GroupCount(ls, s, hi, level) :: SplIdx(ls[s], level) <= t.Spl(level, i)
    ensures forall i, j | first <= i < j < first + GroupCount(ls, s, hi, level) :: t.Spl(level, i) < t.Spl(level, j)
    decreases hi - s
  {
    if s < hi {
      var g, u' := OpenBlock(t, ls, s, hi, level, first, u);
      BlockAscends(t, ls, lo, g, hi, level, first + 1, u');
      if g < hi {
        NextGroupAbove(ls, lo, s, g, hi, level);
      }
    }
  }

  lemma NextGroupAbove(ls: seq<LemmaEntry>, lo: nat, s: nat, g: nat, hi: nat, level: nat)
    requires ValidLemmas(ls) && lo <= s < g < hi <= |ls| && SharedPrefix(ls, lo, hi, level) && g == GroupEnd(ls, s, hi, level)
    ensures SplIdx(ls[s], level) < SplIdx(ls[g], level)
  {
    assert GoesOn(ls, lo, s, level) && GoesOn(ls, lo, g, level);
    NextSplAscends(ls, s, g, level);
  }

  /** Behind a son that is not below the end of the range there is nothing more to find. */
  lemma {:induction false} KidsBeyond(ls: seq<LemmaEntry>, lo: nat, s: nat, hi: nat, level: nat, first: nat, r: SplRange)
    requires ValidLemmas(ls) && lo <= s <= hi <= |ls| && SharedPrefix(ls, lo, hi, level)
    requires s < hi ==> r.start + r.num <= SplIdx(ls[s], level)
    ensures Kids(ls, s, hi, level, first, r) == []
    decreases hi - s
  {
    if s < hi {
      var g := GroupEnd(ls, s, hi, level);
      if g < hi {
        NextGroupAbove(ls, lo, s, g, hi, level);
      }
      KidsBeyond(ls, lo, g, hi, level, first + 1, r);
    }
  }

  // ----- the bounded frontier -----

  ghost function NodesOf(items: seq<Item>): seq<nat> {
    if items == [] then [] else [items[0].node] + NodesOf(items[1..])
  }

  lemma {:induction false} NodesOfConcat(a: seq<Item>, b: seq<Item>)
    ensures NodesOf(a + b) == NodesOf(a) + NodesOf(b)
  {
    if a == [] {
      assert a + b == b;
    } else {
      assert (a + b)[1..] == a[1..] + b;
      NodesOfConcat(a[1..], b);
    }
  }

  lemma {:induction false} NodesOfAt(items: seq<Item>)
    ensures |NodesOf(items)| == |items|
    ensures forall i | 0 <= i < |items| :: NodesOf(items)[i] == items[i].node
  {
    if items != [] {
      NodesOfAt(items[1..]);
    }
  }

  /** What fits into a node buffer. */
  ghost function Cap<X>(s: seq<X>): seq<X> {
    if |s| <= MAX_EXTENDBUF_LEN then s else s[..MAX_EXTENDBUF_LEN]
  }

  lemma CapAppend<X>(a: seq<X>, b: seq<X>)
    ensures Cap(Cap(a) + b) == Cap(a + b)
  {
  }

  /** The frontier that the search really holds: every layer is cut off at 200 nodes. */
  ghost function Bounded(t: Nodes, ls: seq<LemmaEntry>, q: seq<SplRange>, level: nat): seq<Item>
    requires level < |q|
  {
    if level == 0 then Cap(Kids(ls, 0, |ls|, 0, 1, q[0]))
    else Cap(Expand(t, ls, Bounded(t, ls, q, level - 1), level - 1, q[level]))
  }

  /** No layer of the search overflows its buffer. */
  ghost predicate NeverFull(t: Nodes, ls: seq<LemmaEntry>, q: seq<SplRange>, level: nat)
    requires level < |q|
  {
    |Frontier(t, ls, q, level)| <= MAX_EXTENDBUF_LEN && (level > 0 ==> NeverFull(t, ls, q, level - 1))
  }

  lemma ExpandPrefix(t: Nodes, ls: seq<LemmaEntry>, a: seq<Item>, b: seq<Item>, level: nat, r: SplRange)
    requires a <= b
    ensures Expand(t, ls, a, level, r) <= Expand(t, ls, b, level, r)
  {
    assert b == a + b[|a|..];
    ExpandConcat(t, ls, a, b[|a|..], level, r);
  }

  lemma CapPrefix<X>(a: seq<X>, b: seq<X>)
    requires a <= b
    ensures Cap(a) <= b
  {
  }

  lemma {:induction false} BoundedStep(t: Nodes, ls: seq<LemmaEntry>, q: seq<SplRange>, prev: nat, level: nat)
    requires level == prev + 1 < |q|
    ensures Bounded(t, ls, q, level) == Cap(Expand(t, ls, Bounded(t, ls, q, prev), prev, q[level]))
  {
  }

  lemma {:induction false} BoundedIsPrefix(t: Nodes, ls: seq<LemmaEntry>, q: seq<SplRange>, level: nat)
    requires level < |q|
    ensures Bounded(t, ls, q, level) <= Frontier(t, ls, q, level)
  {
    if level > 0 {
      var prev := level - 1;
      BoundedIsPrefix(t, ls, q, prev);
      BoundedStep(t, ls, q, prev, level);
      FrontierStep(t, ls, q, prev, level);
      var a, b := Bounded(t, ls, q, prev), Frontier(t, ls, q, prev);
      ExpandPrefix(t, ls, a, b, prev, q[level]);
      CapPrefix(Expand(t, ls, a, prev, q[level]), Expand(t, ls, b, prev, q[level]));
    }
  }

  lemma {:induction false} BoundedIsAll(t: Nodes, ls: seq<LemmaEntry>, q: seq<SplRange>, level: nat)
    requires level < |q| && NeverFull(t, ls, q, level)
    ensures Bounded(t, ls, q, level) == Frontier(t, ls, q, level)
  {
    if level > 0 {
      BoundedIsAll(t, ls, q, level - 1);
    }
  }

  lemma ScanPrefix(ls: seq<LemmaEntry>, a: seq<Item>, b: seq<Item>, q: seq<SplRange>, k: nat)
    requires a <= b
    ensures ScanItems(ls, a, q, k) <= ScanItems(ls, b, q, k)
  {
    assert b == a + b[|a|..];
    ScanItemsConcat(ls, a, b[|a|..], q, k);
  }

  /** A search for a single one-character Yunmu yields the first node only. */
  ghost function FoundItems(t: Nodes, ls: seq<LemmaEntry>, q: seq<SplRange>, firstOnly: bool): seq<Item>
    requires q != []
  {
    var items := Bounded(t, ls, q, |q| - 1);
    if firstOnly && items != [] then items[..1] else items
  }

  /** The list positions of the lemmas that the search finds. */
  ghost function Found(t: Nodes, ls: seq<LemmaEntry>, q: seq<SplRange>, firstOnly: bool): seq<nat>
    requires q != []
  {
    ScanItems(ls, FoundItems(t, ls, q, firstOnly), q, |q|)
  }

  /** The index agrees with the scan: a search yields the beginning of what the scan selects. */
  lemma FoundIsPrefix(t: Nodes, ls: seq<LemmaEntry>, q: seq<SplRange>, firstOnly: bool)
    requires Packed(t, ls) && ValidQuery(q) && q != []
    ensures Found(t, ls, q, firstOnly) <= Scan(ls, 0, |ls|, q, 0)
    ensures !firstOnly && NeverFull(t, ls, q, |q| - 1) ==> Found(t, ls, q, firstOnly) == Scan(ls, 0, |ls|, q, 0)
  {
    var level := |q| - 1;
    ScanFrontier(t, ls, q, level, |q|);
    BoundedIsPrefix(t, ls, q, level);
    if NeverFull(t, ls, q, level) {
      BoundedIsAll(t, ls, q, level);
    }
    var items := FoundItems(t, ls, q, firstOnly);
    assert items <= Frontier(t, ls, q, level);
    ScanPrefix(ls, items, Frontier(t, ls, q, level), q, |q|);
  }

  lemma AllStandPrefix(t: Nodes, ls: seq<LemmaEntry>, a: seq<Item>, b: seq<Item>, level: nat)
    requires a <= b && AllStand(t, ls, b, level)
    ensures AllStand(t, ls, a, level)
  {
    assert b == a + b[|a|..];
    AllStandConcat(t, ls, a, b[|a|..], level);
  }

  lemma BoundedStands(t: Nodes, ls: seq<LemmaEntry>, q: seq<SplRange>, level: nat)
    requires Packed(t, ls) && ValidQuery(q) && level < |q|
    ensures AllStand(t, ls, Bounded(t, ls, q, level), level)
  {
    ScanFrontier(t, ls, q, level, level + 1);
    BoundedIsPrefix(t, ls, q, level);
    AllStandPrefix(t, ls, Bounded(t, ls, q, level), Frontier(t, ls, q, level), level);
  }

  // ----- the quick index of the first layer -----

  /** Position of the first node from `p` on whose spelling id is not below `s`. */
  function FirstFrom(le0: seq<LmaNodeLE0>, s: nat, p: nat): (r: nat)
    requires p <= |le0|
    ensures p <= r <= |le0|
    ensures forall i | p <= i < r :: le0[i].splIdx < s
    ensures r < |le0| ==> s <= le0[r].splIdx
    decreases |le0| - p
  {
    if p < |le0| && le0[p].splIdx < s then FirstFrom(le0, s, p + 1) else p
  }

  /** The first layer: the ids behind the root ascend and fit into the index. */
  ghost predicate FirstLayer(le0: seq<LmaNodeLE0>, spellingNum: nat) {
    && 0 < |le0| <= spellingNum + 1
    && (forall i | 1 <= i < |le0| :: K_FULL_SPL_ID_START <= le0[i].splIdx < K_FULL_SPL_ID_START + spellingNum)
    && (forall i, j | 1 <= i < j < |le0| :: le0[i].splIdx < le0[j].splIdx)
  }

  /** `s` is the id of a first-layer node, or lies behind all of them. */
  ghost predicate Indexed(le0: seq<LmaNodeLE0>, s: nat)
    requires 0 < |le0|
  {
    var p := FirstFrom(le0, s, 1);
    p == |le0| || le0[p].splIdx == s
  }

  /** What the index holds for `s`: in a gap it points to the node in front of the gap. */
  ghost function IndexEntry(le0: seq<LmaNodeLE0>, s: nat): nat
    requires 0 < |le0|
  {
    if Indexed(le0, s) then FirstFrom(le0, s, 1) else FirstFrom(le0, s, 1) - 1
  }

  lemma FirstFromUnique(le0: seq<LmaNodeLE0>, s: nat, r: nat)
    requires 1 <= r <= |le0|
    requires forall i | 1 <= i < r :: le0[i].splIdx < s
    requires r < |le0| ==> s <= le0[r].splIdx
    ensures FirstFrom(le0, s, 1) == r
  {
  }

  /** The search begins at the indexed nodes for `a..b`; these are the nodes with ids in `a..b`. */
  ghost predicate LookupExact(le0: seq<LmaNodeLE0>, a: nat, b: nat)
    requires 0 < |le0|
  {
    forall p | 0 <= p < |le0| ::
      IndexEntry(le0, a) <= p < IndexEntry(le0, b) <==> 1 <= p && a <= le0[p].splIdx < b
  }

  /**
   * The lookup of a range is right exactly when both ends are indexed, or when neither is
   * and no first-layer id lies between them. Without gaps in the first layer it is always right.
   */
  lemma LookupExactIff(le0: seq<LmaNodeLE0>, spellingNum: nat, a: nat, b: nat)
    requires FirstLayer(le0, spellingNum) && a < b
    ensures LookupExact(le0, a, b) <==>
      || (Indexed(le0, a) && Indexed(le0, b))
      || (!Indexed(le0, a) && !Indexed(le0, b) && forall p | 1 <= p < |le0| :: !(a <= le0[p].splIdx < b))
  {
    var x, y := FirstFrom(le0, a, 1), FirstFrom(le0, b, 1);
    var i, j := IndexEntry(le0, a), IndexEntry(le0, b);
    forall p | 1 <= p < |le0| ensures a <= le0[p].splIdx < b <==> x <= p < y {
      assert x < p ==> le0[x].splIdx < le0[p].splIdx;
      assert y < p ==> le0[y].splIdx < le0[p].splIdx;
    }
    if Indexed(le0, a) != Indexed(le0, b) || (!Indexed(le0, a) && x < y) {
      var p := if Indexed(le0, a) then y - 1 else x - 1;
      assert 0 <= p < |le0| && !(i <= p < j <==> x <= p < y);
      assert !(i <= p < j <==> 1 <= p && a <= le0[p].splIdx < b);
    }
  }

  /** In the first layer a gap breaks a lookup: id 30 is asked for and there, but is not found. */
  lemma GapBreaksLookup()
    ensures
      var le0 := [ZERO_LE0, ZERO_LE0.(splIdx := 30), ZERO_LE0.(splIdx := 32)];
      FirstLayer(le0, 3) && !LookupExact(le0, 30, 31) && IndexEntry(le0, 30) == IndexEntry(le0, 31)
  {
    var le0 := [ZERO_LE0, ZERO_LE0.(splIdx := 30), ZERO_LE0.(splIdx := 32)];
    assert le0[1].splIdx == 30 && le0[2].splIdx == 32;
    FirstFromUnique(le0, 30, 1);
    FirstFromUnique(le0, 31, 2);
    assert !(IndexEntry(le0, 30) <= 1 < IndexEntry(le0, 31));
  }
}
