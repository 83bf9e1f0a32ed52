/**
 * What a search in a packed trie has to find: the lemmas that a linear scan of the sorted list selects.
 * The frontier of a breadth-first search stands, node by node, for intervals of that list.
 */
module TrieScan {
  import opened DictDef
  import opened TrieLayout

  /** The full spelling ids `start .. start + num`, which is what a full or a half id stands for. */
  datatype SplRange = SplRange(start: nat, num: nat) {
    predicate Has(spl: nat) { start <= spl < start + num }
  }

  ghost predicate ValidQuery(q: seq<SplRange>) {
    |q| <= K_MAX_LEMMA_SIZE && forall k | 0 <= k < |q| :: 0 < q[k].start && 0 < q[k].num
  }

  /** The lemma has as many Hanzis as the query, and from position `k` on their spellings are asked for. */
  ghost predicate Selected(l: LemmaEntry, q: seq<SplRange>, k: nat) {
    |l.spls| == |q| && forall j | k <= j < |q| :: q[j].Has(l.spls[j])
  }

  /** The linear scan of `lo..hi`. */
  ghost function Scan(ls: seq<LemmaEntry>, lo: nat, hi: nat, q: seq<SplRange>, k: nat): seq<nat>
    requires hi <= |ls|
    decreases hi - lo
  {
    if hi <= lo then [] else (if Selected(ls[lo], q, k) then [lo] else []) + Scan(ls, lo + 1, hi, q, k)
  }

  lemma {:induction false} ScanSplit(ls: seq<LemmaEntry>, lo: nat, s: nat, hi: nat, q: seq<SplRange>, k: nat)
    requires lo <= s <= hi <= |ls|
    ensures Scan(ls, lo, hi, q, k) == Scan(ls, lo, s, q, k) + Scan(ls, s, hi, q, k)
    decreases s - lo
  {
    if lo < s {
      ScanSplit(ls, lo + 1, s, hi, q, k);
    }
  }

  lemma {:induction false} ScanNothing(ls: seq<LemmaEntry>, lo: nat, hi: nat, q: seq<SplRange>, k: nat)
    requires hi <= |ls| && forall i | lo <= i < hi :: !Selected(ls[i], q, k)
    ensures Scan(ls, lo, hi, q, k) == []
    decreases hi - lo
  {
    if lo < hi {
      ScanNothing(ls, lo + 1, hi, q, k);
    }
  }

  lemma {:induction false} ScanSame(ls: seq<LemmaEntry>, lo: nat, hi: nat, q: seq<SplRange>, k: nat, k': nat)
    requires hi <= |ls| && forall i | lo <= i < hi :: Selected(ls[i], q, k) <==> Selected(ls[i], q, k')
    ensures Scan(ls, lo, hi, q, k) == Scan(ls, lo, hi, q, k')
    decreases hi - lo
  {
    if lo < hi {
      assert Selected(ls[lo], q, k) <==> Selected(ls[lo], q, k');
      ScanSame(ls, lo + 1, hi, q, k, k');
    }
  }

  /** The scan yields exactly the positions of selected lemmas. */
  lemma {:induction false} ScanIsFilter(ls: seq<LemmaEntry>, lo: nat, hi: nat, q: seq<SplRange>, k: nat, i: nat)
    requires hi <= |ls|
    ensures i in Scan(ls, lo, hi, q, k) <==> lo <= i < hi && Selected(ls[i], q, k)
    decreases hi - lo
  {
    if lo < hi {
      ScanIsFilter(ls, lo + 1, hi, q, k, i);
    }
  }

  /** The scan yields them in the order of the list. */
  lemma {:induction false} ScanAscends(ls: seq<LemmaEntry>, lo: nat, hi: nat, q: seq<SplRange>, k: nat, a: nat, b: nat)
    requires hi <= |ls| && a < b < |Scan(ls, lo, hi, q, k)|
    ensures Scan(ls, lo, hi, q, k)[a] < Scan(ls, lo, hi, q, k)[b]
    decreases hi - lo
  {
    var rest := Scan(ls, lo + 1, hi, q, k);
    if Selected(ls[lo], q, k) {
      assert Scan(ls, lo, hi, q, k)[b] == rest[b - 1];
      ScanIsFilter(ls, lo + 1, hi, q, k, rest[b - 1]);
      if a > 0 {
        assert Scan(ls, lo, hi, q, k)[a] == rest[a - 1];
        ScanAscends(ls, lo + 1, hi, q, k, a - 1, b - 1);
      }
    } else {
      assert Scan(ls, lo, hi, q, k) == rest;
      ScanAscends(ls, lo + 1, hi, q, k, a, b);
    }
  }

  /** A node together with the interval of lemmas it stands for. */
  datatype Item = Item(node: nat, lo: nat, e: nat)

  /** The sons for `lo..hi` that a range asks for; the first son is node `first`. */
  ghost function Kids(ls: seq<LemmaEntry>, lo: nat, hi: nat, level: nat, first: nat, r: SplRange): seq<Item>
    requires hi <= |ls|
    decreases hi - lo
  {
    if hi <= lo then []
    else
      var g := GroupEnd(ls, lo, hi, level);
      (if r.Has(SplIdx(ls[lo], level)) then [Item(first, lo, g)] else []) + Kids(ls, g, hi, level, first + 1, r)
  }

  /** What a scan finds inside of a list of intervals. */
  ghost function ScanItems(ls: seq<LemmaEntry>, items: seq<Item>, q: seq<SplRange>, k: nat): seq<nat> {
    if items == [] then [] else ScanItem(ls, items[0], q, k) + ScanItems(ls, items[1..], q, k)
  }

  ghost function ScanItem(ls: seq<LemmaEntry>, it: Item, q: seq<SplRange>, k: nat): seq<nat> {
    if it.e <= |ls| then Scan(ls, it.lo, it.e, q, k) else []
  }

  lemma {:induction false} ScanItemsConcat(ls: seq<LemmaEntry>, a: seq<Item>, b: seq<Item>, q: seq<SplRange>, k: nat)
    ensures ScanItems(ls, a + b, q, k) == ScanItems(ls, a, q, k) + ScanItems(ls, b, q, k)
  {
    if a == [] {
      assert a + b == b;
    } else {
      assert (a + b)[1..] == a[1..] + b;
      ScanItemsConcat(ls, a[1..], b, q, k);
    }
  }

  /** The sons that the next range asks for hold everything the scan finds. */
  lemma {:induction false} ScanKids(ls: seq<LemmaEntry>, lo: nat, hi: nat, first: nat, q: seq<SplRange>, k: nat)
    requires hi <= |ls| && k < |q| && ValidQuery(q)
    ensures ScanItems(ls, Kids(ls, lo, hi, k, first, q[k]), q, k + 1) == Scan(ls, lo, hi, q, k)
    decreases hi - lo
  {
    if lo < hi {
      var g := GroupEnd(ls, lo, hi, k);
      ScanKids(ls, g, hi, first + 1, q, k);
      ScanSplit(ls, lo, g, hi, q, k);
      var rest := Kids(ls, g, hi, k, first + 1, q[k]);
      if q[k].Has(SplIdx(ls[lo], k)) {
        var head := [Item(first, lo, g)];
        ScanSame(ls, lo, g, q, k, k + 1);
        assert ScanItems(ls, head, q, k + 1) == ScanItem(ls, head[0], q, k + 1) + ScanItems(ls, head[1..], q, k + 1);
        ScanItemsConcat(ls, head, rest, q, k + 1);
      } else {
        ScanNothing(ls, lo, g, q, k);
        assert Kids(ls, lo, hi, k, first, q[k]) == rest;
      }
    }
  }

  /** The asked for sons of one node of `level`. */
  ghost function KidsOf(t: Nodes, ls: seq<LemmaEntry>, it: Item, level: nat, r: SplRange): seq<Item> {
    if it.lo < it.e <= |ls| && it.node < t.Size(level)
    then Kids(ls, HomoEnd(ls, it.lo, it.e, level), it.e, level + 1, t.SonOff(level, it.node), r)
    else []
  }

  /** The lemmas that end at the node itself are too short for a query that goes on. */
  lemma ScanKidsOf(t: Nodes, ls: seq<LemmaEntry>, it: Item, q: seq<SplRange>, level: nat, k: nat)
    requires it.lo < it.e <= |ls| && k == level + 1 < |q| && ValidQuery(q) && it.node < t.Size(level)
    ensures ScanItems(ls, KidsOf(t, ls, it, level, q[k]), q, k + 1) == ScanItem(ls, it, q, k)
  {
    var h := HomoEnd(ls, it.lo, it.e, level);
    ScanSplit(ls, it.lo, h, it.e, q, k);
    forall i | it.lo <= i < h ensures !Selected(ls[i], q, k) {
      assert SplIdx(ls[i], k) == 0;
    }
    ScanNothing(ls, it.lo, h, q, k);
    ScanKids(ls, h, it.e, t.SonOff(level, it.node), q, k);
  }

  /** Node `it.node` of `level` stands for the group `it.lo..it.e`. */
  ghost predicate Stands(t: Nodes, ls: seq<LemmaEntry>, it: Item, level: nat) {
    && it.lo < it.e <= |ls| && it.node < t.Size(level)
    && SharedPrefix(ls, it.lo, it.e, level) && GroupEnd(ls, it.lo, it.e, level) == it.e
    && RepNode(t, ls, it.lo, it.e, level, it.node, t.SonOff(level, it.node))
  }

  ghost predicate AllStand(t: Nodes, ls: seq<LemmaEntry>, items: seq<Item>, level: nat) {
    items == [] || (Stands(t, ls, items[0], level) && AllStand(t, ls, items[1..], level))
  }

  lemma {:induction false} AllStandConcat(t: Nodes, ls: seq<LemmaEntry>, a: seq<Item>, b: seq<Item>, level: nat)
    ensures AllStand(t, ls, a + b, level) <==> AllStand(t, ls, a, level) && AllStand(t, ls, b, level)
  {
    if a == [] {
      assert a + b == b;
    } else {
      assert (a + b)[1..] == a[1..] + b;
      AllStandConcat(t, ls, a[1..], b, level);
    }
  }

  lemma {:induction false} KidsStand(t: Nodes, ls: seq<LemmaEntry>, lo: nat, s: nat, hi: nat, level: nat, first: nat, u: nat, r: SplRange)
    requires ValidLemmas(ls) && lo <= s <= hi <= |ls| && SharedPrefix(ls, lo, hi, level) && RepBlock(t, ls, s, hi, level, first, u)
    ensures AllStand(t, ls, Kids(ls, s, hi, level, first, r), level)
    decreases hi - s
  {
    if s < hi {
      var g, u' := OpenBlock(t, ls, s, hi, level, first, u);
      KidsStand(t, ls, lo, g, hi, level, first + 1, u', r);
      FirstStands(t, ls, lo, s, g, hi, level, first, u);
      var head, rest := [Item(first, s, g)], Kids(ls, g, hi, level, first + 1, r);
      assert head[1..] == [];
      AllStandConcat(t, ls, head, rest, level);
      assert [] + rest == rest;
    }
  }

  /** The node of one group of a block stands for it. */
  lemma FirstStands(t: Nodes, ls: seq<LemmaEntry>, lo: nat, s: nat, g: nat, hi: nat, level: nat, first: nat, u: nat)
    requires lo <= s < hi <= |ls| && SharedPrefix(ls, lo, hi, level)
    requires g == GroupEnd(ls, s, hi, level) && RepNode(t, ls, s, g, level, first, u)
    ensures Stands(t, ls, Item(first, s, g), level)
  {
    forall i | s <= i < g ensures GoesOn(ls, s, i, level) {
      assert GoesOn(ls, lo, s, level) && GoesOn(ls, lo, i, level);
    }
    RunIsGroup(ls, s, g, hi, level);
    var h := HomoEnd(ls, s, g, level);
    if h == g {
      assert RepBlock(t, ls, h, g, level + 1, 0, GroupCount(ls, h, g, level + 1));
    }
  }

  lemma KidsOfStand(t: Nodes, ls: seq<LemmaEntry>, it: Item, level: nat, r: SplRange)
    requires ValidLemmas(ls) && Stands(t, ls, it, level)
    ensures AllStand(t, ls, KidsOf(t, ls, it, level, r), level + 1)
  {
    var h := HomoEnd(ls, it.lo, it.e, level);
    GroupShares(ls, it.lo, it.e, level, it.lo, it.e);
    var u := t.SonOff(level, it.node);
    KidsStand(t, ls, h, h, it.e, level + 1, u, u + GroupCount(ls, h, it.e, level + 1), r);
  }

  /** One step of the breadth-first search. */
  ghost function Expand(t: Nodes, ls: seq<LemmaEntry>, items: seq<Item>, level: nat, r: SplRange): seq<Item> {
    if items == [] then [] else KidsOf(t, ls, items[0], level, r) + Expand(t, ls, items[1..], level, r)
  }

  lemma {:induction false} ExpandStand(t: Nodes, ls: seq<LemmaEntry>, items: seq<Item>, level: nat, next: nat, r: SplRange)
    requires ValidLemmas(ls) && AllStand(t, ls, items, level) && next == level + 1
    ensures AllStand(t, ls, Expand(t, ls, items, level, r), next)
  {
    if items != [] {
      KidsOfStand(t, ls, items[0], level, r);
      ExpandStand(t, ls, items[1..], level, next, r);
      AllStandConcat(t, ls, KidsOf(t, ls, items[0], level, r), Expand(t, ls, items[1..], level, r), next);
    }
  }

  lemma {:induction false} ExpandConcat(t: Nodes, ls: seq<LemmaEntry>, a: seq<Item>, b: seq<Item>, level: nat, r: SplRange)
    ensures Expand(t, ls, a + b, level, r) == Expand(t, ls, a, level, r) + Expand(t, ls, b, level, r)
  {
    if a == [] {
      assert a + b == b;
    } else {
      assert (a + b)[1..] == a[1..] + b;
      ExpandConcat(t, ls, a[1..], b, level, r);
    }
  }

  /** One step of the search loses nothing and adds nothing. */
  lemma {:induction false} ScanExpand(t: Nodes, ls: seq<LemmaEntry>, items: seq<Item>, q: seq<SplRange>, level: nat, k: nat)
    requires k == level + 1 < |q| && ValidQuery(q) && AllStand(t, ls, items, level)
    ensures ScanItems(ls, Expand(t, ls, items, level, q[k]), q, k + 1) == ScanItems(ls, items, q, k)
  {
    if items != [] {
      ScanKidsOf(t, ls, items[0], q, level, k);
      ScanExpand(t, ls, items[1..], q, level, k);
      ScanItemsConcat(ls, KidsOf(t, ls, items[0], level, q[k]), Expand(t, ls, items[1..], level, q[k]), q, k + 1);
    }
  }

  /** The frontier of the whole search, at nodes of `level`. */
  ghost function Frontier(t: Nodes, ls: seq<LemmaEntry>, q: seq<SplRange>, level: nat): seq<Item>
    requires level < |q|
  {
    if level == 0 then Kids(ls, 0, |ls|, 0, 1, q[0])
    else Expand(t, ls, Frontier(t, ls, q, level - 1), level - 1, q[level])
  }

  lemma {:induction false} FrontierStep(t: Nodes, ls: seq<LemmaEntry>, q: seq<SplRange>, prev: nat, level: nat)
    requires level == prev + 1 < |q|
    ensures Frontier(t, ls, q, level) == Expand(t, ls, Frontier(t, ls, q, prev), prev, q[level])
  {
  }

  lemma FirstLayerStands(t: Nodes, ls: seq<LemmaEntry>, q: seq<SplRange>)
    requires Packed(t, ls) && 0 < |q|
    ensures AllStand(t, ls, Frontier(t, ls, q, 0), 0)
  {
    AllShareNothing(ls);
    KidsStand(t, ls, 0, 0, |ls|, 0, 1, 0, q[0]);
  }

  lemma {:induction false} FrontierStands(t: Nodes, ls: seq<LemmaEntry>, q: seq<SplRange>, level: nat)
    requires ValidLemmas(ls) && level < |q| && AllStand(t, ls, Frontier(t, ls, q, 0), 0)
    ensures AllStand(t, ls, Frontier(t, ls, q, level), level)
  {
    if level > 0 {
      var prev := level - 1;
      FrontierStands(t, ls, q, prev);
      FrontierStep(t, ls, q, prev, level);
      ExpandStand(t, ls, Frontier(t, ls, q, prev), prev, level, q[level]);
    }
  }

  lemma {:induction false} ScanFrontierStep(t: Nodes, ls: seq<LemmaEntry>, q: seq<SplRange>, level: nat, k: nat)
    requires ValidLemmas(ls) && ValidQuery(q) && k == level + 1 && level < |q| && AllStand(t, ls, Frontier(t, ls, q, 0), 0)
    ensures ScanItems(ls, Frontier(t, ls, q, level), q, k) == Scan(ls, 0, |ls|, q, 0)
  {
    if level == 0 {
      ScanKids(ls, 0, |ls|, 1, q, 0);
    } else {
      var prev := level - 1;
      var before := Frontier(t, ls, q, prev);
      ScanFrontierStep(t, ls, q, prev, level);
      FrontierStands(t, ls, q, prev);
      ScanExpand(t, ls, before, q, prev, level);
      FrontierStep(t, ls, q, prev, level);
    }
  }

  /** What is found inside of the frontier is what a scan of the whole list finds. */
  lemma ScanFrontier(t: Nodes, ls: seq<LemmaEntry>, q: seq<SplRange>, level: nat, k: nat)
    requires Packed(t, ls) && ValidQuery(q) && k == level + 1 <= |q|
    ensures AllStand(t, ls, Frontier(t, ls, q, level), level)
    ensures ScanItems(ls, Frontier(t, ls, q, level), q, k) == Scan(ls, 0, |ls|, q, 0)
  {
    FirstLayerStands(t, ls, q);
    FrontierStands(t, ls, q, level);
    ScanFrontierStep(t, ls, q, level, k);
  }

  /** The numbers `lo .. lo + n`. */
  ghost function Interval(lo: nat, n: nat): seq<nat>
    decreases n
  {
    if n == 0 then [] else [lo] + Interval(lo + 1, n - 1)
  }

  /** At the end of the query a node yields its homophones. */
  ghost function Homophones(t: Nodes, v: nat, level: nat): seq<nat>
    requires v < t.Size(level)
  {
    Interval(t.HomoOff(level, v), t.HomoNum(level, v))
  }

  lemma ScanHomophones(t: Nodes, ls: seq<LemmaEntry>, it: Item, q: seq<SplRange>, level: nat, k: nat)
    requires ValidLemmas(ls) && |q| == k == level + 1 && Stands(t, ls, it, level)
    ensures ScanItem(ls, it, q, k) == Homophones(t, it.node, level)
  {
    var h := HomoEnd(ls, it.lo, it.e, level);
    GroupShares(ls, it.lo, it.e, level, it.lo, it.e);
    forall i | it.lo <= i < it.e ensures |ls[i].spls| == |q| <==> i < h {
      assert GoesOn(ls, it.lo, i, level);
      assert SplIdx(ls[i], k) == 0 <==> i < h;
      assert ValidEntry(ls[i]);
    }
    ScanSplit(ls, it.lo, h, it.e, q, k);
    ScanNothing(ls, h, it.e, q, k);
    ScanAll(ls, it.lo, h, q, k);
  }

  lemma {:induction false} ScanAll(ls: seq<LemmaEntry>, lo: nat, hi: nat, q: seq<SplRange>, k: nat)
    requires lo <= hi <= |ls| && forall i | lo <= i < hi :: Selected(ls[i], q, k)
    ensures Scan(ls, lo, hi, q, k) == Interval(lo, hi - lo)
    decreases hi - lo
  {
    if lo < hi {
      ScanAll(ls, lo + 1, hi, q, k);
    }
  }
}
