/** What a search in a packed trie holds and finds, told from the list of lemmas alone. */
module TrieAnswers {
  import opened DictDef
  import opened TrieLayout
  import opened TriePrefixes
  import opened TrieScan
  import opened TrieSearch

  /** The ids of `p` from the first to the one of `level` are asked for. */
  ghost predicate AskedFor(q: seq<SplRange>, p: seq<uint16>, level: nat)
    requires level < |q|
  {
    level < |p| && forall j | 0 <= j <= level :: q[j].start <= p[j] < q[j].start + q[j].num
  }

  ghost function OfLength(ps: set<seq<uint16>>, n: nat): set<seq<uint16>> {
    set p | p in ps && |p| == n
  }

  /** The different beginnings of `level + 1` ids that are asked for. */
  ghost function AskedHeads(ls: seq<LemmaEntry>, q: seq<SplRange>, level: nat): set<seq<uint16>>
    requires level < |q|
  {
    set p | p in Prefixes(ls, 0, |ls|, level + 1) && |p| == level + 1 && AskedFor(q, p, level)
  }

  ghost predicate NextIn(r: SplRange, p: seq<uint16>, level: nat) {
    level < |p| && r.Has(p[level])
  }

  /** The beginnings, of `n` ids or more, of the lemmas that a list of intervals holds. */
  ghost function Under(ls: seq<LemmaEntry>, items: seq<Item>, n: nat): set<seq<uint16>> {
    if items == [] then {} else OfItem(ls, items[0], n) + Under(ls, items[1..], n)
  }

  ghost function OfItem(ls: seq<LemmaEntry>, it: Item, n: nat): set<seq<uint16>> {
    if it.lo <= it.e <= |ls| then Prefixes(ls, it.lo, it.e, n) else {}
  }

  /** No two of the intervals hold the same beginning. */
  ghost predicate Apart(ls: seq<LemmaEntry>, items: seq<Item>, n: nat) {
    items == [] || (OfItem(ls, items[0], n) !! Under(ls, items[1..], n) && Apart(ls, items[1..], n))
  }

  lemma {:induction false} UnderConcat(ls: seq<LemmaEntry>, a: seq<Item>, b: seq<Item>, n: nat)
    ensures Under(ls, a + b, n) == Under(ls, a, n) + Under(ls, b, n)
    ensures Apart(ls, a, n) && Apart(ls, b, n) && Under(ls, a, n) !! Under(ls, b, n) ==> Apart(ls, a + b, n)
  {
    hide OfItem;
    if a == [] {
      assert a + b == b;
    } else {
      assert (a + b)[1..] == a[1..] + b;
      UnderConcat(ls, a[1..], b, n);
    }
  }

  lemma PrefixesLonger(ls: seq<LemmaEntry>, lo: nat, hi: nat, n: nat)
    requires lo <= hi <= |ls|
    ensures Prefixes(ls, lo, hi, n + 1) <= Prefixes(ls, lo, hi, n)
  {
    hide Prefixes;
    forall p | p in Prefixes(ls, lo, hi, n + 1) ensures p in Prefixes(ls, lo, hi, n) {
      OneLonger(ls, lo, hi, n, p);
    }
  }

  /** The sons that a range asks for hold the beginnings whose next id is asked for, each of them once. */
  lemma {:induction false} KidsHold(ls: seq<LemmaEntry>, a: nat, lo: nat, hi: nat, level: nat, n: nat, first: nat, r: SplRange)
    requires ValidLemmas(ls) && a <= lo <= hi <= |ls| && SharedPrefix(ls, a, hi, level) && n == level + 1
    ensures forall p :: p in Under(ls, Kids(ls, lo, hi, level, first, r), n) <==> p in Prefixes(ls, lo, hi, n) && NextIn(r, p, level)
    ensures Apart(ls, Kids(ls, lo, hi, level, first, r), n)
    decreases hi - lo
  {
    hide Prefixes, ValidLemmas, NextIn;
    if lo < hi {
      var e := GroupEnd(ls, lo, hi, level);
      KidsHold(ls, a, e, hi, level, n, first + 1, r);
      GroupsDiffer(ls, a, lo, e, hi, level, n);
      SameNext(ls, a, lo, e, hi, level, n, r);
      var rest := Kids(ls, e, hi, level, first + 1, r);
      if r.Has(SplIdx(ls[lo], level)) {
        assert ([Item(first, lo, e)] + rest)[1..] == rest;
      } else {
        assert [] + rest == rest;
      }
    } else {
      assert forall p :: p !in Prefixes(ls, lo, hi, n) by {
        assert forall p :: !BegunIn(ls, lo, hi, n, p);
      }
    }
  }

  /** The beginnings in one group go on with the same id. */
  lemma SameNext(ls: seq<LemmaEntry>, a: nat, lo: nat, e: nat, hi: nat, level: nat, n: nat, r: SplRange)
    requires a <= lo < e <= hi <= |ls| && SharedPrefix(ls, a, hi, level) && e == GroupEnd(ls, lo, hi, level) && n == level + 1
    ensures forall p | p in Prefixes(ls, lo, e, n) :: NextIn(r, p, level) <==> r.Has(SplIdx(ls[lo], level))
  {
    hide Prefixes, GroupEnd;
    forall p | p in Prefixes(ls, lo, e, n) ensures NextIn(r, p, level) <==> r.Has(SplIdx(ls[lo], level)) {
      assert BegunIn(ls, lo, e, n, p);
      var i :| lo <= i < e && Begun(ls, i, n, p);
      assert p[level] == ls[i].spls[level] == SplIdx(ls[i], level);
    }
  }

  lemma KidsOfHold(t: Nodes, ls: seq<LemmaEntry>, it: Item, level: nat, next: nat, r: SplRange)
    requires ValidLemmas(ls) && Stands(t, ls, it, level) && next == level + 1
    ensures forall p :: p in Under(ls, KidsOf(t, ls, it, level, r), next + 1) <==> p in OfItem(ls, it, next) && NextIn(r, p, next)
    ensures Apart(ls, KidsOf(t, ls, it, level, r), next + 1)
  {
    hide Prefixes, ValidLemmas, GroupEnd, HomoEnd, GroupCount, RepNode, RepBlock, Kids;
    var h := HomoEnd(ls, it.lo, it.e, level);
    GroupShares(ls, it.lo, it.e, level, it.lo, it.e);
    KidsHold(ls, h, h, it.e, next, next + 1, t.SonOff(level, it.node), r);
    HomophonesEnd(ls, it.lo, h, it.e, level, next + 1);
    forall p | p in Prefixes(ls, it.lo, it.e, next) && NextIn(r, p, next) ensures p in Prefixes(ls, it.lo, it.e, next + 1) {
      OneLonger(ls, it.lo, it.e, next, p);
    }
    PrefixesLonger(ls, it.lo, it.e, next);
  }

  /** One step of the search holds the beginnings whose next id is asked for, each of them once. */
  lemma {:induction false} ExpandHolds(t: Nodes, ls: seq<LemmaEntry>, items: seq<Item>, level: nat, next: nat, r: SplRange)
    requires ValidLemmas(ls) && AllStand(t, ls, items, level) && next == level + 1 && Apart(ls, items, next)
    ensures forall p :: p in Under(ls, Expand(t, ls, items, level, r), next + 1) <==> p in Under(ls, items, next) && NextIn(r, p, next)
    ensures Apart(ls, Expand(t, ls, items, level, r), next + 1)
  {
    hide ValidLemmas, Stands, OfItem, KidsOf, NextIn;
    if items != [] {
      var kids, rest := KidsOf(t, ls, items[0], level, r), Expand(t, ls, items[1..], level, r);
      KidsOfHold(t, ls, items[0], level, next, r);
      ExpandHolds(t, ls, items[1..], level, next, r);
      UnderConcat(ls, kids, rest, next + 1);
      assert Under(ls, kids, next + 1) !! Under(ls, rest, next + 1) by {
        assert OfItem(ls, items[0], next) !! Under(ls, items[1..], next);
      }
      assert Under(ls, items, next) == OfItem(ls, items[0], next) + Under(ls, items[1..], next);
      assert Expand(t, ls, items, level, r) == kids + rest;
    }
  }

  /** There is one interval for every beginning as long as the query has come. */
  lemma {:induction false} ItemsCounted(t: Nodes, ls: seq<LemmaEntry>, items: seq<Item>, level: nat, n: nat)
    requires ValidLemmas(ls) && AllStand(t, ls, items, level) && n == level + 1 && Apart(ls, items, n)
    ensures |items| == |OfLength(Under(ls, items, n), n)|
  {
    hide ValidLemmas, Stands, OfItem;
    if items == [] {
      assert OfLength(Under(ls, items, n), n) == {};
    } else {
      ItemsCounted(t, ls, items[1..], level, n);
      ItemHead(t, ls, items[0], level, n);
      OfLengthUnion(OfItem(ls, items[0], n), Under(ls, items[1..], n), n);
    }
  }

  lemma OfLengthUnion(a: set<seq<uint16>>, b: set<seq<uint16>>, n: nat)
    requires a !! b
    ensures |OfLength(a + b, n)| == |OfLength(a, n)| + |OfLength(b, n)|
  {
    assert OfLength(a + b, n) == OfLength(a, n) + OfLength(b, n);
    assert OfLength(a, n) !! OfLength(b, n);
  }

  lemma ItemHead(t: Nodes, ls: seq<LemmaEntry>, it: Item, level: nat, n: nat)
    requires ValidLemmas(ls) && Stands(t, ls, it, level) && n == level + 1
    ensures |OfLength(OfItem(ls, it, n), n)| == 1
  {
    hide Prefixes, GroupEnd, HomoEnd, GroupCount, RepNode, RepBlock;
    assert GoesOn(ls, it.lo, it.lo, level);
    OneHead(ls, it.lo, it.lo, it.e, it.e, level, n);
    assert OfLength(OfItem(ls, it, n), n) == Heads(ls, it.lo, it.e, n);
  }

  /** The frontier at `level` holds the beginnings that are asked for so far, each of them once. */
  ghost predicate HoldsAsked(ls: seq<LemmaEntry>, items: seq<Item>, q: seq<SplRange>, level: nat)
    requires level < |q|
  {
    && Apart(ls, items, level + 1)
    && forall p :: p in Under(ls, items, level + 1) <==> p in Prefixes(ls, 0, |ls|, level + 1) && AskedFor(q, p, level)
  }

  lemma FirstHolds(ls: seq<LemmaEntry>, q: seq<SplRange>)
    requires ValidLemmas(ls) && 0 < |q|
    ensures HoldsAsked(ls, Kids(ls, 0, |ls|, 0, 1, q[0]), q, 0)
  {
    hide Prefixes, ValidLemmas, Kids, Under, Apart;
    AllShareNothing(ls);
    KidsHold(ls, 0, 0, |ls|, 0, 1, 1, q[0]);
  }

  lemma ExpandHoldsAsked(t: Nodes, ls: seq<LemmaEntry>, items: seq<Item>, q: seq<SplRange>, prev: nat, level: nat)
    requires ValidLemmas(ls) && AllStand(t, ls, items, prev) && level == prev + 1 < |q| && HoldsAsked(ls, items, q, prev)
    ensures HoldsAsked(ls, Expand(t, ls, items, prev, q[level]), q, level)
  {
    hide Prefixes, ValidLemmas, Expand, Under, Apart, AllStand;
    ExpandHolds(t, ls, items, prev, level, q[level]);
    forall p ensures p in Under(ls, Expand(t, ls, items, prev, q[level]), level + 1)
        <==> p in Prefixes(ls, 0, |ls|, level + 1) && AskedFor(q, p, level) {
      OneLonger(ls, 0, |ls|, level, p);
      assert p in Under(ls, items, level) <==> p in Prefixes(ls, 0, |ls|, level) && AskedFor(q, p, prev);
      assert p in Prefixes(ls, 0, |ls|, level) <==> BegunIn(ls, 0, |ls|, level, p);
      assert p in Prefixes(ls, 0, |ls|, level + 1) <==> BegunIn(ls, 0, |ls|, level + 1, p);
      if level < |p| {
        AskedStep(q, p, prev, level);
      }
    }
  }

  lemma AskedStep(q: seq<SplRange>, p: seq<uint16>, prev: nat, level: nat)
    requires level == prev + 1 < |q| && level < |p|
    ensures AskedFor(q, p, level) <==> AskedFor(q, p, prev) && NextIn(q[level], p, level)
  {
  }

  lemma {:induction false} FrontierHolds(t: Nodes, ls: seq<LemmaEntry>, q: seq<SplRange>, level: nat)
    requires Packed(t, ls) && level < |q|
    ensures AllStand(t, ls, Frontier(t, ls, q, level), level)
    ensures HoldsAsked(ls, Frontier(t, ls, q, level), q, level)
  {
    hide HoldsAsked, AllStand, ValidLemmas, Kids, Expand, SharedPrefix;
    FirstLayerStands(t, ls, q);
    FrontierStands(t, ls, q, level);
    if level == 0 {
      FirstHolds(ls, q);
      assert Frontier(t, ls, q, level) == Kids(ls, 0, |ls|, 0, 1, q[0]);
    } else {
      var prev: nat := level - 1;
      var items := Frontier(t, ls, q, prev);
      FrontierHolds(t, ls, q, prev);
      FrontierStep(t, ls, q, prev, level);
      ExpandHoldsAsked(t, ls, items, q, prev, level);
      assert Frontier(t, ls, q, level) == Expand(t, ls, items, prev, q[level]);
    }
  }

  lemma HeldIsAsked(ls: seq<LemmaEntry>, items: seq<Item>, q: seq<SplRange>, level: nat)
    requires level < |q| && HoldsAsked(ls, items, q, level)
    ensures AskedHeads(ls, q, level) == OfLength(Under(ls, items, level + 1), level + 1)
  {
    hide Prefixes, Under, Apart, AskedFor;
    forall p ensures p in AskedHeads(ls, q, level) <==> p in OfLength(Under(ls, items, level + 1), level + 1) {
      assert p in Under(ls, items, level + 1) <==> p in Prefixes(ls, 0, |ls|, level + 1) && AskedFor(q, p, level);
    }
  }

  /** A layer of the search has one node for every different beginning, of its length, that is asked for. */
  lemma FrontierCounted(t: Nodes, ls: seq<LemmaEntry>, q: seq<SplRange>, level: nat)
    requires Packed(t, ls) && level < |q|
    ensures |Frontier(t, ls, q, level)| == |AskedHeads(ls, q, level)|
  {
    hide Prefixes, ValidLemmas, Frontier, AskedFor, Under, Apart, AllStand;
    var items := Frontier(t, ls, q, level);
    FrontierHolds(t, ls, q, level);
    HeldIsAsked(ls, items, q, level);
    ItemsCounted(t, ls, items, level, level + 1);
  }

  /** No node buffer overflows exactly if at no length more than 200 different beginnings are asked for. */
  lemma {:induction false} NeverFullIff(t: Nodes, ls: seq<LemmaEntry>, q: seq<SplRange>, level: nat)
    requires Packed(t, ls) && level < |q|
    ensures NeverFull(t, ls, q, level) <==> forall k: nat | k <= level :: |AskedHeads(ls, q, k)| <= 200
  {
    hide AskedHeads, Frontier;
    FrontierCounted(t, ls, q, level);
    if level > 0 {
      NeverFullIff(t, ls, q, level - 1);
    }
  }

  /** The first son that a range asks for stands for the lemmas that go on with the smallest such id. */
  ghost predicate FirstAsked(ls: seq<LemmaEntry>, lo: nat, hi: nat, level: nat, r: SplRange, kids: seq<Item>)
    requires hi <= |ls|
  {
    if kids == [] then forall i | lo <= i < hi :: !r.Has(SplIdx(ls[i], level))
    else
      && lo <= kids[0].lo < kids[0].e <= hi && r.Has(SplIdx(ls[kids[0].lo], level))
      && (forall i | lo <= i < kids[0].lo :: !r.Has(SplIdx(ls[i], level)))
      && (forall i | kids[0].lo <= i < kids[0].e :: SplIdx(ls[i], level) == SplIdx(ls[kids[0].lo], level))
      && (forall i | kids[0].e <= i < hi :: SplIdx(ls[i], level) > SplIdx(ls[kids[0].lo], level))
  }

  lemma {:induction false} FirstKid(ls: seq<LemmaEntry>, a: nat, lo: nat, hi: nat, level: nat, first: nat, r: SplRange)
    requires ValidLemmas(ls) && a <= lo <= hi <= |ls| && SharedPrefix(ls, a, hi, level)
    ensures FirstAsked(ls, lo, hi, level, r, Kids(ls, lo, hi, level, first, r))
    decreases hi - lo
  {
    hide ValidLemmas;
    if lo < hi {
      var e := GroupEnd(ls, lo, hi, level);
      FirstKid(ls, a, e, hi, level, first + 1, r);
      forall i | e <= i < hi ensures SplIdx(ls[i], level) > SplIdx(ls[lo], level) {
        Ascent(ls, a, lo, e, hi, level);
        Ascent(ls, a, e, i, hi, level);
      }
    }
  }

  /** Of the lemmas that one range asks for, the ones with the smallest id. */
  ghost predicate IsFirstAsked(ls: seq<LemmaEntry>, r: SplRange, i: nat) {
    && i < |ls| && |ls[i].spls| == 1 && r.start <= ls[i].spls[0] < r.start + r.num
    && forall j | 0 <= j < |ls| && r.start <= SplIdx(ls[j], 0) < r.start + r.num :: ls[i].spls[0] <= SplIdx(ls[j], 0)
  }

  /** A search for the first node only finds the lemmas of one Hanzi whose id is the smallest that is asked for and begins a lemma. */
  lemma FirstOnlyFinds(t: Nodes, ls: seq<LemmaEntry>, q: seq<SplRange>, i: nat)
    requires Packed(t, ls) && |q| == 1
    ensures i in Found(t, ls, q, true) <==> IsFirstAsked(ls, q[0], i)
  {
    hide ValidLemmas, Kids, SharedPrefix, RepBlock, GroupCount, ScanItems;
    AllShareNothing(ls);
    var kids := Kids(ls, 0, |ls|, 0, 1, q[0]);
    FirstKid(ls, 0, 0, |ls|, 0, 1, q[0]);
    if kids == [] {
      assert FoundItems(t, ls, q, true) == [];
      ScanNone(ls, q, 1);
    } else {
      assert FoundItems(t, ls, q, true) == kids[..1];
      ScanOne(ls, kids[..1], q, 1);
      ScanIsFilter(ls, kids[0].lo, kids[0].e, q, 1, i);
    }
  }

  lemma ScanNone(ls: seq<LemmaEntry>, q: seq<SplRange>, k: nat)
    ensures ScanItems(ls, [], q, k) == []
  {
  }

  lemma ScanOne(ls: seq<LemmaEntry>, items: seq<Item>, q: seq<SplRange>, k: nat)
    requires |items| == 1
    ensures ScanItems(ls, items, q, k) == ScanItem(ls, items[0], q, k)
  {
    assert items[1..] == [];
  }
}
