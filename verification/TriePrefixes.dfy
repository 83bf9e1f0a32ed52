/** How many nodes a trie has, counted on the list of lemmas alone. */
module TriePrefixes {
  import opened DictDef
  import opened TrieLayout

  /** `p` is the first part, at least `n` ids long, of the spelling of lemma `i`. */
  ghost predicate Begun(ls: seq<LemmaEntry>, i: nat, n: nat, p: seq<uint16>)
    requires i < |ls|
  {
    n <= |p| <= |ls[i].spls| && ls[i].spls[..|p|] == p
  }

  ghost predicate BegunIn(ls: seq<LemmaEntry>, lo: nat, hi: nat, n: nat, p: seq<uint16>)
    requires hi <= |ls|
  {
    exists i :: lo <= i < hi && Begun(ls, i, n, p)
  }

  /** The beginnings of `s` of `n` ids or more. */
  ghost function Beginnings(s: seq<uint16>, n: nat): set<seq<uint16>> {
    set k | n <= k <= |s| :: s[..k]
  }

  /** The different beginnings, of `n` ids or more, of the spellings of the lemmas `lo..hi`. */
  ghost function Prefixes(ls: seq<LemmaEntry>, lo: nat, hi: nat, n: nat): (ps: set<seq<uint16>>)
    requires hi <= |ls|
    ensures forall p :: p in ps <==> BegunIn(ls, lo, hi, n, p)
    decreases hi - lo
  {
    if hi <= lo then {} else
      OwnBeginnings(ls, lo, n);
      Beginnings(ls[lo].spls, n) + Prefixes(ls, lo + 1, hi, n)
  }

  lemma OwnBeginnings(ls: seq<LemmaEntry>, i: nat, n: nat)
    requires i < |ls|
    ensures forall p :: p in Beginnings(ls[i].spls, n) <==> Begun(ls, i, n, p)
  {
  }

  /** The different beginnings of exactly `n` ids. */
  ghost function Heads(ls: seq<LemmaEntry>, lo: nat, hi: nat, n: nat): set<seq<uint16>>
    requires hi <= |ls|
  {
    set p | p in Prefixes(ls, lo, hi, n) && |p| == n
  }

  /** Lemmas of different groups have no beginning in common that is longer than what all share. */
  lemma OccursSplit(ls: seq<LemmaEntry>, lo: nat, e: nat, hi: nat, n: nat)
    requires lo <= e <= hi <= |ls|
    ensures Prefixes(ls, lo, hi, n) == Prefixes(ls, lo, e, n) + Prefixes(ls, e, hi, n)
  {
    hide Begun;
    forall p ensures BegunIn(ls, lo, hi, n, p) <==> BegunIn(ls, lo, e, n, p) || BegunIn(ls, e, hi, n, p) {
    }
  }

  lemma GroupsDiffer(ls: seq<LemmaEntry>, a: nat, lo: nat, e: nat, hi: nat, level: nat, n: nat)
    requires ValidLemmas(ls) && a <= lo < e <= hi <= |ls| && SharedPrefix(ls, a, hi, level)
    requires e == GroupEnd(ls, lo, hi, level) && n > level
    ensures Prefixes(ls, lo, e, n) !! Prefixes(ls, e, hi, n)
    ensures Prefixes(ls, lo, hi, n) == Prefixes(ls, lo, e, n) + Prefixes(ls, e, hi, n)
  {
    hide Prefixes, GroupEnd;
    OccursSplit(ls, lo, e, hi, n);
    forall p | p in Prefixes(ls, lo, e, n) && p in Prefixes(ls, e, hi, n) ensures false {
      assert BegunIn(ls, lo, e, n, p) && BegunIn(ls, e, hi, n, p);
      var i :| lo <= i < e && Begun(ls, i, n, p);
      var j :| e <= j < hi && Begun(ls, j, n, p);
      assert p[level] == SplIdx(ls[i], level) == SplIdx(ls[j], level);
      Ascent(ls, a, i, e, hi, level);
      Ascent(ls, a, e, j, hi, level);
    }
  }

  lemma Ascent(ls: seq<LemmaEntry>, a: nat, i: nat, j: nat, hi: nat, level: nat)
    requires ValidLemmas(ls) && SharedPrefix(ls, a, hi, level) && a <= i <= j < hi
    ensures SplIdx(ls[i], level) <= SplIdx(ls[j], level)
  {
    assert GoesOn(ls, a, i, level) && GoesOn(ls, a, j, level);
    NextSplAscends(ls, i, j, level);
  }

  /** The sons of a node are the beginnings that are one id longer. */
  lemma {:induction false} SonsAreHeads(ls: seq<LemmaEntry>, a: nat, lo: nat, hi: nat, level: nat, n: nat)
    requires ValidLemmas(ls) && a <= lo <= hi <= |ls| && SharedPrefix(ls, a, hi, level) && n == level + 1
    ensures GroupCount(ls, lo, hi, level) == |Heads(ls, lo, hi, n)|
    decreases hi - lo
  {
    hide Prefixes, ValidLemmas;
    if lo == hi {
      assert Heads(ls, lo, hi, n) == {};
    } else {
      assert GoesOn(ls, a, lo, level);
      var e := GroupEnd(ls, lo, hi, level);
      SonsAreHeads(ls, a, e, hi, level, n);
      GroupsDiffer(ls, a, lo, e, hi, level, n);
      OneHead(ls, a, lo, e, hi, level, n);
      assert Heads(ls, lo, hi, n) == Heads(ls, lo, e, n) + Heads(ls, e, hi, n);
    }
  }

  lemma OneHead(ls: seq<LemmaEntry>, a: nat, lo: nat, e: nat, hi: nat, level: nat, n: nat)
    requires a <= lo < e <= hi <= |ls| && SharedPrefix(ls, a, hi, level) && e == GroupEnd(ls, lo, hi, level) && n == level + 1
    requires n <= |ls[lo].spls|
    ensures Heads(ls, lo, e, n) == {ls[lo].spls[..n]}
  {
    hide Prefixes, GroupEnd;
    var q := ls[lo].spls[..n];
    forall i | lo <= i < e ensures n <= |ls[i].spls| && ls[i].spls[..n] == q {
      assert GoesOn(ls, a, i, level) && GoesOn(ls, a, lo, level);
      assert ls[i].spls[..n] == ls[i].spls[..level] + [SplIdx(ls[i], level)];
      assert ls[lo].spls[..n] == ls[lo].spls[..level] + [SplIdx(ls[lo], level)];
    }
    assert Begun(ls, lo, n, q);
    assert BegunIn(ls, lo, e, n, q);
    forall p | p in Heads(ls, lo, e, n) ensures p == q {
      assert BegunIn(ls, lo, e, n, p);
    }
  }

  /** Below the sons for `lo..hi` there is one node for every longer beginning. */
  lemma {:induction false} DescendantsCounted(ls: seq<LemmaEntry>, a: nat, lo: nat, hi: nat, level: nat, n: nat)
    requires ValidLemmas(ls) && a <= lo <= hi <= |ls| && SharedPrefix(ls, a, hi, level) && n == level + 2
    ensures Descendants(ls, lo, hi, level) == |Prefixes(ls, lo, hi, n)|
    decreases K_MAX_LEMMA_SIZE - level, hi - lo
  {
    hide Prefixes, Below, GroupEnd;
    if lo == hi {
      assert Prefixes(ls, lo, hi, n) == {};
    } else {
      assert GoesOn(ls, a, lo, level) && ValidEntry(ls[lo]);
      var e := GroupEnd(ls, lo, hi, level);
      DescendantsCounted(ls, a, e, hi, level, n);
      BelowCounted(ls, a, lo, e, hi, level, n);
      GroupsDiffer(ls, a, lo, e, hi, level, n);
    }
  }

  lemma {:induction false} BelowCounted(ls: seq<LemmaEntry>, a: nat, lo: nat, e: nat, hi: nat, level: nat, n: nat)
    requires ValidLemmas(ls) && a <= lo < e <= hi <= |ls| && SharedPrefix(ls, a, hi, level) && e == GroupEnd(ls, lo, hi, level)
    requires level < K_MAX_LEMMA_SIZE && n == level + 2
    ensures Below(ls, lo, e, level) == |Prefixes(ls, lo, e, n)|
    decreases K_MAX_LEMMA_SIZE - level, e - lo, 0
  {
    hide Prefixes, Heads, GroupEnd, HomoEnd, GroupCount, Descendants, SharedPrefix, ValidLemmas;
    var h := HomoEnd(ls, lo, e, level);
    GroupShares(ls, a, hi, level, lo, e);
    SonsAreHeads(ls, h, h, e, level + 1, n);
    DescendantsCounted(ls, h, h, e, level + 1, n + 1);
    HomophonesEnd(ls, lo, h, e, level, n);
    HeadsAndLonger(ls, h, e, n);
  }

  lemma HeadsAndLonger(ls: seq<LemmaEntry>, lo: nat, hi: nat, n: nat)
    requires lo <= hi <= |ls|
    ensures |Prefixes(ls, lo, hi, n)| == |Heads(ls, lo, hi, n)| + |Prefixes(ls, lo, hi, n + 1)|
  {
    hide Prefixes;
    forall p ensures p in Prefixes(ls, lo, hi, n) <==> p in Heads(ls, lo, hi, n) || p in Prefixes(ls, lo, hi, n + 1) {
      OneLonger(ls, lo, hi, n, p);
    }
    forall p | p in Prefixes(ls, lo, hi, n + 1) ensures |p| > n {
      assert BegunIn(ls, lo, hi, n + 1, p);
    }
    assert Prefixes(ls, lo, hi, n) == Heads(ls, lo, hi, n) + Prefixes(ls, lo, hi, n + 1);
  }

  lemma OneLonger(ls: seq<LemmaEntry>, lo: nat, hi: nat, n: nat, p: seq<uint16>)
    requires lo <= hi <= |ls|
    ensures BegunIn(ls, lo, hi, n, p) ==> |p| == n || BegunIn(ls, lo, hi, n + 1, p)
    ensures BegunIn(ls, lo, hi, n + 1, p) ==> BegunIn(ls, lo, hi, n, p)
  {
    if BegunIn(ls, lo, hi, n, p) && |p| != n {
      var i :| lo <= i < hi && Begun(ls, i, n, p);
      assert Begun(ls, i, n + 1, p);
    }
    if BegunIn(ls, lo, hi, n + 1, p) {
      var i :| lo <= i < hi && Begun(ls, i, n + 1, p);
      assert Begun(ls, i, n, p);
    }
  }

  /** The lemmas that stop at `level` have no longer beginnings. */
  lemma HomophonesEnd(ls: seq<LemmaEntry>, lo: nat, h: nat, e: nat, level: nat, n: nat)
    requires ValidLemmas(ls) && lo <= h <= e <= |ls| && h == HomoEnd(ls, lo, e, level) && n == level + 2
    ensures Prefixes(ls, lo, e, n) == Prefixes(ls, h, e, n)
  {
    hide Prefixes;
    OccursSplit(ls, lo, h, e, n);
    forall i | lo <= i < h ensures |ls[i].spls| < n {
      assert ValidEntry(ls[i]) && SplIdx(ls[i], level + 1) == 0;
    }
    assert Prefixes(ls, lo, h, n) == {};
  }

  /**
   * The size of a trie, read off the list: the first layer has one node for every first id, the other layers
   * together have one for every longer beginning. So exactly a buffer for that many nodes is large enough.
   */
  lemma NodesCounted(ls: seq<LemmaEntry>)
    requires ValidLemmas(ls)
    ensures GroupCount(ls, 0, |ls|, 0) == |Heads(ls, 0, |ls|, 1)|
    ensures Descendants(ls, 0, |ls|, 0) == |Prefixes(ls, 0, |ls|, 2)|
  {
    hide Prefixes, Heads, Descendants, GroupCount, ValidLemmas, SharedPrefix;
    AllShareNothing(ls);
    SonsAreHeads(ls, 0, 0, |ls|, 0, 1);
    DescendantsCounted(ls, 0, 0, |ls|, 0, 2);
  }

  /** A finished trie has exactly these nodes, and the root. */
  lemma TrieSize(t: Nodes, ls: seq<LemmaEntry>)
    requires Packed(t, ls)
    ensures |t.le0| == 1 + |Heads(ls, 0, |ls|, 1)|
    ensures |t.ge1| == |Prefixes(ls, 0, |ls|, 2)|
  {
    hide Prefixes, Heads, Descendants, GroupCount;
    NodesCounted(ls);
  }

  /** The lemmas whose spelling has `n` ids or more. */
  ghost function Words(ls: seq<LemmaEntry>, n: nat): set<seq<uint16>> {
    set i | 0 <= i < |ls| && n <= |ls[i].spls| :: ls[i].spls
  }

  /**
   * A place for every lemma is enough exactly if the beginnings that are no lemma's spelling are at most as many
   * as the lemmas that need no deeper node of their own: the repeated spellings and those of a single id.
   */
  lemma OnePlacePerLemmaIff(ls: seq<LemmaEntry>)
    requires ValidLemmas(ls)
    ensures Descendants(ls, 0, |ls|, 0) <= |ls| <==> |Prefixes(ls, 0, |ls|, 2) - Words(ls, 2)| <= |ls| - |Words(ls, 2)|
    ensures Descendants(ls, 0, |ls|, 0) < |ls| <==> |Prefixes(ls, 0, |ls|, 2) - Words(ls, 2)| < |ls| - |Words(ls, 2)|
  {
    hide Prefixes, Words, Descendants, GroupCount, ValidLemmas;
    NodesCounted(ls);
    WordsBegin(ls, 2);
    Removed(Prefixes(ls, 0, |ls|, 2), Words(ls, 2));
  }

  lemma WordsBegin(ls: seq<LemmaEntry>, n: nat)
    ensures Words(ls, n) <= Prefixes(ls, 0, |ls|, n)
  {
    hide Prefixes;
    forall i | 0 <= i < |ls| && n <= |ls[i].spls| ensures ls[i].spls in Prefixes(ls, 0, |ls|, n) {
      assert Begun(ls, i, n, ls[i].spls);
      assert BegunIn(ls, 0, |ls|, n, ls[i].spls);
    }
  }

  lemma Removed<X>(all: set<X>, part: set<X>)
    requires part <= all
    ensures |all - part| == |all| - |part|
  {
    assert all == (all - part) + part;
  }
}
