/** What a packed trie means: every node stands for one interval of the sorted lemma list. */
module TrieLayout {
  import opened DictDef

  /** The lemmas `lo..hi` agree on their first `level` spelling ids and go on behind them. */
  ghost predicate SharedPrefix(ls: seq<LemmaEntry>, lo: nat, hi: nat, level: nat) {
    && lo <= hi <= |ls|
    && (forall i | lo <= i < hi :: GoesOn(ls, lo, i, level))
  }

  ghost predicate GoesOn(ls: seq<LemmaEntry>, lo: nat, i: nat, level: nat)
    requires lo < |ls| && i < |ls|
  {
    SamePrefix(ls[lo], ls[i], level) && level < |ls[i].spls|
  }

  /** End of the run of lemmas that have the spelling id of lemma `lo` at `level`. */
  ghost function GroupEnd(ls: seq<LemmaEntry>, lo: nat, hi: nat, level: nat): (e: nat)
    requires lo < hi <= |ls|
    ensures lo < e <= hi
    ensures forall i | lo <= i < e :: SplIdx(ls[i], level) == SplIdx(ls[lo], level)
    ensures e < hi ==> SplIdx(ls[e], level) != SplIdx(ls[lo], level)
    decreases hi - lo
  {
    if lo + 1 < hi && SplIdx(ls[lo + 1], level) == SplIdx(ls[lo], level)
    then GroupEnd(ls, lo + 1, hi, level)
    else lo + 1
  }

  /** End of the run of lemmas that stop at `level`; they are the homophones of the node. */
  ghost function HomoEnd(ls: seq<LemmaEntry>, lo: nat, hi: nat, level: nat): (e: nat)
    requires lo <= hi <= |ls|
    ensures lo <= e <= hi
    ensures forall i | lo <= i < e :: SplIdx(ls[i], level + 1) == 0
    ensures e < hi ==> SplIdx(ls[e], level + 1) != 0
    decreases hi - lo
  {
    if lo < hi && SplIdx(ls[lo], level + 1) == 0 then HomoEnd(ls, lo + 1, hi, level) else lo
  }

  /** Number of different spelling ids at `level`, which is the number of sons. */
  ghost function GroupCount(ls: seq<LemmaEntry>, lo: nat, hi: nat, level: nat): (n: nat)
    requires hi <= |ls|
    ensures lo < hi ==> 1 <= n <= hi - lo
    ensures hi <= lo ==> n == 0
    decreases hi - lo
  {
    if hi <= lo then 0 else 1 + GroupCount(ls, GroupEnd(ls, lo, hi, level), hi, level)
  }

  /** Number of nodes below the son block of `lo..hi`. */
  ghost function Descendants(ls: seq<LemmaEntry>, lo: nat, hi: nat, level: nat): nat
    requires hi <= |ls|
    decreases K_MAX_LEMMA_SIZE - level, hi - lo
  {
    if hi <= lo || level >= K_MAX_LEMMA_SIZE then 0
    else
      var e := GroupEnd(ls, lo, hi, level);
      Below(ls, lo, e, level) + Descendants(ls, e, hi, level)
  }

  /** Number of nodes below the one node that stands for the group `lo..e`. */
  ghost function Below(ls: seq<LemmaEntry>, lo: nat, e: nat, level: nat): nat
    requires lo <= e <= |ls| && level < K_MAX_LEMMA_SIZE
    decreases K_MAX_LEMMA_SIZE - level, e - lo, 0
  {
    var h := HomoEnd(ls, lo, e, level);
    GroupCount(ls, h, e, level + 1) + Descendants(ls, h, e, level + 1)
  }

  /** The two node buffers of a trie. Nodes of level 0 are in `le0`, behind the root; the others in `ge1`. */
  datatype Nodes = Nodes(le0: seq<LmaNodeLE0>, ge1: seq<LmaNodeGE1>) {
    function Size(level: nat): nat { if level == 0 then |le0| else |ge1| }

    function Spl(level: nat, v: nat): uint16
      requires v < Size(level)
    {
      if level == 0 then le0[v].splIdx else ge1[v].splIdx
    }

    function HomoOff(level: nat, v: nat): nat
      requires v < Size(level)
    {
      if level == 0 then le0[v].homoIdxBufOff else GetHomoIdxBufOffset(ge1[v])
    }

    function HomoNum(level: nat, v: nat): nat
      requires v < Size(level)
    {
      if level == 0 then le0[v].numOfHomo else ge1[v].numOfHomo
    }

    function SonOff(level: nat, v: nat): nat
      requires v < Size(level)
    {
      if level == 0 then le0[v].son1stOff else GetSonOffset(ge1[v])
    }

    function SonNum(level: nat, v: nat): nat
      requires v < Size(level)
    {
      if level == 0 then le0[v].numOfSon else ge1[v].numOfSon
    }
  }

  /** Node `v` of `level` stands for the lemmas `lo..e`; its sons begin at `u`. */
  ghost predicate RepNode(t: Nodes, ls: seq<LemmaEntry>, lo: nat, e: nat, level: nat, v: nat, u: nat)
    requires lo < e <= |ls|
    decreases K_MAX_LEMMA_SIZE - level, e - lo, 0
  {
    && level < K_MAX_LEMMA_SIZE
    && v < t.Size(level)
    && var h := HomoEnd(ls, lo, e, level);
       && t.Spl(level, v) == SplIdx(ls[lo], level)
       && t.HomoOff(level, v) == lo
       && t.HomoNum(level, v) == h - lo
       && t.SonNum(level, v) == GroupCount(ls, h, e, level + 1)
       && t.SonOff(level, v) == (if h < e then u else 0)
       && RepBlock(t, ls, h, e, level + 1, u, u + GroupCount(ls, h, e, level + 1))
  }

  /** The nodes from `first` on are the sons for `lo..hi`, one a group; what is below them begins at `u`. */
  ghost predicate RepBlock(t: Nodes, ls: seq<LemmaEntry>, lo: nat, hi: nat, level: nat, first: nat, u: nat)
    requires hi <= |ls|
    decreases K_MAX_LEMMA_SIZE - level, hi - lo, 1
  {
    lo < hi ==>
      && level < K_MAX_LEMMA_SIZE
      && var e := GroupEnd(ls, lo, hi, level);
         && RepNode(t, ls, lo, e, level, first, u)
         && RepBlock(t, ls, e, hi, level, first + 1, u + Below(ls, lo, e, level))
  }

  /** The nodes `a..b` are the same in both sequences. */
  ghost predicate Agree<X>(s: seq<X>, s': seq<X>, a: nat, b: nat) {
    |s| == |s'| && forall k {:trigger s'[k]} | a <= k < b && k < |s| :: s[k] == s'[k]
  }

  /** Both buffers agree on the nodes `a..b` of `level`. */
  ghost predicate AgreeOn(t: Nodes, t': Nodes, level: nat, a: nat, b: nat) {
    if level == 0 then Agree(t.le0, t'.le0, a, b) else Agree(t.ge1, t'.ge1, a, b)
  }

  /** Nothing changed but the nodes `a..b` of `level` and the deeper nodes from `u` on. */
  ghost predicate OnlyChanged(t: Nodes, t': Nodes, level: nat, a: nat, b: nat, u: nat) {
    && |t.le0| == |t'.le0| && |t.ge1| == |t'.ge1|
    && (forall k {:trigger t'.le0[k]} | 0 <= k < |t.le0| && !(level == 0 && a <= k < b) :: t.le0[k] == t'.le0[k])
    && (forall k {:trigger t'.ge1[k]} | 0 <= k < |t.ge1| && k < u && !(level > 0 && a <= k < b) :: t.ge1[k] == t'.ge1[k])
  }

  /** A block is its first node and the block of the rest. */
  lemma OpenBlock(t: Nodes, ls: seq<LemmaEntry>, lo: nat, hi: nat, level: nat, first: nat, u: nat) returns (g: nat, u': nat)
    requires lo < hi <= |ls| && RepBlock(t, ls, lo, hi, level, first, u)
    ensures level < K_MAX_LEMMA_SIZE && g == GroupEnd(ls, lo, hi, level) && u' == u + Below(ls, lo, g, level)
    ensures RepNode(t, ls, lo, g, level, first, u) && RepBlock(t, ls, g, hi, level, first + 1, u')
    ensures GroupCount(ls, lo, hi, level) == 1 + GroupCount(ls, g, hi, level)
    ensures Descendants(ls, lo, hi, level) == Below(ls, lo, g, level) + Descendants(ls, g, hi, level)
  {
    g := GroupEnd(ls, lo, hi, level);
    u' := u + Below(ls, lo, g, level);
  }

  lemma CloseBlock(t: Nodes, ls: seq<LemmaEntry>, lo: nat, hi: nat, level: nat, first: nat, u: nat, g: nat, u': nat)
    requires lo < hi <= |ls| && level < K_MAX_LEMMA_SIZE
    requires g == GroupEnd(ls, lo, hi, level) && u' == u + Below(ls, lo, g, level)
    requires RepNode(t, ls, lo, g, level, first, u) && RepBlock(t, ls, g, hi, level, first + 1, u')
    ensures RepBlock(t, ls, lo, hi, level, first, u)
  {
  }

  /** A block is kept by every change outside of its son block and of the nodes below it. */
  lemma {:induction false} BlockFrame(t: Nodes, t': Nodes, ls: seq<LemmaEntry>, lo: nat, hi: nat, level: nat, first: nat, u: nat)
    requires hi <= |ls| && RepBlock(t, ls, lo, hi, level, first, u)
    requires AgreeOn(t, t', level, first, first + GroupCount(ls, lo, hi, level))
    requires Agree(t.ge1, t'.ge1, u, u + Descendants(ls, lo, hi, level))
    ensures RepBlock(t', ls, lo, hi, level, first, u)
    decreases K_MAX_LEMMA_SIZE - level, hi - lo, 1
  {
    if lo < hi {
      var g, u' := OpenBlock(t, ls, lo, hi, level, first, u);
      NodeFrame(t, t', ls, lo, g, level, first, u);
      BlockFrame(t, t', ls, g, hi, level, first + 1, u');
      CloseBlock(t', ls, lo, hi, level, first, u, g, u');
    }
  }

  lemma {:induction false} NodeFrame(t: Nodes, t': Nodes, ls: seq<LemmaEntry>, lo: nat, e: nat, level: nat, v: nat, u: nat)
    requires lo < e <= |ls| && RepNode(t, ls, lo, e, level, v, u)
    requires AgreeOn(t, t', level, v, v + 1)
    requires Agree(t.ge1, t'.ge1, u, u + Below(ls, lo, e, level))
    ensures RepNode(t', ls, lo, e, level, v, u)
    decreases K_MAX_LEMMA_SIZE - level, e - lo, 0
  {
    var h := HomoEnd(ls, lo, e, level);
    BlockFrame(t, t', ls, h, e, level + 1, u, u + GroupCount(ls, h, e, level + 1));
  }

  /** A uniform run up to a border is one group. */
  lemma {:induction false} RunIsGroup(ls: seq<LemmaEntry>, lo: nat, e: nat, hi: nat, level: nat)
    requires lo < e <= hi <= |ls|
    requires forall i | lo <= i < e :: SplIdx(ls[i], level) == SplIdx(ls[lo], level)
    requires e < hi ==> SplIdx(ls[e], level) != SplIdx(ls[lo], level)
    ensures GroupEnd(ls, lo, hi, level) == e
    ensures GroupEnd(ls, lo, e, level) == e
  {
    var g, g' := GroupEnd(ls, lo, hi, level), GroupEnd(ls, lo, e, level);
    assert !(g < e) && !(e < g) && !(g' < e);
  }

  /** Cutting `lo..hi` at the border `s` splits the groups and the nodes below them. */
  lemma {:induction false} SplitAtBorder(ls: seq<LemmaEntry>, lo: nat, s: nat, hi: nat, level: nat)
    requires lo <= s <= hi <= |ls| && level < K_MAX_LEMMA_SIZE
    requires lo < s < hi ==> SplIdx(ls[s - 1], level) != SplIdx(ls[s], level)
    ensures GroupCount(ls, lo, hi, level) == GroupCount(ls, lo, s, level) + GroupCount(ls, s, hi, level)
    ensures Descendants(ls, lo, hi, level) == Descendants(ls, lo, s, level) + Descendants(ls, s, hi, level)
    decreases s - lo
  {
    if lo < s {
      var e := GroupEnd(ls, lo, hi, level);
      GroupEndBefore(ls, lo, s, hi, level);
      SplitAtBorder(ls, e, s, hi, level);
    }
  }

  lemma GroupEndBefore(ls: seq<LemmaEntry>, lo: nat, s: nat, hi: nat, level: nat)
    requires lo < s <= hi <= |ls|
    requires s < hi ==> SplIdx(ls[s - 1], level) != SplIdx(ls[s], level)
    ensures GroupEnd(ls, lo, hi, level) == GroupEnd(ls, lo, s, level) <= s
  {
    var e := GroupEnd(ls, lo, s, level);
    RunIsGroup(ls, lo, e, hi, level);
  }

  /** The next group may be appended to a block that is built up to a border. */
  lemma {:induction false} AppendNode(t: Nodes, ls: seq<LemmaEntry>, lo: nat, s: nat, e: nat, level: nat, first: nat, u: nat, v: nat, w: nat)
    requires lo <= s < e <= |ls| && level < K_MAX_LEMMA_SIZE
    requires lo < s ==> SplIdx(ls[s - 1], level) != SplIdx(ls[s], level)
    requires GroupEnd(ls, s, e, level) == e
    requires RepBlock(t, ls, lo, s, level, first, u)
    requires v == first + GroupCount(ls, lo, s, level) && w == u + Descendants(ls, lo, s, level)
    requires RepNode(t, ls, s, e, level, v, w)
    ensures RepBlock(t, ls, lo, e, level, first, u)
    decreases s - lo
  {
    if lo < s {
      GroupEndBefore(ls, lo, s, e, level);
      var g, u' := OpenBlock(t, ls, lo, s, level, first, u);
      AppendNode(t, ls, g, s, e, level, first + 1, u', v, w);
      CloseBlock(t, ls, lo, e, level, first, u, g, u');
    }
  }

  /** Appending the group `s..e` adds one son and what is below it. */
  lemma AppendCounts(ls: seq<LemmaEntry>, lo: nat, s: nat, e: nat, level: nat)
    requires lo <= s < e <= |ls| && level < K_MAX_LEMMA_SIZE
    requires lo < s ==> SplIdx(ls[s - 1], level) != SplIdx(ls[s], level)
    requires forall i | s <= i < e :: SplIdx(ls[i], level) == SplIdx(ls[s], level)
    ensures GroupCount(ls, lo, e, level) == GroupCount(ls, lo, s, level) + 1
    ensures Descendants(ls, lo, e, level) == Descendants(ls, lo, s, level) + Below(ls, s, e, level)
  {
    RunIsGroup(ls, s, e, e, level);
    SplitAtBorder(ls, lo, s, e, level);
  }

  /** A group shares one id more; the part of it behind the homophones goes on. */
  lemma GroupShares(ls: seq<LemmaEntry>, lo: nat, hi: nat, level: nat, s: nat, e: nat)
    requires ValidLemmas(ls) && SharedPrefix(ls, lo, hi, level) && lo <= s < e <= hi
    requires forall i | s <= i < e :: SplIdx(ls[i], level) == SplIdx(ls[s], level)
    ensures SharedPrefix(ls, HomoEnd(ls, s, e, level), e, level + 1)
    ensures forall i | s <= i < e :: SplIdx(ls[i], level + 1) == 0 <==> i < HomoEnd(ls, s, e, level)
  {
    var h := HomoEnd(ls, s, e, level);
    forall i, j | s <= i < e && s <= j < e ensures SamePrefix(ls[i], ls[j], level + 1) {
      assert GoesOn(ls, lo, i, level) && GoesOn(ls, lo, j, level);
      assert ls[i].spls[..level + 1] == ls[i].spls[..level] + [SplIdx(ls[i], level)];
      assert ls[j].spls[..level + 1] == ls[j].spls[..level] + [SplIdx(ls[j], level)];
    }
    forall i | h <= i < e ensures SplIdx(ls[i], level + 1) != 0 {
      NextSplAscends(ls, h, i, level + 1);
    }
  }

  /** The scan has seen `s..i` of the current group of `lo..hi`, `homoNum` of them homophones of its node. */
  ghost predicate GroupOpen(ls: seq<LemmaEntry>, lo: nat, s: nat, i: nat, hi: nat, level: nat, homoNum: nat) {
    && lo <= s < i <= hi <= |ls|
    && (lo < s ==> SplIdx(ls[s - 1], level) != SplIdx(ls[s], level))
    && (forall k | s <= k < i :: SplIdx(ls[k], level) == SplIdx(ls[s], level))
    && homoNum == HomoEnd(ls, s, i, level) - s
  }

  function One(terminated: bool): nat { if terminated then 1 else 0 }

  /** Counting the terminators of a group counts its homophones, because they come first. */
  lemma GroupStep(ls: seq<LemmaEntry>, lo: nat, s: nat, i: nat, hi: nat, level: nat, homoNum: nat)
    requires ValidLemmas(ls) && SharedPrefix(ls, lo, hi, level)
    requires GroupOpen(ls, lo, s, i, hi, level, homoNum) && i < hi
    ensures SplIdx(ls[i], level) == SplIdx(ls[s], level) ==>
      GroupOpen(ls, lo, s, i + 1, hi, level, homoNum + One(SplIdx(ls[i], level + 1) == 0))
    ensures SplIdx(ls[i], level) != SplIdx(ls[s], level) ==>
      GroupOpen(ls, lo, i, i + 1, hi, level, One(SplIdx(ls[i], level + 1) == 0))
  {
    if SplIdx(ls[i], level) == SplIdx(ls[s], level) {
      GroupShares(ls, lo, hi, level, s, i + 1);
      var h, h' := HomoEnd(ls, s, i, level), HomoEnd(ls, s, i + 1, level);
      assert h < i ==> SplIdx(ls[h], level + 1) != 0;
    }
  }

  /** Limits of the count fields: 16 bits in the first layers, 8 bits below. */
  ghost function SonLimit(level: nat): nat { if level <= 1 then 65535 else 255 }
  ghost function HomoLimit(level: nat): nat { if level == 0 then 65535 else 255 }

  /** The counts the builder asserts for the node of the group `lo..e` and for the nodes below it. */
  ghost predicate NodeFits(ls: seq<LemmaEntry>, lo: nat, e: nat, level: nat)
    requires lo < e <= |ls|
    decreases K_MAX_LEMMA_SIZE - level, e - lo, 0
  {
    level < K_MAX_LEMMA_SIZE ==>
      var h := HomoEnd(ls, lo, e, level);
      h - lo <= HomoLimit(level) && BlockFits(ls, h, e, level + 1)
  }

  ghost predicate GroupsFit(ls: seq<LemmaEntry>, lo: nat, hi: nat, level: nat)
    requires hi <= |ls|
    decreases K_MAX_LEMMA_SIZE - level, hi - lo, 1
  {
    lo < hi ==>
      var e := GroupEnd(ls, lo, hi, level);
      NodeFits(ls, lo, e, level) && GroupsFit(ls, e, hi, level)
  }

  ghost predicate BlockFits(ls: seq<LemmaEntry>, lo: nat, hi: nat, level: nat)
    requires hi <= |ls|
    decreases K_MAX_LEMMA_SIZE - level, hi - lo, 2
  {
    GroupCount(ls, lo, hi, level) <= SonLimit(level) && GroupsFit(ls, lo, hi, level)
  }

  lemma {:induction false} GroupsFitFrom(ls: seq<LemmaEntry>, lo: nat, s: nat, hi: nat, level: nat)
    requires lo <= s <= hi <= |ls| && GroupsFit(ls, lo, hi, level)
    requires lo < s < hi ==> SplIdx(ls[s - 1], level) != SplIdx(ls[s], level)
    ensures GroupsFit(ls, s, hi, level)
    decreases s - lo
  {
    if lo < s {
      GroupEndBefore(ls, lo, s, hi, level);
      GroupsFitFrom(ls, GroupEnd(ls, lo, hi, level), s, hi, level);
    }
  }

  /** The nodes `a..b` of `level` are zero. */
  ghost predicate StillZero(t: Nodes, level: nat, a: nat, b: nat) {
    && b <= t.Size(level)
    && if level == 0 then forall k | a <= k < b :: t.le0[k] == ZERO_LE0
       else forall k | a <= k < b :: t.ge1[k] == ZERO_GE1
  }

  /**
   * The first `sonPos` sons of the block `first..last` stand for `lo..s`. The other ones are still zero,
   * and nothing but the block and what is below it, from `u` on, has changed since `t0`.
   */
  ghost predicate SonsBuilt(t0: Nodes, t: Nodes, ls: seq<LemmaEntry>, lo: nat, s: nat, level: nat, first: nat, last: nat, u: nat, sonPos: nat)
    requires s <= |ls|
  {
    && sonPos == GroupCount(ls, lo, s, level)
    && RepBlock(t, ls, lo, s, level, first, u)
    && StillZero(t, level, first + sonPos, last)
    && OnlyChanged(t0, t, level, first, last, u)
  }

  /** What the next son, at `v` with its descendants from `w` on, does to a block built up to the border `s`. */
  lemma BlockGrows(t0: Nodes, t: Nodes, t': Nodes, ls: seq<LemmaEntry>, lo: nat, s: nat, e: nat, level: nat,
                   first: nat, last: nat, u: nat, sonPos: nat, v: nat, w: nat)
    requires lo <= s < e <= |ls| && level < K_MAX_LEMMA_SIZE
    requires lo < s ==> SplIdx(ls[s - 1], level) != SplIdx(ls[s], level)
    requires GroupEnd(ls, s, e, level) == e
    requires SonsBuilt(t0, t, ls, lo, s, level, first, last, u, sonPos)
    requires v == first + sonPos < last && w == u + Descendants(ls, lo, s, level)
    requires level > 0 ==> last <= u
    requires RepNode(t', ls, s, e, level, v, w) && OnlyChanged(t, t', level, v, v + 1, w)
    ensures SonsBuilt(t0, t', ls, lo, e, level, first, last, u, sonPos + 1)
    ensures Descendants(ls, lo, e, level) == Descendants(ls, lo, s, level) + Below(ls, s, e, level)
  {
    BlockFrame(t, t', ls, lo, s, level, first, u);
    AppendNode(t', ls, lo, s, e, level, first, u, v, w);
    AppendCounts(ls, lo, s, e, level);
    assert StillZero(t', level, v + 1, last);
  }

  /** The level whose buffer holds the parent of a block of `level`; the root lies in front of level 0. */
  function ParentLevel(level: nat): nat { if level <= 1 then 0 else level - 1 }

  /** The parent of a block of `level` has `sons` sons at `first`, and is otherwise what it was. */
  ghost predicate ParentUpdated(t: Nodes, t': Nodes, parent: nat, level: nat, first: nat, sons: nat) {
    var p := ParentLevel(level);
    && parent < t.Size(p) == t'.Size(p)
    && t'.SonOff(p, parent) == first && t'.SonNum(p, parent) == sons
    && t'.Spl(p, parent) == t.Spl(p, parent)
    && t'.HomoOff(p, parent) == t.HomoOff(p, parent) && t'.HomoNum(p, parent) == t.HomoNum(p, parent)
  }

  /** Node `v` holds its own data and has no sons yet. */
  ghost predicate NodeFilled(t: Nodes, v: nat, level: nat, splIdx: uint16, start: nat, homoNum: nat) {
    && v < t.Size(level)
    && t.Spl(level, v) == splIdx && t.HomoOff(level, v) == start && t.HomoNum(level, v) == homoNum
    && t.SonOff(level, v) == 0 && t.SonNum(level, v) == 0
  }

  /** A filled node whose sons have been built stands for its group. */
  lemma NodeBuilt(t: Nodes, t': Nodes, ls: seq<LemmaEntry>, s: nat, h: nat, e: nat, level: nat, v: nat, u: nat, sons: nat, u': nat)
    requires s <= h < e <= |ls| && s < e && level < K_MAX_LEMMA_SIZE && h == HomoEnd(ls, s, e, level)
    requires NodeFilled(t, v, level, SplIdx(ls[s], level), s, h - s)
    requires sons == GroupCount(ls, h, e, level + 1) && u' == u + sons
    requires ParentUpdated(t, t', v, level + 1, u, sons) && RepBlock(t', ls, h, e, level + 1, u, u')
    ensures RepNode(t', ls, s, e, level, v, u)
  {
  }

  /** So does a filled node without sons, when nothing goes on behind its homophones. */
  lemma LeafBuilt(t: Nodes, ls: seq<LemmaEntry>, s: nat, e: nat, level: nat, v: nat, u: nat)
    requires s < e <= |ls| && level < K_MAX_LEMMA_SIZE && e == HomoEnd(ls, s, e, level)
    requires NodeFilled(t, v, level, SplIdx(ls[s], level), s, e - s)
    ensures RepNode(t, ls, s, e, level, v, u)
  {
  }

  /** Building the block `first..last` of `level` leaves the updated parent and all other older nodes alone. */
  lemma ParentStays(t: Nodes, t': Nodes, t'': Nodes, parent: nat, level: nat, first: nat, last: nat, sons: nat, u: nat, w: nat)
    requires ParentUpdated(t, t', parent, level, first, sons)
    requires OnlyChanged(t, t', ParentLevel(level), parent, parent + 1, w) && OnlyChanged(t', t'', level, first, last, u)
    requires w <= u && if level <= 1 then level == 1 || parent < first else parent < w <= first
    requires level == 1 ==> w <= first
    ensures ParentUpdated(t, t'', parent, level, first, sons)
    ensures level > 0 ==> OnlyChanged(t, t'', ParentLevel(level), parent, parent + 1, w)
  {
  }

  lemma ChangesCompose(t: Nodes, t': Nodes, t'': Nodes, level: nat, a: nat, b: nat, c: nat, d: nat, u: nat, w: nat)
    requires OnlyChanged(t, t', level, a, b, u) && OnlyChanged(t', t'', level, c, d, w)
    ensures OnlyChanged(t, t'', level, if a < c then a else c, if b < d then d else b, if u < w then u else w)
  {
  }

  /** A closed group of a block may be built: it is one group, its counts fit, and its nodes are accounted for. */
  lemma SubgroupReady(ls: seq<LemmaEntry>, lo: nat, s: nat, e: nat, hi: nat, level: nat)
    requires lo <= s < e <= hi <= |ls| && level < K_MAX_LEMMA_SIZE
    requires SharedPrefix(ls, lo, hi, level) && GroupsFit(ls, lo, hi, level)
    requires lo < s ==> SplIdx(ls[s - 1], level) != SplIdx(ls[s], level)
    requires forall i | s <= i < e :: SplIdx(ls[i], level) == SplIdx(ls[s], level)
    requires e < hi ==> SplIdx(ls[e], level) != SplIdx(ls[s], level)
    ensures SharedPrefix(ls, s, e, level) && GroupEnd(ls, s, e, level) == e && NodeFits(ls, s, e, level)
    ensures GroupCount(ls, lo, s, level) < GroupCount(ls, lo, hi, level)
    ensures Descendants(ls, lo, s, level) + Below(ls, s, e, level) <= Descendants(ls, lo, hi, level)
  {
    RunIsGroup(ls, s, e, hi, level);
    SplitAtBorder(ls, lo, s, hi, level);
    GroupsFitFrom(ls, lo, s, hi, level);
    forall i | s <= i < e ensures GoesOn(ls, s, i, level) {
      assert GoesOn(ls, lo, s, level) && GoesOn(ls, lo, i, level);
    }
  }

  lemma AllShareNothing(ls: seq<LemmaEntry>)
    requires ValidLemmas(ls)
    ensures SharedPrefix(ls, 0, |ls|, 0)
  {
    forall i | 0 <= i < |ls| ensures GoesOn(ls, 0, i, 0) {
      assert ValidEntry(ls[i]);
    }
  }

  /** The finished trie: a root with its sons behind it, and no node that is not accounted for. */
  ghost predicate Packed(t: Nodes, ls: seq<LemmaEntry>) {
    && ValidLemmas(ls) && ls != []
    && |t.le0| == 1 + GroupCount(ls, 0, |ls|, 0)
    && |t.ge1| == Descendants(ls, 0, |ls|, 0)
    && t.le0[0].son1stOff == 1 && t.le0[0].numOfSon == GroupCount(ls, 0, |ls|, 0)
    && RepBlock(t, ls, 0, |ls|, 0, 1, 0)
  }

  /** Cutting off nodes behind a block and its descendants keeps the block. */
  lemma {:induction false} BlockTrim(t: Nodes, t': Nodes, ls: seq<LemmaEntry>, lo: nat, hi: nat, level: nat, first: nat, u: nat)
    requires hi <= |ls| && RepBlock(t, ls, lo, hi, level, first, u)
    requires t'.le0 <= t.le0 && t'.ge1 <= t.ge1
    requires lo < hi ==> first + GroupCount(ls, lo, hi, level) <= t'.Size(level)
    requires lo < hi ==> u + Descendants(ls, lo, hi, level) <= |t'.ge1|
    ensures RepBlock(t', ls, lo, hi, level, first, u)
    decreases K_MAX_LEMMA_SIZE - level, hi - lo, 1
  {
    if lo < hi {
      var g, u' := OpenBlock(t, ls, lo, hi, level, first, u);
      NodeTrim(t, t', ls, lo, g, level, first, u);
      BlockTrim(t, t', ls, g, hi, level, first + 1, u');
      CloseBlock(t', ls, lo, hi, level, first, u, g, u');
    }
  }

  lemma {:induction false} NodeTrim(t: Nodes, t': Nodes, ls: seq<LemmaEntry>, lo: nat, e: nat, level: nat, v: nat, u: nat)
    requires lo < e <= |ls| && RepNode(t, ls, lo, e, level, v, u)
    requires t'.le0 <= t.le0 && t'.ge1 <= t.ge1 && v < t'.Size(level)
    requires u + Below(ls, lo, e, level) <= |t'.ge1|
    ensures RepNode(t', ls, lo, e, level, v, u)
    decreases K_MAX_LEMMA_SIZE - level, e - lo, 0
  {
    var h := HomoEnd(ls, lo, e, level);
    BlockTrim(t, t', ls, h, e, level + 1, u, u + GroupCount(ls, h, e, level + 1));
  }
}
