/** From a lemma id back to the spelling ids the lemma was built with. */
module SplidRecovery {
  import opened DictDef
  import opened TrieLayout
  import opened TrieScan
  import opened TrieSearch
  import opened DictTries
  import opened DictLists
  import opened SingleChars
  import opened MixedRadix

  const K_MATRIX_SIZE: nat := 40

  /** Every spelling of the table begins some lemma. */
  ghost predicate NoGaps(le0: seq<LmaNodeLE0>, spellingNum: nat) {
    FirstLayer(le0, spellingNum) && |le0| == spellingNum + 1
  }

  lemma {:induction false} IdsAtLeast(le0: seq<LmaNodeLE0>, spellingNum: nat, p: nat)
    requires NoGaps(le0, spellingNum) && 1 <= p < |le0|
    ensures K_FULL_SPL_ID_START + p - 1 <= le0[p].splIdx
  {
    if p > 1 {
      IdsAtLeast(le0, spellingNum, p - 1);
      assert le0[p - 1].splIdx < le0[p].splIdx;
    }
  }

  lemma {:induction false} IdsAtMost(le0: seq<LmaNodeLE0>, spellingNum: nat, p: nat)
    requires NoGaps(le0, spellingNum) && 1 <= p < |le0|
    ensures le0[p].splIdx <= K_FULL_SPL_ID_START + p - 1
    decreases |le0| - p
  {
    if p < |le0| - 1 {
      IdsAtMost(le0, spellingNum, p + 1);
      assert le0[p].splIdx < le0[p + 1].splIdx;
    }
  }

  /** Without gaps the index leads to the very node of an id, and every lookup is right. */
  lemma NoGapsIndexed(le0: seq<LmaNodeLE0>, spellingNum: nat, s: nat)
    requires NoGaps(le0, spellingNum) && K_FULL_SPL_ID_START <= s <= K_FULL_SPL_ID_START + spellingNum
    ensures Indexed(le0, s) && IndexEntry(le0, s) == s - K_FULL_SPL_ID_START + 1
    ensures s < K_FULL_SPL_ID_START + spellingNum ==> le0[IndexEntry(le0, s)].splIdx == s
  {
    var r := s - K_FULL_SPL_ID_START + 1;
    forall p | 1 <= p < |le0| ensures le0[p].splIdx == K_FULL_SPL_ID_START + p - 1 {
      IdsAtLeast(le0, spellingNum, p);
      IdsAtMost(le0, spellingNum, p);
    }
    FirstFromUnique(le0, s, r);
  }

  lemma NoGapsExact(le0: seq<LmaNodeLE0>, spellingNum: nat, a: nat, b: nat)
    requires NoGaps(le0, spellingNum) && K_FULL_SPL_ID_START <= a < b <= K_FULL_SPL_ID_START + spellingNum
    ensures LookupExact(le0, a, b)
  {
    NoGapsIndexed(le0, spellingNum, a);
    NoGapsIndexed(le0, spellingNum, b);
    LookupExactIff(le0, spellingNum, a, b);
  }

  /** All ids are full ids of the spelling table. */
  ghost predicate FullySpelled(l: LemmaEntry, spellingNum: nat) {
    forall k | 0 <= k < |l.spls| :: K_FULL_SPL_ID_START <= l.spls[k] < K_FULL_SPL_ID_START + spellingNum
  }

  /** The search for these very spelling ids. */
  ghost function Exactly(splids: seq<uint16>): (q: seq<SplRange>)
    ensures |q| == |splids| && forall k | 0 <= k < |q| :: q[k] == SplRange(splids[k], 1)
  {
    if splids == [] then [] else Exactly(splids[..|splids| - 1]) + [SplRange(splids[|splids| - 1], 1)]
  }

  lemma SelectedExactly(l: LemmaEntry, splids: seq<uint16>)
    ensures Selected(l, Exactly(splids), 0) <==> l.spls == splids
  {
    if Selected(l, Exactly(splids), 0) {
      forall k | 0 <= k < |splids| ensures l.spls[k] == splids[k] {
        assert Exactly(splids)[k].Has(l.spls[k]);
      }
    }
  }

  /** Some lemma has this spelling and this id. */
  ghost predicate HasLemma(ls: seq<LemmaEntry>, splids: seq<uint16>, id: nat) {
    exists i :: 0 <= i < |ls| && ls[i].spls == splids && ls[i].idxByHz == id
  }

  /** A node is all there is in the frontier for a spelling; or there is nothing. */
  ghost predicate Reached(t: Nodes, ls: seq<LemmaEntry>, q: seq<SplRange>, level: nat, found: bool, v: nat) {
    && level < |q|
    && AllStand(t, ls, Frontier(t, ls, q, level), level)
    && NodesOf(Frontier(t, ls, q, level)) == if found then [v] else []
  }

  lemma ReachedFirst(t: Nodes, ls: seq<LemmaEntry>, spellingNum: nat, q: seq<SplRange>, s: nat)
    requires Packed(t, ls) && NoGaps(t.le0, spellingNum) && q != [] && q[0] == SplRange(s, 1)
    requires K_FULL_SPL_ID_START <= s < K_FULL_SPL_ID_START + spellingNum
    ensures Reached(t, ls, q, 0, true, IndexEntry(t.le0, s)) && IndexEntry(t.le0, s) < |t.le0|
  {
    NoGapsIndexed(t.le0, spellingNum, s);
    NoGapsIndexed(t.le0, spellingNum, s + 1);
    NoGapsExact(t.le0, spellingNum, s, s + 1);
    var i := IndexEntry(t.le0, s);
    FirstLayerKids(t, ls, q[0], i, i + 1);
    assert Upto(i, i + 1) == [i];
    FirstLayerStands(t, ls, q);
  }

  /** The sons of the one node that was reached, as a scan needs them. */
  lemma OpenReached(t: Nodes, ls: seq<LemmaEntry>, q: seq<SplRange>, level: nat, next: nat, v: nat)
    returns (first: nat, num: nat, lo: nat, hi: nat, u: nat, kids: seq<nat>)
    requires ValidLemmas(ls) && Reached(t, ls, q, level, true, v) && next == level + 1 < |q|
    ensures v < t.Size(level) && first == t.SonOff(level, v) && num == t.SonNum(level, v)
    ensures lo <= hi <= |ls| && SharedPrefix(ls, lo, hi, next) && num == GroupCount(ls, lo, hi, next)
    ensures RepBlock(t, ls, lo, hi, next, first, u) && kids == NodesOf(Kids(ls, lo, hi, next, first, q[next]))
    ensures kids == NodesOf(Frontier(t, ls, q, next)) && AllStand(t, ls, Frontier(t, ls, q, next), next)
  {
    var items := Frontier(t, ls, q, level);
    NodesOfAt(items);
    assert items == [items[0]] && items[1..] == [];
    FrontierStep(t, ls, q, level, next);
    ExpandStand(t, ls, items, level, next, q[next]);
    FirstOfLayer(t, ls, items, level, v);
    first, num := t.SonOff(level, v), t.SonNum(level, v);
    lo, hi, u, kids := ExpandFirst(t, ls, items, level, next, q[next], first, num);
    assert kids + NodesOf(Expand(t, ls, items[1..], level, q[next])) == kids;
  }

  /** An empty frontier stays empty. */
  lemma {:induction false} FrontierEmpty(t: Nodes, ls: seq<LemmaEntry>, q: seq<SplRange>, level: nat, last: nat)
    requires level <= last < |q| && Frontier(t, ls, q, level) == []
    ensures Frontier(t, ls, q, last) == []
    decreases last - level
  {
    if level < last {
      var next := level + 1;
      FrontierStep(t, ls, q, level, next);
      FrontierEmpty(t, ls, q, next, last);
    }
  }

  /** Nothing was reached: there is no lemma with this spelling. */
  lemma NothingReached(t: Nodes, ls: seq<LemmaEntry>, splids: seq<uint16>, level: nat, v: nat, id: nat)
    requires Packed(t, ls) && ValidQuery(Exactly(splids)) && Reached(t, ls, Exactly(splids), level, false, v)
    ensures !HasLemma(ls, splids, id)
  {
    var q := Exactly(splids);
    var last := |q| - 1;
    NodesOfAt(Frontier(t, ls, q, level));
    FrontierEmpty(t, ls, q, level, last);
    ScanFrontier(t, ls, q, last, |q|);
    forall i | 0 <= i < |ls| ensures ls[i].spls != splids {
      ScanIsFilter(ls, 0, |ls|, q, 0, i);
      SelectedExactly(ls[i], splids);
    }
  }

  /** The homophones of the node that was reached are what a scan finds. */
  lemma ScanReached(t: Nodes, ls: seq<LemmaEntry>, q: seq<SplRange>, last: nat, k: nat, v: nat) returns (homos: seq<nat>)
    requires Packed(t, ls) && ValidQuery(q) && k == last + 1 == |q| && Reached(t, ls, q, last, true, v)
    ensures v < t.Size(last) && t.HomoOff(last, v) + t.HomoNum(last, v) <= |ls|
    ensures |homos| == t.HomoNum(last, v) && forall i | 0 <= i < |homos| :: homos[i] == t.HomoOff(last, v) + i
    ensures homos == Scan(ls, 0, |ls|, q, 0)
  {
    hide Frontier, Scan, Kids, RepNode, RepBlock;
    var items := Frontier(t, ls, q, last);
    NodesOfAt(items);
    assert items[1..] == [];
    FirstOfLayer(t, ls, items, last, v);
    ScanFrontier(t, ls, q, last, k);
    ScanHomophones(t, ls, items[0], q, last, k);
    homos := Homophones(t, v, last);
    HomophonesInList(t, ls, items[0], last, homos);
    assert ScanItems(ls, items, q, k) == homos + ScanItems(ls, items[1..], q, k) == homos;
  }

  lemma IntervalHas(homos: seq<nat>, off: nat, i: nat)
    requires forall k | 0 <= k < |homos| :: homos[k] == off + k
    ensures i in homos <==> off <= i < off + |homos|
  {
    if off <= i < off + |homos| {
      assert homos[i - off] == i;
    }
  }

  /** They are the lemmas with this spelling. */
  lemma HomophonesReached(t: Nodes, ls: seq<LemmaEntry>, splids: seq<uint16>, last: nat, v: nat)
    requires Packed(t, ls) && ValidQuery(Exactly(splids)) && last + 1 == |splids| && Reached(t, ls, Exactly(splids), last, true, v)
    ensures v < t.Size(last) && t.HomoOff(last, v) + t.HomoNum(last, v) <= |ls|
    ensures forall i | 0 <= i < |ls| :: ls[i].spls == splids <==> t.HomoOff(last, v) <= i < t.HomoOff(last, v) + t.HomoNum(last, v)
  {
    hide Scan, Reached, Packed, Selected, ValidQuery, Exactly;
    var homos := ScanReached(t, ls, Exactly(splids), last, |splids|, v);
    var off := t.HomoOff(last, v);
    forall i | 0 <= i < |ls| ensures ls[i].spls == splids <==> off <= i < off + |homos| {
      SpelledIff(ls, splids, homos, off, i);
    }
  }

  lemma SpelledIff(ls: seq<LemmaEntry>, splids: seq<uint16>, homos: seq<nat>, off: nat, i: nat)
    requires homos == Scan(ls, 0, |ls|, Exactly(splids), 0) && i < |ls| && forall k | 0 <= k < |homos| :: homos[k] == off + k
    ensures ls[i].spls == splids <==> off <= i < off + |homos|
  {
    hide Scan, Selected, Exactly;
    ScanIsFilter(ls, 0, |ls|, Exactly(splids), 0, i);
    SelectedExactly(ls[i], splids);
    IntervalHas(homos, off, i);
  }

  lemma ExactlyValid(splids: seq<uint16>)
    requires |splids| <= K_MAX_LEMMA_SIZE && forall k | 0 <= k < |splids| :: splids[k] != 0
    ensures ValidQuery(Exactly(splids))
  {
  }

  lemma AmongIffHas(ls: seq<LemmaEntry>, splids: seq<uint16>, off: nat, num: nat, id: nat)
    requires off + num <= |ls|
    requires forall i | 0 <= i < |ls| :: ls[i].spls == splids <==> off <= i < off + num
    ensures HasLemma(ls, splids, id) <==> exists i :: off <= i < off + num && ls[i].idxByHz == id
  {
    if i :| off <= i < off + num && ls[i].idxByHz == id {
      assert ls[i].spls == splids;
    }
  }

  /** The candidates for all characters of a word. */
  ghost predicate ManyEnough(cands: seq<seq<uint16>>) {
    (forall k | 0 <= k < |cands| :: cands[k] != []) && Product(Radices(cands), |cands|) <= 65535
  }

  ghost function Radices(cands: seq<seq<uint16>>): (r: seq<nat>)
    ensures |r| == |cands| && forall k | 0 <= k < |r| :: r[k] == |cands[k]|
  {
    seq(|cands|, k requires 0 <= k < |cands| => |cands[k]|)
  }

  /** What the enumeration tries as number `t`. */
  ghost predicate IsTry(cands: seq<seq<uint16>>, t: nat, splids: seq<uint16>)
    requires AllPositive(Radices(cands))
  {
    |splids| == |cands| && forall k | 0 <= k < |cands| :: splids[k] == cands[k][Digit(t, Radices(cands), k)]
  }

  ghost predicate NeverTried(cands: seq<seq<uint16>>, tryNum: nat, splids: seq<uint16>)
    requires AllPositive(Radices(cands))
  {
    forall t | 0 <= t < tryNum :: !IsTry(cands, t, splids)
  }

  ghost predicate Tried(cands: seq<seq<uint16>>, tryNum: nat, splids: seq<uint16>)
    requires AllPositive(Radices(cands))
  {
    exists t :: 0 <= t < tryNum && IsTry(cands, t, splids)
  }

  /** All ids are candidates for their character. */
  ghost predicate AllIn(splids: seq<uint16>, cands: seq<seq<uint16>>) {
    |splids| == |cands| && forall k | 0 <= k < |splids| :: splids[k] in cands[k]
  }

  /** Trying all combinations tries exactly the spellings made of candidates. */
  lemma TriedIff(cands: seq<seq<uint16>>, tryNum: nat, splids: seq<uint16>)
    requires AllPositive(Radices(cands)) && tryNum == Product(Radices(cands), |cands|)
    ensures Tried(cands, tryNum, splids) <==> AllIn(splids, cands)
    ensures NeverTried(cands, tryNum, splids) <==> !AllIn(splids, cands)
  {
    hide Digit, Product;
    if AllIn(splids, cands) {
      var t := SomeTryHits(cands, splids);
    }
    forall t | 0 <= t < tryNum && IsTry(cands, t, splids) ensures AllIn(splids, cands) {
      forall k | 0 <= k < |splids| ensures splids[k] in cands[k] {
        assert splids[k] == cands[k][Digit(t, Radices(cands), k)];
      }
    }
  }

  /** A spelling made of candidates is tried, as some number below the number of tries. */
  lemma SomeTryHits(cands: seq<seq<uint16>>, splids: seq<uint16>) returns (t: nat)
    requires AllPositive(Radices(cands)) && |splids| == |cands| && forall k | 0 <= k < |cands| :: splids[k] in cands[k]
    ensures t < Product(Radices(cands), |cands|) && IsTry(cands, t, splids)
  {
    hide Digit, Product;
    var digits := PositionsIn(cands, splids, |cands|);
    t := EveryCombination(digits, Radices(cands));
  }

  lemma {:induction false} PositionsIn(cands: seq<seq<uint16>>, splids: seq<uint16>, n: nat) returns (digits: seq<nat>)
    requires n <= |splids| == |cands| && forall k | 0 <= k < |cands| :: splids[k] in cands[k]
    ensures |digits| == n && forall k | 0 <= k < n :: digits[k] < |cands[k]| && cands[k][digits[k]] == splids[k]
  {
    if n == 0 {
      digits := [];
    } else {
      digits := PositionsIn(cands, splids, n - 1);
      var d: nat :| d < |cands[n - 1]| && cands[n - 1][d] == splids[n - 1];
      digits := digits + [d];
    }
  }

  /** Room that the first `k` candidate lists take. */
  ghost function Room(cands: seq<seq<uint16>>, k: nat): nat
    requires k <= |cands|
  {
    if k == 0 then 0 else Room(cands, k - 1) + |cands[k - 1]|
  }

  /** The dictionary together with the list of its words. */
  class LemmaDict {
    const dict: DictTrie
    const list: DictList
    /** `SpellingTrie::half_full_compatible` */
    const compatible: (uint16, uint16) -> bool
    ghost const fullToHalf: uint16 -> uint16

    /** Both were built from the same lemmas, spelled with full ids of the table. */
    ghost predicate Valid()
      reads list.buf, list.startPos, list.startId
    {
      && dict.Valid() && list.Valid()
      && NoGaps(dict.nodes.le0, dict.splTrie.spellingNum)
      && multiset(dict.lemmas) == multiset(list.lemmas)
      && (forall i | 0 <= i < |list.lemmas| :: Spelled(list.lemmas[i]) && FullySpelled(list.lemmas[i], dict.splTrie.spellingNum))
      && ListsCharsOf(list.scis, list.lemmas, fullToHalf)
    }

    constructor (d: DictTrie, l: DictList, compat: (uint16, uint16) -> bool, ghost f2h: uint16 -> uint16)
      requires d.Valid() && l.Valid() && NoGaps(d.nodes.le0, d.splTrie.spellingNum)
      requires multiset(d.lemmas) == multiset(l.lemmas)
      requires forall i | 0 <= i < |l.lemmas| :: Spelled(l.lemmas[i]) && FullySpelled(l.lemmas[i], d.splTrie.spellingNum)
      requires ListsCharsOf(l.scis, l.lemmas, f2h)
      ensures Valid() && dict == d && list == l && compatible == compat && fullToHalf == f2h
    {
      dict, list, compatible, fullToHalf := d, l, compat, f2h;
    }

    predicate IsFullId(splid: uint16) {
      K_FULL_SPL_ID_START <= splid < K_FULL_SPL_ID_START + dict.splTrie.spellingNum
    }

    /** The son with a given spelling id. */
    method FindSon(first: nat, num: nat, splid: uint16, ghost lo: nat, ghost hi: nat, ghost level: nat, ghost u: nat, ghost all: seq<nat>)
      returns (found: bool, son: nat)
      requires ValidLemmas(dict.lemmas) && lo <= hi <= |dict.lemmas| && SharedPrefix(dict.lemmas, lo, hi, level)
      requires level > 0 && RepBlock(dict.nodes, dict.lemmas, lo, hi, level, first, u) && num == GroupCount(dict.lemmas, lo, hi, level)
      requires all == NodesOf(Kids(dict.lemmas, lo, hi, level, first, SplRange(splid, 1)))
      ensures all == if found then [son] else []
    {
      hide RepBlock, ValidLemmas, Kids, NodesOf, SharedPrefix, SonScan;
      ghost var r := SplRange(splid, 1);
      ghost var s, u' := lo, u;
      assert [] + all == all;
      SonScanStart(dict.nodes, dict.lemmas, lo, hi, level, first, u, r, num, all);
      var sonPos: nat, v: nat := 0, first;
      while sonPos < num
        invariant SonScan(dict.nodes, dict.lemmas, lo, hi, level, first, r, num, all, s, u', sonPos, v, [])
      {
        ghost var done', g, w := SonScanStep(dict.nodes, dict.lemmas, lo, hi, level, first, r, num, all, s, u', sonPos, v, []);
        if dict.nodes.ge1[v].splIdx == splid {
          return true, v;
        }
        sonPos, v := sonPos + 1, v + 1;
        s, u' := g, w;
      }
      SonScanEnd(dict.nodes, dict.lemmas, lo, hi, level, first, r, num, all, s, u', sonPos, v, []);
      return false, 0;
    }

    /** Whether the id is among the homophones of a node. */
    method IdAmong(off: nat, num: nat, idLemma: nat) returns (r: bool)
      requires dict.IdsStored() && off + num <= |dict.lemmas|
      ensures r <==> exists i :: off <= i < off + num && dict.lemmas[i].idxByHz == idLemma
    {
      for homoPos := 0 to num
        invariant forall i | off <= i < off + homoPos :: dict.lemmas[i].idxByHz != idLemma
      {
        var idThis := dict.GetLemmaId(off + homoPos);
        if idThis == idLemma {
          return true;
        }
      }
      return false;
    }

    /** `try_extend`: whether the lemma with the id is spelled like this. */
    method TryExtend(splids: seq<uint16>, idLemma: nat) returns (r: bool)
      requires dict.Valid() && NoGaps(dict.nodes.le0, dict.splTrie.spellingNum)
      requires |splids| <= K_MAX_LEMMA_SIZE && (forall k | 0 <= k < |splids| :: IsFullId(splids[k]))
      ensures splids == [] ==> !r
      ensures splids != [] ==> (r <==> HasLemma(dict.lemmas, splids, idLemma))
    {
      if splids == [] {
        return false;
      }
      hide Packed, FirstLayer, Frontier, Reached, NodesOf, HasLemma, ValidQuery, Exactly;
      ExactlyValid(splids);
      ghost var q := Exactly(splids);
      var node := dict.splidLe0Index[splids[0] - K_FULL_SPL_ID_START];
      ReachedFirst(dict.nodes, dict.lemmas, dict.splTrie.spellingNum, q, splids[0]);
      var level: nat := 0;
      while level + 1 < |splids|
        invariant level < |splids| && Reached(dict.nodes, dict.lemmas, q, level, true, node)
      {
        var next := level + 1;
        var found, son := ExtendTo(node, splids[next], level, next, q);
        if !found {
          NothingReached(dict.nodes, dict.lemmas, splids, next, son, idLemma);
          return false;
        }
        node, level := son, next;
      }
      HomophonesReached(dict.nodes, dict.lemmas, splids, level, node);
      AmongIffHas(dict.lemmas, splids, dict.nodes.HomoOff(level, node), dict.nodes.HomoNum(level, node), idLemma);
      r := IdAmong(dict.nodes.HomoOff(level, node), dict.nodes.HomoNum(level, node), idLemma);
    }

    /** One step of `try_extend`, from a node of `level` to its son. */
    method ExtendTo(node: nat, splid: uint16, level: nat, ghost next: nat, ghost q: seq<SplRange>) returns (found: bool, son: nat)
      requires Packed(dict.nodes, dict.lemmas) && Reached(dict.nodes, dict.lemmas, q, level, true, node)
      requires next == level + 1 < |q| && q[next] == SplRange(splid, 1)
      ensures Reached(dict.nodes, dict.lemmas, q, next, found, son)
    {
      ghost var first, num, lo, hi, u, kids := OpenReached(dict.nodes, dict.lemmas, q, level, next, node);
      found, son := FindSon(dict.nodes.SonOff(level, node), dict.nodes.SonNum(level, node), splid, lo, hi, next, u, kids);
    }

    /** The spelling ids that are tried for one Hanzi. */
    ghost function CandsAt(hz: uint16, given: uint16, argValid: bool): seq<uint16> {
      if argValid && IsFullId(given) then [given]
      else Candidates(list.scis, |list.scis|, hz, if argValid then given else 0, compatible)
    }

    ghost function AllCands(word: seq<uint16>, given: seq<uint16>, argValid: bool): (r: seq<seq<uint16>>)
      requires |given| == |word|
      ensures |r| == |word| && forall k | 0 <= k < |word| :: r[k] == CandsAt(word[k], given[k], argValid)
    {
      seq(|word|, k requires 0 <= k < |word| => CandsAt(word[k], given[k], argValid))
    }

    /** The candidates fit the matrix: a looked up list has to leave one place free. */
    ghost predicate FitMatrix(word: seq<uint16>, given: seq<uint16>, argValid: bool)
      requires |given| == |word|
    {
      var cands := AllCands(word, given, argValid);
      forall k | 0 <= k < |word| ::
        Room(cands, k) + |cands[k]| + (if argValid && IsFullId(given[k]) then 0 else 1) <= K_MATRIX_SIZE
    }

    /** The candidates of one Hanzi, put into the matrix. */
    method PutCands(hz: uint16, given: uint16, argValid: bool, splMtrx: array<uint16>, start: nat) returns (num: nat)
      requires Ascending(list.scis) && |list.scis| <= 0x1_0000 && splMtrx.Length == K_MATRIX_SIZE
      requires HasHanzi(list.scis, hz)
      requires start + |CandsAt(hz, given, argValid)| + (if argValid && IsFullId(given) then 0 else 1) <= K_MATRIX_SIZE
      modifies splMtrx
      ensures num == |CandsAt(hz, given, argValid)| && splMtrx[start..start + num] == CandsAt(hz, given, argValid)
      ensures splMtrx[..start] == old(splMtrx[..start])
    {
      if argValid && IsFullId(given) {
        splMtrx[start] := given;
        num := 1;
      } else {
        num := list.GetSplidsForHanzi(hz, if argValid then given else 0, splMtrx, start, K_MATRIX_SIZE - start, compatible);
      }
    }

    /** The candidates of all characters, list behind list; `tryNum` is the number of combinations. */
    method FillMatrix(word: seq<uint16>, splids: array<uint16>, argValid: bool, splMtrx: array<uint16>, splStart: array<nat>) returns (tryNum: nat)
      requires Ascending(list.scis) && |list.scis| <= 0x1_0000 && splMtrx.Length == K_MATRIX_SIZE && splStart.Length == K_MAX_LEMMA_SIZE + 1
      requires |word| <= K_MAX_LEMMA_SIZE && |word| <= splids.Length && splids != splMtrx
      requires forall h | 0 <= h < |word| :: HasHanzi(list.scis, word[h])
      requires FitMatrix(word, splids[..|word|], argValid)
      modifies splMtrx, splStart
      ensures MatrixHolds(splMtrx[..], splStart[..], AllCands(word, splids[..|word|], argValid), |word|)
      ensures tryNum == Product(Radices(AllCands(word, splids[..|word|], argValid)), |word|)
    {
      hide MatrixHolds, CandsAt, Ascending, ListAt, Room;
      ghost var cands := AllCands(word, splids[..|word|], argValid);
      splStart[0] := 0;
      MatrixEmpty(splMtrx[..], splStart[..], cands);
      tryNum := 1;
      for pos := 0 to |word|
        invariant MatrixHolds(splMtrx[..], splStart[..], cands, pos)
        invariant tryNum == Product(Radices(cands), pos)
      {
        ghost var mtrx := splMtrx[..];
        ghost var starts := splStart[..];
        ghost var start := MatrixEnd(mtrx, starts, cands, pos);
        assert cands[pos] == CandsAt(word[pos], splids[pos], argValid);
        var candSplidsThis := PutCands(word[pos], splids[pos], argValid, splMtrx, splStart[pos]);
        splStart[pos + 1] := splStart[pos] + candSplidsThis;
        tryNum := tryNum * candSplidsThis;
        ListIsAt(splMtrx[..], cands, pos, start);
        MatrixGrows(mtrx, starts, splMtrx[..], splStart[..], cands, pos, start);
      }
    }

    /** The combination with the number `tryPos`, digit by digit. */
    static method FillTry(tryPos: nat, len: nat, splMtrx: array<uint16>, splStart: array<nat>, splids: array<uint16>, ghost cands: seq<seq<uint16>>)
      requires len == |cands| <= splids.Length && splids != splMtrx && AllPositive(Radices(cands))
      requires MatrixHolds(splMtrx[..], splStart[..], cands, len)
      modifies splids
      ensures IsTry(cands, tryPos, splids[..len]) && splids[len..] == old(splids[len..])
    {
      hide MatrixHolds, AllPositive, Product, Digit;
      ghost var radices := Radices(cands);
      var mod := 1;
      assert mod == Product(radices, 0) by { ProductOfNone(radices); }
      for pos := 0 to len
        invariant mod == Product(radices, pos)
        invariant forall k | 0 <= k < pos :: splids[k] == cands[k][Digit(tryPos, radices, k)]
        invariant splids[len..] == old(splids[len..])
      {
        var splid, radix := TryDigit(tryPos, pos, mod, splMtrx, splStart, cands, radices);
        splids[pos] := splid;
        mod := mod * radix;
      }
    }

    static method TryDigit(tryPos: nat, pos: nat, mod: nat, splMtrx: array<uint16>, splStart: array<nat>, ghost cands: seq<seq<uint16>>, ghost radices: seq<nat>)
      returns (splid: uint16, radix: nat)
      requires radices == Radices(cands) && AllPositive(radices) && pos < |cands| && mod == Product(radices, pos)
      requires MatrixHolds(splMtrx[..], splStart[..], cands, |cands|)
      ensures Digit(tryPos, radices, pos) < |cands[pos]| && splid == cands[pos][Digit(tryPos, radices, pos)]
      ensures mod * radix == Product(radices, pos + 1)
    {
      hide MatrixHolds;
      DividedByProduct(tryPos, radices, pos);
      MatrixRadix(splMtrx[..], splStart[..], cands, |cands|, pos);
      radix := splStart[pos + 1] - splStart[pos];
      var digit := tryPos / mod % radix;
      assert digit == Digit(tryPos, radices, pos);
      MatrixAt(splMtrx[..], splStart[..], cands, |cands|, pos, digit);
      splid := splMtrx[splStart[pos] + digit];
    }

    lemma ScisFull(x: nat)
      requires ListsCharsOf(list.scis, list.lemmas, fullToHalf) && x < |list.scis| && list.scis[x].hz != 0
      requires forall i | 0 <= i < |list.lemmas| :: FullySpelled(list.lemmas[i], dict.splTrie.spellingNum)
      ensures IsFullId(list.scis[x].fullSplid)
    {
      assert Occurs(list.scis[x], list.lemmas, fullToHalf);
    }

    /** Every candidate of a Hanzi that occurs is a full id. */
    lemma CandsFull(hz: uint16, given: uint16, argValid: bool, k: nat)
      requires ListsCharsOf(list.scis, list.lemmas, fullToHalf) && hz != 0 && k < |CandsAt(hz, given, argValid)|
      requires forall i | 0 <= i < |list.lemmas| :: FullySpelled(list.lemmas[i], dict.splTrie.spellingNum)
      ensures IsFullId(CandsAt(hz, given, argValid)[k])
    {
      hide Strict, Accepts, ListsCharsOf, FullySpelled, Cands;
      if !(argValid && IsFullId(given)) {
        var half, cand := if argValid then given else 0, CandsAt(hz, given, argValid)[k];
        CandsHas(list.scis, |list.scis|, hz, half, Strict(list.scis, hz, half), compatible, cand);
        var x :| 0 <= x < |list.scis| && list.scis[x].hz == hz && list.scis[x].fullSplid == cand;
        ScisFull(x);
      }
    }

    /** Without hints the spelling of a lemma is always among the candidates. */
    lemma OwnSpellingIsCand(i: nat, k: nat, given: uint16)
      requires ListsCharsOf(list.scis, list.lemmas, fullToHalf) && i < |list.lemmas| && Spelled(list.lemmas[i]) && k < |list.lemmas[i].hanzis|
      ensures list.lemmas[i].spls[k] in CandsAt(list.lemmas[i].hanzis[k], given, false)
    {
      var l := list.lemmas[i];
      var x := ItemFor(l, k, fullToHalf);
      assert Occurs(x, list.lemmas, fullToHalf);
      assert Listed(list.scis, x);
      CandsHas(list.scis, |list.scis|, l.hanzis[k], 0, Strict(list.scis, l.hanzis[k], 0), compatible, l.spls[k]);
    }

    /** Some Hanzi of the list's lemmas is this one and has a reading with the half id. */
    ghost predicate ReadWithHalf(hz: uint16, half: uint16) {
      exists i, k :: 0 <= i < |list.lemmas| && 0 <= k < |list.lemmas[i].hanzis| == |list.lemmas[i].spls| &&
        list.lemmas[i].hanzis[k] == hz && fullToHalf(list.lemmas[i].spls[k]) == half
    }

    /**
     * The hint goes with the reading `own` of the Hanzi. A full id has to be the reading itself. Any other hint is a half id,
     * and has to be the one of the reading; if no reading of the Hanzi has it, it is enough that it is compatible.
     */
    ghost predicate HintFits(hz: uint16, own: uint16, hint: uint16) {
      if 30 <= hint < 30 + dict.splTrie.spellingNum then hint == own
      else hint == 0 || hint == fullToHalf(own) || (!ReadWithHalf(hz, hint) && compatible(hint, own))
    }

    lemma ReadingItem(i: nat, k: nat) returns (x: nat)
      requires ListsCharsOf(list.scis, list.lemmas, fullToHalf) && i < |list.lemmas| && Spelled(list.lemmas[i]) && k < |list.lemmas[i].hanzis|
      ensures x < |list.scis| && list.scis[x].hz == list.lemmas[i].hanzis[k] && list.scis[x].fullSplid == list.lemmas[i].spls[k]
      ensures list.scis[x].halfSplid == fullToHalf(list.lemmas[i].spls[k])
    {
      var item := ItemFor(list.lemmas[i], k, fullToHalf);
      assert Occurs(item, list.lemmas, fullToHalf);
      assert Listed(list.scis, item);
      x :| 1 <= x < |list.scis| && SameChar(list.scis[x], item) && list.scis[x].halfSplid == item.halfSplid;
    }

    lemma ReadWithHalfIff(hz: uint16, half: uint16)
      requires ListsCharsOf(list.scis, list.lemmas, fullToHalf) && hz != 0
      requires forall i | 0 <= i < |list.lemmas| :: Spelled(list.lemmas[i])
      ensures ReadWithHalf(hz, half) <==> HasHalf(list.scis, hz, half)
    {
      hide Ascending, Listed;
      if ReadWithHalf(hz, half) {
        var i, k :| 0 <= i < |list.lemmas| && 0 <= k < |list.lemmas[i].hanzis| == |list.lemmas[i].spls| &&
          list.lemmas[i].hanzis[k] == hz && fullToHalf(list.lemmas[i].spls[k]) == half;
        var x := ReadingItem(i, k);
      }
      if HasHalf(list.scis, hz, half) {
        var x :| 0 <= x < |list.scis| && list.scis[x].hz == hz && list.scis[x].halfSplid == half;
        assert Occurs(list.scis[x], list.lemmas, fullToHalf);
      }
    }

    /** A reading is among the candidates exactly if the hint goes with it. */
    lemma OwnIsCandIff(i: nat, k: nat, hint: uint16)
      requires ListsCharsOf(list.scis, list.lemmas, fullToHalf) && i < |list.lemmas| && k < |list.lemmas[i].hanzis|
      requires forall i | 0 <= i < |list.lemmas| :: Spelled(list.lemmas[i])
      ensures Spelled(list.lemmas[i])
      ensures list.lemmas[i].spls[k] in CandsAt(list.lemmas[i].hanzis[k], hint, true) <==> HintFits(list.lemmas[i].hanzis[k], list.lemmas[i].spls[k], hint)
    {
      hide ListsCharsOf, Cands, ReadWithHalf;
      var hz, own := list.lemmas[i].hanzis[k], list.lemmas[i].spls[k];
      if !IsFullId(hint) {
        var at := CandidatesAreReadings(list.scis, hz, hint, compatible);
        ReadWithHalfIff(hz, hint);
        var x := ReadingItem(i, k);
        var cands := Candidates(list.scis, |list.scis|, hz, hint, compatible);
        if own in cands {
          var a :| 0 <= a < |cands| && cands[a] == own;
          ItemHalf(at[a]);
        }
        if HintFits(hz, own, hint) {
          if hint == fullToHalf(own) {
            assert list.scis[x].halfSplid == hint;
          }
          assert Reading(list.scis, hz, hint, compatible, x);
          var a :| 0 <= a < |at| && at[a] == x;
          assert cands[a] == own;
        }
      }
    }

    lemma ItemHalf(x: nat)
      requires ListsCharsOf(list.scis, list.lemmas, fullToHalf) && x < |list.scis| && list.scis[x].hz != 0
      ensures list.scis[x].halfSplid == fullToHalf(list.scis[x].fullSplid)
    {
      assert Occurs(list.scis[x], list.lemmas, fullToHalf);
    }

    /** Every hint goes with the lemma's own reading at its place. */
    ghost predicate HintsFit(l: LemmaEntry, hints: seq<uint16>)
      requires |hints| == |l.hanzis| == |l.spls|
    {
      forall k | 0 <= k < |hints| :: HintFits(l.hanzis[k], l.spls[k], hints[k])
    }

    lemma AllInIffHintsFit(i: nat, hints: seq<uint16>)
      requires ListsCharsOf(list.scis, list.lemmas, fullToHalf) && i < |list.lemmas| && |hints| == |list.lemmas[i].hanzis|
      requires forall i | 0 <= i < |list.lemmas| :: Spelled(list.lemmas[i])
      ensures Spelled(list.lemmas[i])
      ensures AllIn(list.lemmas[i].spls, AllCands(list.lemmas[i].hanzis, hints, true)) <==> HintsFit(list.lemmas[i], hints)
    {
      hide ListsCharsOf, HintFits, CandsAt;
      var l := list.lemmas[i];
      var cands := AllCands(l.hanzis, hints, true);
      forall k | 0 <= k < |hints| ensures l.spls[k] in cands[k] <==> HintFits(l.hanzis[k], l.spls[k], hints[k]) {
        OwnIsCandIff(i, k, hints[k]);
      }
    }

    /** Hints that are taken from the lemma itself, in full or as half ids, always fit. */
    lemma OwnHintsFit(l: LemmaEntry, hints: seq<uint16>)
      requires |hints| == |l.hanzis| == |l.spls|
      requires forall k | 0 <= k < |hints| ::
        hints[k] == l.spls[k] || (hints[k] == fullToHalf(l.spls[k]) && !(30 <= hints[k] < 30 + dict.splTrie.spellingNum))
      requires FullySpelled(l, dict.splTrie.spellingNum)
      ensures HintsFit(l, hints)
    {
    }

    lemma HanziListed(i: nat, k: nat)
      requires ListsCharsOf(list.scis, list.lemmas, fullToHalf) && i < |list.lemmas| && Spelled(list.lemmas[i]) && k < |list.lemmas[i].hanzis|
      ensures HasHanzi(list.scis, list.lemmas[i].hanzis[k])
    {
      var x := ItemFor(list.lemmas[i], k, fullToHalf);
      assert Occurs(x, list.lemmas, fullToHalf);
      assert Listed(list.scis, x);
    }

    /** The id belongs to one lemma only, in the trie as well. */
    lemma HasLemmaIff(id: nat, splids: seq<uint16>)
      requires ValidList(list.lemmas) && multiset(dict.lemmas) == multiset(list.lemmas) && 1 <= id <= |list.lemmas|
      ensures HasLemma(dict.lemmas, splids, id) <==> splids == list.lemmas[id - 1].spls
    {
      var l := list.lemmas[id - 1];
      assert l in multiset(dict.lemmas);
      var k :| 0 <= k < |dict.lemmas| && dict.lemmas[k] == l;
      if HasLemma(dict.lemmas, splids, id) {
        var i :| 0 <= i < |dict.lemmas| && dict.lemmas[i].spls == splids && dict.lemmas[i].idxByHz == id;
        assert dict.lemmas[i] in multiset(list.lemmas);
        var j :| 0 <= j < |list.lemmas| && list.lemmas[j] == dict.lemmas[i];
        assert j == id - 1;
      }
    }

    /** All combinations, one by one, until the lemma is met. */
    method TryAll(len: nat, tryNum: nat, splMtrx: array<uint16>, splStart: array<nat>, splids: array<uint16>, idLemma: nat, ghost cands: seq<seq<uint16>>)
      returns (hit: bool)
      requires Valid() && 1 <= idLemma <= |list.lemmas| && 1 <= len == |cands| <= splids.Length && len <= K_MAX_LEMMA_SIZE && splids != splMtrx
      requires splids != list.buf
      requires AllPositive(Radices(cands)) && tryNum == Product(Radices(cands), len)
      requires forall k, d | 0 <= k < len && 0 <= d < |cands[k]| :: IsFullId(cands[k][d])
      requires MatrixHolds(splMtrx[..], splStart[..], cands, len)
      modifies splids
      ensures hit ==> splids[..len] == list.lemmas[idLemma - 1].spls && Tried(cands, tryNum, splids[..len])
      ensures !hit ==> NeverTried(cands, tryNum, list.lemmas[idLemma - 1].spls)
    {
      hide IsTry, AllPositive, MatrixHolds, HasLemma, Product, ListsCharsOf, ValidList, NoGaps, Packed;
      ghost var target := list.lemmas[idLemma - 1].spls;
      for tryPos := 0 to tryNum
        invariant NeverTried(cands, tryPos, target)
      {
        FillTry(tryPos, len, splMtrx, splStart, splids, cands);
        TryIsFull(cands, tryPos, splids[..len]);
        HasLemmaIff(idLemma, splids[..len]);
        var r := TryExtend(splids[..len], idLemma);
        if r {
          return true;
        }
        if IsTry(cands, tryPos, target) {
          SameTry(cands, tryPos, splids[..len], target);
        }
      }
      return false;
    }

    lemma TryIsFull(cands: seq<seq<uint16>>, t: nat, splids: seq<uint16>)
      requires AllPositive(Radices(cands)) && IsTry(cands, t, splids)
      requires forall k, d | 0 <= k < |cands| && 0 <= d < |cands[k]| :: IsFullId(cands[k][d])
      ensures |splids| == |cands| && forall k | 0 <= k < |splids| :: IsFullId(splids[k])
    {
    }

    static lemma SameTry(cands: seq<seq<uint16>>, t: nat, a: seq<uint16>, b: seq<uint16>)
      requires AllPositive(Radices(cands)) && IsTry(cands, t, a) && IsTry(cands, t, b)
      ensures a == b
    {
    }

    /** The candidates for the lemma `idLemma`, when `given` is what the caller has put into the buffer. */
    ghost function CandsFor(idLemma: nat, given: seq<uint16>, argValid: bool): seq<seq<uint16>>
      requires 1 <= idLemma <= |list.lemmas| && |given| == |list.lemmas[idLemma - 1].hanzis|
    {
      AllCands(list.lemmas[idLemma - 1].hanzis, given, argValid)
    }

    /**
     * `get_lemma_splids`: the spelling ids of the lemma, if each of them is a candidate for its Hanzi,
     * which it always is when no hints are given; otherwise nothing.
     */
    method GetLemmaSplids(idLemma: nat, splids: array<uint16>, splidsMax: nat, argValid: bool) returns (len: nat)
      requires Valid() && splids != list.buf && splidsMax <= splids.Length
      requires 1 <= idLemma < |list.lemmas| ==>
        var word := list.lemmas[idLemma - 1].hanzis;
        && (if argValid then |word| == splidsMax else |word| <= splidsMax)
        && FitMatrix(word, splids[..|word|], argValid) && ManyEnough(CandsFor(idLemma, splids[..|word|], argValid))
      requires !(1 <= idLemma < |list.lemmas|) && argValid ==> splidsMax == 0
      modifies splids
      ensures !(1 <= idLemma < |list.lemmas|) ==> len == 0
      ensures 1 <= idLemma < |list.lemmas| ==>
        var l := list.lemmas[idLemma - 1];
        var cands := CandsFor(idLemma, old(splids[..|l.hanzis|]), argValid);
        && (AllIn(l.spls, cands) ==> len == |l.hanzis| && splids[..len] == l.spls)
        && (!AllIn(l.spls, cands) ==> len == 0)
        && (!argValid ==> len == |l.hanzis| && splids[..len] == l.spls)
      ensures 1 <= idLemma < |list.lemmas| ==>
        var l := list.lemmas[idLemma - 1];
        if !argValid || HintsFit(l, old(splids[..|l.hanzis|])) then len == |l.hanzis| && splids[..len] == l.spls else len == 0
    {
      hide ListsCharsOf, NoGaps, Packed, FitMatrix, HintsFit, AllIn, ManyEnough, CandsAt;
      var lmaStr := new uint16[K_MAX_LEMMA_SIZE + 1];
      var lmaLen := list.GetLemmaStr(idLemma, lmaStr, K_MAX_LEMMA_SIZE + 1);
      if lmaLen == 0 {
        // no characters, one empty combination, which `TryExtend` refuses
        var r := TryExtend([], idLemma);
        return 0;
      }
      ghost var l := list.lemmas[idLemma - 1];
      assert lmaStr[..lmaLen] == lmaStr[..lmaLen + 1][..lmaLen] == l.hanzis;
      ghost var given := splids[..lmaLen];
      var hit := RecoverWord(idLemma, lmaStr[..lmaLen], splids, argValid);
      if argValid {
        AllInIffHintsFit(idLemma - 1, given);
      }
      return if hit then lmaLen else 0;
    }

    method RecoverWord(idLemma: nat, word: seq<uint16>, splids: array<uint16>, argValid: bool) returns (hit: bool)
      requires Valid() && 1 <= idLemma < |list.lemmas| && word == list.lemmas[idLemma - 1].hanzis && splids != list.buf
      requires |word| <= splids.Length
      requires FitMatrix(word, splids[..|word|], argValid) && ManyEnough(CandsFor(idLemma, splids[..|word|], argValid))
      modifies splids
      ensures
        var l := list.lemmas[idLemma - 1];
        var cands := CandsFor(idLemma, old(splids[..|word|]), argValid);
        && (hit <==> AllIn(l.spls, cands))
        && (hit ==> splids[..|word|] == l.spls)
        && (!argValid ==> hit)
    {
      hide ListsCharsOf, NoGaps, Packed, FitMatrix, MatrixHolds, CandsAt, Product, IsTry;
      ghost var given := splids[..|word|];
      ghost var cands := CandsFor(idLemma, given, argValid);
      ghost var l := list.lemmas[idLemma - 1];
      var splMtrx := new uint16[K_MATRIX_SIZE];
      var splStart := new nat[K_MAX_LEMMA_SIZE + 1];
      forall h | 0 <= h < |word| ensures HasHanzi(list.scis, word[h]) {
        HanziListed(idLemma - 1, h);
      }
      var tryNum := FillMatrix(word, splids, argValid, splMtrx, splStart);
      forall k, d | 0 <= k < |word| && 0 <= d < |cands[k]| ensures IsFullId(cands[k][d]) {
        CandsFull(word[k], given[k], argValid, d);
      }
      hit := TryAll(|word|, tryNum, splMtrx, splStart, splids, idLemma, cands);
      TriedIff(cands, tryNum, l.spls);
      if !argValid {
        forall k | 0 <= k < |l.spls| ensures l.spls[k] in cands[k] {
          OwnSpellingIsCand(idLemma - 1, k, given[k]);
        }
      }
    }
  }

  lemma ProductOfNone(radices: seq<nat>)
    ensures Product(radices, 0) == 1
  {
  }

  /** The first `n` candidate lists lie one behind the other, where the starts say. */
  ghost predicate MatrixHolds(mtrx: seq<uint16>, starts: seq<nat>, cands: seq<seq<uint16>>, n: nat) {
    && n <= |cands| && n < |starts| && Room(cands, n) <= |mtrx|
    && (forall k | 0 <= k <= n :: starts[k] == Room(cands, k))
    && (forall k | 0 <= k < n :: ListAt(mtrx, cands, k))
  }

  ghost predicate ListAt(mtrx: seq<uint16>, cands: seq<seq<uint16>>, k: nat)
    requires k < |cands|
  {
    Room(cands, k) + |cands[k]| <= |mtrx| && mtrx[Room(cands, k)..Room(cands, k) + |cands[k]|] == cands[k]
  }

  lemma {:induction false} RoomGrows(cands: seq<seq<uint16>>, j: nat, k: nat)
    requires j < k <= |cands|
    ensures Room(cands, j) + |cands[j]| <= Room(cands, k)
    decreases k
  {
    if j < k - 1 {
      RoomGrows(cands, j, k - 1);
    }
  }

  lemma RoomNext(cands: seq<seq<uint16>>, k: nat)
    requires k < |cands|
    ensures Room(cands, k + 1) == Room(cands, k) + |cands[k]|
  {
  }

  lemma MatrixEmpty(mtrx: seq<uint16>, starts: seq<nat>, cands: seq<seq<uint16>>)
    requires starts != [] && starts[0] == 0
    ensures MatrixHolds(mtrx, starts, cands, 0)
  {
  }

  lemma MatrixEnd(mtrx: seq<uint16>, starts: seq<nat>, cands: seq<seq<uint16>>, n: nat) returns (start: nat)
    requires MatrixHolds(mtrx, starts, cands, n)
    ensures n <= |cands| && n < |starts| && start == starts[n] == Room(cands, n)
  {
    start := Room(cands, n);
  }

  lemma ListIsAt(mtrx: seq<uint16>, cands: seq<seq<uint16>>, k: nat, start: nat)
    requires k < |cands| && start == Room(cands, k) && start + |cands[k]| <= |mtrx| && mtrx[start..start + |cands[k]|] == cands[k]
    ensures ListAt(mtrx, cands, k)
  {
  }

  lemma SameInside(s: seq<uint16>, s': seq<uint16>, a: nat, b: nat, end: nat)
    requires a <= b <= end <= |s| == |s'| && s'[..end] == s[..end]
    ensures s'[a..b] == s[a..b]
  {
    assert s'[a..b] == s'[..end][a..b];
    assert s[a..b] == s[..end][a..b];
  }

  lemma ListStays(mtrx: seq<uint16>, mtrx': seq<uint16>, cands: seq<seq<uint16>>, k: nat, pos: nat, start: nat)
    requires k < pos <= |cands| && ListAt(mtrx, cands, k) && |mtrx'| == |mtrx|
    requires start == Room(cands, pos) <= |mtrx| && mtrx'[..start] == mtrx[..start]
    ensures ListAt(mtrx', cands, k)
  {
    hide Room;
    RoomGrows(cands, k, pos);
    SameInside(mtrx, mtrx', Room(cands, k), Room(cands, k) + |cands[k]|, start);
  }

  lemma MatrixGrows(mtrx: seq<uint16>, starts: seq<nat>, mtrx': seq<uint16>, starts': seq<nat>, cands: seq<seq<uint16>>, pos: nat, start: nat)
    requires pos < |cands| && MatrixHolds(mtrx, starts, cands, pos) && |mtrx'| == |mtrx| && pos + 1 < |starts|
    requires start == Room(cands, pos) && start + |cands[pos]| <= |mtrx|
    requires ListAt(mtrx', cands, pos) && mtrx'[..start] == mtrx[..start]
    requires starts' == starts[pos + 1 := start + |cands[pos]|]
    ensures MatrixHolds(mtrx', starts', cands, pos + 1)
  {
    hide ListAt, Room;
    RoomNext(cands, pos);
    forall k | 0 <= k <= pos + 1 ensures starts'[k] == Room(cands, k) {
      assert k <= pos ==> starts'[k] == starts[k];
    }
    forall k | 0 <= k < pos + 1 ensures ListAt(mtrx', cands, k) {
      if k < pos {
        ListStays(mtrx, mtrx', cands, k, pos, start);
      }
    }
  }

  lemma MatrixRadix(mtrx: seq<uint16>, starts: seq<nat>, cands: seq<seq<uint16>>, n: nat, k: nat)
    requires MatrixHolds(mtrx, starts, cands, n) && k < n
    ensures k + 1 < |starts| && starts[k] + |cands[k]| == starts[k + 1]
  {
    assert starts[k + 1] == Room(cands, k + 1);
  }

  lemma MatrixAt(mtrx: seq<uint16>, starts: seq<nat>, cands: seq<seq<uint16>>, n: nat, k: nat, d: nat)
    requires MatrixHolds(mtrx, starts, cands, n) && k < n && d < |cands[k]|
    ensures starts[k] + d < |mtrx| && mtrx[starts[k] + d] == cands[k][d]
  {
    assert ListAt(mtrx, cands, k);
    var a := Room(cands, k);
    assert mtrx[a..a + |cands[k]|][d] == mtrx[a + d];
  }
}
