/**
 * The incremental search: mile stones remember frontiers of earlier searches, so that one more
 * spelling id only has to extend the last frontier.
 */
module MileStones {
  import opened DictDef
  import opened TrieLayout
  import opened TrieAnswers
  import opened TriePrefixes
  import opened TrieScan
  import opened TrieSearch
  import opened DictTries

  const K_MAX_MILE_STONE: nat := 100
  const K_MAX_PARSING_MARK: nat := 600
  const K_FIRST_VALID_MILE_STONE_HANDLE: nat := 1

  /** A run of neighbouring nodes; the count has 8 bits. */
  datatype ParsingMark = ParsingMark(nodeOffset: nat, nodeNum: uint8)
  datatype MileStone = MileStone(markStart: nat, markNum: nat)

  /** The nodes that a list of marks stands for. */
  ghost function Positions(marks: seq<ParsingMark>): seq<nat> {
    if marks == [] then []
    else Upto(marks[0].nodeOffset, marks[0].nodeOffset + marks[0].nodeNum) + Positions(marks[1..])
  }

  lemma {:induction false} PositionsConcat(a: seq<ParsingMark>, b: seq<ParsingMark>)
    ensures Positions(a + b) == Positions(a) + Positions(b)
  {
    if a == [] {
      assert a + b == b;
    } else {
      assert (a + b)[1..] == a[1..] + b;
      PositionsConcat(a[1..], b);
    }
  }

  lemma PositionsOne(mark: ParsingMark)
    ensures Positions([mark]) == Upto(mark.nodeOffset, mark.nodeOffset + mark.nodeNum)
  {
    assert [mark][1..] == [];
  }

  lemma {:induction false} UptoLength(a: nat, b: nat)
    requires a <= b
    ensures |Upto(a, b)| == b - a
    ensures forall i | 0 <= i < b - a :: Upto(a, b)[i] == a + i
    decreases b - a
  {
    if a < b {
      UptoLength(a + 1, b);
    }
  }

  /** The extension has used `found` nodes of the frontier and has `left` to go; it has made `marks` for `all`. */
  ghost predicate MarkScan(t: Nodes, ls: seq<LemmaEntry>, level: nat, r: SplRange, all: seq<nat>, left: seq<Item>, marks: seq<ParsingMark>) {
    LayerScan(t, ls, level, r, all, left, Positions(marks))
  }

  /** How many marks an extension makes: one for every node with an asked for son. */
  ghost function MarksNeeded(t: Nodes, ls: seq<LemmaEntry>, left: seq<Item>, level: nat, r: SplRange): nat {
    if left == [] then 0 else One(KidsOf(t, ls, left[0], level, r) != []) + MarksNeeded(t, ls, left[1..], level, r)
  }

  /** The sons found so far are neighbours, no more than the range has ids; the next son lies above them. */
  ghost predicate RunFound(ls: seq<LemmaEntry>, s: nat, hi: nat, level: nat, first: nat, v: nat, r: SplRange,
                           foundStart: nat, foundNum: nat, done: seq<nat>) {
    && s <= hi <= |ls| && foundNum <= r.num
    && done == Upto(first + foundStart, first + foundStart + foundNum)
    && (foundNum > 0 ==> first + foundStart + foundNum == v && (s < hi ==> r.start + foundNum <= SplIdx(ls[s], level)))
  }

  /** One more son: it prolongs the run, or it ends the scan, or nothing has been found yet. */
  lemma RunFoundStep(ls: seq<LemmaEntry>, lo: nat, s: nat, g: nat, hi: nat, level: nat, first: nat, v: nat, r: SplRange,
                     sonPos: nat, foundStart: nat, foundNum: nat, done: seq<nat>, has: bool, foundStart': nat, foundNum': nat, done': seq<nat>)
    requires ValidLemmas(ls) && lo <= s < hi <= |ls| && SharedPrefix(ls, lo, hi, level) && g == GroupEnd(ls, s, hi, level)
    requires v == first + sonPos && RunFound(ls, s, hi, level, first, v, r, foundStart, foundNum, done)
    requires has == r.Has(SplIdx(ls[s], level)) && foundNum' == foundNum + One(has) && done' == done + if has then [v] else []
    requires foundStart' == if has && foundNum == 0 then sonPos else foundStart
    ensures has || foundNum == 0 || r.start + r.num - 1 <= SplIdx(ls[s], level)
    ensures foundNum' <= r.num && done' == Upto(first + foundStart', first + foundStart' + foundNum')
    ensures has || foundNum == 0 ==> RunFound(ls, g, hi, level, first, v + 1, r, foundStart', foundNum', done')
  {
    if g < hi {
      NextGroupAbove(ls, lo, s, g, hi, level);
    }
    if has {
      UptoNext(first + foundStart', first + foundStart' + foundNum);
    } else {
      assert done + [] == done;
    }
  }

  /** The group that comes first contributes its own homophones, or nothing if it is not asked for. */
  lemma KidsScanStep(ls: seq<LemmaEntry>, s: nat, g: nat, hi: nat, level: nat, k: nat, v: nat, r: SplRange, q: seq<SplRange>)
    requires s < hi <= |ls| && g == GroupEnd(ls, s, hi, level)
    ensures ScanItems(ls, Kids(ls, s, hi, level, v, r), q, k) ==
      (if r.Has(SplIdx(ls[s], level)) then ScanItem(ls, Item(v, s, g), q, k) else [])
      + ScanItems(ls, Kids(ls, g, hi, level, v + 1, r), q, k)
  {
    hide ScanItem;
    var it, rest := Item(v, s, g), Kids(ls, g, hi, level, v + 1, r);
    assert [it][1..] == [];
    if r.Has(SplIdx(ls[s], level)) {
      ScanItemsConcat(ls, [it], rest, q, k);
    } else {
      assert [] + rest == rest;
    }
  }

  /** What the scan finds inside of a son at the end of the query: its homophones. */
  lemma SonHomophones(t: Nodes, ls: seq<LemmaEntry>, lo: nat, s: nat, g: nat, hi: nat, level: nat, k: nat, v: nat, u: nat,
                      q: seq<SplRange>) returns (homos: seq<nat>)
    requires ValidLemmas(ls) && lo <= s < hi <= |ls| && SharedPrefix(ls, lo, hi, level) && g == GroupEnd(ls, s, hi, level)
    requires RepBlock(t, ls, s, hi, level, v, u) && |q| == k == level + 1
    ensures v < t.Size(level) && t.HomoOff(level, v) + t.HomoNum(level, v) <= |ls|
    ensures |homos| == t.HomoNum(level, v) && forall i | 0 <= i < |homos| :: homos[i] == t.HomoOff(level, v) + i
    ensures homos == ScanItem(ls, Item(v, s, g), q, k)
  {
    var g', u' := OpenBlock(t, ls, s, hi, level, v, u);
    FirstStands(t, ls, lo, s, g, hi, level, v, u);
    ScanHomophones(t, ls, Item(v, s, g), q, level, k);
    homos := Homophones(t, v, level);
    HomophonesInList(t, ls, Item(v, s, g), level, homos);
  }

  /** The homophones of the next son, if it is asked for, are the next ones that the scan finds. */
  lemma LpiStep(t: Nodes, ls: seq<LemmaEntry>, lo: nat, s: nat, g: nat, hi: nat, level: nat, k: nat, v: nat, u: nat, r: SplRange,
                q: seq<SplRange>, put: seq<nat>, all: seq<nat>, has: bool) returns (more: seq<nat>)
    requires ValidLemmas(ls) && lo <= s < hi <= |ls| && SharedPrefix(ls, lo, hi, level) && g == GroupEnd(ls, s, hi, level)
    requires RepBlock(t, ls, s, hi, level, v, u) && |q| == k == level + 1 && has == r.Has(SplIdx(ls[s], level))
    requires all == put + ScanItems(ls, Kids(ls, s, hi, level, v, r), q, k)
    ensures v < t.Size(level) && (!has ==> more == [])
    ensures has ==>
      && t.HomoOff(level, v) + t.HomoNum(level, v) <= |ls| && |more| == t.HomoNum(level, v)
      && forall i | 0 <= i < |more| :: more[i] == t.HomoOff(level, v) + i
    ensures all == (put + more) + ScanItems(ls, Kids(ls, g, hi, level, v + 1, r), q, k)
  {
    hide RepBlock, ValidLemmas, SharedPrefix, ScanItem, ScanItems, Kids, GroupEnd;
    var homos := SonHomophones(t, ls, lo, s, g, hi, level, k, v, u, q);
    KidsScanStep(ls, s, g, hi, level, k, v, r, q);
    more := if has then homos else [];
    var rest := ScanItems(ls, Kids(ls, g, hi, level, v + 1, r), q, k);
    assert put + (more + rest) == (put + more) + rest;
  }

  lemma ScansStart(t: Nodes, ls: seq<LemmaEntry>, lo: nat, hi: nat, level: nat, first: nat, u: nat, r: SplRange, num: nat, all: seq<nat>)
    requires lo <= hi <= |ls| && RepBlock(t, ls, lo, hi, level, first, u) && num == GroupCount(ls, lo, hi, level)
    requires all == NodesOf(Kids(ls, lo, hi, level, first, r))
    ensures SonScan(t, ls, lo, hi, level, first, r, num, all, lo, u, 0, first, [])
    ensures RunFound(ls, lo, hi, level, first, first, r, 0, 0, [])
  {
    SonScanStart(t, ls, lo, hi, level, first, u, r, num, all);
  }

  lemma RunIs(ls: seq<LemmaEntry>, s: nat, hi: nat, level: nat, first: nat, v: nat, r: SplRange, foundStart: nat, foundNum: nat, done: seq<nat>)
    requires RunFound(ls, s, hi, level, first, v, r, foundStart, foundNum, done)
    ensures foundNum <= r.num && done == Upto(first + foundStart, first + foundStart + foundNum)
  {
  }

  lemma NoMoreLpis(ls: seq<LemmaEntry>, lo: nat, s: nat, g: nat, hi: nat, level: nat, k: nat, v: nat, r: SplRange, q: seq<SplRange>, put: seq<nat>)
    requires ValidLemmas(ls) && lo <= s < hi <= |ls| && SharedPrefix(ls, lo, hi, level) && g == GroupEnd(ls, s, hi, level)
    requires r.start + r.num - 1 <= SplIdx(ls[s], level)
    ensures put + ScanItems(ls, Kids(ls, g, hi, level, v + 1, r), q, k) == put
  {
    NoMoreKids(ls, lo, s, g, hi, level, v + 1, r);
  }

  lemma LpiScanEnd(t: Nodes, ls: seq<LemmaEntry>, lo: nat, hi: nat, level: nat, k: nat, first: nat, r: SplRange, num: nat,
                   all: seq<nat>, s: nat, u: nat, sonPos: nat, v: nat, done: seq<nat>, q: seq<SplRange>, put: seq<nat>)
    requires SonScan(t, ls, lo, hi, level, first, r, num, all, s, u, sonPos, v, done) && num <= sonPos
    ensures put + ScanItems(ls, Kids(ls, s, hi, level, v, r), q, k) == put
  {
  }

  /** The next node of a mark is the next one of the frontier. */
  lemma NextNode(left: seq<Item>, from: nat, end: nat, rest: seq<nat>)
    requires from < end && NodesOf(left) == Upto(from, end) + rest
    ensures left != [] && left[0].node == from && NodesOf(left[1..]) == Upto(from + 1, end) + rest
  {
    hide NodesOf, Upto;
    UptoFirst(from, end);
    assert NodesOf(left) == [from] + (Upto(from + 1, end) + rest);
    FirstNode(left);
    assert ([from] + (Upto(from + 1, end) + rest))[1..] == Upto(from + 1, end) + rest;
    assert ([left[0].node] + NodesOf(left[1..]))[1..] == NodesOf(left[1..]);
  }

  lemma UptoFirst(from: nat, end: nat)
    requires from < end
    ensures Upto(from, end) == [from] + Upto(from + 1, end)
  {
  }

  lemma FirstNode(left: seq<Item>)
    requires NodesOf(left) != []
    ensures left != [] && NodesOf(left) == [left[0].node] + NodesOf(left[1..])
  {
  }

  lemma {:induction false} FrontierOfLonger(t: Nodes, ls: seq<LemmaEntry>, q0: seq<SplRange>, r: SplRange, level: nat)
    requires level < |q0|
    ensures Frontier(t, ls, q0 + [r], level) == Frontier(t, ls, q0, level)
  {
    hide Expand;
    if level > 0 {
      var prev := level - 1;
      FrontierOfLonger(t, ls, q0, r, prev);
      FrontierStep(t, ls, q0, prev, level);
      FrontierStep(t, ls, q0 + [r], prev, level);
    }
  }

  class MileStoneDict {
    const dict: DictTrie
    const parsingMarks: array<ParsingMark>
    const mileStones: array<MileStone>
    var parsingMarksPos: nat
    var mileStonesPos: nat
    /** For every handle in use, from handle 1 on, the spelling ranges that led to it. */
    ghost var asked: seq<seq<SplRange>>

    constructor (d: DictTrie)
      requires d.Valid()
      ensures Valid() && dict == d && asked == []
    {
      dict := d;
      parsingMarks := new ParsingMark[K_MAX_PARSING_MARK](_ => ParsingMark(0, 0));
      mileStones := new MileStone[K_MAX_MILE_STONE](_ => MileStone(0, 0));
      parsingMarksPos, mileStonesPos := 0, K_FIRST_VALID_MILE_STONE_HANDLE;
      asked := [];
    }

    ghost predicate Valid()
      reads this, parsingMarks, mileStones
    {
      && dict.Valid()
      && parsingMarks.Length == K_MAX_PARSING_MARK && mileStones.Length == K_MAX_MILE_STONE
      && 1 <= mileStonesPos <= K_MAX_MILE_STONE && parsingMarksPos <= K_MAX_PARSING_MARK
      && |asked| == mileStonesPos - 1
      && Chained(mileStones[..mileStonesPos], parsingMarksPos)
      && forall h | 1 <= h < mileStonesPos :: Denotes(parsingMarks[..parsingMarksPos], mileStones[h], asked[h - 1])
    }

    /** The mile stone holds exactly the untruncated frontier for what was asked. */
    ghost predicate Denotes(marks: seq<ParsingMark>, stone: MileStone, q: seq<SplRange>) {
      && stone.markStart + stone.markNum <= |marks|
      && q != []
      && Positions(marks[stone.markStart..stone.markStart + stone.markNum]) == NodesOf(Frontier(dict.nodes, dict.lemmas, q, |q| - 1))
    }

    /** `reset_milestones`: what lies behind the handle is given up, everything before it stays. */
    method ResetMilestones(fromStep: nat, fromHandle: nat)
      requires Valid()
      modifies this
      ensures Valid()
      ensures fromStep == 0 ==> asked == []
      ensures fromStep != 0 && 0 < fromHandle < old(mileStonesPos) ==> asked == old(asked)[..fromHandle - 1]
      ensures fromStep != 0 && !(0 < fromHandle < old(mileStonesPos)) ==> asked == old(asked)
    {
      if fromStep == 0 {
        parsingMarksPos := 0;
        mileStonesPos := K_FIRST_VALID_MILE_STONE_HANDLE;
        asked := [];
      } else if 0 < fromHandle < mileStonesPos {
        hide Frontier, NodesOf, Packed, FirstLayer, Positions, Chained;
        ChainCut(mileStones[..mileStonesPos], parsingMarksPos, fromHandle);
        assert mileStones[..mileStonesPos][..fromHandle] == mileStones[..fromHandle];
        ghost var marks := parsingMarks[..parsingMarksPos];
        mileStonesPos := fromHandle;
        parsingMarksPos := mileStones[fromHandle].markStart;
        asked := asked[..fromHandle - 1];
        forall h | 1 <= h < mileStonesPos ensures Denotes(parsingMarks[..parsingMarksPos], mileStones[h], asked[h - 1]) {
          assert old(asked)[h - 1] == asked[h - 1];
          ChainedBefore(mileStones[..fromHandle], parsingMarksPos, h);
          DenotesStill(marks, parsingMarks[..parsingMarksPos], mileStones[h], asked[h - 1]);
        }
      }
    }

    lemma DenotesStill(marks: seq<ParsingMark>, marks': seq<ParsingMark>, stone: MileStone, q: seq<SplRange>)
      requires Denotes(marks, stone, q) && stone.markStart + stone.markNum <= |marks'|
      requires marks <= marks' || marks' <= marks
      ensures Denotes(marks', stone, q)
    {
      assert marks[stone.markStart..stone.markStart + stone.markNum] == marks'[stone.markStart..stone.markStart + stone.markNum];
    }

    /** The new mile stone takes the marks behind the last mile stone. */
    method AddMileStone(markStart: nat, markNum: nat, ghost q: seq<SplRange>) returns (handle: nat)
      requires dict.Valid() && parsingMarks.Length == K_MAX_PARSING_MARK && mileStones.Length == K_MAX_MILE_STONE
      requires 1 <= mileStonesPos < K_MAX_MILE_STONE && |asked| == mileStonesPos - 1
      requires Chained(mileStones[..mileStonesPos], markStart) && parsingMarksPos == markStart + markNum <= K_MAX_PARSING_MARK
      requires forall h | 1 <= h < mileStonesPos :: Denotes(parsingMarks[..markStart], mileStones[h], asked[h - 1])
      requires Denotes(parsingMarks[..parsingMarksPos], MileStone(markStart, markNum), q)
      modifies this`mileStonesPos, this`asked, mileStones
      ensures Valid() && handle == old(mileStonesPos) && handle < mileStonesPos
      ensures asked == old(asked) + [q]
    {
      hide Frontier, NodesOf, Packed, FirstLayer, Positions, Chained;
      ghost var stones := mileStones[..mileStonesPos];
      mileStones[mileStonesPos] := MileStone(markStart, markNum);
      handle := mileStonesPos;
      mileStonesPos := mileStonesPos + 1;
      asked := asked + [q];
      assert mileStones[..mileStonesPos] == stones + [MileStone(markStart, markNum)];
      ChainAppend(stones, markStart, markNum);
      forall h | 1 <= h < mileStonesPos ensures Denotes(parsingMarks[..parsingMarksPos], mileStones[h], asked[h - 1]) {
        if h < handle {
          assert mileStones[h] == stones[h] == old(mileStones[h]);
          DenotesStill(parsingMarks[..markStart], parsingMarks[..parsingMarksPos], mileStones[h], asked[h - 1]);
        }
      }
    }

    /** The buffer holds the items for the lemmas at `done`, as far as they fit. */
    ghost predicate LpiHeld(buf: seq<LmaPsbItem>, lpiNum: nat, lpiMax: nat, done: seq<nat>, lmaLen: nat) {
      lpiMax <= |buf| && lpiNum == Min(lpiMax, |done|) && dict.Holds(buf, lpiNum, done, lmaLen)
    }

    /** `fill_lpi_buffer` for a son that is asked for, while there is room. */
    method PutSon(lpiItems: array<LmaPsbItem>, lpiNum: nat, lpiMax: nat, off: nat, numOfHomo: nat, wanted: bool, lmaLen: nat,
                  ghost done: seq<nat>, ghost homos: seq<nat>) returns (lpiNum': nat)
      requires dict.IdsStored() && LpiHeld(lpiItems[..], lpiNum, lpiMax, done, lmaLen)
      requires wanted ==> off + numOfHomo <= |dict.lemmas| && |homos| == numOfHomo && forall i | 0 <= i < numOfHomo :: homos[i] == off + i
      requires !wanted ==> homos == []
      modifies lpiItems
      ensures LpiHeld(lpiItems[..], lpiNum', lpiMax, done + homos, lmaLen)
    {
      lpiNum' := lpiNum;
      if wanted && lpiNum < lpiMax {
        lpiNum' := dict.CollectNode(off, numOfHomo, lpiItems, lpiNum, lpiMax, lmaLen, done, homos);
      } else {
        dict.HoldsLonger(lpiItems[..], lpiNum, done, done + homos, lmaLen);
      }
    }

    /** The run of sons of one node that a range asks for; their lemmas are put into the buffer. */
    method FindSons(first: nat, num: nat, r: SplRange, lpiItems: array<LmaPsbItem>, lpiNum: nat, lpiMax: nat, lmaLen: nat,
                    ghost lo: nat, ghost hi: nat, ghost level: nat, ghost u: nat, ghost all: seq<nat>,
                    ghost q: seq<SplRange>, ghost before: seq<nat>, ghost homos: seq<nat>)
      returns (foundStart: nat, foundNum: nat, lpiNum': nat)
      requires ValidLemmas(dict.lemmas) && dict.IdsStored() && lo <= hi <= |dict.lemmas| && SharedPrefix(dict.lemmas, lo, hi, level)
      requires level > 0 && RepBlock(dict.nodes, dict.lemmas, lo, hi, level, first, u) && num == GroupCount(dict.lemmas, lo, hi, level)
      requires all == NodesOf(Kids(dict.lemmas, lo, hi, level, first, r)) && 0 < r.num
      requires |q| == lmaLen == level + 1 && homos == ScanItems(dict.lemmas, Kids(dict.lemmas, lo, hi, level, first, r), q, lmaLen)
      requires LpiHeld(lpiItems[..], lpiNum, lpiMax, before, lmaLen)
      modifies lpiItems
      ensures foundNum <= r.num && all == Upto(first + foundStart, first + foundStart + foundNum)
      ensures LpiHeld(lpiItems[..], lpiNum', lpiMax, before + homos, lmaLen)
    {
      hide RepBlock, ValidLemmas, Kids, NodesOf, SharedPrefix, ScanItems, LpiHeld, Upto, GroupEnd, RunFound, SonScan;
      foundStart, foundNum, lpiNum' := 0, 0, lpiNum;
      ScansStart(dict.nodes, dict.lemmas, lo, hi, level, first, u, r, num, all);
      ghost var s, u', done: seq<nat>, put := lo, u, [], before;
      var sonPos: nat, v: nat := 0, first;
      while sonPos < num
        invariant SonScan(dict.nodes, dict.lemmas, lo, hi, level, first, r, num, all, s, u', sonPos, v, done)
        invariant RunFound(dict.lemmas, s, hi, level, first, v, r, foundStart, foundNum, done)
        invariant before + homos == put + ScanItems(dict.lemmas, Kids(dict.lemmas, s, hi, level, v, r), q, lmaLen)
        invariant LpiHeld(lpiItems[..], lpiNum', lpiMax, put, lmaLen)
      {
        ghost var done', g, w := SonScanStep(dict.nodes, dict.lemmas, lo, hi, level, first, r, num, all, s, u', sonPos, v, done);
        var son := dict.nodes.ge1[v];
        ghost var was, n := foundStart, foundNum;
        var has := r.Has(son.splIdx);
        ghost var more := LpiStep(dict.nodes, dict.lemmas, lo, s, g, hi, level, lmaLen, v, u', r, q, put, before + homos, has);
        if has {
          if foundNum == 0 {
            foundStart := sonPos;
          }
          foundNum := foundNum + 1;
        }
        lpiNum' := PutSon(lpiItems, lpiNum', lpiMax, GetHomoIdxBufOffset(son), son.numOfHomo, has, lmaLen, put, more);
        put := put + more;
        RunFoundStep(dict.lemmas, lo, s, g, hi, level, first, v, r, sonPos, was, n, done, has, foundStart, foundNum, done');
        if son.splIdx >= r.start + r.num - 1 {
          NoMoreLpis(dict.lemmas, lo, s, g, hi, level, lmaLen, v, r, q, put);
          return;
        }
        sonPos, v := sonPos + 1, v + 1;
        s, u', done := g, w, done';
      }
      SonScanEnd(dict.nodes, dict.lemmas, lo, hi, level, first, r, num, all, s, u', sonPos, v, done);
      RunIs(dict.lemmas, s, hi, level, first, v, r, foundStart, foundNum, done);
      LpiScanEnd(dict.nodes, dict.lemmas, lo, hi, level, lmaLen, first, r, num, all, s, u', sonPos, v, done, q, put);
    }

    /** The first layer has a node for every id of the range. */
    ghost predicate LayerHolds(r: SplRange) {
      && 0 < |dict.nodes.le0| && LookupExact(dict.nodes.le0, r.start, r.start + r.num)
      && IndexEntry(dict.nodes.le0, r.start) + r.num == IndexEntry(dict.nodes.le0, r.start + r.num)
    }

    /** The first-layer nodes whose lemmas are wanted: none that are cached, one for a one-character Yunmu. */
    ghost function WantedItems(r: SplRange, cached: bool, yunmu: bool): seq<Item> {
      var items := Frontier(dict.nodes, dict.lemmas, [r], 0);
      if cached then [] else if yunmu && items != [] then items[..1] else items
    }

    /** Both pools have room for one more mark and one more mile stone. */
    predicate HasRoom()
      reads this
    {
      mileStonesPos < K_MAX_MILE_STONE && parsingMarksPos < K_MAX_PARSING_MARK
    }

    /** `extend_dict0`: the mile stone for one range of the first layer, and its lemmas. */
    method ExtendDict0(r: SplRange, cached: bool, yunmu: bool, lpiItems: array<LmaPsbItem>, lpiMax: nat)
      returns (retHandle: nat, lpiNum: nat)
      requires Valid() && 0 < r.num < 0x100 && lpiMax <= lpiItems.Length
      requires K_FULL_SPL_ID_START <= r.start && r.start + r.num <= K_FULL_SPL_ID_START + dict.splTrie.spellingNum
      requires LayerHolds(r)
      modifies this, parsingMarks, mileStones, lpiItems
      ensures Valid()
      ensures old(HasRoom()) ==> retHandle == old(mileStonesPos) < mileStonesPos && asked == old(asked) + [[r]]
      ensures !old(HasRoom()) ==> retHandle == 0 && asked == old(asked)
      ensures LpiHeld(lpiItems[..], lpiNum, lpiMax, ScanItems(dict.lemmas, WantedItems(r, cached, yunmu), [r], 1), 1)
    {
      hide Frontier, LookupExact, Packed, FirstLayer, ScanItems, LpiHeld, ValidLemmas, Denotes, Chained, FirstPut, WantedItems;
      var le0 := dict.nodes.le0;
      var sonStart := dict.splidLe0Index[r.start - K_FULL_SPL_ID_START];
      var sonEnd := dict.splidLe0Index[r.start + r.num - K_FULL_SPL_ID_START];
      LookupInterval(le0, r, sonStart, sonEnd);
      FullRange(le0, dict.splTrie.spellingNum, r, sonStart, sonEnd);
      retHandle, lpiNum := 0, 0;
      ghost var wanted, found, put: seq<nat> := FirstWanted(r, cached, yunmu, sonStart, sonEnd, lpiItems[..], lpiMax);
      var sonPos := sonStart;
      while sonPos < sonEnd
        invariant sonStart <= sonPos <= sonEnd && Valid()
        invariant sonPos == sonStart ==> retHandle == 0 && asked == old(asked) && HasRoom() == old(HasRoom()) && mileStonesPos == old(mileStonesPos)
        invariant sonPos > sonStart && old(HasRoom()) ==> retHandle == old(mileStonesPos) < mileStonesPos && asked == old(asked) + [[r]]
        invariant sonPos > sonStart && !old(HasRoom()) ==> retHandle == 0 && asked == old(asked)
        invariant FirstPut(lpiItems[..], lpiNum, lpiMax, r, sonStart, sonPos, wanted, put, found)
      {
        var spl := le0[sonPos].splIdx;
        lpiNum, put := PutFirst(sonPos, !cached && !(yunmu && sonPos != sonStart), r, lpiItems, lpiNum, lpiMax, sonStart, wanted, put, found);
        if spl == r.start && mileStonesPos < K_MAX_MILE_STONE && parsingMarksPos < K_MAX_PARSING_MARK {
          retHandle := AddFirstMark(sonPos, r);
        }
        sonPos := sonPos + 1;
        if spl >= r.start + r.num - 1 {
          break;
        }
      }
      FirstPutEnd(lpiItems[..], lpiNum, lpiMax, r, sonStart, sonPos, wanted, put, found);
    }

    /** The wanted lemmas of the nodes in front of `sonPos` are in the buffer. */
    ghost predicate FirstPut(buf: seq<LmaPsbItem>, lpiNum: nat, lpiMax: nat, r: SplRange, sonStart: nat, sonPos: nat,
                             wanted: seq<Item>, put: seq<nat>, found: seq<nat>) {
      && sonStart <= sonPos && LpiHeld(buf, lpiNum, lpiMax, put, 1)
      && (forall i | 0 <= i < |wanted| :: wanted[i].node == sonStart + i)
      && CollectState(dict.nodes, dict.lemmas, wanted[Min(sonPos - sonStart, |wanted|)..], [r], 0, 1, put, found)
    }

    lemma FirstPutEnd(buf: seq<LmaPsbItem>, lpiNum: nat, lpiMax: nat, r: SplRange, sonStart: nat, sonPos: nat,
                      wanted: seq<Item>, put: seq<nat>, found: seq<nat>)
      requires FirstPut(buf, lpiNum, lpiMax, r, sonStart, sonPos, wanted, put, found) && |wanted| <= sonPos - sonStart
      ensures LpiHeld(buf, lpiNum, lpiMax, found, 1)
    {
      CollectedSoFar(dict.nodes, dict.lemmas, [], [r], 0, 1, put, found);
    }

    /** The lemmas of one first-layer node, if they are wanted. */
    method PutFirst(sonPos: nat, need: bool, ghost r: SplRange, lpiItems: array<LmaPsbItem>, lpiNum: nat, lpiMax: nat,
                    ghost sonStart: nat, ghost wanted: seq<Item>, ghost put: seq<nat>, ghost found: seq<nat>)
      returns (lpiNum': nat, ghost put': seq<nat>)
      requires ValidLemmas(dict.lemmas) && dict.IdsStored() && sonPos < |dict.nodes.le0|
      requires FirstPut(lpiItems[..], lpiNum, lpiMax, r, sonStart, sonPos, wanted, put, found)
      requires need == (sonPos - sonStart < |wanted|)
      modifies lpiItems
      ensures FirstPut(lpiItems[..], lpiNum', lpiMax, r, sonStart, sonPos + 1, wanted, put', found)
    {
      hide CollectState, LpiHeld, ValidLemmas;
      lpiNum', put' := lpiNum, put;
      if need {
        ghost var left := wanted[sonPos - sonStart..];
        ghost var homos := FoundStep(dict.nodes, dict.lemmas, left, [r], 0, 1, sonPos, put, found);
        var son := dict.nodes.le0[sonPos];
        lpiNum' := PutSon(lpiItems, lpiNum, lpiMax, son.homoIdxBufOff, son.numOfHomo, true, 1, put, homos);
        put' := put + homos;
        assert left[1..] == wanted[sonPos + 1 - sonStart..];
      }
    }

    /** The nodes whose lemmas are wanted lie one behind the other, from the start of the range on. */
    lemma FirstWanted(r: SplRange, cached: bool, yunmu: bool, sonStart: nat, sonEnd: nat, buf: seq<LmaPsbItem>, lpiMax: nat)
      returns (wanted: seq<Item>, found: seq<nat>, put: seq<nat>)
      requires Packed(dict.nodes, dict.lemmas) && LayerHolds(r) && 0 < r.num && lpiMax <= |buf|
      requires sonStart == IndexEntry(dict.nodes.le0, r.start) && sonEnd == IndexEntry(dict.nodes.le0, r.start + r.num)
      ensures found == ScanItems(dict.lemmas, WantedItems(r, cached, yunmu), [r], 1)
      ensures |wanted| == (if cached then 0 else if yunmu then 1 else sonEnd - sonStart)
      ensures FirstPut(buf, 0, lpiMax, r, sonStart, sonStart, wanted, put, found) && ValidLemmas(dict.lemmas)
    {
      hide RepBlock, ScanItems, ValidLemmas, LookupExact, Kids, AllStand;
      put := [];
      wanted := WantedItems(r, cached, yunmu);
      found := ScanItems(dict.lemmas, wanted, [r], 1);
      var items := Frontier(dict.nodes, dict.lemmas, [r], 0);
      FirstLayerKids(dict.nodes, dict.lemmas, r, sonStart, sonEnd);
      NodesOfAt(items);
      UptoLength(sonStart, sonEnd);
      forall i | 0 <= i < |items| ensures items[i].node == sonStart + i {
        assert items[i].node == NodesOf(items)[i] == Upto(sonStart, sonEnd)[i];
      }
      FirstLayerStands(dict.nodes, dict.lemmas, [r]);
      AllStandPrefix(dict.nodes, dict.lemmas, wanted, items, 0);
      assert [] + found == found && wanted[0..] == wanted;
    }

    lemma LpiHeldNone(buf: seq<LmaPsbItem>, lpiMax: nat, lmaLen: nat)
      requires lpiMax <= |buf|
      ensures LpiHeld(buf, 0, lpiMax, [], lmaLen)
    {
    }

    /** The one mark of a first-layer mile stone. */
    method AddFirstMark(sonPos: nat, r: SplRange) returns (handle: nat)
      requires Valid() && HasRoom()
      requires 0 < r.num < 0x100 && LayerHolds(r) && sonPos == IndexEntry(dict.nodes.le0, r.start)
      modifies this`parsingMarksPos, this`mileStonesPos, this`asked, parsingMarks, mileStones
      ensures Valid() && handle == old(mileStonesPos) < mileStonesPos && asked == old(asked) + [[r]]
    {
      hide Frontier, NodesOf, Packed, FirstLayer;
      var start := parsingMarksPos;
      ghost var before := parsingMarks[..start];
      var mark := ParsingMark(sonPos, r.num);
      parsingMarks[parsingMarksPos] := mark;
      parsingMarksPos := parsingMarksPos + 1;
      FirstMarkIsFrontier(dict, r, sonPos, mark);
      assert parsingMarks[..start] == before;
      assert parsingMarks[..parsingMarksPos][start..start + 1] == [mark];
      handle := AddMileStone(start, 1, [r]);
    }

    /** How many of `n` marks behind `start` are recorded: all that the pool has room for, if there is room for a mile stone. */
    ghost function Recorded(start: nat, n: nat): (k: nat)
      requires start <= K_MAX_PARSING_MARK
      reads this`mileStonesPos
      ensures k <= n && start + k <= K_MAX_PARSING_MARK
    {
      if mileStonesPos >= K_MAX_MILE_STONE then 0 else if start + n <= K_MAX_PARSING_MARK then n else K_MAX_PARSING_MARK - start
    }

    /**
     * The extension has made the marks `made`, for `all` but for what is below `left`, of the `total` that it needs; those
     * that there is room for are recorded behind the marks `before`.
     */
    ghost predicate Extending(before: seq<ParsingMark>, level: nat, r: SplRange, all: seq<nat>, left: seq<Item>, made: seq<ParsingMark>, total: nat)
      reads this`parsingMarksPos, this`mileStonesPos, parsingMarks
    {
      && parsingMarks.Length == K_MAX_PARSING_MARK && |before| <= K_MAX_PARSING_MARK
      && |made| + MarksNeeded(dict.nodes, dict.lemmas, left, level, r) == total
      && parsingMarksPos == |before| + Recorded(|before|, |made|)
      && parsingMarks[..|before|] == before && parsingMarks[|before|..parsingMarksPos] == made[..Recorded(|before|, |made|)]
      && MarkScan(dict.nodes, dict.lemmas, level, r, all, left, made)
      && (made == [] <==> Positions(made) == [])
    }

    /** The lemmas at `put` are in the buffer; of `found`, the ones below `left` are still missing. */
    ghost predicate Putting(buf: seq<LmaPsbItem>, lpiNum: nat, lpiMax: nat, level: nat, r: SplRange, left: seq<Item>,
                            q: seq<SplRange>, lmaLen: nat, put: seq<nat>, found: seq<nat>) {
      && LpiHeld(buf, lpiNum, lpiMax, put, lmaLen)
      && found == put + ScanItems(dict.lemmas, Expand(dict.nodes, dict.lemmas, left, level, r), q, lmaLen)
    }

    /** What a mark for a run of sons does to the marks made so far. */
    lemma MarksGrow(marks: seq<ParsingMark>, mark: ParsingMark, level: nat, next: nat, r: SplRange, all: seq<nat>, left: seq<Item>, kids: seq<nat>)
      requires ValidLemmas(dict.lemmas) && left != [] && next == level + 1
      requires kids == Upto(mark.nodeOffset, mark.nodeOffset + mark.nodeNum)
      requires LayerScan(dict.nodes, dict.lemmas, level, r, all, left[1..], Positions(marks) + kids)
      ensures MarkScan(dict.nodes, dict.lemmas, level, r, all, left[1..], marks + [mark])
      ensures mark.nodeNum > 0 ==> Positions(marks + [mark]) != []
    {
      PositionsConcat(marks, [mark]);
      PositionsOne(mark);
    }

    lemma MarksStay(marks: seq<ParsingMark>, level: nat, r: SplRange, all: seq<nat>, left: seq<Item>)
      requires left != [] && LayerScan(dict.nodes, dict.lemmas, level, r, all, left[1..], Positions(marks) + [])
      ensures MarkScan(dict.nodes, dict.lemmas, level, r, all, left[1..], marks)
    {
      assert Positions(marks) + [] == Positions(marks);
    }

    /** One mark less is needed when the first node has been dealt with and had an asked for son. */
    lemma RoomStep(level: nat, next: nat, r: SplRange, left: seq<Item>, lo: nat, hi: nat, first: nat, kids: seq<nat>)
      requires left != [] && hi <= |dict.lemmas| && kids == NodesOf(Kids(dict.lemmas, lo, hi, next, first, r))
      requires KidsOf(dict.nodes, dict.lemmas, left[0], level, r) == Kids(dict.lemmas, lo, hi, next, first, r)
      ensures MarksNeeded(dict.nodes, dict.lemmas, left, level, r) == One(kids != []) + MarksNeeded(dict.nodes, dict.lemmas, left[1..], level, r)
    {
      NodesOfAt(Kids(dict.lemmas, lo, hi, next, first, r));
    }

    /** Stores the mark for a run of sons, if there is one; the mark is counted even if there is no room for it. */
    method AddMark(first: nat, foundStart: nat, foundNum: nat, retVal: nat, ghost before: seq<ParsingMark>, ghost level: nat, ghost next: nat,
                   ghost r: SplRange, ghost all: seq<nat>, ghost left: seq<Item>, ghost kids: seq<nat>, ghost made: seq<ParsingMark>, ghost total: nat)
      returns (retVal': nat, ghost made': seq<ParsingMark>)
      requires ValidLemmas(dict.lemmas) && Extending(before, level, r, all, left, made, total) && retVal == |made| && left != [] && next == level + 1
      requires foundNum < 0x100 && kids == Upto(first + foundStart, first + foundStart + foundNum)
      requires LayerScan(dict.nodes, dict.lemmas, level, r, all, left[1..], Positions(made) + kids)
      requires MarksNeeded(dict.nodes, dict.lemmas, left, level, r) == One(kids != []) + MarksNeeded(dict.nodes, dict.lemmas, left[1..], level, r)
      modifies this`parsingMarksPos, parsingMarks
      ensures Extending(before, level, r, all, left[1..], made', total) && retVal' == |made'|
    {
      hide LayerScan, MarksNeeded, ValidLemmas, MarkScan;
      UptoLength(first + foundStart, first + foundStart + foundNum);
      retVal', made' := retVal, made;
      if foundNum > 0 {
        var mark := ParsingMark(first + foundStart, foundNum);
        MarksGrow(made, mark, level, next, r, all, left, kids);
        made' := made + [mark];
        Record(mark, before, made);
        retVal' := retVal' + 1;
      } else {
        MarksStay(made, level, r, all, left);
      }
    }

    method Record(mark: ParsingMark, ghost before: seq<ParsingMark>, ghost made: seq<ParsingMark>)
      requires parsingMarks.Length == K_MAX_PARSING_MARK && |before| <= K_MAX_PARSING_MARK
      requires parsingMarksPos == |before| + Recorded(|before|, |made|)
      requires parsingMarks[..|before|] == before && parsingMarks[|before|..parsingMarksPos] == made[..Recorded(|before|, |made|)]
      modifies this`parsingMarksPos, parsingMarks
      ensures parsingMarksPos == |before| + Recorded(|before|, |made| + 1)
      ensures parsingMarks[..|before|] == before && parsingMarks[|before|..parsingMarksPos] == (made + [mark])[..Recorded(|before|, |made| + 1)]
    {
      if mileStonesPos < K_MAX_MILE_STONE && parsingMarksPos < K_MAX_PARSING_MARK {
        ghost var was := parsingMarks[|before|..parsingMarksPos];
        assert was == made;
        parsingMarks[parsingMarksPos] := mark;
        parsingMarksPos := parsingMarksPos + 1;
        assert parsingMarks[|before|..parsingMarksPos] == was + [mark];
      } else {
        assert (made + [mark])[..Recorded(|before|, |made|)] == made[..Recorded(|before|, |made|)];
      }
    }

    /** The extension by the sons of one node. */
    method ExtendByNode(v: nat, r: SplRange, level: nat, ghost next: nat, retVal: nat, lpiItems: array<LmaPsbItem>, lpiNum: nat, lpiMax: nat, lmaLen: nat,
                        ghost before: seq<ParsingMark>, ghost all: seq<nat>, ghost left: seq<Item>, ghost q: seq<SplRange>,
                        ghost put: seq<nat>, ghost found: seq<nat>, ghost made: seq<ParsingMark>, ghost total: nat)
      returns (retVal': nat, lpiNum': nat, ghost put': seq<nat>, ghost made': seq<ParsingMark>)
      requires ValidLemmas(dict.lemmas) && dict.IdsStored() && 0 < r.num < 0x100
      requires Extending(before, level, r, all, left, made, total) && retVal == |made| && left != [] && left[0].node == v
      requires Putting(lpiItems[..], lpiNum, lpiMax, level, r, left, q, lmaLen, put, found)
      requires next == level + 1 && |q| == lmaLen == next + 1
      modifies this`parsingMarksPos, parsingMarks, lpiItems
      ensures Extending(before, level, r, all, left[1..], made', total) && retVal' == |made'|
      ensures Putting(lpiItems[..], lpiNum', lpiMax, level, r, left[1..], q, lmaLen, put', found)
    {
      hide AllStand, Kids, KidsOf, Expand, MarksNeeded, ScanItems, RepBlock, SharedPrefix, ValidLemmas, NodesOf, Upto, Positions, GroupCount, LayerScan, LpiHeld, Recorded;
      ghost var v', first', num', lo, hi, u, kids :=
        LayerScanStep(dict.nodes, dict.lemmas, level, next, r, all, left, Positions(made));
      RoomStep(level, next, r, left, lo, hi, first', kids);
      ghost var homos := ScanItems(dict.lemmas, Kids(dict.lemmas, lo, hi, next, first', r), q, lmaLen);
      PutStep(level, r, left, q, lmaLen, put, found, homos);
      var first, num := dict.nodes.SonOff(level, v), dict.nodes.SonNum(level, v);
      var foundStart, foundNum;
      foundStart, foundNum, lpiNum' := FindSons(first, num, r, lpiItems, lpiNum, lpiMax, lmaLen, lo, hi, next, u, kids, q, put, homos);
      put' := put + homos;
      retVal', made' := AddMark(first, foundStart, foundNum, retVal, before, level, next, r, all, left, kids, made, total);
    }

    lemma PutStep(level: nat, r: SplRange, left: seq<Item>, q: seq<SplRange>, lmaLen: nat, put: seq<nat>, found: seq<nat>, homos: seq<nat>)
      requires left != [] && homos == ScanItems(dict.lemmas, KidsOf(dict.nodes, dict.lemmas, left[0], level, r), q, lmaLen)
      requires found == put + ScanItems(dict.lemmas, Expand(dict.nodes, dict.lemmas, left, level, r), q, lmaLen)
      ensures found == (put + homos) + ScanItems(dict.lemmas, Expand(dict.nodes, dict.lemmas, left[1..], level, r), q, lmaLen)
    {
      hide KidsOf, ScanItems;
      var kids, rest := KidsOf(dict.nodes, dict.lemmas, left[0], level, r), Expand(dict.nodes, dict.lemmas, left[1..], level, r);
      ScanItemsConcat(dict.lemmas, kids, rest, q, lmaLen);
      var more := ScanItems(dict.lemmas, rest, q, lmaLen);
      assert put + (homos + more) == (put + homos) + more;
    }

    /** The extension by the sons of all nodes of one mark. */
    method ExtendByMark(mark: ParsingMark, r: SplRange, level: nat, ghost next: nat, retVal: nat, lpiItems: array<LmaPsbItem>, lpiNum: nat, lpiMax: nat,
                        lmaLen: nat, ghost before: seq<ParsingMark>, ghost all: seq<nat>, ghost left: seq<Item>, ghost rest: seq<nat>,
                        ghost q: seq<SplRange>, ghost put: seq<nat>, ghost found: seq<nat>, ghost made: seq<ParsingMark>, ghost total: nat)
      returns (retVal': nat, lpiNum': nat, ghost left': seq<Item>, ghost put': seq<nat>, ghost made': seq<ParsingMark>)
      requires ValidLemmas(dict.lemmas) && dict.IdsStored() && 0 < r.num < 0x100
      requires Extending(before, level, r, all, left, made, total) && retVal == |made|
      requires Putting(lpiItems[..], lpiNum, lpiMax, level, r, left, q, lmaLen, put, found)
      requires NodesOf(left) == Upto(mark.nodeOffset, mark.nodeOffset + mark.nodeNum) + rest
      requires next == level + 1 && |q| == lmaLen == next + 1
      modifies this`parsingMarksPos, parsingMarks, lpiItems
      ensures Extending(before, level, r, all, left', made', total) && retVal' == |made'| && NodesOf(left') == rest
      ensures Putting(lpiItems[..], lpiNum', lpiMax, level, r, left', q, lmaLen, put', found)
    {
      hide ValidLemmas, Extending, Putting, NodesOf;
      retVal', lpiNum', left', put', made' := retVal, lpiNum, left, put, made;
      ghost var end := mark.nodeOffset + mark.nodeNum;
      for extPos := 0 to mark.nodeNum
        invariant Extending(before, level, r, all, left', made', total) && retVal' == |made'|
        invariant Putting(lpiItems[..], lpiNum', lpiMax, level, r, left', q, lmaLen, put', found)
        invariant NodesOf(left') == Upto(mark.nodeOffset + extPos, end) + rest
      {
        NextNode(left', mark.nodeOffset + extPos, end, rest);
        retVal', lpiNum', put', made' := ExtendByNode(mark.nodeOffset + extPos, r, level, next, retVal', lpiItems, lpiNum', lpiMax, lmaLen,
          before, all, left', q, put', found, made', total);
        left' := left'[1..];
      }
      assert [] + rest == rest;
    }

    /** The extension by all marks of a mile stone. */
    method ExtendByMarks(markStart: nat, markNum: nat, r: SplRange, level: nat, ghost next: nat, lpiItems: array<LmaPsbItem>, lpiMax: nat, lmaLen: nat,
                         ghost all: seq<nat>, ghost items: seq<Item>, ghost q: seq<SplRange>, ghost found: seq<nat>)
      returns (retVal: nat, lpiNum: nat, ghost made: seq<ParsingMark>)
      requires ValidLemmas(dict.lemmas) && dict.IdsStored() && 0 < r.num < 0x100 && lpiMax <= lpiItems.Length
      requires parsingMarks.Length == K_MAX_PARSING_MARK && markStart + markNum <= parsingMarksPos <= K_MAX_PARSING_MARK
      requires Positions(parsingMarks[markStart..markStart + markNum]) == NodesOf(items)
      requires AllStand(dict.nodes, dict.lemmas, items, level) && all == NodesOf(Expand(dict.nodes, dict.lemmas, items, level, r))
      requires next == level + 1 && |q| == lmaLen == next + 1
      requires found == ScanItems(dict.lemmas, Expand(dict.nodes, dict.lemmas, items, level, r), q, lmaLen)
      modifies this`parsingMarksPos, parsingMarks, lpiItems
      ensures retVal == |made| == MarksNeeded(dict.nodes, dict.lemmas, items, level, r) && Positions(made) == all && (made == [] <==> all == [])
      ensures parsingMarksPos == old(parsingMarksPos) + Recorded(old(parsingMarksPos), retVal)
      ensures parsingMarks[..old(parsingMarksPos)] == old(parsingMarks[..parsingMarksPos])
      ensures parsingMarks[old(parsingMarksPos)..parsingMarksPos] == made[..Recorded(old(parsingMarksPos), retVal)]
      ensures LpiHeld(lpiItems[..], lpiNum, lpiMax, found, lmaLen)
    {
      hide ValidLemmas, LpiHeld, NodesOf, Expand, MarksNeeded, AllStand, ScanItems;
      ghost var before, marks := parsingMarks[..parsingMarksPos], parsingMarks[markStart..markStart + markNum];
      ghost var total := MarksNeeded(dict.nodes, dict.lemmas, items, level, r);
      retVal, lpiNum, made := 0, 0, [];
      ghost var left, put: seq<nat> := items, [];
      LpiHeldNone(lpiItems[..], lpiMax, lmaLen);
      assert parsingMarks[parsingMarksPos..parsingMarksPos] == [] && [] + all == all && put + found == found;
      for hPos := 0 to markNum
        invariant Extending(before, level, r, all, left, made, total) && retVal == |made|
        invariant Putting(lpiItems[..], lpiNum, lpiMax, level, r, left, q, lmaLen, put, found)
        invariant NodesOf(left) == Positions(marks[hPos..])
      {
        var mark := parsingMarks[markStart + hPos];
        assert mark == before[markStart + hPos] == marks[hPos] && marks[hPos..][1..] == marks[hPos + 1..];
        retVal, lpiNum, left, put, made := ExtendByMark(mark, r, level, next, retVal, lpiItems, lpiNum, lpiMax, lmaLen,
          before, all, left, Positions(marks[hPos + 1..]), q, put, found, made, total);
      }
      NodesOfAt(left);
      ExtendingEnd(before, level, r, all, left, q, lmaLen, put, found, made, total);
    }

    lemma ExtendingEnd(before: seq<ParsingMark>, level: nat, r: SplRange, all: seq<nat>, left: seq<Item>,
                       q: seq<SplRange>, lmaLen: nat, put: seq<nat>, found: seq<nat>, made: seq<ParsingMark>, total: nat)
      requires Extending(before, level, r, all, left, made, total) && left == []
      requires found == put + ScanItems(dict.lemmas, Expand(dict.nodes, dict.lemmas, left, level, r), q, lmaLen)
      ensures Positions(made) == all && |made| == total && put == found
    {
      assert all == Positions(made) + [];
    }

    /** How many marks the extension of a frontier by one more range needs. */
    ghost function MarksForExtension(q: seq<SplRange>, r: SplRange): nat
      requires q != []
    {
      MarksNeeded(dict.nodes, dict.lemmas, Frontier(dict.nodes, dict.lemmas, q, |q| - 1), |q| - 1, r)
    }

    lemma FrontierToExtend(q0: seq<SplRange>, q: seq<SplRange>, r: SplRange, level: nat, next: nat, lmaLen: nat)
      returns (items: seq<Item>, all: seq<nat>, found: seq<nat>)
      requires Packed(dict.nodes, dict.lemmas) && q0 != [] && q == q0 + [r] && ValidQuery(q)
      requires level + 1 == next == |q0| && lmaLen == next + 1
      ensures items == Frontier(dict.nodes, dict.lemmas, q0, level) && AllStand(dict.nodes, dict.lemmas, items, level)
      ensures MarksForExtension(q0, r) == MarksNeeded(dict.nodes, dict.lemmas, items, level, r)
      ensures all == NodesOf(Expand(dict.nodes, dict.lemmas, items, level, r)) == NodesOf(Frontier(dict.nodes, dict.lemmas, q, next))
      ensures all == [] <==> Frontier(dict.nodes, dict.lemmas, q, next) == []
      ensures found == ScanItems(dict.lemmas, Expand(dict.nodes, dict.lemmas, items, level, r), q, lmaLen)
      ensures found == Scan(dict.lemmas, 0, |dict.lemmas|, q, 0) && ValidLemmas(dict.lemmas)
    {
      hide Frontier, Expand, Kids, AllStand, ScanItems, Scan, NodesOf, MarksNeeded;
      items := Frontier(dict.nodes, dict.lemmas, q0, level);
      FrontierOfLonger(dict.nodes, dict.lemmas, q0, r, level);
      FirstLayerStands(dict.nodes, dict.lemmas, q);
      FrontierStands(dict.nodes, dict.lemmas, q, level);
      FrontierStep(dict.nodes, dict.lemmas, q, level, next);
      ScanFrontier(dict.nodes, dict.lemmas, q, next, lmaLen);
      all := NodesOf(Frontier(dict.nodes, dict.lemmas, q, next));
      NodesOfAt(Frontier(dict.nodes, dict.lemmas, q, next));
      found := Scan(dict.lemmas, 0, |dict.lemmas|, q, 0);
    }

    /** The new mile stone as the program fills it in: its start is set with the first mark, if that was recorded. */
    method FillMileStone(start: nat, retVal: nat)
      requires mileStones.Length == K_MAX_MILE_STONE && mileStonesPos < K_MAX_MILE_STONE
      modifies this`mileStonesPos, mileStones
      ensures mileStonesPos == old(mileStonesPos) + 1 && mileStones[old(mileStonesPos)].markNum == retVal
      ensures start < K_MAX_PARSING_MARK ==> mileStones[old(mileStonesPos)] == MileStone(start, retVal)
      ensures forall h | 0 <= h < old(mileStonesPos) :: mileStones[h] == old(mileStones[h])
    {
      var markStart := if start < K_MAX_PARSING_MARK then start else mileStones[mileStonesPos].markStart;
      mileStones[mileStonesPos] := MileStone(markStart, retVal);
      mileStonesPos := mileStonesPos + 1;
    }

    /**
     * `extend_dict1` for a mile stone of the first layer, `extend_dict2` for a deeper one. The lemmas are those that a
     * scan selects in any case. If both pools have room the new mile stone denotes the frontier for one range more. If
     * there are too few marks left it counts more marks than are recorded. If there is no mile stone left, and only
     * then, the program writes behind the array of mile stones; that write is not made here.
     */
    method ExtendDict(fromHandle: nat, r: SplRange, splidsExtended: nat, lpiItems: array<LmaPsbItem>, lpiMax: nat)
      returns (retHandle: nat, lpiNum: nat, end: Extension)
      requires Valid() && 0 < fromHandle < mileStonesPos && 0 < splidsExtended == |asked[fromHandle - 1]|
      requires 0 < r.num < 0x100 && lpiMax <= lpiItems.Length && ValidQuery(asked[fromHandle - 1] + [r])
      modifies this`parsingMarksPos, this`mileStonesPos, this`asked, parsingMarks, mileStones, lpiItems
      ensures var q := old(asked[fromHandle - 1]) + [r];
        && LpiHeld(lpiItems[..], lpiNum, lpiMax, Scan(dict.lemmas, 0, |dict.lemmas|, q, 0), |q|)
        && end == Ending(q, old(mileStonesPos), old(parsingMarksPos) + MarksForExtension(old(asked[fromHandle - 1]), r))
        && (end == Whole ==> Valid())
        && (end == Whole && Frontier(dict.nodes, dict.lemmas, q, splidsExtended) == [] ==> retHandle == 0 && asked == old(asked))
        && (end == Whole && Frontier(dict.nodes, dict.lemmas, q, splidsExtended) != [] ==>
              retHandle == old(mileStonesPos) < mileStonesPos && asked == old(asked) + [q])
        && (end == Short ==> retHandle == old(mileStonesPos) < mileStonesPos && parsingMarksPos == K_MAX_PARSING_MARK && asked == old(asked))
        && (end == Short ==> old(parsingMarksPos) + mileStones[retHandle].markNum > K_MAX_PARSING_MARK)
        && parsingMarksPos <= K_MAX_PARSING_MARK
        && (forall h | 1 <= h < old(mileStonesPos) :: Denotes(parsingMarks[..parsingMarksPos], mileStones[h], old(asked)[h - 1]))
    {
      hide LpiHeld, Frontier, NodesOf, Expand, MarksNeeded, AllStand, ScanItems, Scan, Packed, FirstLayer, Chained, ValidLemmas, Positions, MarksForExtension;
      var level := splidsExtended - 1;
      var lmaLen := splidsExtended + 1;
      ghost var q0 := asked[fromHandle - 1];
      ghost var q := q0 + [r];
      var stone, start := mileStones[fromHandle], parsingMarksPos;
      ghost var marks := parsingMarks[..start];
      assert Denotes(marks, stone, q0);
      assert marks[stone.markStart..stone.markStart + stone.markNum] == parsingMarks[stone.markStart..stone.markStart + stone.markNum];
      ghost var items, all, found := FrontierToExtend(q0, q, r, level, splidsExtended, lmaLen);
      var retVal;
      ghost var made;
      retVal, lpiNum, made := ExtendByMarks(stone.markStart, stone.markNum, r, level, splidsExtended, lpiItems, lpiMax, lmaLen, all, items, q, found);
      retHandle, end := FinishExtension(start, retVal, marks, made, q, all);
    }

    /** The end of an extension that has made the marks `made`. */
    method FinishExtension(start: nat, retVal: nat, ghost marks: seq<ParsingMark>, ghost made: seq<ParsingMark>, ghost q: seq<SplRange>, ghost all: seq<nat>)
      returns (retHandle: nat, end: Extension)
      requires dict.Valid() && parsingMarks.Length == K_MAX_PARSING_MARK && mileStones.Length == K_MAX_MILE_STONE
      requires 1 <= mileStonesPos <= K_MAX_MILE_STONE && |asked| == mileStonesPos - 1 && |marks| == start <= K_MAX_PARSING_MARK
      requires Chained(mileStones[..mileStonesPos], start) && q != []
      requires forall h | 1 <= h < mileStonesPos :: Denotes(marks, mileStones[h], asked[h - 1])
      requires retVal == |made| && Positions(made) == all == NodesOf(Frontier(dict.nodes, dict.lemmas, q, |q| - 1)) && (made == [] <==> all == [])
      requires all == [] <==> Frontier(dict.nodes, dict.lemmas, q, |q| - 1) == []
      requires parsingMarksPos == start + Recorded(start, retVal) && parsingMarks[..start] == marks
      requires parsingMarks[start..parsingMarksPos] == made[..Recorded(start, retVal)]
      modifies this`mileStonesPos, this`asked, mileStones
      ensures end == Ending(q, old(mileStonesPos), start + retVal)
      ensures end == Whole ==> Valid()
      ensures end == Whole && all == [] ==> retHandle == 0 && asked == old(asked)
      ensures end == Whole && all != [] ==> retHandle == old(mileStonesPos) < mileStonesPos && asked == old(asked) + [q]
      ensures end == Short ==> retHandle == old(mileStonesPos) < mileStonesPos && parsingMarksPos == K_MAX_PARSING_MARK && asked == old(asked)
      ensures end == Short ==> start + mileStones[retHandle].markNum > K_MAX_PARSING_MARK
      ensures parsingMarksPos <= K_MAX_PARSING_MARK
      ensures forall h | 1 <= h < old(mileStonesPos) :: Denotes(parsingMarks[..parsingMarksPos], mileStones[h], old(asked)[h - 1])
    {
      hide Frontier, NodesOf, Packed, FirstLayer, Positions, Chained, Denotes;
      retHandle, end := 0, Whole;
      OlderStay(marks);
      if retVal == 0 {
        assert parsingMarks[..parsingMarksPos] == marks;
      } else if mileStonesPos >= K_MAX_MILE_STONE {
        end := Behind;
      } else if start + retVal <= K_MAX_PARSING_MARK {
        assert parsingMarks[start..parsingMarksPos] == made;
        NewDenotes(start, made, q);
        retHandle := AddMileStone(start, retVal, q);
      } else {
        retHandle, end := mileStonesPos, Short;
        FillMileStone(start, retVal);
      }
    }

    lemma OlderStay(marks: seq<ParsingMark>)
      requires parsingMarks.Length == K_MAX_PARSING_MARK && |marks| <= parsingMarksPos <= K_MAX_PARSING_MARK && parsingMarks[..|marks|] == marks
      requires mileStones.Length == K_MAX_MILE_STONE && 1 <= mileStonesPos <= K_MAX_MILE_STONE && |asked| == mileStonesPos - 1
      requires forall h | 1 <= h < mileStonesPos :: Denotes(marks, mileStones[h], asked[h - 1])
      ensures forall h | 1 <= h < mileStonesPos :: Denotes(parsingMarks[..parsingMarksPos], mileStones[h], asked[h - 1])
    {
      hide Frontier, NodesOf, Positions;
      forall h | 1 <= h < mileStonesPos ensures Denotes(parsingMarks[..parsingMarksPos], mileStones[h], asked[h - 1]) {
        assert marks <= parsingMarks[..parsingMarksPos];
        DenotesStill(marks, parsingMarks[..parsingMarksPos], mileStones[h], asked[h - 1]);
      }
    }

    lemma NewDenotes(start: nat, made: seq<ParsingMark>, q: seq<SplRange>)
      requires start <= parsingMarksPos <= parsingMarks.Length && parsingMarks[start..parsingMarksPos] == made && q != []
      requires Positions(made) == NodesOf(Frontier(dict.nodes, dict.lemmas, q, |q| - 1))
      ensures Denotes(parsingMarks[..parsingMarksPos], MileStone(start, |made|), q)
    {
      hide Frontier, NodesOf, Positions;
      assert parsingMarks[..parsingMarksPos][start..start + |made|] == made;
    }

    /** How an extension ends. */
    ghost function Ending(q: seq<SplRange>, stones: nat, marks: nat): Extension
      requires q != []
    {
      if Frontier(dict.nodes, dict.lemmas, q, |q| - 1) == [] then Whole
      else if stones >= K_MAX_MILE_STONE then Behind
      else if marks <= K_MAX_PARSING_MARK then Whole
      else Short
    }
  }

  /** There was room for everything; or there were too few marks; or there was no mile stone left. */
  datatype Extension = Whole | Short | Behind

  /** With all ids of a range present, they are found at neighbouring nodes. */
  lemma FullRange(le0: seq<LmaNodeLE0>, spellingNum: nat, r: SplRange, i: nat, j: nat)
    requires FirstLayer(le0, spellingNum) && 0 < r.num && i + r.num == j <= |le0| && 1 <= i
    requires forall p | i <= p < j :: r.Has(le0[p].splIdx)
    ensures forall p | i <= p < j :: le0[p].splIdx == r.start + (p - i)
  {
    forall p | i <= p < j ensures le0[p].splIdx == r.start + (p - i) {
      AscendingSpread(le0, i, p);
      AscendingSpread(le0, p, j - 1);
    }
  }

  lemma {:induction false} AscendingSpread(le0: seq<LmaNodeLE0>, i: nat, p: nat)
    requires 1 <= i <= p < |le0| && forall a, b | 1 <= a < b < |le0| :: le0[a].splIdx < le0[b].splIdx
    ensures le0[i].splIdx + (p - i) <= le0[p].splIdx
    decreases p - i
  {
    if i < p {
      AscendingSpread(le0, i, p - 1);
      assert le0[p - 1].splIdx < le0[p].splIdx;
    }
  }

  lemma FirstMarkIsFrontier(dict: DictTrie, r: SplRange, sonPos: nat, mark: ParsingMark)
    requires Packed(dict.nodes, dict.lemmas) && 0 < |dict.nodes.le0| && 0 < r.num < 0x100
    requires LookupExact(dict.nodes.le0, r.start, r.start + r.num)
    requires sonPos == IndexEntry(dict.nodes.le0, r.start) && sonPos + r.num == IndexEntry(dict.nodes.le0, r.start + r.num)
    requires mark == ParsingMark(sonPos, r.num)
    ensures Positions([mark]) == NodesOf(Frontier(dict.nodes, dict.lemmas, [r], 0))
  {
    FirstLayerKids(dict.nodes, dict.lemmas, r, sonPos, sonPos + r.num);
    PositionsOne(mark);
  }

  /** Each mile stone begins where the one in front of it ends; slot 0 is not used. */
  ghost predicate Chained(stones: seq<MileStone>, end: nat)
    decreases |stones|
  {
    if |stones| <= 1 then end == 0
    else
      var last := stones[|stones| - 1];
      end == last.markStart + last.markNum && Chained(stones[..|stones| - 1], last.markStart)
  }

  lemma ChainAppend(stones: seq<MileStone>, markStart: nat, markNum: nat)
    requires |stones| >= 1 && Chained(stones, markStart)
    ensures Chained(stones + [MileStone(markStart, markNum)], markStart + markNum)
  {
    var all := stones + [MileStone(markStart, markNum)];
    assert all[..|all| - 1] == stones;
  }

  lemma {:induction false} ChainCut(stones: seq<MileStone>, end: nat, h: nat)
    requires Chained(stones, end) && 0 < h < |stones|
    ensures Chained(stones[..h], stones[h].markStart)
    decreases |stones|
  {
    if h < |stones| - 1 {
      var shorter := stones[..|stones| - 1];
      ChainCut(shorter, stones[|stones| - 1].markStart, h);
      assert shorter[..h] == stones[..h];
    }
  }

  /** Two mile stones never share a mark: a later one begins behind the end of an earlier one. */
  lemma {:induction false} ChainedBefore(stones: seq<MileStone>, end: nat, h: nat)
    requires Chained(stones, end) && 0 < h < |stones|
    ensures stones[h].markStart + stones[h].markNum <= end
    ensures forall k | h < k < |stones| :: stones[h].markStart + stones[h].markNum <= stones[k].markStart
    decreases |stones|
  {
    var last := |stones| - 1;
    if h < last {
      ChainedBefore(stones[..last], stones[last].markStart, h);
      assert forall k | h < k < last :: stones[..last][k] == stones[k];
    }
  }

  // ----- what is extended and put, told from the list alone -----

  /** The first `n` ids of beginnings that are one id longer. */
  ghost function Shortened(ps: set<seq<uint16>>, n: nat): set<seq<uint16>> {
    set p | p in ps && |p| == n + 1 :: p[..n]
  }

  lemma ShortenedUnion(a: set<seq<uint16>>, b: set<seq<uint16>>, n: nat)
    ensures Shortened(a + b, n) == Shortened(a, n) + Shortened(b, n)
  {
  }

  /** All beginnings in one group of `n` ids begin alike. */
  lemma OneBeginning(t: Nodes, ls: seq<LemmaEntry>, it: Item, level: nat, n: nat, p: seq<uint16>)
    requires ValidLemmas(ls) && Stands(t, ls, it, level) && n == level + 1 && p in OfItem(ls, it, n)
    ensures n <= |p| && n <= |ls[it.lo].spls| && p[..n] == ls[it.lo].spls[..n]
  {
    hide Prefixes, HomoEnd, GroupCount, RepNode, RepBlock, GroupEnd;
    assert GoesOn(ls, it.lo, it.lo, level);
    OneHead(ls, it.lo, it.lo, it.e, it.e, level, n);
    assert BegunIn(ls, it.lo, it.e, n, p);
    var i :| it.lo <= i < it.e && Begun(ls, i, n, p);
    assert p[..n] == ls[i].spls[..n];
    assert Begun(ls, i, n, p[..n]);
    assert p[..n] in Prefixes(ls, it.lo, it.e, n);
    assert p[..n] in Heads(ls, it.lo, it.e, n);
  }

  /** The first son that is asked for shows that the beginning of its node goes on. */
  lemma KidGoesOn(t: Nodes, ls: seq<LemmaEntry>, kids: seq<Item>, next: nat)
    requires ValidLemmas(ls) && AllStand(t, ls, kids, next) && kids != []
    ensures exists p :: p in Under(ls, kids, next + 1) && |p| == next + 1
  {
    hide Prefixes, HomoEnd, GroupCount, RepNode, RepBlock, GroupEnd;
    var it := kids[0];
    assert GoesOn(ls, it.lo, it.lo, next);
    OneHead(ls, it.lo, it.lo, it.e, it.e, next, next + 1);
    var p := ls[it.lo].spls[..next + 1];
    assert p in Heads(ls, it.lo, it.e, next + 1);
    assert p in OfItem(ls, it, next + 1);
  }

  lemma NoneUnder(ls: seq<LemmaEntry>, n: nat)
    ensures Under(ls, [], n) == {}
  {
  }

  lemma HeldApart(ls: seq<LemmaEntry>, items: seq<Item>, q: seq<SplRange>, level: nat)
    requires level < |q| && HoldsAsked(ls, items, q, level)
    ensures Apart(ls, items, level + 1)
  {
  }

  /** One node needs a mark exactly if its beginning is that of a longer one that is asked for. */
  lemma NodeMark(t: Nodes, ls: seq<LemmaEntry>, it: Item, level: nat, next: nat, r: SplRange)
    requires ValidLemmas(ls) && Stands(t, ls, it, level) && next == level + 1
    ensures next <= |ls[it.lo].spls|
    ensures Shortened(Under(ls, KidsOf(t, ls, it, level, r), next + 1), next)
      == if KidsOf(t, ls, it, level, r) == [] then {} else {ls[it.lo].spls[..next]}
  {
    hide Prefixes, HomoEnd, GroupCount, RepNode, RepBlock, KidsOf, Under;
    var kids := KidsOf(t, ls, it, level, r);
    OwnHead(t, ls, it, level, next);
    var head := ls[it.lo].spls[..next];
    KidsOfHold(t, ls, it, level, next, r);
    KidsOfStand(t, ls, it, level, r);
    forall p | p in Under(ls, kids, next + 1) && |p| == next + 1 ensures p[..next] == head {
      OneBeginning(t, ls, it, level, next, p);
    }
    if kids == [] {
      NoneUnder(ls, next + 1);
    } else {
      KidGoesOn(t, ls, kids, next);
      var p :| p in Under(ls, kids, next + 1) && |p| == next + 1;
      assert p[..next] in Shortened(Under(ls, kids, next + 1), next);
    }
  }

  /** So the marks are as many as the different beginnings that go on with an id of the range. */
  lemma {:induction false} MarksAreBeginnings(t: Nodes, ls: seq<LemmaEntry>, items: seq<Item>, level: nat, next: nat, r: SplRange)
    requires ValidLemmas(ls) && AllStand(t, ls, items, level) && next == level + 1 && Apart(ls, items, next)
    ensures MarksNeeded(t, ls, items, level, r) == |Shortened(Under(ls, Expand(t, ls, items, level, r), next + 1), next)|
    ensures Shortened(Under(ls, Expand(t, ls, items, level, r), next + 1), next) <= Under(ls, items, next)
  {
    hide ValidLemmas, Stands, OfItem, KidsOf, Shortened, Under, Expand, MarksNeeded, AllStand, Apart;
    if items == [] {
      NoItems(t, ls, level, next, r);
    } else {
      var rest := items[1..];
      var kids, others := KidsOf(t, ls, items[0], level, r), Expand(t, ls, rest, level, r);
      FirstItem(t, ls, items, level, next, r);
      MarksAreBeginnings(t, ls, rest, level, next, r);
      UnderConcat(ls, kids, others, next + 1);
      ShortenedUnion(Under(ls, kids, next + 1), Under(ls, others, next + 1), next);
      OneMark(t, ls, items[0], rest, level, next, r, Shortened(Under(ls, others, next + 1), next));
    }
  }

  lemma NoItems(t: Nodes, ls: seq<LemmaEntry>, level: nat, next: nat, r: SplRange)
    ensures MarksNeeded(t, ls, [], level, r) == 0 && Shortened(Under(ls, Expand(t, ls, [], level, r), next + 1), next) == {}
  {
  }

  lemma FirstItem(t: Nodes, ls: seq<LemmaEntry>, items: seq<Item>, level: nat, next: nat, r: SplRange)
    requires items != [] && AllStand(t, ls, items, level) && Apart(ls, items, next)
    ensures Stands(t, ls, items[0], level) && AllStand(t, ls, items[1..], level)
    ensures OfItem(ls, items[0], next) !! Under(ls, items[1..], next) && Apart(ls, items[1..], next)
    ensures Under(ls, items, next) == OfItem(ls, items[0], next) + Under(ls, items[1..], next)
    ensures Expand(t, ls, items, level, r) == KidsOf(t, ls, items[0], level, r) + Expand(t, ls, items[1..], level, r)
    ensures MarksNeeded(t, ls, items, level, r) == One(KidsOf(t, ls, items[0], level, r) != []) + MarksNeeded(t, ls, items[1..], level, r)
  {
    hide Stands, OfItem, KidsOf;
  }

  lemma OneMark(t: Nodes, ls: seq<LemmaEntry>, it: Item, rest: seq<Item>, level: nat, next: nat, r: SplRange, more: set<seq<uint16>>)
    requires ValidLemmas(ls) && Stands(t, ls, it, level) && next == level + 1
    requires more <= Under(ls, rest, next) && OfItem(ls, it, next) !! Under(ls, rest, next)
    ensures var own := Shortened(Under(ls, KidsOf(t, ls, it, level, r), next + 1), next);
      && |own + more| == One(KidsOf(t, ls, it, level, r) != []) + |more|
      && own + more <= OfItem(ls, it, next) + Under(ls, rest, next)
  {
    hide ValidLemmas, Stands, OfItem, KidsOf, Shortened, Under;
    NodeMark(t, ls, it, level, next, r);
    OwnHead(t, ls, it, level, next);
    if KidsOf(t, ls, it, level, r) == [] {
      assert {} + more == more;
    }
  }

  lemma OwnHead(t: Nodes, ls: seq<LemmaEntry>, it: Item, level: nat, n: nat)
    requires ValidLemmas(ls) && Stands(t, ls, it, level) && n == level + 1
    ensures n <= |ls[it.lo].spls| && ls[it.lo].spls[..n] in OfItem(ls, it, n)
  {
    hide Prefixes, HomoEnd, GroupCount, RepNode, RepBlock, GroupEnd;
    assert GoesOn(ls, it.lo, it.lo, level);
    OneHead(ls, it.lo, it.lo, it.e, it.e, level, n);
    assert ls[it.lo].spls[..n] in Heads(ls, it.lo, it.e, n);
  }

  /**
   * Extending a frontier makes one mark for every different beginning that is asked for so far and goes on with an id
   * of the range.
   */
  lemma MarksCounted(t: Nodes, ls: seq<LemmaEntry>, q0: seq<SplRange>, r: SplRange, n: nat)
    requires Packed(t, ls) && 0 < n == |q0|
    ensures MarksNeeded(t, ls, Frontier(t, ls, q0, n - 1), n - 1, r) == |Shortened(AskedHeads(ls, q0 + [r], n), n)|
  {
    hide ValidLemmas, Frontier, Expand, AskedHeads, HoldsAsked, Under, AllStand, Prefixes, AskedFor, Apart, MarksNeeded;
    var q, level := q0 + [r], n - 1;
    var items := Frontier(t, ls, q0, level);
    FrontierHolds(t, ls, q0, level);
    FrontierHolds(t, ls, q, n);
    FrontierOfLonger(t, ls, q0, r, level);
    FrontierStep(t, ls, q, level, n);
    HeldApart(ls, items, q0, level);
    MarksAreBeginnings(t, ls, items, level, n, r);
    HeldIsAsked(ls, Frontier(t, ls, q, n), q, n);
    ShortenedOfLength(Under(ls, Frontier(t, ls, q, n), n + 1), n);
  }

  lemma ShortenedOfLength(ps: set<seq<uint16>>, n: nat)
    ensures Shortened(OfLength(ps, n + 1), n) == Shortened(ps, n)
  {
  }

  /** The lemmas that the first step puts into the buffer: none if they are cached, for a Yunmu those of the first id, else all that one range asks for. */
  lemma WantedFound(t: Nodes, ls: seq<LemmaEntry>, r: SplRange, cached: bool, yunmu: bool, i: nat)
    requires Packed(t, ls) && 0 < r.start && 0 < r.num
    ensures var wanted := if cached then [] else if yunmu && Frontier(t, ls, [r], 0) != [] then Frontier(t, ls, [r], 0)[..1] else Frontier(t, ls, [r], 0);
      i in ScanItems(ls, wanted, [r], 1) <==>
        && !cached && i < |ls| && |ls[i].spls| == 1 && r.start <= ls[i].spls[0] < r.start + r.num
        && (yunmu ==> IsFirstAsked(ls, r, i))
  {
    hide ValidLemmas, Kids, SharedPrefix, RepBlock, GroupCount, ScanItems, Scan;
    var kids := Kids(ls, 0, |ls|, 0, 1, r);
    ScanNone(ls, [r], 1);
    if cached {
    } else if yunmu && kids != [] {
      FirstOnlyFinds(t, ls, [r], i);
      assert Bounded(t, ls, [r], 0) == Cap(kids) && Cap(kids)[..1] == kids[..1];
      assert FoundItems(t, ls, [r], true) == kids[..1];
    } else {
      ScanFrontier(t, ls, [r], 0, 1);
      ScanIsFilter(ls, 0, |ls|, [r], 0, i);
      if yunmu {
        FirstOnlyFinds(t, ls, [r], i);
        assert FoundItems(t, ls, [r], true) == [];
      }
    }
  }
}
