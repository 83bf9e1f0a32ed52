/** The list of single characters with their spellings: built from the lemmas, sorted, without repetition. */
module SingleChars {
  import opened DictDef
  import opened MyStdlib

  datatype SingleCharItem = SingleCharItem(freq: real, hz: uint16, fullSplid: uint16, halfSplid: uint16)

  /** `cmp_scis_hz_splid` */
  function CompareHzSplid(a: SingleCharItem, b: SingleCharItem): int {
    if a.hz != b.hz then a.hz - b.hz
    else if a.halfSplid != b.halfSplid then a.halfSplid - b.halfSplid
    else a.fullSplid - b.fullSplid
  }

  /** `cmp_scis_hz_splid_freq`: of the same character and spelling, the more frequent one comes first. */
  function CompareHzSplidFreq(a: SingleCharItem, b: SingleCharItem): int {
    var ret := CompareHzSplid(a, b);
    if ret != 0 then ret else if a.freq > b.freq then -1 else if a.freq < b.freq then 1 else 0
  }

  const BLANK := SingleCharItem(0.0, 0, 0, 0)

  /** Every Hanzi is spelled, and none is the terminator. */
  ghost predicate Spelled(l: LemmaEntry) {
    |l.hanzis| == |l.spls| && forall k | 0 <= k < |l.hanzis| :: l.hanzis[k] != 0
  }

  /** The item for Hanzi `k` of a lemma; only a one-character lemma has a frequency worth the name. */
  function ItemFor(l: LemmaEntry, k: nat, fullToHalf: uint16 -> uint16): SingleCharItem
    requires k < |l.hanzis| == |l.spls|
  {
    SingleCharItem(if |l.hanzis| == 1 then l.freq as real else 0.000001, l.hanzis[k], l.spls[k], fullToHalf(l.spls[k]))
  }

  /** The item is the one of some character of the lemmas. */
  ghost predicate Occurs(x: SingleCharItem, ls: seq<LemmaEntry>, fullToHalf: uint16 -> uint16) {
    exists i, k :: 0 <= i < |ls| && 0 <= k < |ls[i].hanzis| == |ls[i].spls| && x == ItemFor(ls[i], k, fullToHalf)
  }

  ghost predicate SameChar(a: SingleCharItem, b: SingleCharItem) {
    a.hz == b.hz && a.fullSplid == b.fullSplid
  }

  /** The characters ascend, so that each of them occurs once. */
  ghost predicate Ascending(scis: seq<SingleCharItem>) {
    forall i, j | 0 <= i < j < |scis| :: Before(scis, i, j)
  }

  ghost predicate Before(scis: seq<SingleCharItem>, i: nat, j: nat)
    requires i < |scis| && j < |scis|
  {
    CompareHzSplid(scis[i], scis[j]) < 0
  }

  /** Each character of the lemmas is listed, with its highest frequency; nothing else is, but the blank item. */
  ghost predicate ListsCharsOf(scis: seq<SingleCharItem>, ls: seq<LemmaEntry>, fullToHalf: uint16 -> uint16) {
    && scis != [] && scis[0] == BLANK && Ascending(scis)
    && (forall k | 1 <= k < |scis| :: Occurs(scis[k], ls, fullToHalf))
    && (forall x | Occurs(x, ls, fullToHalf) :: Listed(scis, x))
  }

  ghost predicate Listed(scis: seq<SingleCharItem>, x: SingleCharItem) {
    exists k :: 1 <= k < |scis| && SameChar(scis[k], x) && scis[k].halfSplid == x.halfSplid && scis[k].freq >= x.freq
  }

  /** The items of all lemmas behind the blank one. */
  method CopyChars(ls: seq<LemmaEntry>, fullToHalf: uint16 -> uint16) returns (scis: seq<SingleCharItem>)
    requires forall i | 0 <= i < |ls| :: Spelled(ls[i])
    ensures scis != [] && scis[0] == BLANK
    ensures forall k | 1 <= k < |scis| :: Occurs(scis[k], ls, fullToHalf)
    ensures forall x | Occurs(x, ls, fullToHalf) :: x in scis[1..]
  {
    scis := [BLANK];
    for pos := 0 to |ls|
      invariant scis != [] && scis[0] == BLANK
      invariant forall k | 1 <= k < |scis| :: Occurs(scis[k], ls, fullToHalf)
      invariant forall i, h | 0 <= i < pos && 0 <= h < |ls[i].hanzis| :: ItemFor(ls[i], h, fullToHalf) in scis[1..]
    {
      for hzpos := 0 to |ls[pos].hanzis|
        invariant scis != [] && scis[0] == BLANK
        invariant forall k | 1 <= k < |scis| :: Occurs(scis[k], ls, fullToHalf)
        invariant forall i, h | 0 <= i < pos && 0 <= h < |ls[i].hanzis| :: ItemFor(ls[i], h, fullToHalf) in scis[1..]
        invariant forall h | 0 <= h < hzpos :: ItemFor(ls[pos], h, fullToHalf) in scis[1..]
      {
        var item := ItemFor(ls[pos], hzpos, fullToHalf);
        ghost var before := scis[1..];
        scis := scis + [item];
        assert scis[1..] == before + [item];
      }
    }
  }

  lemma CompareIsOrder()
    ensures TotalPreorder(CompareHzSplidFreq)
  {
  }

  /** Sorted items: equal characters are neighbours, and the first of them is the most frequent one. */
  lemma SortedNeighbours(s: seq<SingleCharItem>, i: nat, j: nat)
    requires Sorted(s, CompareHzSplidFreq) && i <= j < |s|
    ensures CompareHzSplid(s[i], s[j]) <= 0
    ensures CompareHzSplid(s[i], s[j]) == 0 ==> s[i].freq >= s[j].freq
  {
    if i < j {
      assert InOrder(s, CompareHzSplidFreq, i, j);
    }
  }

  /** Half ids are the ones of the full ids, and only the blank item has the Hanzi 0. */
  ghost predicate WellFormed(s: seq<SingleCharItem>, fullToHalf: uint16 -> uint16) {
    forall k | 0 <= k < |s| :: s[k] == BLANK || (s[k].hz != 0 && s[k].halfSplid == fullToHalf(s[k].fullSplid))
  }

  /** The items of `s[..n]`, each character once, are `u`. */
  ghost predicate Condensed(s: seq<SingleCharItem>, n: nat, u: seq<SingleCharItem>) {
    && 1 <= n <= |s| && u != [] && u[0] == s[0] && Ascending(u)
    && CompareHzSplid(u[|u| - 1], s[n - 1]) == 0
    && OnlyFrom(u, s) && AllKept(s, n, u)
  }

  ghost predicate OnlyFrom(u: seq<SingleCharItem>, s: seq<SingleCharItem>) {
    forall k | 0 <= k < |u| :: u[k] in s
  }

  ghost predicate AllKept(s: seq<SingleCharItem>, n: nat, u: seq<SingleCharItem>)
    requires n <= |s|
  {
    forall k | 0 <= k < n :: Kept(s[k], u)
  }

  ghost predicate Kept(x: SingleCharItem, u: seq<SingleCharItem>) {
    exists k :: 0 <= k < |u| && Covers(u[k], x)
  }

  /** The same character and spelling, at least as frequent. */
  ghost predicate Covers(y: SingleCharItem, x: SingleCharItem) {
    CompareHzSplid(y, x) == 0 && y.freq >= x.freq
  }

  lemma KeptStill(x: SingleCharItem, u: seq<SingleCharItem>, y: SingleCharItem)
    requires Kept(x, u)
    ensures Kept(x, u + [y])
  {
    var k :| 0 <= k < |u| && Covers(u[k], x);
    assert (u + [y])[k] == u[k];
  }

  lemma AscendingAppend(u: seq<SingleCharItem>, x: SingleCharItem)
    requires Ascending(u) && u != [] && CompareHzSplid(u[|u| - 1], x) < 0
    ensures Ascending(u + [x])
  {
    var last := |u| - 1;
    forall i, j | 0 <= i < j < |u + [x]| ensures Before(u + [x], i, j) {
      assert i < last ==> Before(u, i, last);
      assert j < |u| ==> Before(u, i, j);
    }
  }

  /** A repeated character changes nothing. */
  lemma RepeatedStep(s: seq<SingleCharItem>, n: nat, u: seq<SingleCharItem>)
    requires Sorted(s, CompareHzSplidFreq) && n < |s| && Condensed(s, n, u) && CompareHzSplid(s[n - 1], s[n]) == 0
    ensures Condensed(s, n + 1, u)
  {
    SortedNeighbours(s, n - 1, n);
    assert Kept(s[n - 1], u);
    var k :| 0 <= k < |u| && Covers(u[k], s[n - 1]);
    assert Covers(u[k], s[n]);
  }

  /** A new character is appended. */
  lemma NewStep(s: seq<SingleCharItem>, n: nat, u: seq<SingleCharItem>)
    requires Sorted(s, CompareHzSplidFreq) && n < |s| && Condensed(s, n, u) && CompareHzSplid(s[n - 1], s[n]) != 0
    ensures Condensed(s, n + 1, u + [s[n]])
  {
    SortedNeighbours(s, n - 1, n);
    AscendingAppend(u, s[n]);
    forall k | 0 <= k < n + 1 ensures Kept(s[k], u + [s[n]]) {
      if k == n {
        assert Covers((u + [s[n]])[|u|], s[n]);
      } else {
        KeptStill(s[k], u, s[n]);
      }
    }
  }

  /** With half ids that follow from the full ids, it is enough to compare Hanzi and full id. */
  lemma SameCharIff(s: seq<SingleCharItem>, fullToHalf: uint16 -> uint16, i: nat, j: nat)
    requires WellFormed(s, fullToHalf) && i < |s| && j < |s|
    ensures SameChar(s[i], s[j]) <==> CompareHzSplid(s[i], s[j]) == 0
  {
  }

  /** Removes repeated characters from a sorted list. */
  method RemoveRepeated(s: seq<SingleCharItem>, fullToHalf: uint16 -> uint16) returns (u: seq<SingleCharItem>)
    requires s != [] && Sorted(s, CompareHzSplidFreq) && WellFormed(s, fullToHalf) && s[0] == BLANK
    requires forall k | 1 <= k < |s| :: s[k].hz != 0
    ensures Condensed(s, |s|, u)
  {
    u := [s[0]];
    assert Covers(u[0], s[0]);
    for pos := 1 to |s|
      invariant Condensed(s, pos, u)
    {
      hide Condensed, Sorted, CompareHzSplid;
      SameCharIff(s, fullToHalf, pos - 1, pos);
      if s[pos].hz == s[pos - 1].hz && s[pos].fullSplid == s[pos - 1].fullSplid {
        RepeatedStep(s, pos, u);
      } else {
        NewStep(s, pos, u);
        assert s[pos].(halfSplid := fullToHalf(s[pos].fullSplid)) == s[pos];
        u := u + [s[pos].(halfSplid := fullToHalf(s[pos].fullSplid))];
      }
    }
  }

  /** A sorted list of the same items begins with the blank one. */
  lemma BlankFirst(s: seq<SingleCharItem>, r: seq<SingleCharItem>)
    requires s != [] && s[0] == BLANK && (forall k | 1 <= k < |s| :: s[k].hz != 0)
    requires Sorted(r, CompareHzSplidFreq) && multiset(r) == multiset(s)
    ensures r != [] && r[0] == BLANK
    ensures forall k | 1 <= k < |r| :: r[k].hz != 0
    ensures OnlyFrom(r, s) && OnlyFrom(s, r)
  {
    forall k | 0 <= k < |r| ensures r[k] in s {
      assert r[k] in multiset(r);
    }
    forall k | 0 <= k < |s| ensures s[k] in r {
      assert s[k] in multiset(s);
    }
    var b := IndexIn(r, s[0]);
    SortedNeighbours(r, 0, b);
    var a := IndexIn(s, r[0]);
    assert s == [BLANK] + s[1..];
    assert r == [BLANK] + r[1..];
    assert multiset(s[1..]) == multiset(s) - multiset{BLANK} == multiset(r) - multiset{BLANK} == multiset(r[1..]);
    forall k | 1 <= k < |r| ensures r[k].hz != 0 {
      assert r[k] == r[1..][k - 1] && r[k] in multiset(r[1..]);
      var j := IndexIn(s[1..], r[k]);
    }
  }

  /** Hanzi `k` of lemma `i` is this one, with this reading. */
  ghost predicate ReadAt(ls: seq<LemmaEntry>, i: nat, k: nat, hz: uint16, full: uint16) {
    i < |ls| && k < |ls[i].hanzis| && k < |ls[i].spls| && ls[i].hanzis[k] == hz && ls[i].spls[k] == full
  }

  ghost predicate IsRead(ls: seq<LemmaEntry>, hz: uint16, full: uint16) {
    exists i: nat, k: nat :: ReadAt(ls, i, k, hz, full)
  }

  /** Some lemma is this one Hanzi with this reading, and has this frequency. */
  ghost predicate IsLemma(ls: seq<LemmaEntry>, hz: uint16, full: uint16, freq: real) {
    exists i :: 0 <= i < |ls| && ls[i].hanzis == [hz] && ls[i].spls == [full] && ls[i].freq as real == freq
  }

  /**
   * Behind the blank item there is exactly one item for every Hanzi with a reading that some lemma has it with, in the order of the
   * Hanzis, the half ids and the full ids. Its frequency is the highest of the lemmas that are the Hanzi alone with that reading.
   */
  ghost predicate CharsListed(scis: seq<SingleCharItem>, ls: seq<LemmaEntry>, fullToHalf: uint16 -> uint16) {
    && scis != [] && scis[0] == SingleCharItem(0.0, 0, 0, 0)
    && (forall x | 1 <= x < |scis| :: ItemListed(scis[x], ls, fullToHalf))
    && (forall hz, full | IsRead(ls, hz, full) :: exists x :: 1 <= x < |scis| && scis[x].hz == hz && scis[x].fullSplid == full)
    && (forall x, y | 0 <= x < y < |scis| :: InCharOrder(scis, x, y))
  }

  ghost predicate ItemListed(item: SingleCharItem, ls: seq<LemmaEntry>, fullToHalf: uint16 -> uint16) {
    && IsRead(ls, item.hz, item.fullSplid) && item.halfSplid == fullToHalf(item.fullSplid)
    && (item.freq == 0.000001 || IsLemma(ls, item.hz, item.fullSplid, item.freq))
    && forall i | 0 <= i < |ls| && ls[i].hanzis == [item.hz] && ls[i].spls == [item.fullSplid] :: ls[i].freq as real <= item.freq
  }

  ghost predicate InCharOrder(scis: seq<SingleCharItem>, x: nat, y: nat)
    requires x < |scis| && y < |scis|
  {
    || scis[x].hz < scis[y].hz
    || (scis[x].hz == scis[y].hz && scis[x].halfSplid < scis[y].halfSplid)
    || (scis[x].hz == scis[y].hz && scis[x].halfSplid == scis[y].halfSplid && scis[x].fullSplid < scis[y].fullSplid)
  }

  lemma CharsAreListed(scis: seq<SingleCharItem>, ls: seq<LemmaEntry>, fullToHalf: uint16 -> uint16)
    requires ListsCharsOf(scis, ls, fullToHalf) && forall i | 0 <= i < |ls| :: Spelled(ls[i])
    ensures CharsListed(scis, ls, fullToHalf)
  {
    hide ListsCharsOf, IsRead, IsLemma, Occurs, Listed;
    forall x | 1 <= x < |scis| ensures ItemListed(scis[x], ls, fullToHalf) {
      ItemIsListed(scis, ls, fullToHalf, x);
    }
    forall hz, full | IsRead(ls, hz, full) ensures exists x :: 1 <= x < |scis| && scis[x].hz == hz && scis[x].fullSplid == full {
      var x := ReadingListed(scis, ls, fullToHalf, hz, full);
    }
    AscendingParts(scis, ls, fullToHalf);
  }

  lemma AscendingParts(scis: seq<SingleCharItem>, ls: seq<LemmaEntry>, fullToHalf: uint16 -> uint16)
    requires ListsCharsOf(scis, ls, fullToHalf)
    ensures scis != [] && scis[0] == BLANK && Ascending(scis)
    ensures forall x, y | 0 <= x < y < |scis| :: InCharOrder(scis, x, y)
  {
    forall x, y | 0 <= x < y < |scis| ensures InCharOrder(scis, x, y) {
      assert Before(scis, x, y);
    }
  }

  lemma ReadingListed(scis: seq<SingleCharItem>, ls: seq<LemmaEntry>, fullToHalf: uint16 -> uint16, hz: uint16, full: uint16) returns (x: nat)
    requires ListsCharsOf(scis, ls, fullToHalf) && IsRead(ls, hz, full) && forall i | 0 <= i < |ls| :: Spelled(ls[i])
    ensures 1 <= x < |scis| && scis[x].hz == hz && scis[x].fullSplid == full && scis[x].halfSplid == fullToHalf(full)
  {
    hide ListsCharsOf;
    var i: nat, k: nat :| ReadAt(ls, i, k, hz, full);
    assert Spelled(ls[i]);
    x := OwnItem(scis, ls, fullToHalf, i, k);
  }

  lemma ItemIsListed(scis: seq<SingleCharItem>, ls: seq<LemmaEntry>, fullToHalf: uint16 -> uint16, x: nat)
    requires ListsCharsOf(scis, ls, fullToHalf) && 1 <= x < |scis| && forall i | 0 <= i < |ls| :: Spelled(ls[i])
    ensures ItemListed(scis[x], ls, fullToHalf)
  {
    hide Ascending, Listed;
    var item := scis[x];
    assert Occurs(item, ls, fullToHalf);
    var i, k :| 0 <= i < |ls| && 0 <= k < |ls[i].hanzis| == |ls[i].spls| && item == ItemFor(ls[i], k, fullToHalf);
    assert ReadAt(ls, i, k, item.hz, item.fullSplid);
    if |ls[i].hanzis| == 1 {
      assert ls[i].hanzis == [item.hz] && ls[i].spls == [item.fullSplid];
      assert IsLemma(ls, item.hz, item.fullSplid, item.freq);
    }
    forall j | 0 <= j < |ls| && ls[j].hanzis == [item.hz] && ls[j].spls == [item.fullSplid] ensures ls[j].freq as real <= item.freq {
      NoneMoreFrequent(scis, ls, fullToHalf, x, j);
    }
  }

  lemma NoneMoreFrequent(scis: seq<SingleCharItem>, ls: seq<LemmaEntry>, fullToHalf: uint16 -> uint16, x: nat, j: nat)
    requires ListsCharsOf(scis, ls, fullToHalf) && 1 <= x < |scis| && scis[x].halfSplid == fullToHalf(scis[x].fullSplid)
    requires j < |ls| && ls[j].hanzis == [scis[x].hz] && ls[j].spls == [scis[x].fullSplid]
    ensures ls[j].freq as real <= scis[x].freq
  {
    hide ListsCharsOf;
    var y := OwnItem(scis, ls, fullToHalf, j, 0);
    AscendingParts(scis, ls, fullToHalf);
    SameItem(scis, x, y);
  }

  /** The item of a Hanzi of a lemma. */
  lemma OwnItem(scis: seq<SingleCharItem>, ls: seq<LemmaEntry>, fullToHalf: uint16 -> uint16, i: nat, k: nat) returns (x: nat)
    requires ListsCharsOf(scis, ls, fullToHalf) && i < |ls| && k < |ls[i].hanzis| == |ls[i].spls|
    ensures 1 <= x < |scis| && scis[x].hz == ls[i].hanzis[k] && scis[x].fullSplid == ls[i].spls[k]
    ensures scis[x].halfSplid == fullToHalf(ls[i].spls[k]) && (|ls[i].hanzis| == 1 ==> scis[x].freq >= ls[i].freq as real)
  {
    hide Ascending, Listed;
    var item := ItemFor(ls[i], k, fullToHalf);
    ItemOccurs(ls, fullToHalf, i, k);
    assert Listed(scis, item) by {
      hide Occurs;
    }
    x := ListedAt(scis, item);
  }

  lemma ItemOccurs(ls: seq<LemmaEntry>, fullToHalf: uint16 -> uint16, i: nat, k: nat)
    requires i < |ls| && k < |ls[i].hanzis| == |ls[i].spls|
    ensures Occurs(ItemFor(ls[i], k, fullToHalf), ls, fullToHalf)
  {
  }

  lemma ListedAt(scis: seq<SingleCharItem>, item: SingleCharItem) returns (x: nat)
    requires Listed(scis, item)
    ensures 1 <= x < |scis| && SameChar(scis[x], item) && scis[x].halfSplid == item.halfSplid && scis[x].freq >= item.freq
  {
    x :| 1 <= x < |scis| && SameChar(scis[x], item) && scis[x].halfSplid == item.halfSplid && scis[x].freq >= item.freq;
  }

  lemma SameItem(scis: seq<SingleCharItem>, x: nat, y: nat)
    requires Ascending(scis) && x < |scis| && y < |scis| && CompareHzSplid(scis[x], scis[y]) == 0
    ensures x == y
  {
    assert x < y ==> Before(scis, x, y);
    assert y < x ==> Before(scis, y, x);
  }

  /** The whole list: copied, sorted, condensed. */
  method BuildScis(ls: seq<LemmaEntry>, fullToHalf: uint16 -> uint16) returns (scis: seq<SingleCharItem>)
    requires forall i | 0 <= i < |ls| :: Spelled(ls[i])
    ensures ListsCharsOf(scis, ls, fullToHalf)
    ensures CharsListed(scis, ls, fullToHalf)
  {
    hide ListsCharsOf, CharsListed;
    var all := CopyChars(ls, fullToHalf);
    CompareIsOrder();
    OccursSpelled(all, ls, fullToHalf);
    var s := MyQsort(all, CompareHzSplidFreq);
    BlankFirst(all, s);
    SameWellFormed(all, s, fullToHalf);
    scis := RemoveRepeated(s, fullToHalf);
    CondensedLists(all, s, scis, ls, fullToHalf);
    CharsAreListed(scis, ls, fullToHalf);
  }

  lemma OccursSpelled(all: seq<SingleCharItem>, ls: seq<LemmaEntry>, fullToHalf: uint16 -> uint16)
    requires forall i | 0 <= i < |ls| :: Spelled(ls[i])
    requires all != [] && all[0] == BLANK && forall k | 1 <= k < |all| :: Occurs(all[k], ls, fullToHalf)
    ensures WellFormed(all, fullToHalf) && forall k | 1 <= k < |all| :: all[k].hz != 0
  {
  }

  lemma SameWellFormed(all: seq<SingleCharItem>, s: seq<SingleCharItem>, fullToHalf: uint16 -> uint16)
    requires WellFormed(all, fullToHalf) && OnlyFrom(s, all)
    ensures WellFormed(s, fullToHalf)
  {
    forall k | 0 <= k < |s| ensures s[k] == BLANK || (s[k].hz != 0 && s[k].halfSplid == fullToHalf(s[k].fullSplid)) {
      var j := IndexIn(all, s[k]);
    }
  }

  lemma CondensedLists(all: seq<SingleCharItem>, s: seq<SingleCharItem>, u: seq<SingleCharItem>, ls: seq<LemmaEntry>, fullToHalf: uint16 -> uint16)
    requires all != [] && all[0] == BLANK && (forall k | 1 <= k < |all| :: Occurs(all[k], ls, fullToHalf) && all[k].hz != 0)
    requires forall x | Occurs(x, ls, fullToHalf) :: x in all[1..]
    requires s != [] && s[0] == BLANK && OnlyFrom(s, all) && OnlyFrom(all, s) && Condensed(s, |s|, u)
    ensures ListsCharsOf(u, ls, fullToHalf)
  {
    hide Occurs, AllKept;
    forall k | 1 <= k < |u| ensures Occurs(u[k], ls, fullToHalf) {
      assert Before(u, 0, k);
      var i := IndexIn(s, u[k]);
      var j := IndexIn(all, s[i]);
      assert all[j] != BLANK;
    }
    forall x | Occurs(x, ls, fullToHalf) ensures Listed(u, x) {
      var j := IndexIn(all[1..], x);
      assert all[j + 1] == x;
      CharListed(all, s, u, x, j + 1);
    }
  }

  lemma IndexIn(s: seq<SingleCharItem>, x: SingleCharItem) returns (i: nat)
    requires x in s
    ensures i < |s| && s[i] == x
  {
    i :| 0 <= i < |s| && s[i] == x;
  }

  lemma CharListed(all: seq<SingleCharItem>, s: seq<SingleCharItem>, u: seq<SingleCharItem>, x: SingleCharItem, j: nat)
    requires j < |all| && all[j] == x && x.hz != 0
    requires s != [] && s[0] == BLANK && OnlyFrom(all, s) && Condensed(s, |s|, u)
    ensures Listed(u, x)
  {
    hide Condensed;
    assert all[j] in s;
    var i := IndexIn(s, x);
    var k := CoveredAt(s, u, i);
    assert 1 <= k && SameChar(u[k], x) && u[k].halfSplid == x.halfSplid && u[k].freq >= x.freq;
  }

  lemma CoveredAt(s: seq<SingleCharItem>, u: seq<SingleCharItem>, i: nat) returns (k: nat)
    requires Condensed(s, |s|, u) && i < |s|
    ensures k < |u| && Covers(u[k], s[i]) && u[0] == s[0]
  {
    hide CompareHzSplid, Ascending, OnlyFrom;
    assert Kept(s[i], u);
    k :| 0 <= k < |u| && Covers(u[k], s[i]);
  }

  lemma AscendingPartitioned(scis: seq<SingleCharItem>, key: SingleCharItem)
    requires Ascending(scis)
    ensures Partitioned(scis, (x: SingleCharItem) => CompareHzSplid(x, key))
  {
    forall i, j | 0 <= i < j < |scis| ensures CompareHzSplid(scis[j], key) < 0 ==> CompareHzSplid(scis[i], key) < 0 {
      assert Before(scis, i, j);
    }
    forall i, j | 0 <= i < j < |scis| ensures CompareHzSplid(scis[i], key) > 0 ==> CompareHzSplid(scis[j], key) > 0 {
      assert Before(scis, i, j);
    }
  }

  /** The position of a listed character, cast to 16 bits. */
  method FindScisId(scis: seq<SingleCharItem>, key: SingleCharItem) returns (id: uint16)
    requires Ascending(scis) && Listed(scis, key) && |scis| <= 0x1_0000
    ensures id < |scis| && SameChar(scis[id], key)
  {
    AscendingPartitioned(scis, key);
    var side := (x: SingleCharItem) => CompareHzSplid(x, key);
    var found, at := MyBsearch(scis, side);
    assert found by {
      ghost var k :| 1 <= k < |scis| && SameChar(scis[k], key) && scis[k].halfSplid == key.halfSplid;
      assert side(scis[k]) == 0;
    }
    id := LowHalf(at);
  }

  /** The last part of `build_scis`: every character of every lemma finds its item. */
  method ScisIds(scis: seq<SingleCharItem>, ls: seq<LemmaEntry>, pos: nat, fullToHalf: uint16 -> uint16) returns (ids: seq<uint16>)
    requires ListsCharsOf(scis, ls, fullToHalf) && |scis| <= 0x1_0000 && pos < |ls| && Spelled(ls[pos])
    ensures |ids| == |ls[pos].hanzis|
    ensures forall h | 0 <= h < |ids| :: ids[h] < |scis| && SameChar(scis[ids[h]], ItemFor(ls[pos], h, fullToHalf))
  {
    ids := [];
    for hzpos := 0 to |ls[pos].hanzis|
      invariant |ids| == hzpos
      invariant forall h | 0 <= h < hzpos :: ids[h] < |scis| && SameChar(scis[ids[h]], ItemFor(ls[pos], h, fullToHalf))
    {
      var key := ItemFor(ls[pos], hzpos, fullToHalf);
      assert Listed(scis, key) by {
        assert Occurs(key, ls, fullToHalf);
      }
      var id := FindScisId(scis, key);
      ids := ids + [id];
    }
  }
}
