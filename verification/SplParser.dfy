/**
 * Cutting a string of letters into spellings: a walk in the trie of spellings that goes on as long as it can. Which
 * pieces it cuts off, and that pieces around a splitter are cut independently.
 */
module SplParsers {
  import opened Wrappers

  /** A node of the trie: the letter that leads to it, its spelling id or 0, and its sons. */
  datatype Node = Node(ch: char, idx: nat, sons: seq<Node>)

  /** `valid` is `if_valid_id_update`: the id to be used for an id, or 0 if it is not valid. */
  datatype Trie = Trie(root: Node, level1: seq<Option<Node>>, valid: nat -> nat)

  predicate Letter(c: char) { 'a' <= c <= 'z' || 'A' <= c <= 'Z' }

  predicate SameLetter(c: char, d: char) {
    c == d || c as int - d as int == 32 || d as int - c as int == 32
  }

  function Index(c: char): nat
    requires Letter(c)
  {
    if c >= 'a' then c as nat - 'a' as nat else c as nat - 'A' as nat
  }

  function SonFrom(sons: seq<Node>, c: char): Option<Node> {
    if sons == [] then None else if SameLetter(sons[0].ch, c) then Some(sons[0]) else SonFrom(sons[1..], c)
  }

  function Son(n: Node, c: char): Option<Node> { SonFrom(n.sons, c) }

  /** The quick table of the first level agrees with the sons of the root, and the root is not a spelling. */
  ghost predicate Sane(t: Trie) {
    && |t.level1| == 26
    && (forall c: char :: Letter(c) ==> t.level1[Index(c)] == Son(t.root, c))
    && t.valid(t.root.idx) == 0
  }

  predicate Endable(t: Trie, n: Node) { t.valid(n.idx) != 0 }

  // ----- the parser as a function -----

  /** The ids, where each of them starts, where the rest starts, and `last_is_pre`. */
  datatype Parsed = Parsed(ids: seq<nat>, starts: seq<nat>, pre: bool) {
    function Behind(id: nat, start: nat): Parsed { Parsed([id] + ids, [start] + starts, pre) }
  }

  /** From a node that the letters from `start` to `pos` have led to, with room for so many ids. */
  ghost function Rest(t: Trie, s: string, n: Node, start: nat, pos: nat, afterSplitter: bool, room: nat): (r: Parsed)
    requires Sane(t) && pos <= |s| && room > 0
    ensures |r.starts| == |r.ids| + 1 && |r.ids| <= room
    decreases |s| - pos, if Endable(t, n) then 1 else 0
  {
    if pos == |s| then
      if Endable(t, n) then Parsed([t.valid(n.idx)], [start, pos], !afterSplitter) else Parsed([], [start], !afterSplitter)
    else if !Letter(s[pos]) then
      if Endable(t, n) then
        if room == 1 then Parsed([t.valid(n.idx)], [start, pos + 1], false)
        else Rest(t, s, t.root, pos + 1, pos + 1, true, room - 1).Behind(t.valid(n.idx), start)
      else if afterSplitter then Rest(t, s, n, pos + 1, pos + 1, true, room)
      else Parsed([], [start], false)
    else
      match Son(n, s[pos])
      case Some(son) => Rest(t, s, son, start, pos + 1, false, room)
      case None =>
        if !Endable(t, n) then Parsed([], [start], false)
        else if room == 1 then Parsed([t.valid(n.idx)], [start, pos], false)
        else Rest(t, s, t.root, pos, pos, false, room - 1).Behind(t.valid(n.idx), start)
  }

  /** What the parser makes of a string; nothing if it does not begin with a letter. */
  ghost function Parse(t: Trie, s: string, maxSize: nat): Parsed
    requires Sane(t)
  {
    if maxSize == 0 || s == "" || !Letter(s[0]) then Parsed([], [0], false)
    else Rest(t, s, t.root, 0, 0, false, maxSize)
  }

  // ----- the pieces -----

  /** The node that the letters of `s` from `a` to `e` lead to. */
  ghost function Descend(n: Node, s: string, a: nat, e: nat): Option<Node>
    requires a <= e <= |s|
    decreases e - a
  {
    if a == e then Some(n)
    else if !Letter(s[a]) || Son(n, s[a]).None? then None
    else Descend(Son(n, s[a]).value, s, a + 1, e)
  }

  lemma {:induction false} DescendOn(n: Node, s: string, a: nat, e: nat)
    requires a <= e < |s| && Descend(n, s, a, e).Some? && Letter(s[e])
    ensures Descend(n, s, a, e + 1) == Son(Descend(n, s, a, e).value, s[e])
    decreases e - a
  {
    if a < e {
      DescendOn(Son(n, s[a]).value, s, a + 1, e);
    }
  }

  /**
   * A piece is a whole way down the trie that cannot go on with the next letter, and its id; splitters behind it belong
   * to it.
   */
  ghost predicate Piece(t: Trie, s: string, a: nat, e: nat, b: nat, id: nat) {
    && a < e <= b <= |s| && Descend(t.root, s, a, e).Some?
    && (var n := Descend(t.root, s, a, e).value;
        && Endable(t, n) && id == t.valid(n.idx)
        && (e < |s| && Letter(s[e]) ==> b == e && Son(n, s[e]).None?)
        && forall i: nat | e <= i < b :: !Letter(s[i]))
  }

  ghost predicate IsPiece(t: Trie, s: string, a: nat, b: nat, id: nat) {
    exists e: nat :: Piece(t, s, a, e, b, id)
  }

  /** A position behind a splitter is at the root; elsewhere the node is the one that the letters lead to. */
  ghost predicate InWalk(t: Trie, s: string, n: Node, start: nat, pos: nat, afterSplitter: bool) {
    start <= pos <= |s| && Descend(t.root, s, start, pos) == Some(n) && (afterSplitter ==> start == pos)
  }

  lemma {:induction false} FirstStart(t: Trie, s: string, n: Node, start: nat, pos: nat, afterSplitter: bool, room: nat)
    requires Sane(t) && InWalk(t, s, n, start, pos, afterSplitter) && room > 0
    ensures var first := Rest(t, s, n, start, pos, afterSplitter, room).starts[0];
      if afterSplitter then start <= first <= |s| && (forall i: nat | start <= i < first :: !Letter(s[i])) else first == start
    decreases |s| - pos, if Endable(t, n) then 1 else 0
  {
    if pos == |s| {
    } else if !Letter(s[pos]) {
      if !Endable(t, n) && afterSplitter {
        FirstStart(t, s, n, pos + 1, pos + 1, true, room);
      }
    } else if Son(n, s[pos]).Some? {
      DescendOn(t.root, s, start, pos);
      FirstStart(t, s, Son(n, s[pos]).value, start, pos + 1, false, room);
    }
  }

  /** Everything that the parser cuts off is a piece, up to where the next one starts. */
  lemma {:induction false} PiecesFrom(t: Trie, s: string, n: Node, start: nat, pos: nat, afterSplitter: bool, room: nat, k: nat)
    requires Sane(t) && InWalk(t, s, n, start, pos, afterSplitter) && room > 0
    requires k < |Rest(t, s, n, start, pos, afterSplitter, room).ids|
    ensures var r := Rest(t, s, n, start, pos, afterSplitter, room); IsPiece(t, s, r.starts[k], r.starts[k + 1], r.ids[k])
    decreases |s| - pos, if Endable(t, n) then 1 else 0
  {
    hide IsPiece;
    if pos == |s| {
      PieceHere(t, s, n, start, pos, pos);
    } else if !Letter(s[pos]) {
      if Endable(t, n) {
        if room == 1 {
          PieceHere(t, s, n, start, pos, pos + 1);
        } else if k == 0 {
          FirstStart(t, s, t.root, pos + 1, pos + 1, true, room - 1);
          PieceHere(t, s, n, start, pos, Rest(t, s, t.root, pos + 1, pos + 1, true, room - 1).starts[0]);
        } else {
          PiecesFrom(t, s, t.root, pos + 1, pos + 1, true, room - 1, k - 1);
        }
      } else {
        PiecesFrom(t, s, n, pos + 1, pos + 1, true, room, k);
      }
    } else if Son(n, s[pos]).Some? {
      DescendOn(t.root, s, start, pos);
      PiecesFrom(t, s, Son(n, s[pos]).value, start, pos + 1, false, room, k);
    } else if room == 1 {
      PieceHere(t, s, n, start, pos, pos);
    } else if k == 0 {
      FirstStart(t, s, t.root, pos, pos, false, room - 1);
      PieceHere(t, s, n, start, pos, pos);
    } else {
      PiecesFrom(t, s, t.root, pos, pos, false, room - 1, k - 1);
    }
  }

  lemma PieceHere(t: Trie, s: string, n: Node, start: nat, e: nat, b: nat)
    requires Sane(t) && InWalk(t, s, n, start, e, false) && Endable(t, n) && e <= b <= |s|
    requires e < |s| && Letter(s[e]) ==> b == e && Son(n, s[e]).None?
    requires forall i: nat | e <= i < b :: !Letter(s[i])
    ensures IsPiece(t, s, start, b, t.valid(n.idx))
  {
    assert Piece(t, s, start, e, b, t.valid(n.idx));
  }

  /** The pieces of a string, one behind the other. */
  lemma Pieces(t: Trie, s: string, maxSize: nat, k: nat)
    requires Sane(t) && k < |Parse(t, s, maxSize).ids|
    ensures var r := Parse(t, s, maxSize); |r.starts| == |r.ids| + 1 && r.starts[0] == 0 && IsPiece(t, s, r.starts[k], r.starts[k + 1], r.ids[k])
  {
    FirstStart(t, s, t.root, 0, 0, false, maxSize);
    PiecesFrom(t, s, t.root, 0, 0, false, maxSize, k);
  }

  // ----- strings put together -----

  /** A parser that reaches the end of the string has nothing left there that is not a spelling. */
  ghost predicate Complete(s: string, r: Parsed) { |r.starts| == |r.ids| + 1 && r.starts[|r.ids|] == |s| }

  ghost function Shift(r: Parsed, k: nat): Parsed { r.(starts := seq(|r.starts|, i requires 0 <= i < |r.starts| => r.starts[i] + k)) }

  ghost function Join(a: Parsed, b: Parsed): Parsed
    requires |a.ids| <= |a.starts|
  {
    Parsed(a.ids + b.ids, a.starts[..|a.ids|] + b.starts, b.pre)
  }

  lemma ShiftEnds(start: nat, end: nat, k: nat)
    ensures forall pre: bool :: Shift(Parsed([], [start], pre), k) == Parsed([], [k + start], pre)
    ensures forall id: nat, pre: bool :: Shift(Parsed([id], [start, end], pre), k) == Parsed([id], [k + start, k + end], pre)
  {
  }

  lemma ShiftBehind(r: Parsed, id: nat, start: nat, k: nat)
    ensures Shift(r.Behind(id, start), k) == Shift(r, k).Behind(id, start + k)
  {
  }

  lemma JoinBehind(a: Parsed, b: Parsed, id: nat, start: nat)
    requires |a.ids| <= |a.starts|
    ensures Join(a.Behind(id, start), b) == Join(a, b).Behind(id, start)
  {
  }

  lemma {:induction false} RestShifted(t: Trie, front: string, q: string, n: Node, start: nat, pos: nat, afterSplitter: bool, room: nat)
    requires Sane(t) && pos <= |q| && room > 0
    ensures Rest(t, front + q, n, |front| + start, |front| + pos, afterSplitter, room) == Shift(Rest(t, q, n, start, pos, afterSplitter, room), |front|)
    decreases |q| - pos, if Endable(t, n) then 1 else 0
  {
    hide Shift;
    var k := |front|;
    ShiftEnds(start, pos, k);
    ShiftEnds(start, pos + 1, k);
    if pos == |q| {
    } else {
      assert (front + q)[k + pos] == q[pos];
      if !Letter(q[pos]) {
        if Endable(t, n) {
          if room > 1 {
            RestShifted(t, front, q, t.root, pos + 1, pos + 1, true, room - 1);
            ShiftBehind(Rest(t, q, t.root, pos + 1, pos + 1, true, room - 1), t.valid(n.idx), start, k);
          }
        } else if afterSplitter {
          RestShifted(t, front, q, n, pos + 1, pos + 1, true, room);
        }
      } else if Son(n, q[pos]).Some? {
        RestShifted(t, front, q, Son(n, q[pos]).value, start, pos + 1, false, room);
      } else if Endable(t, n) && room > 1 {
        RestShifted(t, front, q, t.root, pos, pos, false, room - 1);
        ShiftBehind(Rest(t, q, t.root, pos, pos, false, room - 1), t.valid(n.idx), start, k);
      }
    }
  }

  lemma {:induction false} RestComposes(t: Trie, p: string, c: char, q: string, n: Node, start: nat, pos: nat, afterSplitter: bool, room: nat)
    requires Sane(t) && start <= pos <= |p| && room > 0 && !Letter(c) && q != "" && Letter(q[0])
    requires start == pos == |p| ==> afterSplitter
    requires afterSplitter ==> start == pos && n == t.root
    requires var r := Rest(t, p, n, start, pos, afterSplitter, room); Complete(p, r) && |r.ids| < room
    ensures var r := Rest(t, p, n, start, pos, afterSplitter, room);
      Rest(t, p + [c] + q, n, start, pos, afterSplitter, room) == Join(r, Shift(Rest(t, q, t.root, 0, 0, false, room - |r.ids|), |p| + 1))
    decreases |p| - pos, if Endable(t, n) then 1 else 0
  {
    hide Shift, Join, Son, SonFrom, Letter;
    var s := p + [c] + q;
    if pos == |p| {
      RestAtSplitter(t, p, c, q, n, start, afterSplitter, room);
    } else {
      assert s[pos] == p[pos];
      if !Letter(p[pos]) {
        if Endable(t, n) {
          var r := Rest(t, p, t.root, pos + 1, pos + 1, true, room - 1);
          RestComposes(t, p, c, q, t.root, pos + 1, pos + 1, true, room - 1);
          JoinBehind(r, Shift(Rest(t, q, t.root, 0, 0, false, room - 1 - |r.ids|), |p| + 1), t.valid(n.idx), start);
        } else {
          RestComposes(t, p, c, q, n, pos + 1, pos + 1, true, room);
        }
      } else if Son(n, p[pos]).Some? {
        RestComposes(t, p, c, q, Son(n, p[pos]).value, start, pos + 1, false, room);
      } else {
        var r := Rest(t, p, t.root, pos, pos, false, room - 1);
        RestComposes(t, p, c, q, t.root, pos, pos, false, room - 1);
        JoinBehind(r, Shift(Rest(t, q, t.root, 0, 0, false, room - 1 - |r.ids|), |p| + 1), t.valid(n.idx), start);
      }
    }
  }

  /** At the end of `p`, in front of the splitter. */
  lemma RestAtSplitter(t: Trie, p: string, c: char, q: string, n: Node, start: nat, afterSplitter: bool, room: nat)
    requires Sane(t) && start <= |p| && room > 0 && !Letter(c) && q != "" && Letter(q[0])
    requires start == |p| ==> afterSplitter
    requires afterSplitter ==> start == |p| && n == t.root
    requires var r := Rest(t, p, n, start, |p|, afterSplitter, room); Complete(p, r) && |r.ids| < room
    ensures var r := Rest(t, p, n, start, |p|, afterSplitter, room);
      Rest(t, p + [c] + q, n, start, |p|, afterSplitter, room) == Join(r, Shift(Rest(t, q, t.root, 0, 0, false, room - |r.ids|), |p| + 1))
  {
    hide Shift;
    var s, k := p + [c] + q, |p| + 1;
    assert s[|p|] == c && s[k] == q[0];
    var m := if Endable(t, n) then room - 1 else room;
    RestShifted(t, p + [c], q, t.root, 0, 0, false, m);
    assert Rest(t, s, t.root, k, k, true, m) == Rest(t, s, t.root, k, k, false, m);
  }

  /**
   * If all of `p` can be parsed with room to spare, then `p`, a splitter, and `q` are parsed into the pieces of `p` and
   * those of `q`.
   */
  lemma ParseComposes(t: Trie, p: string, c: char, q: string, maxSize: nat)
    requires Sane(t) && p != "" && Letter(p[0]) && !Letter(c) && q != "" && Letter(q[0])
    requires Complete(p, Parse(t, p, maxSize)) && |Parse(t, p, maxSize).ids| < maxSize
    ensures Parse(t, p + [c] + q, maxSize)
      == Join(Parse(t, p, maxSize), Shift(Parse(t, q, maxSize - |Parse(t, p, maxSize).ids|), |p| + 1))
  {
    RestComposes(t, p, c, q, t.root, 0, 0, false, maxSize);
    assert (p + [c] + q)[0] == p[0];
  }

  // ----- single spellings -----

  lemma {:induction false} RestFollows(t: Trie, s: string, n: Node, pos: nat, e: nat, room: nat)
    requires Sane(t) && room > 0 && pos <= e <= |s| && Descend(n, s, pos, e).Some?
    ensures Rest(t, s, n, 0, pos, false, room) == Rest(t, s, Descend(n, s, pos, e).value, 0, e, false, room)
    decreases e - pos
  {
    if pos < e {
      RestFollows(t, s, Son(n, s[pos]).value, pos + 1, e, room);
    }
  }

  lemma {:induction false} OnlySplitters(t: Trie, s: string, pos: nat, room: nat)
    requires Sane(t) && room > 0 && pos <= |s| && forall i: nat | pos <= i < |s| :: !Letter(s[i])
    ensures Rest(t, s, t.root, pos, pos, true, room) == Parsed([], [|s|], false)
    decreases |s| - pos
  {
    if pos < |s| {
      OnlySplitters(t, s, pos + 1, room);
    }
  }

  /** A string is parsed into one id and nothing is left, if and only if it is a piece with that id. */
  lemma OnePieceIff(t: Trie, s: string, id: nat)
    requires Sane(t)
    ensures IsPiece(t, s, 0, |s|, id) <==> Parse(t, s, 2).ids == [id] && Parse(t, s, 2).starts == [0, |s|]
  {
    if IsPiece(t, s, 0, |s|, id) {
      var e: nat :| Piece(t, s, 0, e, |s|, id);
      RestFollows(t, s, t.root, 0, e, 2);
      if e < |s| {
        OnlySplitters(t, s, e + 1, 1);
      }
    }
    if Parse(t, s, 2).ids == [id] && Parse(t, s, 2).starts == [0, |s|] {
      Pieces(t, s, 2, 0);
    }
  }

  // ----- the parser as a loop -----

  /** The first `num` ids and starts are there, and the rest is still to come. */
  ghost predicate SoFar(ids: seq<nat>, starts: seq<nat>, num: nat, whole: Parsed, rest: Parsed) {
    && num <= |ids| && num < |starts| && rest.starts != []
    && whole == Parsed(ids[..num] + rest.ids, starts[..num] + rest.starts, rest.pre)
  }

  /** What the arrays hold is what the parser makes of the string. */
  ghost predicate Holds(ids: seq<nat>, starts: seq<nat>, num: nat, whole: Parsed) {
    num <= |ids| && num < |starts| && ids[..num] == whole.ids && starts[..num + 1] == whole.starts
  }

  lemma AllSoFar(ids: seq<nat>, starts: seq<nat>, num: nat, whole: Parsed, start: nat, pre: bool)
    requires SoFar(ids, starts, num, whole, Parsed([], [start], pre)) && starts[num] == start
    ensures Holds(ids, starts, num, whole) && whole.pre == pre
  {
  }

  lemma OneMore(ids: seq<nat>, starts: seq<nat>, num: nat, whole: Parsed, rest: Parsed, id: nat, start: nat, ids': seq<nat>, starts': seq<nat>)
    requires SoFar(ids, starts, num, whole, rest.Behind(id, start)) && starts[num] == start && rest.starts != []
    requires num < |ids| && num + 1 < |starts| && ids' == ids[num := id] && |starts'| == |starts| && starts'[..num + 1] == starts[..num + 1]
    ensures SoFar(ids', starts', num + 1, whole, rest)
  {
    assert ids'[..num + 1] == ids[..num] + [id];
    assert starts'[..num + 1] == starts[..num] + [start];
  }

  lemma StartMoves(ids: seq<nat>, starts: seq<nat>, num: nat, whole: Parsed, rest: Parsed, start: nat)
    requires SoFar(ids, starts, num, whole, rest)
    ensures SoFar(ids, starts[num := start], num, whole, rest)
  {
    assert starts[num := start][..num] == starts[..num];
  }

  lemma NothingYet(ids: seq<nat>, starts: seq<nat>, whole: Parsed)
    requires starts != [] && whole.starts != []
    ensures SoFar(ids, starts, 0, whole, whole)
  {
  }

  /** `splstr_to_idxs` */
  method SplstrToIdxs(t: Trie, s: string, splIdx: array<nat>, startPos: array<nat>, maxSize: nat) returns (num: nat, lastIsPre: bool)
    requires Sane(t) && splIdx.Length >= maxSize && startPos.Length > maxSize && splIdx != startPos
    modifies splIdx, startPos
    ensures maxSize == 0 || s == "" || !Letter(s[0]) ==> num == 0
    ensures maxSize > 0 && s != "" && Letter(s[0]) ==> Holds(splIdx[..], startPos[..], num, Parse(t, s, maxSize)) && lastIsPre == Parse(t, s, maxSize).pre
  {
    hide SoFar, Holds, Sane;
    num, lastIsPre := 0, false;
    if maxSize == 0 || s == "" || !Letter(s[0]) {
      return;
    }
    var node, pos, afterSplitter := t.root, 0, false;
    ghost var start, whole := 0, Parse(t, s, maxSize);
    ghost var rest := whole;
    startPos[0] := 0;
    NothingYet(splIdx[..], startPos[..], whole);
    while pos < |s|
      invariant pos <= |s| && num < maxSize && startPos[num] == start && !lastIsPre
      invariant pos == 0 ==> node == t.root
      invariant rest == Rest(t, s, node, start, pos, afterSplitter, maxSize - num)
      invariant SoFar(splIdx[..], startPos[..], num, whole, rest)
      decreases |s| - pos, if Endable(t, node) then 1 else 0
    {
      var c := s[pos];
      if !Letter(c) {
        if Endable(t, node) {
          rest := if num + 1 == maxSize then Parsed([], [pos + 1], false) else Rest(t, s, t.root, pos + 1, pos + 1, true, maxSize - num - 1);
          LastBehind(t.valid(node.idx), start, pos + 1, false);
          num := Append(t.valid(node.idx), num, pos + 1, splIdx, startPos, start, whole, rest);
          pos := pos + 1;
          start := pos;
          if num >= maxSize {
            AllSoFar(splIdx[..], startPos[..], num, whole, start, false);
            return;
          }
          node := t.root;
          afterSplitter := true;
          continue;
        } else if afterSplitter {
          pos := pos + 1;
          start := pos;
          StartMoves(splIdx[..], startPos[..], num, whole, rest, pos);
          startPos[num] := pos;
          continue;
        } else {
          AllSoFar(splIdx[..], startPos[..], num, whole, start, false);
          return;
        }
      }
      afterSplitter := false;
      if pos == 0 {
        TableAgrees(t, c);
      }
      var found := if pos == 0 then t.level1[Index(c)] else Son(node, c);
      if found.Some? {
        node := found.value;
      } else if Endable(t, node) {
        rest := if num + 1 == maxSize then Parsed([], [pos], false) else Rest(t, s, t.root, pos, pos, false, maxSize - num - 1);
        LastBehind(t.valid(node.idx), start, pos, false);
        num := Append(t.valid(node.idx), num, pos, splIdx, startPos, start, whole, rest);
        start := pos;
        if num >= maxSize {
          AllSoFar(splIdx[..], startPos[..], num, whole, start, false);
          return;
        }
        node := t.root;
        RootNotEndable(t);
        continue;
      } else {
        AllSoFar(splIdx[..], startPos[..], num, whole, start, false);
        return;
      }
      pos := pos + 1;
    }
    if Endable(t, node) {
      rest := Parsed([], [pos], !afterSplitter);
      LastBehind(t.valid(node.idx), start, pos, !afterSplitter);
      num := Append(t.valid(node.idx), num, pos, splIdx, startPos, start, whole, rest);
      start := pos;
    }
    AllSoFar(splIdx[..], startPos[..], num, whole, start, !afterSplitter);
    lastIsPre := !afterSplitter;
  }

  lemma LastBehind(id: nat, start: nat, next: nat, pre: bool)
    ensures Parsed([], [next], pre).Behind(id, start) == Parsed([id], [start, next], pre)
  {
  }

  lemma TableAgrees(t: Trie, c: char)
    requires Sane(t) && Letter(c)
    ensures Index(c) < |t.level1| && t.level1[Index(c)] == Son(t.root, c)
  {
  }

  lemma RootNotEndable(t: Trie)
    requires Sane(t)
    ensures !Endable(t, t.root)
  {
  }

  /** Records an id and where the next piece starts. */
  method Append(id: nat, num: nat, next: nat, splIdx: array<nat>, startPos: array<nat>, ghost start: nat, ghost whole: Parsed, ghost rest: Parsed)
    returns (num': nat)
    requires num < splIdx.Length && num + 1 < startPos.Length && splIdx != startPos && startPos[num] == start && rest.starts != []
    requires SoFar(splIdx[..], startPos[..], num, whole, rest.Behind(id, start))
    modifies splIdx, startPos
    ensures num' == num + 1 && startPos[num'] == next && SoFar(splIdx[..], startPos[..], num', whole, rest)
  {
    hide SoFar;
    ghost var ids, starts := splIdx[..], startPos[..];
    splIdx[num] := id;
    num' := num + 1;
    startPos[num'] := next;
    OneMore(ids, starts, num, whole, rest, id, start, splIdx[..], startPos[..]);
  }

  /** `get_splid_by_str`: the id of a string that is one piece, else 0. */
  method GetSplidByStr(t: Trie, s: string) returns (id: nat, isPre: bool)
    requires Sane(t)
    ensures id != 0 ==> IsPiece(t, s, 0, |s|, id)
    ensures forall i: nat :: IsPiece(t, s, 0, |s|, i) ==> id == i
  {
    var splIdx, startPos := new nat[2], new nat[3];
    var num;
    num, isPre := SplstrToIdxs(t, s, splIdx, startPos, 2);
    id := 0;
    if num == 1 && startPos[1] == |s| {
      id := splIdx[0];
    }
    SplidMeans(t, s, splIdx[..], startPos[..], num, id);
  }

  lemma SplidMeans(t: Trie, s: string, ids: seq<nat>, starts: seq<nat>, num: nat, id: nat)
    requires Sane(t) && |ids| == 2 && |starts| == 3
    requires if s == "" || !Letter(s[0]) then num == 0 else Holds(ids, starts, num, Parse(t, s, 2))
    requires id == if num == 1 && starts[1] == |s| then ids[0] else 0
    ensures id != 0 ==> IsPiece(t, s, 0, |s|, id)
    ensures forall i: nat :: IsPiece(t, s, 0, |s|, i) ==> id == i
  {
    hide IsPiece, Sane, Rest;
    var r := Parse(t, s, 2);
    if num == 1 && starts[1] == |s| {
      Pieces(t, s, 2, 0);
      assert r.ids == [ids[0]] && r.starts == [0, |s|];
      OnePieceIff(t, s, ids[0]);
    }
    forall i: nat | IsPiece(t, s, 0, |s|, i) ensures id == i {
      OnePieceIff(t, s, i);
      PieceHasLetter(t, s, i);
    }
  }

  lemma PieceHasLetter(t: Trie, s: string, id: nat)
    requires IsPiece(t, s, 0, |s|, id)
    ensures s != "" && Letter(s[0]) && id != 0
  {
  }
}
