/** What the spelling parser makes of a string, told from the letters and the trie alone: which letters are one, and why it stops. */
module SplMeaning {
  import opened SplParsers
  import opened Wrappers

  // ----- letters -----

  function Upper(c: char): int {
    if 'a' <= c <= 'z' then c as int - 32 else c as int
  }

  /** The letters are those of the alphabet, small or capital; letters are the same if their capitals are, which count the table's places. */
  lemma LettersAre(c: char, d: char)
    ensures Letter(c) <==> 'A' as int <= Upper(c) <= 'Z' as int
    ensures Letter(c) && Letter(d) ==> (SameLetter(c, d) <==> Upper(c) == Upper(d))
    ensures Letter(c) ==> Index(c) == Upper(c) - 'A' as int
  {
  }

  /** The son for a letter is the first one with this letter. */
  lemma {:induction false} SonIsFirst(sons: seq<Node>, c: char) returns (i: nat)
    ensures i <= |sons| && forall j | 0 <= j < i :: !SameLetter(sons[j].ch, c)
    ensures i < |sons| ==> SameLetter(sons[i].ch, c) && SonFrom(sons, c) == Some(sons[i])
    ensures i == |sons| ==> SonFrom(sons, c) == None
  {
    if sons == [] || SameLetter(sons[0].ch, c) {
      i := 0;
    } else {
      var k := SonIsFirst(sons[1..], c);
      i := k + 1;
      forall j | 0 <= j < i ensures !SameLetter(sons[j].ch, c) {
        assert j > 0 ==> sons[j] == sons[1..][j - 1];
      }
    }
  }

  // ----- small and capital letters -----

  ghost predicate LettersOnly(n: Node) {
    forall k | 0 <= k < |n.sons| :: Letter(n.sons[k].ch) && LettersOnly(n.sons[k])
  }

  lemma {:induction false} SonsAgree(sons: seq<Node>, c: char, d: char)
    requires Letter(c) && Letter(d) && Upper(c) == Upper(d) && forall k | 0 <= k < |sons| :: Letter(sons[k].ch)
    ensures SonFrom(sons, c) == SonFrom(sons, d)
  {
    if sons != [] {
      LettersAre(sons[0].ch, c);
      LettersAre(sons[0].ch, d);
      SonsAgree(sons[1..], c, d);
    }
  }

  lemma {:induction false} SonIsLettersOnly(sons: seq<Node>, c: char)
    requires forall k | 0 <= k < |sons| :: LettersOnly(sons[k])
    ensures SonFrom(sons, c).Some? ==> LettersOnly(SonFrom(sons, c).value)
  {
    if sons != [] {
      SonIsLettersOnly(sons[1..], c);
    }
  }

  /** Both strings have splitters at the same places, and elsewhere the same letters, small or capital. */
  ghost predicate SameButCase(s: string, s': string) {
    |s'| == |s| && forall i | 0 <= i < |s| :: (Letter(s[i]) <==> Letter(s'[i])) && (Letter(s[i]) ==> Upper(s[i]) == Upper(s'[i]))
  }

  lemma {:induction false} RestIgnoresCase(t: Trie, s: string, s': string, n: Node, start: nat, pos: nat, afterSplitter: bool, room: nat)
    requires Sane(t) && LettersOnly(t.root) && LettersOnly(n) && SameButCase(s, s') && pos <= |s| && room > 0
    ensures Rest(t, s', n, start, pos, afterSplitter, room) == Rest(t, s, n, start, pos, afterSplitter, room)
    decreases |s| - pos, if Endable(t, n) then 1 else 0
  {
    hide Sane, SonFrom;
    if pos < |s| {
      RootStays(t);
      if !Letter(s[pos]) {
        if Endable(t, n) {
          if room > 1 {
            RestIgnoresCase(t, s, s', t.root, pos + 1, pos + 1, true, room - 1);
          }
        } else if afterSplitter {
          RestIgnoresCase(t, s, s', n, pos + 1, pos + 1, true, room);
        }
      } else {
        SonsAgree(n.sons, s[pos], s'[pos]);
        SonIsLettersOnly(n.sons, s[pos]);
        if Son(n, s[pos]).Some? {
          RestIgnoresCase(t, s, s', Son(n, s[pos]).value, start, pos + 1, false, room);
        } else if Endable(t, n) && room > 1 {
          RestIgnoresCase(t, s, s', t.root, pos, pos, false, room - 1);
        }
      }
    }
  }

  lemma RootStays(t: Trie)
    requires Sane(t)
    ensures !Endable(t, t.root)
  {
  }

  /** A string is parsed in the same way whichever of its letters are small and which are capital. */
  lemma ParseIgnoresCase(t: Trie, s: string, s': string, maxSize: nat)
    requires Sane(t) && LettersOnly(t.root) && SameButCase(s, s')
    ensures Parse(t, s', maxSize) == Parse(t, s, maxSize)
  {
    if maxSize > 0 && s != "" && Letter(s[0]) {
      RestIgnoresCase(t, s, s', t.root, 0, 0, false, maxSize);
    }
  }

  // ----- where the parser stops -----

  /** From `q` on the letters lead down the trie to a node that is no spelling, and there the way ends. */
  ghost predicate Stuck(t: Trie, s: string, q: nat) {
    exists e: nat :: StuckAt(t, s, q, e)
  }

  ghost predicate StuckAt(t: Trie, s: string, q: nat, e: nat) {
    && q <= e <= |s| && Descend(t.root, s, q, e).Some?
    && var n := Descend(t.root, s, q, e).value;
       t.valid(n.idx) == 0 && (e < |s| && Letter(s[e]) ==> Son(n, s[e]).None?)
  }

  /** The letters from `q` to the end of the string lead down the trie. */
  ghost predicate LeadsOn(t: Trie, s: string, q: nat) {
    q < |s| && Descend(t.root, s, q, |s|).Some?
  }

  /**
   * The parser stops because there is no more room, or at the end of the string, or stuck. `last_is_pre` says that it has
   * come to the end of the string with a letter, in a spelling or on the way to one.
   */
  ghost predicate StopsRightly(t: Trie, s: string, r: Parsed, room: nat)
    requires |r.starts| == |r.ids| + 1
  {
    var q := r.starts[|r.ids|];
    && q <= |s| && |r.ids| <= room
    && (|r.ids| < room && q < |s| ==> Stuck(t, s, q))
    && (r.pre <==> s != "" && Letter(s[|s| - 1]) && (q == |s| || (|r.ids| < room && LeadsOn(t, s, q))))
  }

  /** How the walk has come to where it is: behind a splitter, or in front of a letter, or behind a letter that it has followed. */
  ghost predicate OnTheWay(t: Trie, s: string, n: Node, start: nat, pos: nat, afterSplitter: bool) {
    && InWalk(t, s, n, start, pos, afterSplitter)
    && (start == pos && !afterSplitter ==> pos < |s| && Letter(s[pos]))
    && (afterSplitter ==> pos > 0 && !Letter(s[pos - 1]))
    && (start < pos ==> Letter(s[pos - 1]))
  }

  lemma {:induction false} RestStops(t: Trie, s: string, n: Node, start: nat, pos: nat, afterSplitter: bool, room: nat)
    requires Sane(t) && OnTheWay(t, s, n, start, pos, afterSplitter) && room > 0
    ensures StopsRightly(t, s, Rest(t, s, n, start, pos, afterSplitter, room), room)
    decreases |s| - pos, if Endable(t, n) then 1 else 0
  {
    hide Sane, Son;
    RootStays(t);
    if pos == |s| {
      EndOfString(t, s, n, start, afterSplitter, room);
    } else if !Letter(s[pos]) {
      if Endable(t, n) {
        if room > 1 {
          RestStops(t, s, t.root, pos + 1, pos + 1, true, room - 1);
        }
      } else if afterSplitter {
        RestStops(t, s, n, pos + 1, pos + 1, true, room);
      } else {
        StuckHere(t, s, n, start, pos);
      }
    } else if Son(n, s[pos]).Some? {
      DescendOn(t.root, s, start, pos);
      RestStops(t, s, Son(n, s[pos]).value, start, pos + 1, false, room);
    } else if !Endable(t, n) {
      StuckHere(t, s, n, start, pos);
    } else if room > 1 {
      RestStops(t, s, t.root, pos, pos, false, room - 1);
    }
  }

  lemma EndOfString(t: Trie, s: string, n: Node, start: nat, afterSplitter: bool, room: nat)
    requires Sane(t) && OnTheWay(t, s, n, start, |s|, afterSplitter) && room > 0
    ensures StopsRightly(t, s, Rest(t, s, n, start, |s|, afterSplitter, room), room)
  {
    if !Endable(t, n) {
      assert StuckAt(t, s, start, |s|);
    }
  }

  /** The way from `start` ends at `pos` in front of the end of the string, so it does not lead on to that. */
  lemma StuckHere(t: Trie, s: string, n: Node, start: nat, pos: nat)
    requires start <= pos < |s| && Descend(t.root, s, start, pos) == Some(n) && !Endable(t, n)
    requires Letter(s[pos]) ==> Son(n, s[pos]).None?
    ensures Stuck(t, s, start) && !LeadsOn(t, s, start)
  {
    assert StuckAt(t, s, start, pos);
    NoWayBeyond(t.root, s, start, pos, |s|);
  }

  lemma {:induction false} NoWayBeyond(n: Node, s: string, a: nat, e: nat, b: nat)
    requires a <= e < b <= |s| && Descend(n, s, a, e).Some?
    requires Letter(s[e]) ==> Son(Descend(n, s, a, e).value, s[e]).None?
    ensures Descend(n, s, a, b).None?
    decreases e - a
  {
    if a < e {
      NoWayBeyond(Son(n, s[a]).value, s, a + 1, e, b);
    }
  }

  /** Why the parser stops, and what `last_is_pre` says. */
  lemma ParserStops(t: Trie, s: string, maxSize: nat)
    requires Sane(t) && maxSize > 0 && s != "" && Letter(s[0])
    ensures var r := Parse(t, s, maxSize); |r.starts| == |r.ids| + 1 && StopsRightly(t, s, r, maxSize)
  {
    RestStops(t, s, t.root, 0, 0, false, maxSize);
  }
}
