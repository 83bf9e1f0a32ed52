/**
 * Reading a file line by line through a buffer that is filled in pieces: where the pieces end makes no difference.
 */
module Utf16Readers {

  const LF: nat := 10
  const CR: nat := 13

  // ----- lines -----

  /** How many characters there are in front of the first line feed, or at all. */
  function LineLength(text: seq<nat>): (n: nat)
    ensures n <= |text| && (n < |text| ==> text[n] == LF) && forall i | 0 <= i < n :: text[i] != LF
  {
    if text == [] || text[0] == LF then 0 else 1 + LineLength(text[1..])
  }

  /** What is in front of position `n`; a carriage return there does not belong to it, unless the text ends at `n`. */
  function Cut(text: seq<nat>, n: nat): seq<nat>
    requires n <= |text|
  {
    if n < |text| && n > 0 && text[n - 1] == CR then text[..n - 1] else text[..n]
  }

  /** The first line. */
  function FirstLine(text: seq<nat>): seq<nat> { Cut(text, LineLength(text)) }

  function BehindLine(text: seq<nat>): (rest: seq<nat>)
    ensures text != [] ==> |rest| < |text|
  {
    var n := LineLength(text);
    if n < |text| then text[n + 1..] else []
  }

  function Lines(text: seq<nat>): seq<seq<nat>>
    decreases |text|
  {
    if text == [] then [] else [FirstLine(text)] + Lines(BehindLine(text))
  }

  /** Every line fits into a buffer of `maxLen` characters, with its carriage return. */
  ghost predicate Fit(text: seq<nat>, maxLen: nat)
    decreases |text|
  {
    text == [] || (LineLength(text) < maxLen && Fit(BehindLine(text), maxLen))
  }

  lemma {:induction false} LengthIs(text: seq<nat>, n: nat)
    requires n <= |text| && (forall i | 0 <= i < n :: text[i] != LF) && (n < |text| ==> text[n] == LF)
    ensures LineLength(text) == n
  {
    if n > 0 {
      LengthIs(text[1..], n - 1);
    }
  }

  /** The characters of a line are in the buffer, and it ends where the buffer has a line feed. */
  lemma PieceAt(chunk: seq<nat>, file: seq<nat>, text: seq<nat>, m: nat, i: nat)
    requires m <= |text| && chunk + file == text[m..] && i < |chunk| && m + i <= LineLength(text)
    ensures m + i < |text| && text[m + i] == chunk[i]
    ensures LineLength(text) == m + i <==> chunk[i] == LF
  {
    hide LineLength;
    assert |text[m..]| == |chunk| + |file|;
    assert text[m + i] == text[m..][i] == (chunk + file)[i];
  }

  lemma BehindPiece(text: seq<nat>, m: nat, i: nat)
    requires m + i < |text|
    ensures text[m..][i + 1..] == text[m + i + 1..]
  {
  }

  lemma AllTaken(chunk: seq<nat>, file: seq<nat>, text: seq<nat>, m: nat)
    requires m <= |text| && chunk + file == text[m..]
    ensures m + |chunk| <= |text| && file == text[m + |chunk|..]
  {
    assert |text[m..]| == |chunk| + |file|;
    assert file == text[m..][|chunk|..];
  }

  lemma TakeOneMore(a: seq<nat>, text: seq<nat>, n: nat)
    requires n < |a| && n < |text| && a[..n] == text[..n] && a[n] == text[n]
    ensures a[..n + 1] == text[..n + 1]
  {
    assert a[..n + 1] == a[..n] + [a[n]];
    assert text[..n + 1] == text[..n] + [text[n]];
  }

  // ----- the reader -----

  class Utf16Reader {
    /** what `fread` has not yet delivered */
    var file: seq<nat>
    var buffer: array<nat>
    var nextPos: nat
    var validLen: nat

    ghost predicate Valid()
      reads this, buffer
    {
      buffer.Length > 0 && nextPos + validLen <= buffer.Length
    }

    /** What has not yet been read. */
    ghost function Pending(): seq<nat>
      requires Valid()
      reads this, buffer
    {
      buffer[nextPos..nextPos + validLen] + file
    }

    /** The reader behind `open`, which has skipped the header. */
    constructor (content: seq<nat>, bufferLen: nat)
      ensures Valid() && Pending() == content && fresh(buffer)
    {
      buffer := new nat[if bufferLen < 128 then 128 else if bufferLen > 65535 then 65535 else bufferLen];
      file, nextPos, validLen := content, 0, 0;
    }

    /** `fread` delivers as much as it likes, but something unless the file has ended. */
    method Fill()
      requires Valid() && validLen == 0
      modifies this`file, this`nextPos, this`validLen, buffer
      ensures Valid() && Pending() == old(Pending()) && nextPos == 0 && (validLen == 0 ==> file == [] && old(file) == [])
    {
      nextPos := 0;
      var n: nat :| n <= |file| && n <= buffer.Length && (n == 0 ==> file == []);
      for i := 0 to n
        invariant file == old(file) && nextPos == 0 && validLen == 0
        invariant forall k :: 0 <= k < i ==> buffer[k] == file[k]
      {
        buffer[i] := file[i];
      }
      assert buffer[..n] == file[..n];
      file, validLen := file[n..], n;
    }

    /** The loop over a filling: it is left at place `i`, at the end of the line or in front of a write behind `maxLen`. */
    method CopyPiece(readBuf: array<nat>, maxLen: nat, retLen: nat, ghost text: seq<nat>) returns (i: nat, stop: bool)
      requires Valid() && readBuf != buffer && validLen > 0 && 0 < maxLen <= readBuf.Length
      requires retLen <= LineLength(text) && retLen <= maxLen && readBuf[..retLen] == text[..retLen] && Pending() == text[retLen..]
      modifies readBuf
      ensures i <= validLen && retLen + i <= LineLength(text) && i < maxLen && retLen + i <= maxLen && readBuf[..retLen + i] == text[..retLen + i]
      ensures stop ==> i < validLen && retLen + i < |text| && (i == maxLen - 1 || retLen + i == LineLength(text))
      ensures !stop && i < validLen ==> i < maxLen - 1 && retLen + i < LineLength(text) && retLen + i == maxLen
    {
      hide LineLength;
      ghost var n, chunk := LineLength(text), buffer[nextPos..nextPos + validLen];
      assert chunk + file == text[retLen..];
      i, stop := 0, false;
      while i < validLen
        invariant i <= validLen && retLen + i <= n && i < maxLen && retLen + i <= maxLen && readBuf[..retLen + i] == text[..retLen + i]
      {
        PieceAt(chunk, file, text, retLen, i);
        assert buffer[nextPos + i] == chunk[i];
        if i == maxLen - 1 || buffer[nextPos + i] == LF {
          return i, true;
        }
        if retLen + i >= maxLen {
          return i, false;
        }
        readBuf[retLen + i] := buffer[nextPos + i];
        TakeOneMore(readBuf[..], text, retLen + i);
        i := i + 1;
      }
    }

    /**
     * As much of a line as the buffer holds; `retLen` characters of it are already there. The line ends at the line feed
     * or at place `maxLen - 1` of this filling. A write behind `maxLen` is not made here; the program makes it.
     */
    method FromBuffer(readBuf: array<nat>, maxLen: nat, retLen: nat, ghost text: seq<nat>) returns (end: End)
      requires Valid() && readBuf != buffer && validLen > 0 && 0 < maxLen <= readBuf.Length
      requires retLen <= LineLength(text) && retLen <= maxLen && readBuf[..retLen] == text[..retLen] && Pending() == text[retLen..]
      modifies this`nextPos, this`validLen, readBuf
      ensures Valid() && end == EndOf(text, maxLen, retLen, old(validLen))
      ensures end == Done ==> var stop := StopIn(text, maxLen, retLen);
        stop < |text| && Pending() == text[stop + 1..] && IsLine(readBuf[..], Cut(text, stop))
      ensures end == More ==> validLen == 0
      ensures end == More ==> readBuf[..retLen + old(validLen)] == text[..retLen + old(validLen)] && Pending() == text[retLen + old(validLen)..]
    {
      hide LineLength, Cut, IsLine, EndOf, StopIn;
      var i, stop := CopyPiece(readBuf, maxLen, retLen, text);
      if stop {
        StopsHere(text, maxLen, retLen, validLen, i);
        end := EndPiece(readBuf, maxLen, retLen, i, text);
      } else if i < validLen {
        RunsOver(text, maxLen, retLen, validLen, i);
        end := Beyond;
      } else {
        AllTaken(buffer[nextPos..nextPos + validLen], file, text, retLen);
        GoesOn(text, maxLen, retLen, validLen);
        validLen := 0;
        end := More;
      }
    }

    /** The line ends at place `i` of the filling; the character there is skipped. */
    method EndPiece(readBuf: array<nat>, maxLen: nat, retLen: nat, i: nat, ghost text: seq<nat>) returns (end: End)
      requires Valid() && readBuf != buffer && i < validLen && 0 < maxLen <= readBuf.Length
      requires retLen + i < |text| && retLen + i <= maxLen && readBuf[..retLen + i] == text[..retLen + i] && Pending() == text[retLen..]
      modifies this`nextPos, this`validLen, readBuf
      ensures Valid() && end == if retLen + i < maxLen || text[maxLen - 1] == CR then Done else Beyond
      ensures end == Done ==> Pending() == text[retLen + i + 1..] && IsLine(readBuf[..], Cut(text, retLen + i))
    {
      hide Cut, IsLine;
      var fits := EndLine(readBuf, maxLen, retLen + i, text);
      if !fits {
        return Beyond;
      }
      BehindPiece(text, retLen, i);
      Skip(i + 1);
      end := Done;
    }

    /** The buffer without its first `n` characters. */
    method Skip(n: nat)
      requires Valid() && n <= validLen
      modifies this`nextPos, this`validLen
      ensures Valid() && Pending() == old(Pending())[n..] && nextPos < buffer.Length
    {
      nextPos, validLen := nextPos + n, validLen - n;
      if nextPos == buffer.Length {
        nextPos, validLen := 0, 0;
      }
    }

    /** The 0 behind a line; `fits` tells whether it is written within `maxLen`. */
    static method EndLine(readBuf: array<nat>, maxLen: nat, n: nat, ghost text: seq<nat>) returns (fits: bool)
      requires n < |text| && n <= maxLen && 0 < maxLen <= readBuf.Length && readBuf[..n] == text[..n]
      modifies readBuf
      ensures fits <==> n < maxLen || text[maxLen - 1] == CR
      ensures fits ==> IsLine(readBuf[..], Cut(text, n))
    {
      assert n > 0 ==> text[n - 1] == readBuf[..n][n - 1] == readBuf[n - 1];
      if n > 0 && readBuf[n - 1] == CR {
        readBuf[n - 1] := 0;
        return true;
      }
      if n < maxLen {
        readBuf[n] := 0;
      }
      fits := n < maxLen;
    }

    /** The 0 behind the last line, which has no line feed. */
    static method EndText(readBuf: array<nat>, maxLen: nat, retLen: nat, ghost text: seq<nat>) returns (end: End)
      requires retLen == |text| <= maxLen <= readBuf.Length && readBuf[..retLen] == text
      modifies readBuf
      ensures end == if retLen < maxLen then Done else Beyond
      ensures end == Done ==> IsLine(readBuf[..], text)
    {
      if retLen >= maxLen {
        return Beyond;
      }
      readBuf[retLen] := 0;
      end := Done;
    }

    /** The line has been returned, and what is behind it is still to be read. */
    ghost predicate Returned(text: seq<nat>, maxLen: nat, first: nat, readBuf: array<nat>)
      requires Valid() && maxLen > 0
      reads this, buffer, readBuf
    {
      var stop := StopAt(text, maxLen, first);
      stop <= |text| && IsLine(readBuf[..], Cut(text, stop)) && Pending() == if stop < |text| then text[stop + 1..] else []
    }

    /** `retLen` characters of the line have been copied, and the rest is still to be read. */
    ghost predicate Copied(text: seq<nat>, maxLen: nat, retLen: nat, readBuf: array<nat>)
      requires Valid()
      reads this, buffer, readBuf
    {
      && readBuf != buffer && 0 < maxLen <= readBuf.Length
      && retLen <= LineLength(text) && retLen <= maxLen && readBuf[..retLen] == text[..retLen] && Pending() == text[retLen..]
    }

    /** Fills the buffer if it is empty. */
    method Refill(readBuf: array<nat>, maxLen: nat, retLen: nat, ghost text: seq<nat>)
      requires Valid() && Copied(text, maxLen, retLen, readBuf)
      modifies this`file, this`nextPos, this`validLen, buffer
      ensures Valid() && Copied(text, maxLen, retLen, readBuf) && (old(validLen) > 0 ==> validLen == old(validLen))
      ensures validLen == 0 ==> file == [] && |text| == retLen
    {
      hide LineLength;
      if validLen == 0 {
        Fill();
      }
      assert |Pending()| == |text| - retLen;
    }

    /** One filling, which is not empty. */
    method UseFilling(readBuf: array<nat>, maxLen: nat, retLen: nat, ghost text: seq<nat>, ghost first: nat, ghost second: nat) returns (end: End)
      requires Valid() && validLen > 0 && Copied(text, maxLen, retLen, readBuf)
      requires Now(text, maxLen, retLen, validLen, first, second)
      modifies this`nextPos, this`validLen, readBuf
      ensures Valid() && (end != More ==> (end == Beyond <==> Overruns(text, maxLen, first, second)))
      ensures end == Done ==> Returned(text, maxLen, first, readBuf)
      ensures end == More ==> validLen == 0
      ensures end == More ==> Passed(text, maxLen, retLen + old(validLen), first, second) && Copied(text, maxLen, retLen + old(validLen), readBuf)
    {
      hide LineLength, Cut, IsLine, EndOf, Overruns, StopIn, StopAt, Passed, Now;
      ghost var v := validLen;
      end := FromBuffer(readBuf, maxLen, retLen, text);
      FillingEnds(text, maxLen, retLen, v, first, second);
    }

    /** The end of the file behind `retLen` characters of a line. */
    method UseEnd(readBuf: array<nat>, maxLen: nat, retLen: nat, ghost text: seq<nat>, ghost first: nat, ghost second: nat) returns (end: End)
      requires Valid() && validLen == 0 && file == [] && Copied(text, maxLen, retLen, readBuf) && retLen == |text| > 0
      requires Passed(text, maxLen, retLen, first, second)
      modifies readBuf
      ensures end != More && (end == Beyond <==> Overruns(text, maxLen, first, second))
      ensures end == Done ==> Returned(text, maxLen, first, readBuf)
    {
      hide LineLength, Cut, IsLine, Overruns, StopAt, Passed;
      TextEnds(text, maxLen, retLen, first, second);
      end := EndText(readBuf, maxLen, retLen, text);
    }

    /**
     * The next line, if there is one, with a 0 behind it. `first` and `second` are the lengths of the fillings that
     * the line begins in; the limit counts within one filling, so that they decide how a line that is too long ends.
     */
    method ReadLine(readBuf: array<nat>, maxLen: nat) returns (end: End, ghost first: nat, ghost second: nat)
      requires Valid() && readBuf != buffer && 0 < maxLen <= readBuf.Length
      modifies this`file, this`nextPos, this`validLen, buffer, readBuf
      ensures Valid() && (end == More <==> old(Pending()) == [])
      ensures old(validLen) > 0 ==> first == old(validLen)
      ensures old(Pending()) != [] ==> first > 0 && (end == Beyond <==> Overruns(old(Pending()), maxLen, first, second))
      ensures end == Done ==> Returned(old(Pending()), maxLen, first, readBuf)
    {
      hide LineLength, Overruns, Returned, Passed, Now, Copied;
      var retLen := 0;
      ghost var text := Pending();
      first, second := validLen, 0;
      NothingCopied(readBuf, maxLen);
      while true
        invariant Valid() && Copied(text, maxLen, retLen, readBuf) && retLen <= |text|
        invariant old(validLen) > 0 ==> first == old(validLen)
        invariant if retLen == 0 then second == 0 && validLen == old(validLen) else first > 0 && validLen == 0 && Passed(text, maxLen, retLen, first, second)
        decreases |text| - retLen
      {
        Refill(readBuf, maxLen, retLen, text);
        if validLen == 0 {
          end := More;
          if retLen > 0 {
            end := UseEnd(readBuf, maxLen, retLen, text, first, second);
          }
          return;
        }
        var v := validLen;
        CopiedInside(readBuf, maxLen, retLen, text);
        first, second := NextFilling(text, maxLen, retLen, v, first, second);
        end := UseFilling(readBuf, maxLen, retLen, text, first, second);
        if end != More {
          return;
        }
        retLen := retLen + v;
      }
    }

    lemma NothingCopied(readBuf: array<nat>, maxLen: nat)
      requires Valid() && readBuf != buffer && 0 < maxLen <= readBuf.Length
      ensures Copied(Pending(), maxLen, 0, readBuf)
    {
    }

    /** What is in the buffer belongs to the text. */
    lemma CopiedInside(readBuf: array<nat>, maxLen: nat, retLen: nat, text: seq<nat>)
      requires Valid() && Copied(text, maxLen, retLen, readBuf)
      ensures retLen + validLen <= |text|
    {
      assert |Pending()| == |text| - retLen;
    }
  }

  /** How a call goes on behind a filling: with the next one, or it has ended the line, or written behind the room for it. */
  datatype End = More | Done | Beyond

  /** Where a call stops that begins a filling with `retLen` characters of the line. */
  function StopIn(text: seq<nat>, maxLen: nat, retLen: nat): nat
    requires maxLen > 0
  {
    if LineLength(text) <= retLen + maxLen - 1 then LineLength(text) else retLen + maxLen - 1
  }

  /** What a filling of `v` characters does. */
  function EndOf(text: seq<nat>, maxLen: nat, retLen: nat, v: nat): End
    requires maxLen > 0
  {
    var stop := StopIn(text, maxLen, retLen);
    if stop >= retLen + v then (if retLen + v <= maxLen then More else Beyond)
    else if stop < maxLen || (stop == maxLen && maxLen <= |text| && text[maxLen - 1] == CR) then Done
    else Beyond
  }

  lemma StopsHere(text: seq<nat>, maxLen: nat, retLen: nat, v: nat, i: nat)
    requires i < v && i < maxLen && retLen + i <= LineLength(text) && retLen + i <= maxLen
    requires i == maxLen - 1 || retLen + i == LineLength(text)
    ensures StopIn(text, maxLen, retLen) == retLen + i
    ensures retLen + i < |text| ==> EndOf(text, maxLen, retLen, v) == if retLen + i < maxLen || text[maxLen - 1] == CR then Done else Beyond
  {
    hide LineLength;
  }

  lemma RunsOver(text: seq<nat>, maxLen: nat, retLen: nat, v: nat, i: nat)
    requires i < v && i < maxLen - 1 && retLen + i < LineLength(text) && retLen + i == maxLen
    ensures EndOf(text, maxLen, retLen, v) == Beyond
  {
    hide LineLength;
  }

  lemma GoesOn(text: seq<nat>, maxLen: nat, retLen: nat, v: nat)
    requires v < maxLen && retLen + v <= LineLength(text) && retLen + v <= maxLen
    ensures EndOf(text, maxLen, retLen, v) == More
  {
    hide LineLength;
  }

  /** A line that fits is returned whole. */
  lemma WholeLine(text: seq<nat>, maxLen: nat, first: nat, second: nat)
    requires text != [] && LineLength(text) < maxLen
    ensures !Overruns(text, maxLen, first, second) && StopAt(text, maxLen, first) == LineLength(text)
    ensures Cut(text, LineLength(text)) == FirstLine(text)
    ensures BehindLine(text) == if LineLength(text) < |text| then text[LineLength(text) + 1..] else []
  {
    hide LineLength, Cut;
  }

  /**
   * The line is written behind `maxLen`: it does not fit, and it crosses the end of its first filling. It goes well
   * only by the carriage return, when that is the last character that fits and the line ends behind it.
   */
  predicate Overruns(text: seq<nat>, maxLen: nat, first: nat, second: nat)
    requires maxLen > 0
  {
    var n := LineLength(text);
    && n >= maxLen && first < maxLen
    && !(maxLen < |text| && text[maxLen - 1] == CR && (n == maxLen || (first == 1 && second >= maxLen)))
  }

  /**
   * Told from the line alone: however the buffer is filled, nothing is written behind `maxLen`, if and only if the line
   * fits, or with its carriage return fills all of it; or if `maxLen` is 1, where every filling ends the line at once.
   */
  lemma NeverOverrunsIff(text: seq<nat>, maxLen: nat)
    requires maxLen > 0
    ensures (forall first: nat, second: nat | first > 0 :: !Overruns(text, maxLen, first, second)) <==>
      LineLength(text) < maxLen || maxLen == 1 || (LineLength(text) == maxLen < |text| && text[maxLen - 1] == CR)
  {
    hide LineLength;
    if LineLength(text) >= maxLen && maxLen > 1 && !(LineLength(text) == maxLen < |text| && text[maxLen - 1] == CR) {
      assert Overruns(text, maxLen, 1, 0);
    }
  }

  /** Where the line ends that is returned. */
  function StopAt(text: seq<nat>, maxLen: nat, first: nat): nat
    requires maxLen > 0
  {
    var n := LineLength(text);
    if n < maxLen then n else if first >= maxLen then maxLen - 1 else maxLen
  }

  /** The fillings so far have been used up. */
  ghost predicate Passed(text: seq<nat>, maxLen: nat, retLen: nat, first: nat, second: nat) {
    && 0 < first <= retLen && first < maxLen && (retLen == first ==> second == 0) && (retLen > first ==> second > 0 && first + second <= retLen)
    && (first == 1 ==> second < maxLen)
  }

  /** The filling of `v` characters is the first one, the second one or a later one. */
  ghost predicate Now(text: seq<nat>, maxLen: nat, retLen: nat, v: nat, first: nat, second: nat) {
    if retLen == 0 then first == v && second == 0
    else if retLen == first then second == v && first < maxLen
    else Passed(text, maxLen, retLen, first, second) && retLen > first
  }

  lemma NextFilling(text: seq<nat>, maxLen: nat, retLen: nat, v: nat, first: nat, second: nat) returns (first': nat, second': nat)
    requires if retLen == 0 then second == 0 else Passed(text, maxLen, retLen, first, second)
    ensures Now(text, maxLen, retLen, v, first', second') && first' == if retLen == 0 then v else first
  {
    first' := if retLen == 0 then v else first;
    second' := if retLen == first && retLen > 0 then v else second;
  }

  lemma TextEnds(text: seq<nat>, maxLen: nat, retLen: nat, first: nat, second: nat)
    requires maxLen > 0 && retLen == |text| == LineLength(text) && retLen <= maxLen && Passed(text, maxLen, retLen, first, second)
    ensures Overruns(text, maxLen, first, second) <==> retLen >= maxLen
    ensures retLen < maxLen ==> StopAt(text, maxLen, first) == |text| && Cut(text, |text|) == text
  {
    hide LineLength;
    assert text[..|text|] == text;
  }

  lemma FillingEnds(text: seq<nat>, maxLen: nat, retLen: nat, v: nat, first: nat, second: nat)
    requires maxLen > 0 && v > 0 && retLen <= LineLength(text) && retLen <= maxLen
    requires Now(text, maxLen, retLen, v, first, second)
    ensures EndOf(text, maxLen, retLen, v) == More ==>
      Passed(text, maxLen, retLen + v, first, second) && retLen + v <= LineLength(text) && retLen + v <= maxLen
    ensures EndOf(text, maxLen, retLen, v) == Beyond ==> Overruns(text, maxLen, first, second)
    ensures EndOf(text, maxLen, retLen, v) == Done && StopIn(text, maxLen, retLen) < |text| ==>
      !Overruns(text, maxLen, first, second) && StopAt(text, maxLen, first) == StopIn(text, maxLen, retLen)
  {
    hide LineLength;
  }

  /** A line in a buffer, with a 0 behind it. */
  ghost predicate IsLine(buf: seq<nat>, line: seq<nat>) {
    |line| < |buf| && buf[..|line|] == line && buf[|line|] == 0
  }

  // ----- whole files -----

  /** The text in a buffer up to the first 0. */
  method TextOf(buf: array<nat>) returns (s: seq<nat>)
    requires 0 in buf[..]
    ensures s < buf[..] && 0 !in s && buf[|s|] == 0
  {
    var n := 0;
    while buf[n] != 0
      invariant n < buf.Length && 0 !in buf[..n] && exists k :: n <= k < buf.Length && buf[k] == 0
      decreases buf.Length - n
    {
      n := n + 1;
    }
    s := buf[..n];
  }

  lemma LinesStep(text: seq<nat>, ls: seq<seq<nat>>, maxLen: nat)
    requires text != [] && 0 !in text && maxLen > 0 && Fit(text, maxLen)
    ensures ls + Lines(text) == (ls + [FirstLine(text)]) + Lines(BehindLine(text))
    ensures 0 !in FirstLine(text) && 0 !in BehindLine(text) && Fit(BehindLine(text), maxLen) && LineLength(text) < maxLen
  {
    hide LineLength, Fit;
    FitFirst(text, maxLen);
    NoZero(text);
  }

  lemma NoZero(text: seq<nat>)
    requires 0 !in text
    ensures 0 !in FirstLine(text) && 0 !in BehindLine(text)
  {
    hide LineLength;
  }

  lemma OneLine(buf: seq<nat>, line: seq<nat>, s: seq<nat>)
    requires IsLine(buf, line) && 0 !in line && s < buf && 0 !in s && buf[|s|] == 0
    ensures s == line
  {
  }

  /** One line of a file whose lines fit. */
  method NextLine(reader: Utf16Reader, readBuf: array<nat>, maxLen: nat) returns (ok: bool, line: seq<nat>)
    requires reader.Valid() && readBuf != reader.buffer && 0 < maxLen <= readBuf.Length
    requires Fit(reader.Pending(), maxLen) && 0 !in reader.Pending()
    modifies reader`file, reader`nextPos, reader`validLen, reader.buffer, readBuf
    ensures reader.Valid() && (ok <==> old(reader.Pending()) != [])
    ensures ok ==> line == FirstLine(old(reader.Pending())) && reader.Pending() == BehindLine(old(reader.Pending()))
  {
    hide LineLength, FirstLine, BehindLine, Fit, Cut, StopAt, Overruns;
    ghost var text := reader.Pending();
    FitFirst(text, maxLen);
    var end, first, second := reader.ReadLine(readBuf, maxLen);
    if end == More {
      return false, [];
    }
    WholeLine(text, maxLen, first, second);
    NoZero(text);
    line := TextOf(readBuf);
    OneLine(readBuf[..], FirstLine(text), line);
    ok := true;
  }

  /** Reading until there is no more line yields the lines of the file, whatever the length of the buffer. */
  method ReadLines(content: seq<nat>, bufferLen: nat, maxLen: nat) returns (lines: seq<seq<nat>>)
    requires maxLen > 0 && Fit(content, maxLen) && 0 !in content
    ensures lines == Lines(content)
  {
    hide LineLength, FirstLine, BehindLine, Fit, Lines;
    var reader := new Utf16Reader(content, bufferLen);
    var readBuf := new nat[maxLen];
    lines := [];
    ghost var text := content;
    while true
      invariant reader.Valid() && fresh(reader) && fresh(reader.buffer) && readBuf != reader.buffer && reader.Pending() == text
      invariant Fit(text, maxLen) && 0 !in text && lines + Lines(text) == Lines(content)
      decreases |text|
    {
      FitFirst(text, maxLen);
      var ok, line := NextLine(reader, readBuf, maxLen);
      if !ok {
        return;
      }
      LinesStep(text, lines, maxLen);
      lines := lines + [line];
      text := BehindLine(text);
    }
  }

  lemma FitFirst(text: seq<nat>, maxLen: nat)
    requires maxLen > 0 && Fit(text, maxLen)
    ensures LineLength(text) < maxLen && Fit(BehindLine(text), maxLen) && (text == [] ==> Lines(text) == [])
  {
  }

  // ----- files that were written line by line -----

  function Ending(crLf: bool): seq<nat> { if crLf then [CR, LF] else [LF] }

  function Written(lines: seq<seq<nat>>, crLf: bool): seq<nat> {
    if lines == [] then [] else lines[0] + Ending(crLf) + Written(lines[1..], crLf)
  }

  /** Lines that hold no line feed, and if they are ended by one alone do not end with a carriage return, come back as they were written. */
  lemma {:induction false} WrittenLines(lines: seq<seq<nat>>, crLf: bool)
    requires forall k | 0 <= k < |lines| :: LF !in lines[k] && (crLf || lines[k] == [] || lines[k][|lines[k]| - 1] != CR)
    ensures Lines(Written(lines, crLf)) == lines
  {
    if lines != [] {
      var text, n := Written(lines, crLf), |lines[0]| + |Ending(crLf)| - 1;
      assert text == lines[0] + Ending(crLf) + Written(lines[1..], crLf);
      assert text[n] == LF;
      LengthIs(text, n);
      assert FirstLine(text) == lines[0];
      assert BehindLine(text) == Written(lines[1..], crLf);
      WrittenLines(lines[1..], crLf);
    }
  }
}
