/** The cooked-mode line editor as a fold over keys, and what that fold means. */
module LineEditor {
  import opened Bytes

  /** `sizeof(line) - 1`: the characters a line can retain. */
  const CAPACITY: nat := 255

  function Normalise(c: byte): byte {
    if c == CR then LF else c
  }

  predicate IsErase(c: byte) {
    c == BACKSPACE || c == DEL
  }

  predicate IsEnter(c: byte) {
    Normalise(c) == LF
  }

  /** The edit buffer after one more key other than Enter. */
  function Type(line: seq<byte>, c: byte): seq<byte> {
    if IsErase(c) then (if |line| > 0 then line[..|line| - 1] else line)
    else if |line| < CAPACITY then line + [c]
    else line
  }

  /** The buffer handed to the reader on Enter: a full line gets no newline. */
  function Terminate(line: seq<byte>): seq<byte> {
    if |line| < CAPACITY then line + [LF] else line
  }

  /** The lines completed so far, and the one being edited. */
  datatype Session = Session(lines: seq<seq<byte>>, editing: seq<byte>)

  function Press(s: Session, c: byte): Session {
    if IsEnter(c) then Session(s.lines + [Terminate(s.editing)], [])
    else s.(editing := Type(s.editing, c))
  }

  function Edit(keys: seq<byte>): Session {
    if keys == [] then Session([], [])
    else Press(Edit(keys[..|keys| - 1]), keys[|keys| - 1])
  }

  lemma EmptyStream()
    ensures Edit([]) == Session([], [])
  {
  }

  lemma EditAppend(keys: seq<byte>, c: byte)
    ensures Edit(keys + [c]) == Press(Edit(keys), c)
  {
    assert (keys + [c])[..|keys|] == keys;
  }

  // ---------------------------------------------------------------------------
  // What the edit buffer holds

  predicate NoEnter(keys: seq<byte>) {
    forall c :: c in keys ==> !IsEnter(c)
  }

  /** A walk that steps up on a character and down on an erase, clamped to 0..255. */
  function Depth(keys: seq<byte>): (d: nat)
    ensures d <= CAPACITY
  {
    if keys == [] then 0
    else
      var d := Depth(keys[..|keys| - 1]);
      if IsErase(keys[|keys| - 1]) then (if d == 0 then 0 else d - 1)
      else if d == CAPACITY then CAPACITY else d + 1
  }

  /** Key `i` raises the walk above `d` for the last time. */
  ghost predicate LastRise(keys: seq<byte>, i: nat, d: nat) {
    && i < |keys|
    && Depth(keys[..i]) == d
    && forall j :: i < j <= |keys| ==> Depth(keys[..j]) > d
  }

  lemma LastRiseUnique(keys: seq<byte>, i: nat, i': nat, d: nat)
    requires LastRise(keys, i, d) && LastRise(keys, i', d)
    ensures i == i'
  {
    assert Depth(keys[..i]) == Depth(keys[..i']);
  }

  lemma DepthOfNone()
    ensures Depth([]) == 0
  {
  }

  lemma DepthAppend(keys: seq<byte>, c: byte)
    ensures var d := Depth(keys);
      Depth(keys + [c]) ==
        if IsErase(c) then (if d == 0 then 0 else d - 1) else if d == CAPACITY then CAPACITY else d + 1
  {
    assert (keys + [c])[..|keys|] == keys;
  }

  lemma LastRiseExtends(keys: seq<byte>, c: byte, i: nat, d: nat)
    requires LastRise(keys, i, d) && Depth(keys + [c]) > d
    ensures i < |keys| && LastRise(keys + [c], i, d)
  {
    hide Depth;
    var all := keys + [c];
    assert all[..i] == keys[..i];
    forall j | i < j <= |all|
      ensures Depth(all[..j]) > d
    {
      if j < |all| {
        assert all[..j] == keys[..j];
      } else {
        assert all[..j] == all;
      }
    }
  }

  lemma LastKeyRises(keys: seq<byte>, c: byte)
    requires Depth(keys + [c]) > Depth(keys)
    ensures LastRise(keys + [c], |keys|, Depth(keys))
  {
    hide Depth;
    var all := keys + [c];
    assert all[..|keys|] == keys && all[..|all|] == all;
  }

  /** Key `i`, a character, raised the walk above `d` for the last time, and is what the buffer holds there. */
  ghost predicate HeldSince(keys: seq<byte>, i: nat, d: nat) {
    && i < |keys| && d < |Edit(keys).editing|
    && LastRise(keys, i, d) && !IsErase(keys[i]) && Edit(keys).editing[d] == keys[i]
  }

  lemma {:induction false} BufferDepth(keys: seq<byte>)
    requires NoEnter(keys)
    ensures |Edit(keys).editing| == Depth(keys)
  {
    hide Edit, Depth, NoEnter;
    EmptyStream();
    DepthOfNone();
    if keys != [] {
      var front, c := keys[..|keys| - 1], keys[|keys| - 1];
      NoEnterFront(keys);
      BufferDepth(front);
      EditAppend(front, c);
      DepthAppend(front, c);
    }
  }

  /**
   Position `d` of the edit buffer, which is as long as the walk is high, holds
   the one key that raised the walk from `d` to `d + 1` for the last time: every
   other key was erased or ignored.
   */
  lemma {:induction false} BufferIsLastRises(keys: seq<byte>, d: nat)
    requires NoEnter(keys)
    ensures |Edit(keys).editing| == Depth(keys)
    ensures d < Depth(keys) ==> exists i: nat :: HeldSince(keys, i, d)
  {
    hide Edit, Depth, HeldSince, NoEnter;
    DepthOfNone();
    BufferDepth(keys);
    if d < Depth(keys) {
      var front, c := keys[..|keys| - 1], keys[|keys| - 1];
      NoEnterFront(keys);
      BufferDepth(front);
      BufferIsLastRises(front, d);
      HeldStep(front, c, d);
    }
  }

  lemma NoEnterFront(keys: seq<byte>)
    requires NoEnter(keys) && keys != []
    ensures var front, c := keys[..|keys| - 1], keys[|keys| - 1];
      keys == front + [c] && NoEnter(front) && !IsEnter(c)
  {
    assert forall k :: k in keys[..|keys| - 1] ==> k in keys;
    assert keys[|keys| - 1] in keys;
  }

  lemma HeldStep(front: seq<byte>, c: byte, d: nat)
    requires !IsEnter(c) && |Edit(front).editing| == Depth(front)
    requires d < Depth(front + [c]) == |Edit(front + [c]).editing|
    requires d < Depth(front) ==> exists i: nat :: HeldSince(front, i, d)
    ensures exists i: nat :: HeldSince(front + [c], i, d)
  {
    hide Edit, Depth, HeldSince;
    if d < Depth(front) {
      var i: nat :| HeldSince(front, i, d);
      HeldStays(front, c, i, d);
    } else {
      DepthAppend(front, c);
      HeldAnew(front, c);
    }
  }

  lemma HeldStays(front: seq<byte>, c: byte, i: nat, d: nat)
    requires HeldSince(front, i, d) && !IsEnter(c) && Depth(front + [c]) > d
    requires d < |Edit(front + [c]).editing|
    ensures HeldSince(front + [c], i, d)
  {
    hide Edit, Depth, LastRise;
    EditAppend(front, c);
    LastRiseExtends(front, c, i, d);
  }

  lemma HeldAnew(front: seq<byte>, c: byte)
    requires !IsEnter(c) && |Edit(front).editing| == Depth(front) && Depth(front + [c]) > Depth(front)
    ensures HeldSince(front + [c], |front|, Depth(front))
  {
    hide Edit, Depth, LastRise;
    EditAppend(front, c);
    DepthAppend(front, c);
    LastKeyRises(front, c);
  }

  // ---------------------------------------------------------------------------
  // The keys by value

  /** What each of the 256 bytes does to the lines completed and to the line being edited. */
  lemma KeyMeaning(keys: seq<byte>, c: byte)
    ensures var (s, t) := (Edit(keys), Edit(keys + [c]));
      if c == 0x08 || c == 0x7F then
        t == Session(s.lines, if s.editing == [] then [] else s.editing[..|s.editing| - 1])
      else if c == 0x0A || c == 0x0D then
        t == Session(s.lines + [if |s.editing| < 255 then s.editing + [0x0A] else s.editing], [])
      else
        t == Session(s.lines, if |s.editing| < 255 then s.editing + [c] else s.editing)
  {
    hide Edit;
    EditAppend(keys, c);
  }

  /** None of the bytes that edit. */
  predicate IsPlain(text: seq<byte>) {
    forall c :: c in text ==> c != 0x08 && c != 0x7F && c != 0x0A && c != 0x0D
  }

  function First255(text: seq<byte>): seq<byte> {
    if |text| <= 255 then text else text[..255]
  }

  /** Plain text typed on an empty line is held as typed, up to 255 characters. */
  lemma {:induction false} PlainTextIsHeld(keys: seq<byte>, text: seq<byte>)
    requires Edit(keys).editing == [] && IsPlain(text)
    ensures Edit(keys + text) == Session(Edit(keys).lines, First255(text))
  {
    hide Edit;
    if text == [] {
      assert keys + text == keys;
    } else {
      var front, c := text[..|text| - 1], text[|text| - 1];
      assert c in text && forall k :: k in front ==> k in text;
      PlainTextIsHeld(keys, front);
      FrontAndLast(text);
      Associates(keys, front, [c]);
      KeyMeaning(keys + front, c);
      if |front| < 255 {
        assert First255(front) + [c] == First255(text);
      }
    }
  }

  /** Plain text and Enter make one line: the text and a newline, or its first 255 characters. */
  lemma PlainLine(keys: seq<byte>, text: seq<byte>, enter: byte)
    requires Edit(keys).editing == [] && IsPlain(text) && (enter == 0x0A || enter == 0x0D)
    ensures Edit(keys + text + [enter])
         == Session(Edit(keys).lines + [if |text| < 255 then text + [0x0A] else text[..255]], [])
  {
    hide Edit;
    PlainTextIsHeld(keys, text);
    KeyMeaning(keys + text, enter);
    if |text| == 255 { assert text[..255] == text; }
  }

  // ---------------------------------------------------------------------------
  // Lines

  lemma {:induction false} NoEnterNoLine(keys: seq<byte>)
    requires NoEnter(keys)
    ensures Edit(keys).lines == []
  {
    if keys != [] {
      assert forall c :: c in keys[..|keys| - 1] ==> c in keys;
      NoEnterNoLine(keys[..|keys| - 1]);
    }
  }

  /** A delivered line: no editing keys, a newline at most at its end, and there unless it is full. */
  ghost predicate WellFormedLine(l: seq<byte>) {
    && 1 <= |l| <= CAPACITY
    && (forall k :: 0 <= k < |l| ==> !IsErase(l[k]) && l[k] != CR)
    && (forall k :: 0 <= k < |l| - 1 ==> l[k] != LF)
    && (|l| < CAPACITY ==> l[|l| - 1] == LF)
  }

  lemma {:induction false} LinesAreWellFormed(keys: seq<byte>)
    ensures forall l :: l in Edit(keys).lines ==> WellFormedLine(l)
    ensures |Edit(keys).editing| <= CAPACITY
    ensures var line := Edit(keys).editing;
      forall k :: 0 <= k < |line| ==> !IsErase(line[k]) && !IsEnter(line[k])
  {
    if keys != [] {
      var before := Edit(keys[..|keys| - 1]);
      LinesAreWellFormed(keys[..|keys| - 1]);
      assert WellFormedLine(Terminate(before.editing));
    }
  }

  /** Enter completes the edit buffer, with a newline after it exactly when it retains fewer than 255 characters. */
  lemma NewlineExactly(keys: seq<byte>, enter: byte)
    requires IsEnter(enter)
    ensures var typed := Edit(keys).editing;
      && Edit(keys + [enter]) == Session(Edit(keys).lines + [Terminate(typed)], [])
      && Terminate(typed) != [] && typed <= Terminate(typed) <= typed + [LF]
      && (Terminate(typed)[|Terminate(typed)| - 1] == LF <==> |typed| < CAPACITY)
  {
    hide Edit;
    EditAppend(keys, enter);
    LinesAreWellFormed(keys);
  }

  /** A key acts on the last line, whatever lines are completed before it. */
  lemma PressBehind(lines: seq<seq<byte>>, s: Session, c: byte)
    ensures Press(Session(lines + s.lines, s.editing), c)
         == Session(lines + Press(s, c).lines, Press(s, c).editing)
  {
    assert lines + s.lines + [Terminate(s.editing)] == lines + (s.lines + [Terminate(s.editing)]);
  }

  /** Editing goes on from an empty line as from the start. */
  lemma {:induction false} ContinueEdit(before: seq<byte>, after: seq<byte>)
    requires Edit(before).editing == []
    ensures Edit(before + after) == Session(Edit(before).lines + Edit(after).lines, Edit(after).editing)
  {
    hide Edit, Press;
    if after == [] {
      EmptyStream();
      assert before + after == before && Edit(before).lines + [] == Edit(before).lines;
    } else {
      var front, c := after[..|after| - 1], after[|after| - 1];
      ContinueEdit(before, front);
      FrontAndLast(after);
      Associates(before, front, [c]);
      EditAppend(before + front, c);
      EditAppend(front, c);
      PressBehind(Edit(before).lines, Edit(front), c);
    }
  }

  /** Lines are independent: what follows an Enter is edited as if nothing came before it. */
  lemma LinesAreIndependent(before: seq<byte>, enter: byte, after: seq<byte>)
    requires IsEnter(enter)
    ensures Edit(before + [enter] + after)
         == Session(Edit(before).lines + [Terminate(Edit(before).editing)] + Edit(after).lines, Edit(after).editing)
  {
    hide Edit;
    EditAppend(before, enter);
    ContinueEdit(before + [enter], after);
  }

  lemma {:induction false} LinesOnlyGrow(keys: seq<byte>, more: seq<byte>)
    ensures Edit(keys).lines <= Edit(keys + more).lines
  {
    if more == [] {
      assert keys + more == keys;
    } else {
      var front := more[..|more| - 1];
      LinesOnlyGrow(keys, front);
      assert keys + more == (keys + front) + [more[|more| - 1]];
      EditAppend(keys + front, more[|more| - 1]);
    }
  }

  /** Any character typed on a line that is not full is undone by either erase key. */
  lemma EraseUndoes(keys: seq<byte>, c: byte, erase: byte)
    requires IsErase(erase) && !IsErase(c) && !IsEnter(c)
    ensures Edit(keys + [c, erase]) == Edit(keys) <==> |Edit(keys).editing| < CAPACITY
  {
    LinesAreWellFormed(keys);
    assert keys + [c, erase] == (keys + [c]) + [erase];
    EditAppend(keys, c);
    EditAppend(keys + [c], erase);
  }

  // ---------------------------------------------------------------------------
  // Bytes of 0x80 and above never reach the editor

  /**
   Dropping the bytes of 0x80 and above leaves every intermediate session as
   it would have been exactly when each of them arrives on a full line.
   */
  lemma {:induction false} AsciiLossExactly(keys: seq<byte>)
    ensures (forall n :: 0 <= n <= |keys| ==> Edit(Ascii(keys[..n])) == Edit(keys[..n]))
       <==> (forall i :: 0 <= i < |keys| && keys[i] >= 0x80 ==> |Edit(keys[..i]).editing| == CAPACITY)
  {
    if forall n :: 0 <= n <= |keys| ==> Edit(Ascii(keys[..n])) == Edit(keys[..n]) {
      forall i | 0 <= i < |keys| && keys[i] >= 0x80
        ensures |Edit(keys[..i]).editing| == CAPACITY
      {
        hide Edit, Ascii;
        assert keys[..i + 1] == keys[..i] + [keys[i]];
        AsciiAppend(keys[..i], keys[i]);
        EditAppend(keys[..i], keys[i]);
        LinesAreWellFormed(keys[..i]);
        assert Edit(Ascii(keys[..i])) == Edit(keys[..i]);
        assert Edit(Ascii(keys[..i + 1])) == Edit(keys[..i + 1]);
      }
    }
    if forall i :: 0 <= i < |keys| && keys[i] >= 0x80 ==> |Edit(keys[..i]).editing| == CAPACITY {
      forall n | 0 <= n <= |keys|
        ensures Edit(Ascii(keys[..n])) == Edit(keys[..n])
      {
        AsciiLossless(keys, n);
      }
    }
  }

  lemma AsciiStep(front: seq<byte>, c: byte)
    requires Edit(Ascii(front)) == Edit(front) && (c >= 0x80 ==> |Edit(front).editing| == CAPACITY)
    ensures Edit(Ascii(front + [c])) == Edit(front + [c])
  {
    hide Edit, Ascii;
    AsciiAppend(front, c);
    EditAppend(front, c);
    EditAppend(Ascii(front), c);
    assert Ascii(front) + [] == Ascii(front);
  }

  lemma {:induction false} AsciiLossless(keys: seq<byte>, n: nat)
    requires n <= |keys|
    requires forall i :: 0 <= i < |keys| && keys[i] >= 0x80 ==> |Edit(keys[..i]).editing| == CAPACITY
    ensures Edit(Ascii(keys[..n])) == Edit(keys[..n])
  {
    hide Edit, Ascii;
    if n == 0 {
      NoBytes();
      assert keys[..0] == [];
    } else {
      AsciiLossless(keys, n - 1);
      OneMore(keys, n - 1);
      AsciiStep(keys[..n - 1], keys[n - 1]);
    }
  }

  /** From ASCII keys come ASCII lines. */
  lemma {:induction false} AsciiLines(keys: seq<byte>)
    requires forall c :: c in keys ==> c < 0x80
    ensures forall b :: b in Flatten(Edit(keys).lines) ==> b < 0x80
    ensures forall b :: b in Edit(keys).editing ==> b < 0x80
  {
    hide Edit, Flatten, Press;
    if keys == [] {
      EmptyStream();
      NoLines();
    } else {
      var front, c := keys[..|keys| - 1], keys[|keys| - 1];
      assert c in keys && forall k :: k in front ==> k in keys;
      AsciiLines(front);
      FrontAndLast(keys);
      EditAppend(front, c);
      AsciiPress(Edit(front), c);
    }
  }

  lemma AsciiPress(s: Session, c: byte)
    requires c < 0x80
    requires forall b :: b in Flatten(s.lines) ==> b < 0x80
    requires forall b :: b in s.editing ==> b < 0x80
    ensures forall b :: b in Flatten(Press(s, c).lines) ==> b < 0x80
    ensures forall b :: b in Press(s, c).editing ==> b < 0x80
  {
    hide Flatten;
    FlattenAppend(s.lines, Terminate(s.editing));
  }

  /** A pair of sessions that differ: 0xA4 and Enter make a line of two bytes, Enter alone one of one. */
  lemma EnyeIsLost()
    ensures Flatten(Edit([0xA4, LF]).lines) == [0xA4, LF]
    ensures Flatten(Edit(Ascii([0xA4, LF])).lines) == [LF]
  {
    hide Edit, Ascii, Flatten;
    EmptyStream();
    NoBytes();
    NoLines();
    assert [0xA4, LF] == [0xA4] + [LF] && [0xA4] == [] + [0xA4] && [LF] == [] + [LF];
    EditAppend([], 0xA4);
    EditAppend([0xA4], LF);
    EditAppend([], LF);
    AsciiAppend([], 0xA4);
    AsciiAppend([0xA4], LF);
    var lost, line := [LF], [0xA4, LF];
    assert [lost] == [] + [lost] && [line] == [] + [line];
    FlattenAppend([], line);
    FlattenAppend([], lost);
    assert Edit([0xA4, LF]).lines == [line];
    assert Edit([LF]).lines == [lost];
  }

  lemma NoBytes()
    ensures Ascii([]) == []
  {
  }
}
