/** What the line editor echoes, and when the screen shows what the editor holds. */
module Echo {
  import opened Bytes
  import opened LineEditor
  import opened TextScreen

  const RUBOUT: seq<byte> := [BACKSPACE, SPACE, BACKSPACE]

  /** The text echoed for one key pressed with `line` in the edit buffer. */
  function EchoOf(line: seq<byte>, c: byte): seq<byte> {
    if IsErase(c) then (if |line| > 0 then RUBOUT else [])
    else if IsEnter(c) then [LF]
    else if |line| < CAPACITY then [c]
    else []
  }

  function EchoText(keys: seq<byte>): seq<byte> {
    if keys == [] then []
    else
      var front := keys[..|keys| - 1];
      EchoText(front) + EchoOf(Edit(front).editing, keys[|keys| - 1])
  }

  lemma EchoTextAppend(keys: seq<byte>, c: byte)
    ensures EchoText(keys + [c]) == EchoText(keys) + EchoOf(Edit(keys).editing, c)
  {
    assert (keys + [c])[..|keys|] == keys;
  }

  /** The longest the line has been. */
  function HighWater(keys: seq<byte>): (h: nat)
    ensures h >= |Edit(keys).editing|
  {
    if keys == [] then 0
    else
      var h, n := HighWater(keys[..|keys| - 1]), |Edit(keys).editing|;
      if n > h then n else h
  }

  /** `t` shows `line` from the cursor of `s` on, blanks up to `high`, and `s` elsewhere. */
  ghost predicate Shows(s: Screen, t: Screen, line: seq<byte>, high: nat) {
    && s.Valid() && t.Valid() && t.attr == s.attr
    && t.Pos() == Slot(s.Pos(), |line|)
    && (forall i: nat :: i < |line| ==> t.cells[Slot(s.Pos(), i)] == Entry(line[i], s.attr))
    && (forall i: nat :: |line| <= i < high ==> t.cells[Slot(s.Pos(), i)] == Entry(SPACE, s.attr))
    && (forall i: nat :: high <= i < CELLS ==> t.cells[Slot(s.Pos(), i)] == s.cells[Slot(s.Pos(), i)])
  }

  /** The screen after the echo of `keys`. */
  function Echoed(s: Screen, keys: seq<byte>): (t: Screen)
    requires s.Valid()
    ensures t.Valid()
  {
    Write(s, EchoText(keys))
  }

  /** No erase key takes a character off the line while the cursor stands in column 0. */
  predicate NoRuboutAtColumnZero(start: nat, keys: seq<byte>) {
    forall i :: 0 <= i < |keys| && IsErase(keys[i]) && Edit(keys[..i]).editing != [] ==>
      (start + |Edit(keys[..i]).editing|) % WIDTH != 0
  }

  /** `"\b \b"` blanks the cell before the cursor, except in column 0, where it blanks the cell under it. */
  lemma RuboutWrites(t: Screen)
    requires t.Valid()
    ensures var u := Write(t, RUBOUT);
      && u.Valid() && u.attr == t.attr
      && u.Pos() == (if t.col > 0 then t.Pos() - 1 else t.Pos())
      && u.cells == t.cells[u.Pos() := Entry(SPACE, t.attr)]
  {
    hide UpdateCursor, Entry, Putc, Write;
    RuboutSteps(t);
    WriteThree(t, BACKSPACE, SPACE, BACKSPACE);
  }

  lemma WriteThree(t: Screen, a: byte, b: byte, c: byte)
    requires t.Valid() && Putc(t, a).Valid() && Putc(Putc(t, a), b).Valid()
    ensures Write(t, [a, b, c]) == Putc(Putc(Putc(t, a), b), c)
  {
    hide Putc, Write;
    TypeEcho(t, a);
    WriteAppend(t, [a], b);
    WriteAppend(t, [a, b], c);
    assert [a] + [b] == [a, b] && [a, b] + [c] == [a, b, c];
  }

  lemma RuboutSteps(t: Screen)
    requires t.Valid()
    ensures Putc(t, BACKSPACE).Valid()
    ensures Putc(Putc(t, BACKSPACE), SPACE).Valid()
    ensures var u := Putc(Putc(Putc(t, BACKSPACE), SPACE), BACKSPACE);
      && u.Valid() && u.attr == t.attr
      && u.Pos() == (if t.col > 0 then t.Pos() - 1 else t.Pos())
      && u.cells == t.cells[u.Pos() := Entry(SPACE, t.attr)]
  {
    hide UpdateCursor, Entry;
    var c := if t.col > 0 then t.col - 1 else t.col;
    if t.col > 0 { UpdateSyncs(t.(col := c)); }
    var t1 := Putc(t, BACKSPACE);
    var t2 := t1.(cells := t1.cells[t1.Pos() := Entry(SPACE, t.attr)], col := c + 1);
    UpdateSyncs(t2);
    assert Putc(t1, SPACE) == UpdateCursor(t2);
    UpdateSyncs(UpdateCursor(t2).(col := c));
  }

  lemma ColumnOfSlot(s: Screen, t: Screen, n: nat)
    requires s.Valid() && t.Valid() && t.Pos() == Slot(s.Pos(), n)
    ensures t.col == (s.col + n) % WIDTH
  {
    var k := (s.Pos() + n) / CELLS;
    assert t.Pos() + CELLS * k == s.Pos() + n;
    DropRows(s.row, s.col + n);
    DropRows(t.row + HEIGHT * k, t.col);
  }

  lemma DropRows(rows: nat, x: nat)
    ensures (rows * WIDTH + x) % WIDTH == x % WIDTH
  {
  }

  lemma TypedShows(s: Screen, t: Screen, line: seq<byte>, high: nat, c: byte)
    requires Shows(s, t, line, high) && |line| <= high <= CAPACITY
    requires !IsControl(c) && |line| < CAPACITY
    ensures Shows(s, Putc(t, c), line + [c], if |line| + 1 > high then |line| + 1 else high)
  {
    hide Entry, UpdateCursor, Putc;
    PutcKeeps(t, c);
    SlotNext(s.Pos(), |line|);
    var u, n := Putc(t, c), |line|;
    forall i: nat | i < CELLS && i != n
      ensures u.cells[Slot(s.Pos(), i)] == t.cells[Slot(s.Pos(), i)]
    {
      if i < n { SlotsDiffer(s.Pos(), i, n); } else { SlotsDiffer(s.Pos(), n, i); }
    }
  }

  lemma RuboutShows(s: Screen, t: Screen, line: seq<byte>, high: nat)
    requires Shows(s, t, line, high) && 0 < |line| <= high <= CAPACITY
    ensures Shows(s, Write(t, RUBOUT), line[..|line| - 1], high) <==> (s.col + |line|) % WIDTH != 0
  {
    hide Entry, UpdateCursor, Write, Slot;
    RuboutWrites(t);
    ColumnOfSlot(s, t, |line|);
    var u, n := Write(t, RUBOUT), |line| - 1;
    SlotBefore(s.Pos(), n);
    SlotsDiffer(s.Pos(), n, n + 1);
    if t.col > 0 {
      forall i: nat | i < CELLS && i != n
        ensures u.cells[Slot(s.Pos(), i)] == t.cells[Slot(s.Pos(), i)]
      {
        if i < n { SlotsDiffer(s.Pos(), i, n); } else { SlotsDiffer(s.Pos(), n, i); }
      }
    }
  }

  lemma SlotBefore(p: nat, n: nat)
    ensures Slot(p, n + 1) > 0 ==> Slot(p, n) == Slot(p, n + 1) - 1
  {
  }

  lemma KeyEffects(s: Screen, keys: seq<byte>, c: byte)
    requires s.Valid() && !IsEnter(c)
    ensures Edit(keys + [c]).editing == Type(Edit(keys).editing, c)
    ensures HighWater(keys + [c])
         == if |Edit(keys + [c]).editing| > HighWater(keys) then |Edit(keys + [c]).editing| else HighWater(keys)
    ensures Echoed(s, keys + [c]) == Write(Echoed(s, keys), EchoOf(Edit(keys).editing, c))
  {
    hide Edit, EchoText, Write, EchoOf;
    assert (keys + [c])[..|keys|] == keys;
    EditAppend(keys, c);
    EchoTextAppend(keys, c);
    WriteConcat(s, EchoText(keys), EchoOf(Edit(keys).editing, c));
  }

  lemma TypeEcho(t: Screen, c: byte)
    requires t.Valid()
    ensures Write(t, [c]) == Putc(t, c) && Write(t, []) == t
  {
    hide Putc;
    WriteAppend(t, [], c);
    assert [] + [c] == [c];
  }

  /** One key: if the screen shows the line before it, it does so after it unless it is a rubout in column 0. */
  lemma KeyShows(s: Screen, keys: seq<byte>, c: byte)
    requires s.Valid() && !IsEnter(c)
    requires HighWater(keys) <= CAPACITY
    requires Shows(s, Echoed(s, keys), Edit(keys).editing, HighWater(keys))
    ensures HighWater(keys + [c]) <= CAPACITY
    ensures Shows(s, Echoed(s, keys + [c]), Edit(keys + [c]).editing, HighWater(keys + [c]))
       <==> (IsErase(c) && Edit(keys).editing != [] ==> (s.col + |Edit(keys).editing|) % WIDTH != 0)
  {
    hide Shows, Putc, Write, Edit, Echoed, HighWater;
    var line, t := Edit(keys).editing, Echoed(s, keys);
    KeyEffects(s, keys, c);
    TypeEcho(t, c);
    if IsErase(c) {
      if line != [] {
        RuboutShows(s, t, line, HighWater(keys));
      }
    } else if |line| < CAPACITY {
      TypedShows(s, t, line, HighWater(keys), c);
    }
  }

  /**
   Echo agrees with the edit buffer after every keystroke exactly when no erase
   key takes a character off the line with the cursor in column 0.
   */
  lemma {:induction false} EchoAgreesExactly(s: Screen, keys: seq<byte>)
    requires s.Valid() && NoEnter(keys)
    ensures (forall n :: 0 <= n <= |keys| ==>
               Shows(s, Echoed(s, keys[..n]), Edit(keys[..n]).editing, HighWater(keys[..n])))
       <==> NoRuboutAtColumnZero(s.col, keys)
  {
    hide Shows, Edit, HighWater, Echoed;
    if NoRuboutAtColumnZero(s.col, keys) {
      forall n | 0 <= n <= |keys|
        ensures Shows(s, Echoed(s, keys[..n]), Edit(keys[..n]).editing, HighWater(keys[..n]))
      {
        EchoAgrees(s, keys, n);
      }
    } else {
      var i :| 0 <= i < |keys| && IsErase(keys[i]) && Edit(keys[..i]).editing != []
            && (s.col + |Edit(keys[..i]).editing|) % WIDTH == 0;
      EchoDisagrees(s, keys, i);
    }
  }

  lemma EchoDisagrees(s: Screen, keys: seq<byte>, i: nat)
    requires s.Valid() && i < |keys| && IsErase(keys[i]) && Edit(keys[..i]).editing != []
    requires (s.col + |Edit(keys[..i]).editing|) % WIDTH == 0
    ensures exists n | i <= n <= i + 1 ::
              !Shows(s, Echoed(s, keys[..n]), Edit(keys[..n]).editing, HighWater(keys[..n]))
  {
    hide Shows, Edit, HighWater, Echoed;
    assert keys[..i + 1] == keys[..i] + [keys[i]];
    HighWaterBound(keys[..i]);
    if Shows(s, Echoed(s, keys[..i]), Edit(keys[..i]).editing, HighWater(keys[..i])) {
      KeyShows(s, keys[..i], keys[i]);
      assert !Shows(s, Echoed(s, keys[..i + 1]), Edit(keys[..i + 1]).editing, HighWater(keys[..i + 1]));
    }
  }

  lemma {:induction false} HighWaterBound(keys: seq<byte>)
    ensures HighWater(keys) <= CAPACITY
  {
    LinesAreWellFormed(keys);
    if keys != [] {
      HighWaterBound(keys[..|keys| - 1]);
    }
  }

  lemma EchoStart(s: Screen)
    requires s.Valid()
    ensures HighWater([]) == 0
    ensures Shows(s, Echoed(s, []), Edit([]).editing, HighWater([]))
  {
  }

  lemma {:induction false} EchoAgrees(s: Screen, keys: seq<byte>, n: nat)
    requires s.Valid() && NoEnter(keys) && n <= |keys|
    requires NoRuboutAtColumnZero(s.col, keys)
    ensures HighWater(keys[..n]) <= CAPACITY
    ensures Shows(s, Echoed(s, keys[..n]), Edit(keys[..n]).editing, HighWater(keys[..n]))
  {
    hide Shows, Edit, HighWater, Echoed;
    if n == 0 {
      assert keys[..0] == [];
      EchoStart(s);
    } else {
      EchoAgrees(s, keys, n - 1);
      assert keys[..n] == keys[..n - 1] + [keys[n - 1]];
      KeyShows(s, keys[..n - 1], keys[n - 1]);
    }
  }

  /**
   Enter writes no cell and goes to column 0 of the next row: behind a line that
   is shown, the row below its last character.
   */
  lemma EnterEchoed(s: Screen, keys: seq<byte>, enter: byte)
    requires s.Valid() && NoEnter(keys) && (enter == 0x0A || enter == 0x0D)
    ensures var t, u := Echoed(s, keys), Echoed(s, keys + [enter]);
      && u.cells == t.cells && u.attr == t.attr && u.col == 0 && u.row == (t.row + 1) % 25
      && (NoRuboutAtColumnZero(s.col, keys) ==>
            && Shows(s, t, Edit(keys).editing, HighWater(keys))
            && u.row == (s.row + (s.col + |Edit(keys).editing|) / 80 + 1) % 25)
  {
    hide Shows, Edit, EchoText, Write, Putc, NoRuboutAtColumnZero, HighWater;
    var t, n := Echoed(s, keys), |Edit(keys).editing|;
    EchoTextAppend(keys, enter);
    WriteConcat(s, EchoText(keys), [LF]);
    TypeEcho(t, LF);
    PutcKeeps(t, LF);
    if NoRuboutAtColumnZero(s.col, keys) {
      assert keys[..|keys|] == keys;
      EchoAgrees(s, keys, |keys|);
      ShownRow(s, t, Edit(keys).editing, HighWater(keys));
      NextRowAdds(s.row + (s.col + n) / WIDTH);
    }
  }

  lemma ShownRow(s: Screen, t: Screen, line: seq<byte>, high: nat)
    requires Shows(s, t, line, high)
    ensures t.row == (s.row + (s.col + |line|) / WIDTH) % HEIGHT
  {
    var n := s.col + |line|;
    assert Slot(s.Pos(), |line|) == Slot(s.row * WIDTH, n);
    hide Slot, Entry;
    RowOfSlot(s.row, n);
    ThenRow(t.row, t.col, (s.row + n / WIDTH) % HEIGHT, n % WIDTH);
  }

  lemma NextRowAdds(row: nat)
    ensures (row % HEIGHT + 1) % 25 == (row + 1) % 25
  {
  }

  /** What is typed after an Enter is echoed as on the screen that the Enter left. */
  lemma EchoContinues(s: Screen, before: seq<byte>, after: seq<byte>)
    requires s.Valid() && Edit(before).editing == []
    ensures Echoed(s, before + after) == Echoed(Echoed(s, before), after)
  {
    hide Edit, EchoText, Write;
    EchoTextContinues(before, after);
    WriteConcat(s, EchoText(before), EchoText(after));
  }

  lemma {:induction false} EchoTextContinues(before: seq<byte>, after: seq<byte>)
    requires Edit(before).editing == []
    ensures EchoText(before + after) == EchoText(before) + EchoText(after)
  {
    hide Edit, EchoText, EchoOf;
    if after == [] {
      NoEcho();
      assert before + after == before && EchoText(before) + [] == EchoText(before);
    } else {
      var front, c := after[..|after| - 1], after[|after| - 1];
      EchoTextContinues(before, front);
      FrontAndLast(after);
      Associates(before, front, [c]);
      ContinueEdit(before, front);
      EchoTextAppend(before + front, c);
      EchoTextAppend(front, c);
      Associates(EchoText(before), EchoText(front), EchoOf(Edit(front).editing, c));
    }
  }

  lemma NoEcho()
    ensures EchoText([]) == []
  {
  }

  /** A line that never reaches the right edge of its row is always shown faithfully. */
  lemma {:induction false} ShortLinesAreSafe(start: nat, keys: seq<byte>)
    requires start + HighWater(keys) <= 79
    ensures NoRuboutAtColumnZero(start, keys)
  {
    forall i | 0 <= i < |keys|
      ensures |Edit(keys[..i]).editing| <= HighWater(keys)
    {
      HighWaterCovers(keys, i);
    }
  }

  lemma {:induction false} HighWaterCovers(keys: seq<byte>, i: nat)
    requires i <= |keys|
    ensures HighWater(keys[..i]) <= HighWater(keys)
  {
    if i < |keys| {
      var front := keys[..|keys| - 1];
      assert front[..i] == keys[..i];
      HighWaterCovers(front, i);
    } else {
      assert keys[..i] == keys;
    }
  }

  /** An `a` typed in column 79 and erased: the line is empty, and the `a` is still on the screen. */
  lemma ErasedButShown(s: Screen)
    requires s.Valid() && s.col == 79
    ensures var keys: seq<byte> := [0x61, BACKSPACE];
      && Edit(keys).editing == []
      && Echoed(s, keys).cells[s.Pos()] == Entry(0x61, s.attr)
      && Echoed(s, keys).Pos() == (s.Pos() + 1) % CELLS
      && !NoRuboutAtColumnZero(s.col, keys)
  {
    hide Entry, UpdateCursor, Write, Echoed, Edit, Putc;
    var a: seq<byte> := [0x61];
    NothingEdited(s);
    assert [] + [0x61] == a && a + [BACKSPACE] == [0x61, BACKSPACE];
    KeyEffects(s, [], 0x61);
    KeyEffects(s, a, BACKSPACE);
    TypeEcho(s, 0x61);
    PutcKeeps(s, 0x61);
    LastColumnWraps(s);
    RuboutWrites(Putc(s, 0x61));
    assert [0x61, BACKSPACE][..1] == a;
  }

  lemma LastColumnWraps(s: Screen)
    requires s.Valid() && s.col == 79
    ensures Putc(s, 0x61).col == 0 && (s.Pos() + 1) % CELLS != s.Pos()
  {
    hide Entry;
  }

  lemma NothingEdited(s: Screen)
    requires s.Valid()
    ensures Edit([]).editing == [] && Echoed(s, []) == s
  {
  }
}
