/**
 `_read` on standard input.  `keys` are the answers that successive calls of the
 keyboard driver give during the call: a byte, or a negative number for "nothing".
 A call that has used them all up without an end of line is still blocked.
 */
module Tty {
  import opened Bytes
  import opened LineEditor
  import opened Echo
  import opened TextScreen

  /** The keys among the answers. */
  function Keystrokes(keys: seq<int>): seq<byte> {
    if keys == [] then []
    else
      var k := keys[|keys| - 1];
      Keystrokes(keys[..|keys| - 1]) + if k < 0 then [] else [AsByte(k)]
  }

  lemma KeystrokesAppend(keys: seq<int>, k: int)
    ensures Keystrokes(keys + [k]) == if k < 0 then Keystrokes(keys) else Keystrokes(keys) + [AsByte(k)]
  {
    assert (keys + [k])[..|keys|] == keys;
  }

  predicate EndsLine(k: int) {
    k >= 0 && IsEnter(AsByte(k))
  }

  /** The index of the first answer that ends a line. */
  function FirstEnter(keys: seq<int>): (e: nat)
    ensures e <= |keys|
    ensures forall j :: 0 <= j < e ==> !EndsLine(keys[j])
    ensures e < |keys| ==> EndsLine(keys[e])
  {
    if keys == [] || EndsLine(keys[0]) then 0 else 1 + FirstEnter(keys[1..])
  }

  datatype Outcome = Blocked | Done(out: seq<byte>, leftover: seq<byte>, used: nat)

  /** The first `count` bytes of `stored`, and the rest. */
  function Deliver(stored: seq<byte>, count: nat, used: nat): Outcome {
    var n := if |stored| < count then |stored| else count;
    Done(stored[..n], stored[n..], used)
  }

  /** A cooked read: a remainder of the previous line first, otherwise a new line. */
  function CookedRead(leftover: seq<byte>, keys: seq<int>, count: nat): Outcome {
    if leftover != [] then Deliver(leftover, count, 0)
    else
      var e := FirstEnter(keys);
      if e == |keys| then Blocked
      else Deliver(Terminate(Edit(Keystrokes(keys[..e])).editing), count, e + 1)
  }

  /** What one more answer does to the keys, the edit buffer and the echoed screen. */
  lemma AnswerEffect(s: Screen, keys: seq<int>, used: nat)
    requires s.Valid() && used < |keys|
    ensures var before, c := Keystrokes(keys[..used]), AsByte(keys[used]);
      var after := Keystrokes(keys[..used + 1]);
      if keys[used] < 0 then after == before
      else
        && after == before + [c]
        && (!IsEnter(c) ==> Edit(after).editing == Type(Edit(before).editing, c))
        && Write(s, EchoText(after)) == Write(Write(s, EchoText(before)), EchoOf(Edit(before).editing, c))
  {
    hide Write, Edit, EchoText, EchoOf;
    assert keys[..used + 1] == keys[..used] + [keys[used]];
    KeystrokesAppend(keys[..used], keys[used]);
    var before, c := Keystrokes(keys[..used]), AsByte(keys[used]);
    EditAppend(before, c);
    EchoTextAppend(before, c);
    WriteConcat(s, EchoText(before), EchoOf(Edit(before).editing, c));
  }

  lemma NothingTyped(s: Screen)
    requires s.Valid()
    ensures Keystrokes([]) == [] && Edit([]).editing == [] && Write(s, EchoText([])) == s && Write(s, []) == s
  {
  }

  /** The index of the first answer that is a key. */
  function FirstKey(keys: seq<int>): (f: nat)
    ensures f <= |keys|
    ensures forall j :: 0 <= j < f ==> keys[j] < 0
    ensures f < |keys| ==> keys[f] >= 0
  {
    if keys == [] || keys[0] >= 0 then 0 else 1 + FirstKey(keys[1..])
  }

  /** The number of keys at the front of the answers, at most `count`. */
  function Run(keys: seq<int>, count: nat): (n: nat)
    ensures n <= count && n <= |keys|
    ensures forall j :: 0 <= j < n ==> keys[j] >= 0
    ensures n < count && n < |keys| ==> keys[n] < 0
  {
    if keys == [] || count == 0 || keys[0] < 0 then 0 else 1 + Run(keys[1..], count - 1)
  }

  /**
   A raw read: the first run of keys, and one more answer when a "nothing" ended
   it.  A raw read of 0 bytes never returns, and takes no answer.
   */
  function RawRead(keys: seq<int>, count: nat): Outcome {
    var f := FirstKey(keys);
    var n := Run(keys[f..], count);
    if count == 0 then Blocked
    else if n == count then Done(Keystrokes(keys[f..f + n]), [], f + n)
    else if f + n == |keys| then Blocked
    else Done(Keystrokes(keys[f..f + n]), [], f + n + 1)
  }

  lemma RawReadOfNone(keys: seq<int>)
    ensures RawRead(keys, 0) == Blocked
  {
  }

  /** `strlen` of a buffer: the index of its first NUL, or its length if it has none. */
  function StrLen(s: seq<byte>): (n: nat)
    ensures n <= |s| && 0 !in s[..n]
    ensures n < |s| ==> s[n] == 0
  {
    if s == [] || s[0] == 0 then 0
    else
      var n := StrLen(s[1..]);
      assert s[..n + 1] == [s[0]] + s[1..][..n];
      n + 1
  }

  lemma {:induction false} StrLenIs(s: seq<byte>, n: nat)
    requires n < |s| && s[n] == 0 && 0 !in s[..n]
    ensures StrLen(s) == n
  {
    if n > 0 {
      assert s[0] == s[..n][0];
      assert s[..n] == [s[0]] + s[1..][..n - 1];
      StrLenIs(s[1..], n - 1);
    }
  }

  /** The text that the echo of a raw read prints. */
  function RawEcho(buf: seq<byte>): seq<byte> {
    buf[..StrLen(buf)]
  }

  /** A NUL ends the buffer, so that `strlen` stays inside it. */
  predicate HasNul(buf: seq<byte>) {
    StrLen(buf) < |buf|
  }

  /**
   A raw read echoes the caller's buffer as a C string, so that the echo is
   the keys it returned exactly when none is 0 and a NUL already lay behind them.
   */
  lemma RawEchoExactly(out: seq<byte>, behind: seq<byte>)
    ensures HasNul(out + behind) && RawEcho(out + behind) == out
       <==> 0 !in out && behind != [] && behind[0] == 0
  {
    hide StrLen;
    var buf := out + behind;
    var n := StrLen(buf);
    if 0 !in out && behind != [] && behind[0] == 0 {
      assert buf[..|out|] == out;
      StrLenIs(buf, |out|);
    }
    if HasNul(buf) && RawEcho(buf) == out {
      assert n == |out| && buf[n] == behind[0];
    }
  }

  /** One key, `a`, read into a buffer that held `xb`: `ab` is echoed. */
  lemma StaleEcho()
    ensures HasNul([0x61] + [0x62, 0]) && RawEcho([0x61] + [0x62, 0]) == [0x61, 0x62]
  {
    hide StrLen;
    var buf := [0x61] + [0x62, 0];
    assert buf == [0x61, 0x62] + [0];
    RawEchoExactly([0x61, 0x62], [0]);
  }

  predicate IsKey(k: int, b: byte) {
    k >= 0 && b == AsByte(k)
  }

  /** `out` are the keys from `keys[f]` on. */
  ghost predicate IsRun(keys: seq<int>, f: nat, out: seq<byte>) {
    f + |out| <= |keys| && forall j :: 0 <= j < |out| ==> IsKey(keys[f + j], out[j])
  }

  lemma IsRunAppend(keys: seq<int>, f: nat, out: seq<byte>)
    requires IsRun(keys, f, out) && f + |out| < |keys| && keys[f + |out|] >= 0
    ensures IsRun(keys, f, out + [AsByte(keys[f + |out|])])
  {
    var out' := out + [AsByte(keys[f + |out|])];
    forall j | 0 <= j < |out'|
      ensures IsKey(keys[f + j], out'[j])
    {
      if j < |out| { assert IsKey(keys[f + j], out[j]); }
    }
  }

  lemma {:induction false} KeystrokesOfRun(keys: seq<int>, f: nat, out: seq<byte>, n: nat)
    requires IsRun(keys, f, out) && n <= |out|
    ensures Keystrokes(keys[f..f + n]) == out[..n]
  {
    hide Keystrokes, AsByte;
    NoKeys();
    if n > 0 {
      KeystrokesOfRun(keys, f, out, n - 1);
      var k := keys[f + (n - 1)];
      assert IsKey(k, out[n - 1]);
      OneMoreFrom(keys, f, n - 1);
      KeystrokesAppend(keys[f..f + (n - 1)], k);
      OneMore(out, n - 1);
    } else {
      assert keys[f..f + 0] == [] && out[..0] == [];
    }
  }

  lemma RawOutcome(keys: seq<int>, f: nat, out: seq<byte>, count: nat)
    requires 0 < count && |out| <= count && f <= |keys| && IsRun(keys, f, out)
    requires forall j :: 0 <= j < f ==> keys[j] < 0
    requires f + |out| <= |keys| && (f < |keys| ==> keys[f] >= 0)
    requires |out| == count || f + |out| == |keys| || keys[f + |out|] < 0
    ensures RawRead(keys, count)
         == if |out| == count then Done(out, [], f + |out|)
            else if f + |out| == |keys| then Blocked
            else Done(out, [], f + |out| + 1)
  {
    hide Keystrokes, FirstKey, Run;
    KeystrokesOfRun(keys, f, out, |out|);
    assert out[..|out|] == out;
    forall j | 0 <= j < |out|
      ensures keys[f..][j] >= 0
    {
      assert IsKey(keys[f + j], out[j]) && keys[f..][j] == keys[f + j];
    }
    assert out != [] ==> IsKey(keys[f + 0], out[0]);
    assert FirstKey(keys) == f;
    assert Run(keys[f..], count) == |out|;
  }

  // ---------------------------------------------------------------------------
  // Any sequence of calls

  datatype Call = Cooked(count: nat) | Raw(count: nat)

  /** The keys that one call has used. */
  datatype Segment = ByCooked(keys: seq<byte>) | ByRaw(keys: seq<byte>)

  /**
   The answers still to come, the keys used so far call by call, and the bytes
   that cooked and raw reads have returned.
   */
  datatype Reader = Reader(
    leftover: seq<byte>, rest: seq<int>, log: seq<Segment>, delivered: seq<byte>, raw: seq<byte>, blocked: bool)

  function Fresh(keys: seq<int>): Reader {
    Reader([], keys, [], [], [], false)
  }

  function AllKeys(log: seq<Segment>): seq<byte> {
    if log == [] then [] else AllKeys(log[..|log| - 1]) + log[|log| - 1].keys
  }

  function CookedKeys(log: seq<Segment>): seq<byte> {
    if log == [] then []
    else CookedKeys(log[..|log| - 1]) + if log[|log| - 1].ByCooked? then log[|log| - 1].keys else []
  }

  function RawKeys(log: seq<Segment>): seq<byte> {
    if log == [] then []
    else RawKeys(log[..|log| - 1]) + if log[|log| - 1].ByRaw? then log[|log| - 1].keys else []
  }

  lemma LogAppend(log: seq<Segment>, seg: Segment)
    ensures AllKeys(log + [seg]) == AllKeys(log) + seg.keys
    ensures CookedKeys(log + [seg]) == if seg.ByCooked? then CookedKeys(log) + seg.keys else CookedKeys(log)
    ensures RawKeys(log + [seg]) == if seg.ByRaw? then RawKeys(log) + seg.keys else RawKeys(log)
  {
    assert (log + [seg])[..|log|] == log;
  }

  /** One call; once a call has blocked there is no further one. */
  function Step(r: Reader, call: Call): Reader {
    if r.blocked then r
    else
      match call
      case Cooked(count) =>
        (match CookedRead(r.leftover, r.rest, count)
         case Blocked => r.(blocked := true)
         case Done(out, leftover, used) =>
           CookedReadBounds(r.leftover, r.rest, count);
           r.(leftover := leftover, rest := r.rest[used..], delivered := r.delivered + out,
              log := r.log + [ByCooked(Keystrokes(r.rest[..used]))]))
      case Raw(count) =>
        match RawRead(r.rest, count)
        case Blocked => r.(blocked := true)
        case Done(out, _, used) =>
          r.(rest := r.rest[used..], raw := r.raw + out, log := r.log + [ByRaw(Keystrokes(r.rest[..used]))])
  }

  function Steps(r: Reader, calls: seq<Call>): Reader {
    if calls == [] then r
    else Step(Steps(r, calls[..|calls| - 1]), calls[|calls| - 1])
  }

  lemma CookedReadBounds(leftover: seq<byte>, keys: seq<int>, count: nat)
    ensures var o := CookedRead(leftover, keys, count);
      o.Done? ==> o.used <= |keys| && |o.out| <= count
  {
  }

  lemma DeliverSplits(stored: seq<byte>, count: nat, used: nat)
    ensures var o := Deliver(stored, count, used);
      && o.Done? && o.used == used && o.out + o.leftover == stored
      && |o.out| <= count && (|o.out| == count || o.leftover == [])
  {
  }

  /** One cooked call stays within a line: it takes from the remainder of one, or from a whole new one. */
  lemma OneLinePerCall(leftover: seq<byte>, keys: seq<int>, count: nat)
    ensures var o := CookedRead(leftover, keys, count);
      o.Done? ==>
        && |o.out| <= count && (|o.out| == count || o.leftover == [])
        && (leftover != [] ==> o.out + o.leftover == leftover && o.used == 0)
        && (leftover == [] ==> o.used > 0 && Edit(Keystrokes(keys[..o.used])) == Session([o.out + o.leftover], []))
  {
    hide Edit, Keystrokes, FirstEnter, Terminate, Deliver;
    if leftover != [] {
      DeliverSplits(leftover, count, 0);
    } else if FirstEnter(keys) < |keys| {
      var e := FirstEnter(keys);
      NoEnterBefore(keys, e);
      EnterCompletes(keys, e);
      DeliverSplits(Terminate(Edit(Keystrokes(keys[..e])).editing), count, e + 1);
    }
  }

  /** A cooked read waits exactly while nothing is left of a line and no answer ends one. */
  lemma CookedReadBlocks(leftover: seq<byte>, keys: seq<int>, count: nat)
    ensures CookedRead(leftover, keys, count).Blocked? <==>
      leftover == [] && forall j :: 0 <= j < |keys| ==> keys[j] < 0 || (keys[j] % 256 != 10 && keys[j] % 256 != 13)
  {
    hide Edit, Keystrokes, FirstEnter, Terminate;
    var e := FirstEnter(keys);
    if e < |keys| {
      assert EndsLine(keys[e]);
    } else {
      assert forall j :: 0 <= j < |keys| ==> !EndsLine(keys[j]);
    }
  }

  lemma EnterCompletes(keys: seq<int>, e: nat)
    requires e < |keys| && NoEnter(Keystrokes(keys[..e])) && EndsLine(keys[e])
    ensures Edit(Keystrokes(keys[..e + 1])) == Session([Terminate(Edit(Keystrokes(keys[..e])).editing)], [])
  {
    hide *;
    OneMore(keys, e);
    EnterEndsLine(keys[..e], keys[e]);
  }

  lemma EnterEndsLine(typed: seq<int>, enter: int)
    requires NoEnter(Keystrokes(typed)) && EndsLine(enter)
    ensures Edit(Keystrokes(typed + [enter])) == Session([Terminate(Edit(Keystrokes(typed)).editing)], [])
  {
    hide Edit, Terminate, NoEnter, Keystrokes, AsByte;
    KeystrokesAppend(typed, enter);
    NoEnterNoLine(Keystrokes(typed));
    EditAppend(Keystrokes(typed), AsByte(enter));
  }

  lemma {:induction false} NoEnterBefore(keys: seq<int>, e: nat)
    requires e <= FirstEnter(keys)
    ensures NoEnter(Keystrokes(keys[..e]))
  {
    hide Keystrokes, FirstEnter, AsByte, IsEnter;
    NoKeys();
    if e > 0 {
      NoEnterBefore(keys, e - 1);
      OneMore(keys, e - 1);
      KeystrokesAppend(keys[..e - 1], keys[e - 1]);
    }
  }

  /**
   Chunking conserves bytes: whatever counts the caller asks for, the bytes
   delivered followed by the remainder are the lines edited from the keys that
   cooked reads used, in order, and raw reads in between change neither.
   */
  lemma {:induction false} ChunkingConserves(keys: seq<int>, calls: seq<Call>)
    ensures Conserved(Steps(Fresh(keys), calls))
  {
    hide Conserved, Step;
    if calls == [] {
      NothingRead(keys);
    } else {
      var front := calls[..|calls| - 1];
      ChunkingConserves(keys, front);
      StepConserves(Steps(Fresh(keys), front), calls[|calls| - 1]);
    }
  }

  ghost predicate Conserved(r: Reader) {
    r.delivered + r.leftover == Flatten(Edit(CookedKeys(r.log)).lines) && Edit(CookedKeys(r.log)).editing == []
  }

  lemma NothingRead(keys: seq<int>)
    ensures Conserved(Fresh(keys)) && Accounted(keys, Fresh(keys))
  {
    assert keys[..0] == [];
  }

  lemma StepConserves(r: Reader, call: Call)
    requires Conserved(r)
    ensures Conserved(Step(r, call))
  {
    hide Conserved, CookedRead, RawRead, Keystrokes, CookedKeys;
    if !r.blocked {
      match call
      case Cooked(count) => CookedCallConserves(r, count);
      case Raw(count) =>
        var o := RawRead(r.rest, count);
        if o.Done? {
          RawReadTakesKeys(r.rest, count);
          LogAppend(r.log, ByRaw(Keystrokes(r.rest[..o.used])));
          SameConserved(r, Step(r, call));
        } else {
          SameConserved(r, Step(r, call));
        }
    } else {
      assert Step(r, call) == r;
    }
  }

  lemma SameConserved(r: Reader, r': Reader)
    requires Conserved(r) && r'.delivered == r.delivered && r'.leftover == r.leftover
    requires CookedKeys(r'.log) == CookedKeys(r.log)
    ensures Conserved(r')
  {
  }

  lemma CookedCallConserves(r: Reader, count: nat)
    requires !r.blocked && Conserved(r)
    ensures Conserved(Step(r, Cooked(count)))
  {
    hide Edit, Keystrokes, CookedRead, Flatten, CookedKeys;
    var o := CookedRead(r.leftover, r.rest, count);
    if o.Done? {
      OneLinePerCall(r.leftover, r.rest, count);
      CookedReadBounds(r.leftover, r.rest, count);
      LogAppend(r.log, ByCooked(Keystrokes(r.rest[..o.used])));
      Associates(r.delivered, o.out, o.leftover);
      if r.leftover != [] {
        assert r.rest[..0] == [];
        NoKeys();
        assert CookedKeys(r.log) + [] == CookedKeys(r.log);
      } else {
        ContinueEdit(CookedKeys(r.log), Keystrokes(r.rest[..o.used]));
        FlattenAppend(Edit(CookedKeys(r.log)).lines, o.out + o.leftover);
        assert r.delivered + r.leftover == r.delivered;
      }
    }
  }

  lemma NoKeys()
    ensures Keystrokes([]) == []
  {
  }

  lemma {:induction false} KeystrokesConcat(a: seq<int>, b: seq<int>)
    ensures Keystrokes(a + b) == Keystrokes(a) + Keystrokes(b)
  {
    hide Keystrokes;
    if b == [] {
      NoKeys();
      assert a + b == a && Keystrokes(a) + [] == Keystrokes(a);
    } else {
      var front, k := b[..|b| - 1], b[|b| - 1];
      KeystrokesConcat(a, front);
      FrontAndLast(b);
      Associates(a, front, [k]);
      KeystrokesAppend(a + front, k);
      KeystrokesAppend(front, k);
      Associates(Keystrokes(a), Keystrokes(front), [AsByte(k)]);
    }
  }

  /** The segments of the log are, in order, the keys given so far; the raw ones are what raw reads returned. */
  ghost predicate Accounted(keys: seq<int>, r: Reader) {
    && |r.rest| <= |keys| && r.rest == keys[|keys| - |r.rest|..]
    && AllKeys(r.log) == Keystrokes(keys[..|keys| - |r.rest|])
    && r.raw == RawKeys(r.log)
  }

  /** A raw read returns all the keys among the answers it uses. */
  lemma RawReadTakesKeys(keys: seq<int>, count: nat)
    ensures var o := RawRead(keys, count);
      o.Done? ==> o.used <= |keys| && o.out == Keystrokes(keys[..o.used]) && 0 < |o.out| <= count
  {
    hide Keystrokes, FirstKey, Run;
    var f := FirstKey(keys);
    var n := Run(keys[f..], count);
    if count > 0 && f + n <= |keys| && (n == count || f + n < |keys|) {
      NoKeysBefore(keys, f);
      RunKeys(keys, f, n);
      assert keys[..f + n] == keys[..f] + keys[f..f + n];
      KeystrokesConcat(keys[..f], keys[f..f + n]);
      assert f < |keys| ==> keys[f..][0] == keys[f];
      if n < count {
        assert keys[..f + n + 1] == keys[..f + n] + [keys[f + n]] && keys[f..][n] == keys[f + n];
        KeystrokesAppend(keys[..f + n], keys[f + n]);
      }
    }
  }

  /**
   How a raw read ends: as soon as it has `count` keys or is told "nothing" after
   the first; until then it waits.
   */
  predicate StopsRight(keys: seq<int>, count: nat, o: Outcome) {
    match o
    case Done(out, _, used) =>
      && 0 < used <= |keys| && InOneRun(keys[..used - 1])
      && if |out| == count then keys[used - 1] >= 0 else keys[used - 1] < 0
    case Blocked => count > 0 ==> |Keystrokes(keys)| < count && InOneRun(keys)
  }

  lemma RawReadStops(keys: seq<int>, count: nat)
    ensures StopsRight(keys, count, RawRead(keys, count))
  {
    hide Keystrokes, FirstKey, Run, StopsRight;
    if count == 0 {
      WaitsForNone(keys);
    } else {
      var f := FirstKey(keys);
      var n := Run(keys[f..], count);
      FirstOfRun(keys, f);
      if n == count {
        FullRun(keys, f, n);
      } else if f + n < |keys| {
        EndedRun(keys, f, n, count);
      } else {
        OpenRun(keys, f, n, count);
      }
    }
  }

  lemma WaitsForNone(keys: seq<int>)
    ensures StopsRight(keys, 0, Blocked)
  {
  }

  lemma FirstOfRun(keys: seq<int>, f: nat)
    requires f <= |keys|
    ensures forall n :: 0 <= n < |keys| - f ==> keys[f..][n] == keys[f + n]
  {
  }

  lemma FullRun(keys: seq<int>, f: nat, n: nat)
    requires 0 < n && f + n <= |keys| && (forall j :: 0 <= j < f ==> keys[j] < 0)
    requires forall j :: 0 <= j < n ==> keys[f..][j] >= 0
    ensures StopsRight(keys, n, Done(Keystrokes(keys[f..f + n]), [], f + n))
  {
    hide Keystrokes;
    RunKeys(keys, f, n);
    assert keys[f..][n - 1] == keys[f + n - 1];
    forall i, j | 0 <= i < j < f + n - 1 && keys[i] >= 0
      ensures keys[j] >= 0
    {
      assert keys[j] == keys[f..][j - f];
    }
  }

  lemma EndedRun(keys: seq<int>, f: nat, n: nat, count: nat)
    requires n < count && f + n < |keys| && keys[f..][n] < 0 && (forall j :: 0 <= j < f ==> keys[j] < 0)
    requires forall j :: 0 <= j < n ==> keys[f..][j] >= 0
    ensures StopsRight(keys, count, Done(Keystrokes(keys[f..f + n]), [], f + n + 1))
  {
    hide Keystrokes, InOneRun;
    RunKeys(keys, f, n);
    RunIsOne(keys, f, n);
    assert keys[f..][n] == keys[f + n];
  }

  lemma OpenRun(keys: seq<int>, f: nat, n: nat, count: nat)
    requires n < count && f + n == |keys| && (forall j :: 0 <= j < f ==> keys[j] < 0)
    requires forall j :: 0 <= j < n ==> keys[f..][j] >= 0
    ensures StopsRight(keys, count, Blocked)
  {
    hide Keystrokes, InOneRun;
    NoKeysBefore(keys, f);
    RunKeys(keys, f, n);
    RunIsOne(keys, f, n);
    assert keys[..f + n] == keys && keys == keys[..f] + keys[f..f + n];
    KeystrokesConcat(keys[..f], keys[f..f + n]);
  }

  lemma RunIsOne(keys: seq<int>, f: nat, n: nat)
    requires f + n <= |keys| && forall j :: 0 <= j < f ==> keys[j] < 0
    requires forall j :: 0 <= j < n ==> keys[f..][j] >= 0
    ensures InOneRun(keys[..f + n])
  {
    forall i, j | 0 <= i < j < f + n && keys[i] >= 0
      ensures keys[j] >= 0
    {
      assert keys[j] == keys[f..][j - f];
    }
  }

  /** No "nothing" comes after a key. */
  predicate InOneRun(keys: seq<int>) {
    forall i, j :: 0 <= i < j < |keys| && keys[i] >= 0 ==> keys[j] >= 0
  }

  lemma {:induction false} NoKeysBefore(keys: seq<int>, f: nat)
    requires f <= |keys| && forall j :: 0 <= j < f ==> keys[j] < 0
    ensures Keystrokes(keys[..f]) == []
  {
    hide Keystrokes;
    NoKeys();
    if f > 0 {
      NoKeysBefore(keys, f - 1);
      OneMore(keys, f - 1);
      KeystrokesAppend(keys[..f - 1], keys[f - 1]);
    } else {
      assert keys[..0] == [];
    }
  }

  lemma {:induction false} RunKeys(keys: seq<int>, f: nat, n: nat)
    requires f + n <= |keys| && forall j :: 0 <= j < n ==> keys[f..][j] >= 0
    ensures |Keystrokes(keys[f..f + n])| == n
  {
    hide Keystrokes;
    NoKeys();
    if n > 0 {
      RunKeys(keys, f, n - 1);
      OneMoreFrom(keys, f, n - 1);
      assert keys[f..][n - 1] == keys[f + (n - 1)];
      KeystrokesAppend(keys[f..f + (n - 1)], keys[f + (n - 1)]);
    } else {
      assert keys[f..f + 0] == [];
    }
  }

  lemma UseKeys(keys: seq<int>, r: Reader, used: nat, seg: Segment, r': Reader)
    requires Accounted(keys, r) && used <= |r.rest| && seg.keys == Keystrokes(r.rest[..used])
    requires r'.rest == r.rest[used..] && r'.log == r.log + [seg]
    requires r'.raw == if seg.ByRaw? then r.raw + seg.keys else r.raw
    ensures Accounted(keys, r')
  {
    hide Keystrokes, AllKeys, RawKeys;
    var given := |keys| - |r.rest|;
    DropTwice(keys, given, used);
    assert |keys| - |r'.rest| == given + used;
    KeysTaken(keys, given, used, r.log, seg);
    RawTaken(r.log, seg);
  }

  lemma RawTaken(log: seq<Segment>, seg: Segment)
    ensures RawKeys(log + [seg]) == if seg.ByRaw? then RawKeys(log) + seg.keys else RawKeys(log)
  {
    hide RawKeys;
    LogAppend(log, seg);
  }

  lemma KeysTaken(keys: seq<int>, given: nat, used: nat, log: seq<Segment>, seg: Segment)
    requires given + used <= |keys| && AllKeys(log) == Keystrokes(keys[..given])
    requires seg.keys == Keystrokes(keys[given..][..used])
    ensures AllKeys(log + [seg]) == Keystrokes(keys[..given + used])
  {
    hide Keystrokes, AllKeys;
    Split(keys, given, used);
    KeystrokesConcat(keys[..given], keys[given..][..used]);
    LogAppend(log, seg);
  }

  lemma StepAccounts(keys: seq<int>, r: Reader, call: Call)
    requires Accounted(keys, r)
    ensures Accounted(keys, Step(r, call))
  {
    hide Keystrokes, CookedRead, RawRead, AllKeys, RawKeys;
    if !r.blocked {
      match call
      case Cooked(count) =>
        var o := CookedRead(r.leftover, r.rest, count);
        CookedReadBounds(r.leftover, r.rest, count);
        if o.Done? {
          UseKeys(keys, r, o.used, ByCooked(Keystrokes(r.rest[..o.used])), Step(r, call));
        }
      case Raw(count) =>
        var o := RawRead(r.rest, count);
        RawReadTakesKeys(r.rest, count);
        if o.Done? {
          UseKeys(keys, r, o.used, ByRaw(o.out), Step(r, call));
        }
    }
  }

  /**
   No key is lost: over any calls, the keys used by cooked and by raw reads are
   together exactly the keys given so far, in order, and raw reads return theirs
   unchanged.
   */
  lemma {:induction false} EveryKeyIsUsed(keys: seq<int>, calls: seq<Call>)
    ensures Accounted(keys, Steps(Fresh(keys), calls))
  {
    hide Step, Accounted;
    if calls == [] {
      NothingRead(keys);
    } else {
      EveryKeyIsUsed(keys, calls[..|calls| - 1]);
      StepAccounts(keys, Steps(Fresh(keys), calls[..|calls| - 1]), calls[|calls| - 1]);
    }
  }

  class Terminal {
    var cooked: bool
    var echo: bool
    const line: array<byte>
    var have: nat
    var pos: nat
    const console: Console

    ghost predicate Valid()
      reads this, console
    {
      && line.Length == CAPACITY + 1 && pos + have <= CAPACITY
      && console.Valid() && console.cells.Length == CELLS
    }

    /** The bytes prepared and not yet delivered. */
    ghost function Leftover(): seq<byte>
      reads this, console, line
      requires Valid()
    {
      line[pos..pos + have]
    }

    constructor (console: Console)
      requires console.Valid()
      ensures Valid() && fresh(line) && this.console == console
      ensures Leftover() == [] && cooked && echo
    {
      line := new byte[CAPACITY + 1](_ => 0);
      have, pos := 0, 0;
      cooked, echo := true, true;
      this.console := console;
    }

    method SetMode(cookedMode: bool)
      modifies this`cooked
      ensures cooked == cookedMode
    {
      cooked := cookedMode;
    }

    method SetEcho(on: bool)
      modifies this`echo
      ensures echo == on
    {
      echo := on;
    }

    /** The screen after `text` is echoed. */
    ghost function Display(s: Screen, text: seq<byte>): Screen
      requires s.Valid()
      reads this
    {
      if echo then Write(s, text) else s
    }

    method EchoChar(c: byte)
      requires Valid()
      modifies console, console.cells
      ensures console.Valid()
      ensures console.View() == Display(old(console.View()), if c == BACKSPACE then RUBOUT else [c])
    {
      if !echo { return; }
      if c == BACKSPACE {
        console.WriteText(RUBOUT);
      } else {
        TypeEcho(console.View(), c);
        console.PutChar(c);
      }
    }

    /** Copies up to `count` of the prepared bytes to the caller. */
    method HandOver(buf: array<byte>, count: nat) returns (n: nat)
      requires Valid() && count <= buf.Length && buf != line
      modifies this`have, this`pos, buf
      ensures Valid() && n <= count
      ensures Deliver(old(Leftover()), count, 0) == Done(buf[..n], Leftover(), 0)
      ensures pos + have == old(pos + have) && buf[n..] == old(buf[n..])
    {
      n := if have < count then have else count;
      ghost var stored := Leftover();
      CopyOut(buf, n);
      pos := pos + n;
      have := have - n;
      assert Leftover() == stored[n..];
    }

    /** `memcpy` of `n` bytes from the read position of the line. */
    method CopyOut(buf: array<byte>, n: nat)
      requires Valid() && n <= have && n <= buf.Length && buf != line
      modifies buf
      ensures buf[..n] == Leftover()[..n] && buf[n..] == old(buf[n..])
    {
      for i := 0 to n
        invariant forall k :: 0 <= k < i ==> buf[k] == line[pos + k]
        invariant forall k :: i <= k < buf.Length ==> buf[k] == old(buf[k])
      {
        buf[i] := line[pos + i];
      }
      assert forall k :: 0 <= k < n ==> Leftover()[k] == line[pos + k];
    }

    /** The editing loop: `len` characters are in `line` when an Enter, if any, ends it. */
    method EditLine(keys: seq<int>) returns (ended: bool, len: nat, used: nat)
      requires Valid()
      modifies line, console, console.cells
      ensures Valid() && len <= CAPACITY && used <= |keys|
      ensures if ended then used > 0 && FirstEnter(keys) == used - 1 else used == FirstEnter(keys) == |keys|
      ensures line[..len] == Edit(Keystrokes(keys[..FirstEnter(keys)])).editing
      ensures console.View() == Display(old(console.View()), EchoText(Keystrokes(keys[..used])))
    {
      hide Edit, EchoText, Write, Keystrokes;
      assert keys[..0] == [];
      NothingTyped(console.View());
      len, used := 0, 0;
      while used < |keys|
        invariant used <= |keys| && len <= CAPACITY && console.Valid()
        invariant used <= FirstEnter(keys)
        invariant line[..len] == Edit(Keystrokes(keys[..used])).editing
        invariant console.View() == Display(old(console.View()), EchoText(Keystrokes(keys[..used])))
      {
        AnswerEffect(old(console.View()), keys, used);
        NothingTyped(console.View());
        var k := keys[used];
        used := used + 1;
        if k < 0 { continue; }
        var c := AsByte(k);
        if c == CR { c := LF; }
        if c == BACKSPACE || c == DEL {
          if len > 0 {
            assert line[..len][..len - 1] == line[..len - 1];
            len := len - 1;
            EchoChar(BACKSPACE);
          }
          continue;
        }
        if c == LF {
          EchoChar(LF);
          return true, len, used;
        }
        if len + 1 < line.Length {
          ghost var before := line[..len];
          line[len] := c;
          len := len + 1;
          assert line[..len] == before + [c];
          EchoChar(c);
        }
      }
      return false, len, used;
    }

    /** Ends the line of `len` characters and makes it the bytes to deliver. */
    method PrepareLine(len: nat)
      requires Valid() && len <= CAPACITY
      modifies this`have, this`pos, line
      ensures Valid() && Leftover() == Terminate(old(line[..len])) && pos + have == |Terminate(old(line[..len]))|
    {
      ghost var typed := line[..len];
      have := len;
      if len < line.Length - 1 {
        line[len] := LF;
        have := len + 1;
      }
      pos := 0;
      assert line[..have] == Terminate(typed);
    }

    method ReadCooked(keys: seq<int>, buf: array<byte>, count: nat) returns (done: bool, n: nat, used: nat)
      requires Valid() && count <= buf.Length && buf != line
      modifies this`have, this`pos, line, buf, console, console.cells
      ensures Valid() && n <= count && used <= |keys| && buf[n..] == old(buf[n..])
      ensures CookedRead(old(Leftover()), keys, count)
           == if done then Done(buf[..n], Leftover(), used) else Blocked
      ensures !done ==> n == 0 && used == |keys| && Leftover() == []
      ensures console.View() == Display(old(console.View()), EchoText(Keystrokes(keys[..used])))
      ensures old(Leftover()) != [] ==> pos + have == old(pos + have)
      ensures old(Leftover()) == [] && done ==>
                used > 0 && pos + have == |Terminate(Edit(Keystrokes(keys[..used - 1])).editing)|
    {
      hide Edit, EchoText, Write, Keystrokes, FirstEnter, Terminate;
      assert |Leftover()| == have;
      if have > 0 {
        assert keys[..0] == [];
        NothingTyped(console.View());
        n := HandOver(buf, count);
        return true, n, 0;
      }
      var len;
      done, len, used := EditLine(keys);
      n := 0;
      if done {
        PrepareLine(len);
        n := HandOver(buf, count);
      }
    }

    /** `kbd_read` on the answers from `keys[first]` on: up to `count` keys, until an answer is "nothing". */
    method CopyRun(keys: seq<int>, first: nat, buf: array<byte>, count: nat) returns (n: nat)
      requires first <= |keys| && count <= buf.Length
      modifies buf
      ensures n <= count && buf[count..] == old(buf[count..])
      ensures IsRun(keys, first, buf[..n])
      ensures n == count || first + n == |keys| || keys[first + n] < 0
    {
      n := 0;
      while n < count && first + n < |keys| && keys[first + n] >= 0
        invariant n <= count && first + n <= |keys|
        invariant IsRun(keys, first, buf[..n])
        invariant buf[count..] == old(buf[count..])
      {
        IsRunAppend(keys, first, buf[..n]);
        ghost var before := buf[..n];
        buf[n] := AsByte(keys[first + n]);
        n := n + 1;
        assert buf[..n] == before + [AsByte(keys[first + n - 1])];
      }
    }

    /** A raw read: `kbd_read` again and again until it returns something, which it never does for 0 bytes. */
    method ReadRaw(keys: seq<int>, buf: array<byte>, count: nat) returns (done: bool, n: nat, used: nat)
      requires Valid() && count <= buf.Length && buf != line
      modifies buf, console, console.cells
      ensures Valid() && Leftover() == old(Leftover()) && buf[count..] == old(buf[count..])
      ensures n <= count
      ensures RawRead(keys, count) == if done then Done(buf[..n], [], used) else Blocked
      ensures done && HasNul(buf[..]) ==> console.View() == Display(old(console.View()), RawEcho(buf[..]))
      ensures !done || !echo ==> console.View() == old(console.View())
    {
      hide Keystrokes, FirstKey, Run, RawRead, IsRun, AsByte, StrLen, Write;
      RawReadOfNone(keys);
      if count == 0 { return false, 0, 0; }
      var first := 0;
      while first < |keys| && keys[first] < 0
        invariant first <= |keys| && forall j :: 0 <= j < first ==> keys[j] < 0
      {
        first := first + 1;
      }
      n := CopyRun(keys, first, buf, count);
      RawOutcome(keys, first, buf[..n], count);
      done := n == count || first + n < |keys|;
      used := first + if n < count then n + 1 else n;
      if done && echo && HasNul(buf[..]) {
        console.WriteText(RawEcho(buf[..]));
      }
    }

    /** `_read(0, buf, count)`. */
    method Read(keys: seq<int>, buf: array<byte>, count: nat) returns (done: bool, n: nat, used: nat)
      requires Valid() && count <= buf.Length && buf != line
      modifies this`have, this`pos, line, buf, console, console.cells
      ensures Valid() && n <= count && buf[count..] == old(buf[count..])
      ensures (if cooked then CookedRead(old(Leftover()), keys, count) else RawRead(keys, count))
           == if done then Done(buf[..n], if cooked then Leftover() else [], used) else Blocked
      ensures cooked ==> used <= |keys| && buf[n..] == old(buf[n..])
      ensures cooked ==> console.View() == Display(old(console.View()), EchoText(Keystrokes(keys[..used])))
      ensures !cooked && done && HasNul(buf[..]) ==>
                console.View() == Display(old(console.View()), RawEcho(buf[..]))
      ensures !cooked && (!done || !echo) ==> console.View() == old(console.View())
      ensures !cooked || !done ==> Leftover() == old(Leftover())
    {
      if !cooked {
        done, n, used := ReadRaw(keys, buf, count);
      } else {
        done, n, used := ReadCooked(keys, buf, count);
      }
    }
  }
}
