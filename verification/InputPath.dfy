/**
 From scan codes to `read()`: keyboard interrupts interleaved, one memory access
 at a time, with a program that keeps calling the cooked read.
 */
module InputPath {
  import opened Bytes
  import opened KeyRing
  import opened ScanCodes
  import opened LineEditor
  import Tty

  /**
   The program: between reads, or in the editing loop of one with `line` in the
   edit buffer; `answers` is the history of what `kbd_get` has told this read.
   */
  datatype Program = Idle | Reading(count: nat, line: seq<byte>, answers: seq<int>)

  datatype System = System(
    layout: Layout,
    codes: seq<byte>,     // history: the scan codes read from the port
    mods: Mods,
    fifo: Fifo,
    program: Program,
    handled: seq<byte>,   // history: the keys the editor has acted on
    leftover: seq<byte>,  // line[pos .. pos + have]
    returned: seq<byte>,  // history: the bytes all reads have returned
    asked: seq<int>,      // history: all answers the editing loop has acted on
    calls: seq<nat>       // history: the counts of the reads called, the one in progress included
  )

  datatype Action = Irq(status: byte, data: byte) | Progress(headFirst: bool) | Read(count: nat)

  function Boot(layout: Layout, memory: seq<byte>): System {
    System(layout, [], INITIAL, KeyRing.Start(memory), Idle, [], [], [], [], [])
  }

  /** The interrupt handler runs to completion. */
  function Interrupted(s: System, status: byte, data: byte): System
    requires KeyRing.Inv(s.fifo)
  {
    if status % 2 == 0 then s
    else
      var (mods', bytes) := Scan(s.layout, s.mods, data);
      s.(codes := s.codes + [data], mods := mods', fifo := if bytes == [] then s.fifo else Produce(s.fifo, bytes[0]))
  }

  /** A read hands over up to `count` bytes of `stored` and keeps the rest. */
  function HandOver(s: System, stored: seq<byte>, count: nat): System {
    var n := if |stored| < count then |stored| else count;
    s.(program := Idle, returned := s.returned + stored[..n], leftover := stored[n..])
  }

  /** The editing loop acts on the answer `k` of `kbd_get`. */
  function Handle(s: System, k: int): System
    requires s.program.Reading?
  {
    var p := s.program.(answers := s.program.answers + [k]);
    var again := s.(fifo := s.fifo.(pc := Ready), program := p, asked := s.asked + [k]);
    if k < 0 then again
    else
      var c := AsByte(k);
      var next := again.(handled := s.handled + [c]);
      if IsEnter(c) then HandOver(next, Terminate(p.line), p.count)
      else next.(program := p.(line := Type(p.line, c)))
  }

  function Act(s: System, a: Action): System
    requires Inv(s)
  {
    match a
    case Irq(status, data) => Interrupted(s, status, data)
    case Progress(headFirst) =>
      if s.program.Idle? then s
      else if s.fifo.pc.Returned? then Handle(s, s.fifo.pc.k)
      else s.(fifo := Consume(s.fifo, headFirst))
    case Read(count) =>
      if s.program.Reading? then s
      else
        var called := s.(calls := s.calls + [count]);
        if s.leftover != [] then HandOver(called, s.leftover, count)
        else called.(program := Reading(count, [], []))
  }

  /** The answer that `kbd_get` has given and the editor has not yet acted on. */
  function InFlight(s: System): seq<byte> {
    if s.fifo.pc.Returned? && s.fifo.pc.k >= 0 then [AsByte(s.fifo.pc.k)] else []
  }

  ghost predicate Inv(s: System) {
    KeyRing.Inv(s.fifo) && Decoded(s) && Edited(s)
  }

  /** What the interrupts have done with the scan codes. */
  ghost predicate Decoded(s: System) {
    && s.mods == Flags(s.layout, s.codes)
    && |s.fifo.accepted| + s.fifo.dropped == |Decode(s.layout, s.codes)|
    && (s.fifo.dropped == 0 ==> s.fifo.accepted == Decode(s.layout, s.codes))
  }

  /** What the reads have done with the bytes consumed. */
  ghost predicate Edited(s: System) {
    && Ascii(s.fifo.consumed) == s.handled + InFlight(s)
    && Edit(s.handled).editing == (if s.program.Reading? then s.program.line else [])
    && s.returned + s.leftover == Flatten(Edit(s.handled).lines)
    && (s.program.Reading? ==> s.leftover == [] && Looping(s.program))
    && (s.program.Idle? ==> s.fifo.pc == Ready)
  }

  /** The editing loop has seen no end of line, and its buffer is the one `Tty` specifies. */
  ghost predicate Looping(p: Program)
    requires p.Reading?
  {
    && Tty.FirstEnter(p.answers) == |p.answers|
    && p.line == Edit(Tty.Keystrokes(p.answers)).editing
  }

  lemma LoopNext(p: Program, k: int)
    requires p.Reading? && Looping(p)
    ensures Tty.EndsLine(k) ==> Tty.FirstEnter(p.answers + [k]) == |p.answers|
    ensures !Tty.EndsLine(k) ==>
      Looping(p.(answers := p.answers + [k], line := if k < 0 then p.line else Type(p.line, AsByte(k))))
  {
    hide Tty.FirstEnter, Tty.Keystrokes, Edit;
    var all := p.answers + [k];
    assert forall j :: 0 <= j < |p.answers| ==> all[j] == p.answers[j];
    assert all[|p.answers|] == k;
    Tty.KeystrokesAppend(p.answers, k);
    EditAppend(Tty.Keystrokes(p.answers), AsByte(k));
  }

  /**
   A read called while part of a line is left returns at once: the first `count`
   bytes of it, or all of it, and nothing else changes.
   */
  lemma RemainderIsReturned(s: System, count: nat)
    requires Inv(s) && s.program.Idle? && s.leftover != []
    ensures var (s', n) := (Act(s, Read(count)), if |s.leftover| < count then |s.leftover| else count);
      && s' == s.(calls := s.calls + [count], returned := s.returned + s.leftover[..n], leftover := s.leftover[n..])
      && Tty.CookedRead(s.leftover, [], count) == Tty.Done(s.leftover[..n], s.leftover[n..], 0)
  {
    hide Inv;
  }

  /** The read that an Enter ends returns, and keeps, exactly what `Tty.CookedRead` specifies for its answers. */
  lemma EnterReturnsCookedRead(s: System, headFirst: bool)
    requires Inv(s) && s.program.Reading? && s.fifo.pc.Returned? && Tty.EndsLine(s.fifo.pc.k)
    ensures var (p, s') := (s.program, Act(s, Progress(headFirst)));
      var o := Tty.CookedRead([], p.answers + [s.fifo.pc.k], p.count);
      && s'.program.Idle? && o.Done?
      && s'.returned == s.returned + o.out && s'.leftover == o.leftover && o.used == |p.answers| + 1
      && s'.calls == s.calls
  {
    hide Edit, Flatten, Ascii, Tty.FirstEnter, Tty.Keystrokes, Terminate, KeyRing.Inv, Decoded;
    LoopNext(s.program, s.fifo.pc.k);
    assert (s.program.answers + [s.fifo.pc.k])[..|s.program.answers|] == s.program.answers;
  }

  lemma AtMostOne(l: Layout, m: Mods, sc: byte)
    ensures |Scan(l, m, sc).1| <= 1
  {
    hide KeyByte;
  }

  /** The interrupt's effect on the queue: at most one byte is offered. */
  lemma InterruptOffers(s: System, data: byte)
    requires KeyRing.Inv(s.fifo)
    ensures var f, f' := s.fifo, Interrupted(s, 1, data).fifo;
      var bytes := Scan(s.layout, s.mods, data).1;
      && KeyRing.Inv(f') && f'.consumed == f.consumed && f'.pc == f.pc
      && |f'.accepted| + f'.dropped == |f.accepted| + f.dropped + |bytes|
      && f'.dropped >= f.dropped
      && (f'.dropped == f.dropped ==> f'.accepted == f.accepted + bytes)
  {
    hide Scan, Produce;
    AtMostOne(s.layout, s.mods, data);
    var bytes := Scan(s.layout, s.mods, data).1;
    if bytes == [] {
      assert s.fifo.accepted + bytes == s.fifo.accepted;
    } else {
      assert bytes == [bytes[0]];
      ProduceKeeps(s.fifo, bytes[0]);
    }
  }

  lemma InterruptKeeps(s: System, status: byte, data: byte)
    requires Inv(s)
    ensures Inv(Interrupted(s, status, data))
  {
    if status % 2 == 1 {
      hide Scan, Produce, KeyRing.Inv, Decoded, Edited;
      InterruptOffers(s, data);
      var s' := Interrupted(s, 1, data);
      assert Interrupted(s, status, data) == s';
      DecodedNext(s, data, s');
      EditedSame(s, s');
    }
  }

  lemma DecodedNext(s: System, data: byte, s': System)
    requires Decoded(s)
    requires s'.layout == s.layout && s'.codes == s.codes + [data] && s'.mods == Scan(s.layout, s.mods, data).0
    requires var bytes := Scan(s.layout, s.mods, data).1;
      && |s'.fifo.accepted| + s'.fifo.dropped == |s.fifo.accepted| + s.fifo.dropped + |bytes|
      && s'.fifo.dropped >= s.fifo.dropped
      && (s'.fifo.dropped == s.fifo.dropped ==> s'.fifo.accepted == s.fifo.accepted + bytes)
    ensures Decoded(s')
  {
    hide Scan, Decode, Flags;
    DecodeAppend(s.layout, s.codes, data);
  }

  lemma EditedSame(s: System, s': System)
    requires Edited(s) && s'.fifo.consumed == s.fifo.consumed && s'.fifo.pc == s.fifo.pc
    requires s'.program == s.program && s'.handled == s.handled
    requires s'.leftover == s.leftover && s'.returned == s.returned
    ensures Edited(s')
  {
  }

  lemma AccessKeeps(s: System, headFirst: bool)
    requires Inv(s) && s.program.Reading? && !s.fifo.pc.Returned?
    ensures Inv(Act(s, Progress(headFirst)))
  {
    hide Edit, Flatten, Decode, Flags, Ascii;
    ConsumeKeeps(s.fifo, headFirst);
    if s.fifo.pc.TailReloaded? {
      AsciiAppend(s.fifo.consumed, s.fifo.pc.c);
    }
  }

  /** What a hand-over leaves alone, and that it neither loses nor repeats a byte. */
  lemma HandOverSplits(s: System, stored: seq<byte>, count: nat)
    ensures var s' := HandOver(s, stored, count);
      && s'.returned + s'.leftover == s.returned + stored
      && s' == s.(program := Idle, returned := s'.returned, leftover := s'.leftover)
  {
    var s' := HandOver(s, stored, count);
    var n := if |stored| < count then |stored| else count;
    assert stored[..n] + stored[n..] == stored;
    assert s.returned + stored[..n] + stored[n..] == s.returned + (stored[..n] + stored[n..]);
  }

  lemma HandleKeeps(s: System)
    requires Inv(s) && s.program.Reading? && s.fifo.pc.Returned?
    ensures Inv(Handle(s, s.fifo.pc.k))
  {
    hide Edit, Flatten, Decode, Flags, Ascii, Terminate, Looping, HandOver;
    var k := s.fifo.pc.k;
    LoopNext(s.program, k);
    if k >= 0 {
      var c := AsByte(k);
      EditAppend(s.handled, c);
      if IsEnter(c) {
        var line := Terminate(s.program.line);
        FlattenAppend(Edit(s.handled).lines, line);
        assert s.returned + [] == s.returned;
        HandOverSplits(EnterTyped(s), line, s.program.count);
      }
    }
  }

  /** The state in which an Enter hands over the line. */
  function EnterTyped(s: System): System
    requires s.program.Reading? && s.fifo.pc.Returned? && s.fifo.pc.k >= 0
  {
    s.(fifo := s.fifo.(pc := Ready), program := s.program.(answers := s.program.answers + [s.fifo.pc.k]),
       handled := s.handled + [AsByte(s.fifo.pc.k)], asked := s.asked + [s.fifo.pc.k])
  }

  lemma ReadKeeps(s: System, count: nat)
    requires Inv(s)
    ensures Inv(Act(s, Read(count)))
  {
    hide Edit, Flatten, Decode, Flags, Ascii, HandOver, Interrupted, Handle, Consume;
    if s.program.Idle? {
      if s.leftover != [] {
        HandOverSplits(s.(calls := s.calls + [count]), s.leftover, count);
      } else {
        NothingAnswered(count);
        hide Looping;
      }
    }
  }

  lemma NothingAnswered(count: nat)
    ensures Looping(Reading(count, [], []))
  {
  }

  lemma ActKeeps(s: System, a: Action)
    requires Inv(s)
    ensures Inv(Act(s, a)) && Act(s, a).layout == s.layout
  {
    match a
    case Irq(status, data) =>
      hide Inv, Scan, Produce;
      InterruptKeeps(s, status, data);
    case Progress(headFirst) =>
      hide Inv, Consume;
      if s.program.Reading? {
        if s.fifo.pc.Returned? { HandleKeeps(s); } else { AccessKeeps(s, headFirst); }
      }
    case Read(count) =>
      hide Inv;
      ReadKeeps(s, count);
  }

  lemma BootInv(layout: Layout, memory: seq<byte>)
    requires |memory| == SIZE
    ensures Inv(Boot(layout, memory))
  {
    assert KeyRing.Start(memory).ring.Pending() == [];
  }

  /** Any interleaving of interrupts, memory accesses and read calls. */
  function Run(s: System, actions: seq<Action>): (s': System)
    requires Inv(s)
    ensures Inv(s') && s'.layout == s.layout
  {
    hide Inv, Act;
    if actions == [] then s
    else
      var front := Run(s, actions[..|actions| - 1]);
      ActKeeps(front, actions[|actions| - 1]);
      Act(front, actions[|actions| - 1])
  }

  /** The system after `actions` from power-on, whatever was in the ring's memory. */
  function Reached(layout: Layout, memory: seq<byte>, actions: seq<Action>): (s: System)
    requires |memory| == SIZE
    ensures Inv(s) && s.layout == layout
  {
    BootInv(layout, memory);
    Run(Boot(layout, memory), actions)
  }

  /** The scan codes that the interrupts read from the port: those that found bit 0 of the status set. */
  function PortCodes(actions: seq<Action>): seq<byte> {
    if actions == [] then []
    else
      PortCodes(actions[..|actions| - 1]) +
      match actions[|actions| - 1]
      case Irq(status, data) => if status % 2 == 1 then [data] else []
      case Progress(_) => []
      case Read(_) => []
  }

  lemma CodesStep(s: System, a: Action)
    requires Inv(s)
    ensures Act(s, a).codes == s.codes +
      match a
      case Irq(status, data) => if status % 2 == 1 then [data] else []
      case Progress(_) => []
      case Read(_) => []
  {
    hide Inv, Scan, Produce, Consume, Type, Terminate;
    assert s.codes + [] == s.codes;
  }

  lemma {:induction false} CodesOfRun(s: System, actions: seq<Action>)
    requires Inv(s)
    ensures Run(s, actions).codes == s.codes + PortCodes(actions)
  {
    hide Inv, Act;
    if actions == [] {
      assert s.codes + [] == s.codes;
    } else {
      var front := actions[..|actions| - 1];
      CodesOfRun(s, front);
      CodesStep(Run(s, front), actions[|actions| - 1]);
    }
  }

  lemma CodesAreRead(layout: Layout, memory: seq<byte>, actions: seq<Action>)
    requires |memory| == SIZE
    ensures Reached(layout, memory, actions).codes == PortCodes(actions)
  {
    hide Inv, Run, PortCodes;
    BootInv(layout, memory);
    CodesOfRun(Boot(layout, memory), actions);
    assert [] + PortCodes(actions) == PortCodes(actions);
  }

  lemma {:induction false} AsciiOfPrefix(a: seq<byte>, b: seq<byte>)
    ensures Ascii(a) <= Ascii(a + b)
  {
    if b == [] {
      assert a + b == a;
    } else {
      AsciiOfPrefix(a, b[..|b| - 1]);
      assert a + b == (a + b[..|b| - 1]) + [b[|b| - 1]];
      AsciiAppend(a + b[..|b| - 1], b[|b| - 1]);
    }
  }

  lemma EditedPrefix(keys: seq<byte>, all: seq<byte>)
    requires keys <= all
    ensures Flatten(Edit(keys).lines) <= Flatten(Edit(all).lines)
  {
    var more := all[|keys|..];
    assert all == keys + more;
    LinesOnlyGrow(keys, more);
    var lines, rest := Edit(keys).lines, Edit(all).lines[|Edit(keys).lines|..];
    assert Edit(all).lines == lines + rest;
    FlattenConcat(lines, rest);
  }

  /** In a state that satisfies the invariant, the reads have returned a prefix of the lines typed. */
  lemma ReturnedIsPrefix(s: System)
    requires Inv(s)
    ensures s.returned <= Flatten(Edit(Ascii(s.fifo.accepted)).lines)
    ensures s.returned + s.leftover <= Flatten(Edit(Ascii(s.fifo.accepted)).lines)
  {
    hide Edit, Flatten, Ascii, Looping;
    AsciiOfPrefix(s.fifo.consumed, s.fifo.ring.Pending());
    EditedPrefix(s.handled, Ascii(s.fifo.accepted));
  }

  /** Once the ring is empty and no key is in flight, nothing of a completed line is missing. */
  lemma NothingWithheld(s: System)
    requires Inv(s) && s.fifo.ring.Pending() == [] && InFlight(s) == []
    ensures s.returned + s.leftover == Flatten(Edit(Ascii(s.fifo.accepted)).lines)
  {
    hide Edit, Flatten, Ascii, Looping;
    assert s.fifo.consumed == s.fifo.accepted;
    assert s.handled + [] == s.handled;
  }

  /**
   End to end: in every interleaving, what the reads have returned is a prefix
   of the lines edited from the ASCII bytes that the ring accepted, and all of
   them are returned or prepared once the ring is empty and no key is in flight.
   */
  lemma EndToEnd(layout: Layout, memory: seq<byte>, actions: seq<Action>)
    requires |memory| == SIZE
    ensures var s := Reached(layout, memory, actions);
      var typed := Flatten(Edit(Ascii(s.fifo.accepted)).lines);
      && s.returned <= s.returned + s.leftover <= typed
      && (s.fifo.ring.Pending() == [] && InFlight(s) == [] ==> s.returned + s.leftover == typed)
  {
    hide Reached, Inv, Edit, Flatten, Ascii;
    var s := Reached(layout, memory, actions);
    InvRing(s);
    ReturnedIsPrefix(s);
    if s.fifo.ring.Pending() == [] && InFlight(s) == [] {
      NothingWithheld(s);
    }
  }

  lemma InvRing(s: System)
    requires Inv(s)
    ensures s.fifo.ring.Valid()
  {
  }

  /**
   From the scan codes alone: as long as no byte was dropped, what the reads have
   returned is a prefix of the lines edited from the ASCII bytes that the scan
   codes decode to, and nothing of these is missing once the ring is empty and no
   key is in flight.
   */
  lemma ScanCodesToRead(layout: Layout, memory: seq<byte>, actions: seq<Action>)
    requires |memory| == SIZE
    ensures var s := Reached(layout, memory, actions);
      var typed := Flatten(Edit(Ascii(Decode(layout, PortCodes(actions)))).lines);
      s.fifo.dropped == 0 ==>
        && s.returned <= s.returned + s.leftover <= typed
        && (s.fifo.ring.Pending() == [] && InFlight(s) == [] ==> s.returned + s.leftover == typed)
  {
    hide Reached, Edit, Flatten, Decode, Flags, Ascii;
    EndToEnd(layout, memory, actions);
    CodesAreRead(layout, memory, actions);
  }

  /** When every byte decoded is below 0x80, as on the US layout, these are the lines typed. */
  lemma AsciiScanCodesToRead(layout: Layout, memory: seq<byte>, actions: seq<Action>)
    requires |memory| == SIZE
    ensures layout == US ==> forall b :: b in Decode(layout, PortCodes(actions)) ==> b < 0x80
    ensures var s := Reached(layout, memory, actions);
      var typed := Flatten(Edit(Decode(layout, PortCodes(actions))).lines);
      s.fifo.dropped == 0 && (forall b :: b in Decode(layout, PortCodes(actions)) ==> b < 0x80) ==>
        && s.returned <= s.returned + s.leftover <= typed
        && (s.fifo.ring.Pending() == [] && InFlight(s) == [] ==> s.returned + s.leftover == typed)
  {
    hide Reached, Edit, Flatten, Decode, Flags, Ascii;
    ScanCodesToRead(layout, memory, actions);
    DecodeRange(layout, PortCodes(actions));
    if forall b :: b in Decode(layout, PortCodes(actions)) ==> b < 0x80 {
      AsciiIdentity(Decode(layout, PortCodes(actions)));
    }
  }

  /** No read ever returns a byte of 0x80 or above, whatever is typed, on either layout, in any interleaving. */
  lemma OnlyAsciiReturned(layout: Layout, memory: seq<byte>, actions: seq<Action>)
    requires |memory| == SIZE
    ensures forall b :: b in Reached(layout, memory, actions).returned ==> b < 0x80
  {
    hide Reached, Edit, Flatten, Ascii;
    EndToEnd(layout, memory, actions);
    var s := Reached(layout, memory, actions);
    var typed := Flatten(Edit(Ascii(s.fifo.accepted)).lines);
    AsciiLines(Ascii(s.fifo.accepted));
    forall b | b in s.returned
      ensures b < 0x80
    {
      var i :| 0 <= i < |s.returned| && s.returned[i] == b;
      assert typed[i] == b && typed[i] in typed;
    }
  }

  /** The Spanish layout has keys for such bytes: scan code 0x27 queues 0xA4, with shift 0xA5. */
  lemma SpanishEnyeIsQueued()
    ensures Decode(ES, [0x27]) == [0xA4]
    ensures Decode(ES, [LEFT_SHIFT, 0x27]) == [0xA5]
  {
    hide Table;
    EnyeEntry();
    NothingScanned(ES);
    DecodeAppend(ES, [], 0x27);
    DecodeAppend(ES, [], LEFT_SHIFT);
    DecodeAppend(ES, [LEFT_SHIFT], 0x27);
    assert [] + [0x27] == [0x27] && [] + [LEFT_SHIFT] == [LEFT_SHIFT];
    assert [LEFT_SHIFT] + [0x27] == [LEFT_SHIFT, 0x27];
  }

  lemma EnyeEntry()
    ensures Table(ES, false, 0x27) == 0xA4 && Table(ES, true, 0x27) == 0xA5
  {
  }

  lemma NothingScanned(l: Layout)
    ensures Decode(l, []) == [] && Flags(l, []) == INITIAL
  {
  }
}
