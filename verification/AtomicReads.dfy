/**
 The program of `InputPath`, one memory access at a time among interrupts, is a
 run of the atomic cooked reads of `Tty`: the same counts, on the answers that
 `kbd_get` gave it.
 */
module AtomicReads {
  import opened Bytes
  import KeyRing
  import opened ScanCodes
  import opened LineEditor
  import opened InputPath
  import Tty

  /** Cooked calls with the given counts. */
  function CookedCalls(counts: seq<nat>): (calls: seq<Tty.Call>)
    ensures |calls| == |counts|
  {
    if counts == [] then [] else CookedCalls(counts[..|counts| - 1]) + [Tty.Cooked(counts[|counts| - 1])]
  }

  /** The reads that have returned. */
  function Finished(s: System): seq<nat> {
    if s.program.Reading? && s.calls != [] then s.calls[..|s.calls| - 1] else s.calls
  }

  /** The atomic reads with the counts `counts` on the answers `asked`. */
  function Atomic(asked: seq<int>, counts: seq<nat>): Tty.Reader {
    Tty.Steps(Tty.Fresh(asked), CookedCalls(counts))
  }

  /** The atomic reads up to here did what the program did, and the answers to the read in progress are left. */
  ghost predicate Matches(s: System, r: Tty.Reader) {
    && !r.blocked && r.delivered == s.returned && r.leftover == s.leftover
    && r.rest == if s.program.Reading? then s.program.answers else []
  }

  /** The read in progress is the last one called. */
  ghost predicate LastCalled(s: System) {
    s.program.Reading? ==> s.calls != [] && s.calls[|s.calls| - 1] == s.program.count
  }

  ghost predicate Refines(s: System) {
    Matches(s, Atomic(s.asked, Finished(s))) && LastCalled(s) && Tty.Keystrokes(s.asked) == s.handled
  }

  // ---------------------------------------------------------------------------
  // More answers do not change the calls that have returned

  lemma FirstEnterKept(keys: seq<int>, more: seq<int>)
    requires Tty.FirstEnter(keys) < |keys|
    ensures Tty.FirstEnter(keys + more) == Tty.FirstEnter(keys)
  {
    hide Tty.FirstEnter;
    var e, e' := Tty.FirstEnter(keys), Tty.FirstEnter(keys + more);
    var all := keys + more;
    assert forall j :: 0 <= j < |keys| ==> all[j] == keys[j];
    assert Tty.EndsLine(all[e]) && (e' < |all| ==> Tty.EndsLine(all[e']));
  }

  lemma CookedReadKept(leftover: seq<byte>, keys: seq<int>, more: seq<int>, count: nat)
    requires Tty.CookedRead(leftover, keys, count).Done?
    ensures Tty.CookedRead(leftover, keys + more, count) == Tty.CookedRead(leftover, keys, count)
  {
    hide Tty.FirstEnter, Tty.Deliver, Edit, Terminate, Tty.Keystrokes;
    if leftover == [] {
      FirstEnterKept(keys, more);
      var e := Tty.FirstEnter(keys);
      assert (keys + more)[..e] == keys[..e];
    }
  }

  /** `r` with `more` answers to come. */
  function WithMore(r: Tty.Reader, more: seq<int>): Tty.Reader {
    r.(rest := r.rest + more)
  }

  lemma StepKept(r: Tty.Reader, count: nat, more: seq<int>)
    requires !Tty.Step(r, Tty.Cooked(count)).blocked
    ensures Tty.Step(WithMore(r, more), Tty.Cooked(count)) == WithMore(Tty.Step(r, Tty.Cooked(count)), more)
  {
    hide Tty.CookedRead, Tty.Keystrokes;
    if !r.blocked {
      CookedReadKept(r.leftover, r.rest, more, count);
      Tty.CookedReadBounds(r.leftover, r.rest, count);
      var used := Tty.CookedRead(r.leftover, r.rest, count).used;
      assert (r.rest + more)[used..] == r.rest[used..] + more && (r.rest + more)[..used] == r.rest[..used];
    }
  }

  lemma {:induction false} CallsKept(asked: seq<int>, counts: seq<nat>, more: seq<int>)
    requires !Atomic(asked, counts).blocked
    ensures Atomic(asked + more, counts) == WithMore(Atomic(asked, counts), more)
  {
    hide Tty.Step;
    if counts != [] {
      var front, count := counts[..|counts| - 1], counts[|counts| - 1];
      AtomicAppend(asked, front, count);
      AtomicAppend(asked + more, front, count);
      assert counts == front + [count];
      BlockedStays(Atomic(asked, front), count);
      CallsKept(asked, front, more);
      StepKept(Atomic(asked, front), count, more);
    }
  }

  lemma BlockedStays(r: Tty.Reader, count: nat)
    ensures r.blocked ==> Tty.Step(r, Tty.Cooked(count)).blocked
  {
    hide Tty.CookedRead, Tty.Keystrokes;
  }

  lemma AtomicAppend(asked: seq<int>, counts: seq<nat>, count: nat)
    ensures Atomic(asked, counts + [count]) == Tty.Step(Atomic(asked, counts), Tty.Cooked(count))
  {
    hide Tty.Step;
    assert (counts + [count])[..|counts|] == counts;
    var calls := CookedCalls(counts) + [Tty.Cooked(count)];
    assert calls[..|counts|] == CookedCalls(counts);
  }

  // ---------------------------------------------------------------------------
  // One action

  lemma OtherKeepsRefines(s: System, s': System)
    requires Refines(s) && s'.program == s.program && s'.asked == s.asked && s'.calls == s.calls
    requires s'.returned == s.returned && s'.leftover == s.leftover && s'.handled == s.handled
    ensures Refines(s')
  {
    hide Atomic, Tty.Keystrokes;
  }

  lemma ReadRefines(s: System, count: nat)
    requires Inv(s) && Refines(s) && s.program.Idle?
    ensures Refines(Act(s, Read(count)))
  {
    hide Inv, Atomic, Tty.Keystrokes, Tty.CookedRead;
    if s.leftover != [] {
      RemainderIsReturned(s, count);
      AtomicAppend(s.asked, s.calls, count);
      StepOnRemainder(Atomic(s.asked, s.calls), count);
    } else {
      assert (s.calls + [count])[..|s.calls|] == s.calls;
    }
  }

  lemma StepOnRemainder(r: Tty.Reader, count: nat)
    requires !r.blocked && r.rest == [] && Tty.CookedRead(r.leftover, [], count).Done?
    requires Tty.CookedRead(r.leftover, [], count).used == 0
    ensures var (r', o) := (Tty.Step(r, Tty.Cooked(count)), Tty.CookedRead(r.leftover, [], count));
      !r'.blocked && r'.rest == [] && r'.delivered == r.delivered + o.out && r'.leftover == o.leftover
  {
    hide Tty.CookedRead, Tty.Keystrokes;
  }

  lemma AnswerRefines(s: System, headFirst: bool)
    requires Inv(s) && Refines(s) && s.program.Reading? && s.fifo.pc.Returned?
    ensures Refines(Act(s, Progress(headFirst)))
  {
    hide Inv, Atomic, Matches, Tty.Keystrokes, Tty.CookedRead, Type, Terminate;
    var k, s' := s.fifo.pc.k, Act(s, Progress(headFirst));
    NotBlocked(s, Atomic(s.asked, Finished(s)));
    CallsKept(s.asked, Finished(s), [k]);
    Tty.KeystrokesAppend(s.asked, k);
    if Tty.EndsLine(k) {
      EnterReturnsCookedRead(s, headFirst);
      assert s.calls == Finished(s) + [s.program.count];
      AtomicAppend(s'.asked, Finished(s), s.program.count);
      StepOnEnter(s, Atomic(s.asked, Finished(s)), k, s');
    } else {
      GoesOn(s, Atomic(s.asked, Finished(s)), k, s');
    }
  }

  lemma NotBlocked(s: System, r: Tty.Reader)
    requires Matches(s, r)
    ensures !r.blocked
  {
  }

  lemma NothingLeft(s: System)
    requires Inv(s) && s.program.Reading?
    ensures s.leftover == []
  {
  }

  lemma StepOnEnter(s: System, r: Tty.Reader, k: int, s': System)
    requires Inv(s) && s.program.Reading? && Matches(s, r) && s'.program.Idle?
    requires var o := Tty.CookedRead([], s.program.answers + [k], s.program.count);
      && o.Done? && o.used == |s.program.answers| + 1
      && s'.returned == s.returned + o.out && s'.leftover == o.leftover
    ensures Matches(s', Tty.Step(WithMore(r, [k]), Tty.Cooked(s.program.count)))
  {
    hide Inv, Tty.CookedRead, Tty.Keystrokes;
    NothingLeft(s);
  }

  lemma GoesOn(s: System, r: Tty.Reader, k: int, s': System)
    requires Matches(s, r) && s.program.Reading? && s'.program.Reading?
    requires s'.program.answers == s.program.answers + [k] && s'.returned == s.returned && s'.leftover == s.leftover
    ensures Matches(s', WithMore(r, [k]))
  {
  }

  lemma ActRefines(s: System, a: Action)
    requires Inv(s) && Refines(s)
    ensures Refines(Act(s, a))
  {
    hide Inv, Refines, Scan, KeyRing.Produce, KeyRing.Consume, Handle, HandOver;
    match a
    case Irq(status, data) => OtherKeepsRefines(s, Act(s, a));
    case Progress(headFirst) =>
      if s.program.Reading? && s.fifo.pc.Returned? {
        AnswerRefines(s, headFirst);
      } else {
        OtherKeepsRefines(s, Act(s, a));
      }
    case Read(count) =>
      if s.program.Idle? {
        ReadRefines(s, count);
      } else {
        OtherKeepsRefines(s, Act(s, a));
      }
  }

  // ---------------------------------------------------------------------------
  // Any run

  lemma {:induction false} RunRefines(s: System, actions: seq<Action>)
    requires Inv(s) && Refines(s)
    ensures Refines(Run(s, actions))
  {
    hide Inv, Refines, Act;
    if actions != [] {
      var front := actions[..|actions| - 1];
      RunRefines(s, front);
      ActRefines(Run(s, front), actions[|actions| - 1]);
    }
  }

  /**
   In every interleaving, what the reads have returned and what is left of the
   last line is what atomic reads with the same counts give on the answers of
   `kbd_get`, whose keys are the bytes that the editor has acted on.
   */
  lemma ReadsAreAtomic(layout: Layout, memory: seq<byte>, actions: seq<Action>)
    requires |memory| == KeyRing.SIZE
    ensures Refines(Reached(layout, memory, actions))
  {
    hide Inv, Refines, Run;
    BootInv(layout, memory);
    BootRefines(layout, memory);
    RunRefines(Boot(layout, memory), actions);
  }

  lemma BootRefines(layout: Layout, memory: seq<byte>)
    ensures Refines(Boot(layout, memory))
  {
  }

  /** The counts are those of the read actions, in order, apart from actions while a read is in progress. */
  lemma CallsAreReads(s: System, a: Action)
    requires Inv(s)
    ensures Act(s, a).calls == if a.Read? && s.program.Idle? then s.calls + [a.count] else s.calls
  {
    hide Inv, Scan, KeyRing.Produce, KeyRing.Consume, Type, Terminate;
  }
}
