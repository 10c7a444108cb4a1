/**
 The keyboard ring buffer: a single-producer, single-consumer queue.  The
 producer is the keyboard interrupt, which may fire between any two memory
 accesses of the consumer; the consumer is therefore a machine of single loads
 and stores.
 */
module KeyRing {
  import opened Bytes

  const SIZE: nat := 256

  datatype Ring = Ring(buf: seq<byte>, head: nat, tail: nat) {

    predicate Valid() {
      |buf| == SIZE && head < SIZE && tail < SIZE
    }

    function Count(): nat
      requires Valid()
    {
      if head >= tail then head - tail else head - tail + SIZE
    }

    /** The slot of the `i`-th pending byte. */
    function Slot(i: nat): nat
      requires Valid() && i < SIZE
    {
      if tail + i < SIZE then tail + i else tail + i - SIZE
    }

    /** The bytes waiting to be read, oldest first. */
    function Pending(): (p: seq<byte>)
      requires Valid()
      ensures |p| == Count()
    {
      seq(Count(), i requires 0 <= i < Count() && Valid() => buf[Slot(i)])
    }
  }

  /** `kbd_put`. */
  function Put(r: Ring, c: byte): (r': Ring)
    requires r.Valid()
    ensures r'.Valid()
  {
    var next := (r.head + 1) % SIZE;
    if next != r.tail then r.(buf := r.buf[r.head := c], head := next) else r
  }

  /** `kbd_get`, when no interrupt comes in between: the ring after it and its result. */
  function Get(r: Ring): (g: (Ring, int))
    requires r.Valid()
    ensures g.0.Valid()
  {
    if r.head == r.tail then (r, -1)
    else (r.(tail := (r.tail + 1) % SIZE), SignExtend(r.buf[r.tail]))
  }

  /** A byte is appended, or dropped exactly when 255 bytes are already pending. */
  lemma PutAppends(r: Ring, c: byte)
    requires r.Valid()
    ensures Put(r, c).Pending() == if |r.Pending()| == SIZE - 1 then r.Pending() else r.Pending() + [c]
    ensures Put(r, c) == r <==> |r.Pending()| == SIZE - 1
    ensures Put(r, c).tail == r.tail
    ensures r.head != r.tail ==> Put(r, c).head != r.tail && Put(r, c).buf[r.tail] == r.buf[r.tail]
  {
    var r' := Put(r, c);
    var next := (r.head + 1) % SIZE;
    assert next == if r.head + 1 == SIZE then 0 else r.head + 1;
    assert r.Count() == SIZE - 1 <==> next == r.tail;
    if r.Count() != SIZE - 1 {
      assert r'.Count() == r.Count() + 1;
      HeadFollowsPending(r);
      forall i | 0 <= i < r'.Count()
        ensures r'.Pending()[i] == (r.Pending() + [c])[i]
      {
        assert r'.Slot(i) == r.Slot(i);
      }
    }
  }

  /** The pending bytes fill the slots from `tail` up to `head`. */
  lemma HeadFollowsPending(r: Ring)
    requires r.Valid()
    ensures r.Count() < SIZE && r.Slot(r.Count()) == r.head
    ensures forall i :: 0 <= i < r.Count() ==> r.Slot(i) != r.head
  {
  }

  /**
   `kbd_get` takes the oldest byte.  Its result is negative not only on an empty
   ring but also when that byte is 0x80 or above, although keyboard.h promises a
   negative result for an empty ring alone.
   */
  lemma GetTakesFront(r: Ring)
    requires r.Valid()
    ensures Get(r).0.Pending() == if r.Pending() == [] then [] else r.Pending()[1..]
    ensures Get(r).0.buf == r.buf && Get(r).0.head == r.head
    ensures Get(r).1 == if r.Pending() == [] then -1 else SignExtend(r.Pending()[0])
    ensures Get(r).1 < 0 <==> r.Pending() == [] || r.Pending()[0] >= 0x80
  {
    var r' := Get(r).0;
    if r.head != r.tail {
      assert r'.Count() == r.Count() - 1;
      forall i | 0 <= i < r'.Count()
        ensures r'.Pending()[i] == r.Pending()[i + 1]
      {
        assert r'.Slot(i) == r.Slot(i + 1);
      }
      assert r.Slot(0) == r.tail && r.Pending()[0] == r.buf[r.tail];
    }
  }

  lemma FrontByte(r: Ring)
    requires r.Valid() && r.head != r.tail
    ensures |r.Pending()| > 0 && r.Pending()[0] == r.buf[r.tail]
  {
  }

  /** A ring that holds the one byte 0xA4 gives a negative answer. */
  lemma NegativeThoughOccupied(buf: seq<byte>)
    requires |buf| == SIZE
    ensures var r := Put(Ring(buf, 0, 0), 0xA4);
      r.Pending() == [0xA4] && Get(r).1 == -92
  {
    PutAppends(Ring(buf, 0, 0), 0xA4);
    GetTakesFront(Put(Ring(buf, 0, 0), 0xA4));
    assert Ring(buf, 0, 0).Pending() == [];
  }

  // ---------------------------------------------------------------------------
  // kbd_get one memory access at a time

  /** Where the mainline is inside `kbd_get`, with the values it has loaded. */
  datatype Pc =
    | Ready
    | HeadLoaded(h: nat)             // the comparison loads kbd_head first ...
    | TailLoaded(t: nat)             // ... or kbd_tail first: C leaves it open
    | Occupied                       // the comparison said "not empty"
    | Indexed(t: nat)                // kbd_tail loaded for the subscript
    | CharLoaded(c: byte)
    | TailReloaded(c: byte, t: nat)  // kbd_tail loaded for the increment
    | Returned(k: int)

  /** One memory access of `kbd_get`.  The ring changes only in the last one. */
  function Access(r: Ring, pc: Pc, headFirst: bool): (Ring, Pc)
    requires r.Valid() && (pc.Indexed? ==> pc.t < SIZE)
  {
    match pc
    case Ready => (r, if headFirst then HeadLoaded(r.head) else TailLoaded(r.tail))
    case HeadLoaded(h) => (r, if h == r.tail then Returned(-1) else Occupied)
    case TailLoaded(t) => (r, if r.head == t then Returned(-1) else Occupied)
    case Occupied => (r, Indexed(r.tail))
    case Indexed(t) => (r, CharLoaded(r.buf[t]))
    case CharLoaded(c) => (r, TailReloaded(c, r.tail))
    case TailReloaded(c, t) => (r.(tail := (t + 1) % SIZE), Returned(SignExtend(c)))
    case Returned(_) => (r, pc)
  }

  /** The ring, the consumer's position, and the history of both ends. */
  datatype Fifo = Fifo(ring: Ring, pc: Pc, accepted: seq<byte>, consumed: seq<byte>, dropped: nat)

  function Start(buf: seq<byte>): Fifo {
    Fifo(Ring(buf, 0, 0), Ready, [], [], 0)
  }

  /** The interrupt stores `c`. */
  function Produce(f: Fifo, c: byte): Fifo
    requires f.ring.Valid()
  {
    var ring' := Put(f.ring, c);
    if ring' == f.ring then f.(dropped := f.dropped + 1)
    else f.(ring := ring', accepted := f.accepted + [c])
  }

  /** The mainline makes one access. */
  function Consume(f: Fifo, headFirst: bool): Fifo
    requires Inv(f)
  {
    var (ring', pc') := Access(f.ring, f.pc, headFirst);
    f.(ring := ring', pc := pc',
       consumed := if f.pc.TailReloaded? then f.consumed + [f.pc.c] else f.consumed)
  }

  /** The mainline calls `kbd_get` again. */
  function Recall(f: Fifo): Fifo {
    if f.pc.Returned? then f.(pc := Ready) else f
  }

  /** What the loaded values still say about the ring, whatever interrupts came since. */
  ghost predicate Agrees(r: Ring, pc: Pc)
    requires r.Valid()
  {
    match pc
    case Ready => true
    case HeadLoaded(h) => h == r.tail || r.head != r.tail
    case TailLoaded(t) => t == r.tail
    case Occupied => r.head != r.tail
    case Indexed(t) => r.head != r.tail && t == r.tail
    case CharLoaded(c) => r.head != r.tail && c == r.buf[r.tail]
    case TailReloaded(c, t) => r.head != r.tail && c == r.buf[r.tail] && t == r.tail
    case Returned(_) => true
  }

  ghost predicate Inv(f: Fifo) {
    && f.ring.Valid()
    && Agrees(f.ring, f.pc)
    && f.accepted == f.consumed + f.ring.Pending()
  }

  /** An interrupt keeps the invariant, leaves `tail` alone, and drops only at 255 pending. */
  lemma ProduceKeeps(f: Fifo, c: byte)
    requires Inv(f)
    ensures var f' := Produce(f, c);
      && Inv(f')
      && f'.ring.tail == f.ring.tail && f'.consumed == f.consumed && f'.pc == f.pc
      && (f'.dropped == f.dropped <==> |f.accepted| - |f.consumed| != SIZE - 1)
      && f'.accepted == (if f'.dropped == f.dropped then f.accepted + [c] else f.accepted)
      && f.dropped <= f'.dropped <= f.dropped + 1
  {
    PutAppends(f.ring, c);
  }

  /** A load finds in the ring what the machine says it does. */
  lemma LoadAgrees(r: Ring, pc: Pc, headFirst: bool)
    requires r.Valid() && Agrees(r, pc) && !pc.TailReloaded?
    ensures Access(r, pc, headFirst).0 == r && Agrees(r, Access(r, pc, headFirst).1)
  {
  }

  lemma StoreTakes(f: Fifo, headFirst: bool)
    requires Inv(f) && f.pc.TailReloaded?
    ensures var f' := Consume(f, headFirst);
      && Inv(f')
      && f'.ring.head == f.ring.head && f'.ring.buf == f.ring.buf && |f.consumed| < |f.accepted|
      && f'.consumed == f.consumed + [f.accepted[|f.consumed|]]
      && f'.pc == Returned(SignExtend(f.accepted[|f.consumed|]))
      && f'.accepted == f.accepted && f'.dropped == f.dropped
  {
    hide Ring.Pending, Ring.Count, Ring.Slot, SignExtend;
    GetTakesFront(f.ring);
    FrontByte(f.ring);
    assert f.accepted == (f.consumed + [f.pc.c]) + f.ring.Pending()[1..];
  }

  /** An access keeps the invariant, leaves `head` and the bytes alone, and returns the next byte. */
  lemma ConsumeKeeps(f: Fifo, headFirst: bool)
    requires Inv(f)
    ensures var f' := Consume(f, headFirst);
      && Inv(f')
      && f'.ring.head == f.ring.head && f'.ring.buf == f.ring.buf
      && f'.accepted == f.accepted && f'.dropped == f.dropped
      && (f'.consumed == f.consumed
          || (&& |f.consumed| < |f.accepted|
              && f'.consumed == f.consumed + [f.accepted[|f.consumed|]]
              && f'.pc == Returned(SignExtend(f.accepted[|f.consumed|]))))
  {
    if f.pc.TailReloaded? {
      hide Inv, Consume;
      StoreTakes(f, headFirst);
    } else {
      hide Ring.Pending, Access;
      LoadAgrees(f.ring, f.pc, headFirst);
    }
  }

  datatype Event = Interrupt(c: byte) | Mainline(headFirst: bool) | Call

  function Apply(f: Fifo, e: Event): (f': Fifo)
    requires Inv(f)
    ensures Inv(f')
  {
    match e
    case Interrupt(c) => ProduceKeeps(f, c); Produce(f, c)
    case Mainline(headFirst) => ConsumeKeeps(f, headFirst); Consume(f, headFirst)
    case Call => Recall(f)
  }

  /** The machine after `events`, in any interleaving. */
  function Run(f: Fifo, events: seq<Event>): (f': Fifo)
    requires Inv(f)
    ensures Inv(f')
  {
    hide Inv;
    if events == [] then f else Apply(Run(f, events[..|events| - 1]), events[|events| - 1])
  }

  function OfferedBy(e: Event): seq<byte> {
    if e.Interrupt? then [e.c] else []
  }

  /** The bytes the interrupts offered, in order. */
  function Offered(events: seq<Event>): seq<byte> {
    if events == [] then [] else Offered(events[..|events| - 1]) + OfferedBy(events[|events| - 1])
  }

  /** `s` is `t` with some of its bytes left out, the rest in order. */
  predicate IsSubsequence(s: seq<byte>, t: seq<byte>) {
    if s == [] then true
    else if t == [] then false
    else if IsSubsequence(s, t[..|t| - 1]) then true
    else s[|s| - 1] == t[|t| - 1] && IsSubsequence(s[..|s| - 1], t[..|t| - 1])
  }

  lemma SubsequenceAppend(s: seq<byte>, t: seq<byte>, c: byte)
    requires IsSubsequence(s, t)
    ensures IsSubsequence(s, t + [c])
    ensures IsSubsequence(s + [c], t + [c])
  {
    assert (t + [c])[..|t|] == t && (s + [c])[..|s|] == s;
  }

  /** The accepted bytes are the offered ones without those dropped. */
  ghost predicate History(f: Fifo, offered: seq<byte>) {
    && |f.accepted| + f.dropped == |offered|
    && IsSubsequence(f.accepted, offered)
    && (f.dropped == 0 <==> f.accepted == offered)
  }

  lemma ApplyKeepsHistory(f: Fifo, e: Event, offered: seq<byte>)
    requires Inv(f) && History(f, offered)
    ensures History(Apply(f, e), offered + OfferedBy(e))
  {
    hide Inv, Produce, Consume, IsSubsequence;
    match e
    case Interrupt(c) =>
      ProduceKeeps(f, c);
      SubsequenceAppend(f.accepted, offered, c);
    case Mainline(headFirst) =>
      ConsumeKeeps(f, headFirst);
      assert offered + [] == offered;
    case Call =>
      assert offered + [] == offered;
  }

  lemma InvCounts(f: Fifo)
    requires Inv(f)
    ensures f.ring.Valid() && f.consumed <= f.accepted
    ensures |f.accepted| - |f.consumed| == |f.ring.Pending()| < SIZE
  {
  }

  /**
   Interrupt-safe FIFO: in every interleaving the bytes consumed are a prefix of
   the bytes accepted, and these are the bytes offered, in order, without those
   dropped.
   */
  lemma {:induction false} FifoSafe(buf: seq<byte>, events: seq<Event>)
    requires |buf| == SIZE
    ensures Inv(Start(buf))
    ensures var f := Run(Start(buf), events);
      && f.consumed <= f.accepted
      && |f.accepted| - |f.consumed| == |f.ring.Pending()| < SIZE
      && History(f, Offered(events))
  {
    assert Start(buf).ring.Pending() == [];
    FifoHistory(Start(buf), events);
    hide Inv, History;
    InvCounts(Run(Start(buf), events));
  }

  lemma {:induction false} FifoHistory(f: Fifo, events: seq<Event>)
    requires Inv(f) && History(f, [])
    ensures History(Run(f, events), Offered(events))
  {
    hide Inv, History, Apply, OfferedBy;
    if events != [] {
      var front := events[..|events| - 1];
      FifoHistory(f, front);
      ApplyKeepsHistory(Run(f, front), events[|events| - 1], Offered(front));
    }
  }

  /** Uninterrupted, the accesses of one call amount to `Get`, in either load order. */
  function Uninterrupted(r: Ring, pc: Pc, headFirst: bool, steps: nat): (Ring, Pc)
    requires r.Valid() && Agrees(r, pc)
    decreases steps
  {
    if steps == 0 then (r, pc)
    else
      var f := Fifo(r, pc, r.Pending(), [], 0);
      ConsumeKeeps(f, headFirst);
      var (r', pc') := Access(r, pc, headFirst);
      Uninterrupted(r', pc', headFirst, steps - 1)
  }

  lemma AccessesRefineGet(r: Ring, headFirst: bool)
    requires r.Valid()
    ensures Uninterrupted(r, Ready, headFirst, 6) == (Get(r).0, Returned(Get(r).1))
  {
    var (r1, p1) := Access(r, Ready, headFirst);
    var (r2, p2) := Access(r1, p1, headFirst);
    assert Uninterrupted(r, Ready, headFirst, 6) == Uninterrupted(r2, p2, headFirst, 4);
    if r.head != r.tail {
      var (r4, p4) := Access(r2, Indexed(r.tail), headFirst);
      assert Uninterrupted(r2, p2, headFirst, 4) == Uninterrupted(r2, Indexed(r.tail), headFirst, 3);
      assert Uninterrupted(r2, Indexed(r.tail), headFirst, 3) == Uninterrupted(r4, p4, headFirst, 2);
    } else {
      assert Uninterrupted(r2, p2, headFirst, 4) == Uninterrupted(r2, p2, headFirst, 2);
    }
  }
}
