/** The PS/2 keyboard driver: its static state and the functions that change it. */
module Keyboard {
  import opened Bytes
  import opened KeyRing
  import opened ScanCodes

  class Driver {
    const buf: array<byte>
    var head: nat
    var tail: nat
    var left: bool
    var right: bool
    var caps: bool
    var seenE0: bool
    var layout: Layout

    ghost predicate Valid()
      reads this
    {
      buf.Length == SIZE && head < SIZE && tail < SIZE
    }

    ghost function Queue(): (r: Ring)
      reads this, buf
      ensures Valid() <==> r.Valid()
    {
      Ring(buf[..], head, tail)
    }

    ghost function Modifiers(): Mods
      reads this
    {
      Mods(left, right, caps, seenE0)
    }

    constructor ()
      ensures Valid() && fresh(buf)
      ensures Queue().Pending() == [] && Modifiers() == INITIAL && layout == US
    {
      buf := new byte[SIZE](_ => 0);
      head, tail := 0, 0;
      left, right, caps, seenE0 := false, false, false, false;
      layout := US;
    }

    method Store(c: byte)
      requires Valid()
      modifies this`head, buf
      ensures Valid()
      ensures Queue() == Put(old(Queue()), c)
      ensures Queue().Pending() == if |old(Queue().Pending())| == SIZE - 1 then old(Queue().Pending())
                                   else old(Queue().Pending()) + [c]
    {
      PutAppends(Queue(), c);
      var next := (head + 1) % SIZE;
      if next != tail {
        buf[head] := c;
        head := next;
      }
    }

    method Fetch() returns (k: int)
      requires Valid()
      modifies this`tail
      ensures Valid()
      ensures (Queue(), k) == Get(old(Queue()))
      ensures k < 0 <==> old(Queue().Pending()) == [] || old(Queue().Pending())[0] >= 0x80
    {
      GetTakesFront(Queue());
      if head == tail {
        return -1;
      }
      var c := buf[tail];
      tail := (tail + 1) % SIZE;
      return SignExtend(c);
    }

    /** `kbd_isr`: `data` is read from the port only when bit 0 of `status` is set. */
    method Interrupt(status: byte, data: byte)
      requires Valid()
      modifies this, buf
      ensures Valid() && layout == old(layout)
      ensures Modifiers() == if status % 2 == 1 then Scan(layout, old(Modifiers()), data).0 else old(Modifiers())
      ensures Queue() == if status % 2 == 1 then StoreAll(old(Queue()), Scan(layout, old(Modifiers()), data).1)
                         else old(Queue())
    {
      hide Table, StoreAll, Put, Ring.Pending;
      StoresFew(Queue());
      if status % 2 == 0 { return; }
      var sc := data;
      if sc == EXTENDED {
        seenE0 := true;
        return;
      }
      if sc >= 0x80 {
        var make := sc - 0x80;
        if make == LEFT_SHIFT { left := false; }
        if make == RIGHT_SHIFT { right := false; }
      } else {
        if sc == LEFT_SHIFT { left := true; return; }
        if sc == RIGHT_SHIFT { right := true; return; }
        if sc == CAPS_LOCK { caps := !caps; return; }
        var shift := left || right;
        var ch := Table(layout, shift, sc);
        if !shift && caps {
          if 'a' as int <= ch <= 'z' as int { ch := ch - 0x61 + 0x41; }
        } else if shift && caps {
          if 'A' as int <= ch <= 'Z' as int { ch := ch - 0x41 + 0x61; }
        }
        if ch != 0 {
          Store(ch);
        }
      }
    }

    method SetLayout(l: Layout)
      modifies this`layout
      ensures layout == l
    {
      layout := l;
    }

    /**
     `kbd_read`: the longest run of bytes below 0x80 at the front of the ring, at
     most `max`; a byte of 0x80 or above that ends the run is removed and lost.
     */
    method ReadInto(dst: array<byte>, max: nat) returns (n: nat)
      requires Valid() && max <= dst.Length && dst != buf
      modifies this`tail, dst
      ensures Valid() && n <= max && dst[n..] == old(dst[n..])
      ensures var p := old(Queue().Pending());
        && dst[..n] <= p
        && (forall b :: b in dst[..n] ==> b < 0x80)
        && (n == max || n == |p| || p[n] >= 0x80)
        && Queue().Pending() == p[if n < max && n < |p| then n + 1 else n..]
    {
      hide Ring.Pending, Get, SignExtend;
      ghost var p := Queue().Pending();
      n := 0;
      while n < max
        invariant Valid() && n <= max && n <= |p|
        invariant Queue().Pending() == p[n..]
        invariant forall k :: 0 <= k < n ==> dst[k] == p[k] && p[k] < 0x80
        invariant forall k :: n <= k < dst.Length ==> dst[k] == old(dst[k])
      {
        GetsNext(Queue(), p, n);
        var c := Fetch();
        if c < 0 {
          break;
        }
        dst[n] := AsByte(c);
        n := n + 1;
      }
    }
  }

  /** Taking from a ring that holds the bytes of `p` from `n` on. */
  lemma GetsNext(r: Ring, p: seq<byte>, n: nat)
    requires r.Valid() && n <= |p| && r.Pending() == p[n..]
    ensures Get(r).0.Pending() == p[if n < |p| then n + 1 else n..]
    ensures Get(r).1 < 0 <==> n == |p| || p[n] >= 0x80
    ensures n < |p| && p[n] < 0x80 ==> AsByte(Get(r).1) == p[n]
  {
    hide Ring.Pending, Get;
    GetTakesFront(r);
    if n < |p| {
      assert p[n..][0] == p[n] && p[n..][1..] == p[n + 1..];
    } else {
      assert p[n..] == [];
    }
  }

  function StoreAll(r: Ring, bytes: seq<byte>): (r': Ring)
    requires r.Valid()
    ensures r'.Valid()
    decreases |bytes|
  {
    if bytes == [] then r else StoreAll(Put(r, bytes[0]), bytes[1..])
  }

  lemma StoresFew(r: Ring)
    requires r.Valid()
    ensures StoreAll(r, []) == r
    ensures forall c :: StoreAll(r, [c]) == Put(r, c)
  {
    hide Put;
    forall c
      ensures StoreAll(r, [c]) == Put(r, c)
    {
      assert [c][1..] == [];
    }
  }
}
