/**
 `SLIST` and `STAILQ`: singly linked lists, and those with a pointer to the last
 slot.  Their entries have no `back`: it is neither read nor written.
 */
module SinglyLinked {
  import opened Links

  /** `SLIST`: the list headed by `h` holds `s`. */
  ghost predicate List(h: Record, s: seq<Record>)
    reads h, s
  {
    Chain([h] + s)
  }

  /** `STAILQ`: the queue headed by `h` holds `s`. */
  ghost predicate Queue(h: Record, s: seq<Record>)
    reads h, s
  {
    Chain([h] + s) && EndsAt([h] + s)
  }

  // ---------------------------------------------------------------------------
  // SLIST

  method ListRemove(h: Record, elm: Record, ghost s: seq<Record>, ghost i: nat)
    requires List(h, s) && i < |s| && elm == s[i]
    modifies h`next, s`next
    ensures List(h, Removed(s, i))
  {
    ghost var t := [h] + s;
    FirstOf(h, s);
    NextOf(h, s, i);
    assert t[i + 1] == elm;
    if h.next == elm {
      assert i == 0 by { assert t[1] == elm; }
      h.next := h.next.next;
    } else {
      var cur := WalkBefore(h.next, elm, t, i + 1);
      assert cur == t[i] && t[i].next == t[i + 1];
      cur.next := cur.next.next;
    }
    LinkedOut(t, i + 1);
    RemovedUnder(h, s, i);
  }

  method ListConcat(head1: Record, head2: Record, ghost s1: seq<Record>, ghost s2: seq<Record>)
    requires List(head1, s1) && List(head2, s2) && Apart([head1] + s1, [head2] + s2)
    modifies head1`next, head2`next, s1`next, s2`next
    ensures List(head1, s1 + s2) && List(head2, [])
  {
    ghost var t1, t2 := [head1] + s1, [head2] + s2;
    FirstOf(head1, s1);
    FirstOf(head2, s2);
    AppendedUnder(head1, s1, head2, s2);
    var cur := head1.next;
    if cur == null {
      head1.next := head2.next;
      if head1.next != null {
        head2.next := null;
        LinkedOn(t1, t2);
      }
    } else if head2.next != null {
      cur := WalkToLast(cur, t1);
      cur.next := head2.next;
      head2.next := null;
      LinkedOn(t1, t2);
    }
  }

  // ---------------------------------------------------------------------------
  // STAILQ

  method Init(h: Record)
    modifies h
    ensures Queue(h, [])
  {
    h.next := null;
    h.back := h;
  }

  method InsertHead(h: Record, elm: Record, ghost s: seq<Record>)
    requires Queue(h, s) && elm !in s && elm != h
    modifies h, elm`next
    ensures Queue(h, [elm] + s)
  {
    ghost var t := [h] + s;
    FirstOf(h, s);
    ChainHolds(t, 0, 0);
    elm.next := h.next;
    if elm.next == null {
      h.back := elm;
    }
    h.next := elm;
    LinkedIn(t, 1, elm);
    EndsWithIn(t, 1, elm);
    assert [h] + ([elm] + s) == Inserted(t, 1, elm);
  }

  method InsertTail(h: Record, elm: Record, ghost s: seq<Record>)
    requires Queue(h, s) && elm !in s && elm != h
    modifies h, s`next, elm`next
    ensures Queue(h, s + [elm])
  {
    ghost var t := [h] + s;
    elm.next := null;
    h.back.next := elm;
    h.back := elm;
    LinkedIn(t, |t|, elm);
    EndsWithIn(t, |t|, elm);
    assert [h] + (s + [elm]) == Inserted(t, |t|, elm);
  }

  method InsertAfter(h: Record, tqelm: Record, elm: Record, ghost s: seq<Record>, ghost i: nat)
    requires Queue(h, s) && i < |s| && tqelm == s[i] && elm !in s && elm != h
    modifies h`back, s`next, elm`next
    ensures Queue(h, Inserted(s, i + 1, elm))
  {
    ghost var t := [h] + s;
    NextOf(h, s, i);
    assert t[i + 1] == tqelm;
    ChainHolds(t, i + 1, i + 1);
    elm.next := tqelm.next;
    if elm.next == null {
      h.back := elm;
    }
    tqelm.next := elm;
    LinkedIn(t, i + 2, elm);
    EndsWithIn(t, i + 2, elm);
    InsertedUnder(h, s, i + 1, elm);
  }

  method RemoveHead(h: Record, ghost s: seq<Record>)
    requires Queue(h, s) && s != []
    modifies h
    ensures Queue(h, Removed(s, 0))
  {
    ghost var t := [h] + s;
    FirstOf(h, s);
    NextOf(h, s, 0);
    h.next := h.next.next;
    if h.next == null {
      h.back := h;
    }
    LinkedOut(t, 1);
    EndsWithOut(t, 1);
    RemovedUnder(h, s, 0);
  }

  method RemoveAfter(h: Record, elm: Record, ghost s: seq<Record>, ghost i: nat)
    requires Queue(h, s) && i + 1 < |s| && elm == s[i]
    modifies h`back, s`next
    ensures Queue(h, Removed(s, i + 1))
  {
    ghost var t := [h] + s;
    NextOf(h, s, i);
    NextOf(h, s, i + 1);
    assert t[i + 1] == elm;
    elm.next := elm.next.next;
    if elm.next == null {
      h.back := elm;
    }
    LinkedOut(t, i + 2);
    EndsWithOut(t, i + 2);
    RemovedUnder(h, s, i + 1);
  }

  method Remove(h: Record, elm: Record, ghost s: seq<Record>, ghost i: nat)
    requires Queue(h, s) && i < |s| && elm == s[i]
    modifies h, s`next
    ensures Queue(h, Removed(s, i))
  {
    ghost var t := [h] + s;
    FirstOf(h, s);
    assert t[i + 1] == elm;
    if h.next == elm {
      assert i == 0 by { assert t[1] == elm; }
      RemoveHead(h, s);
    } else {
      var cur := WalkBefore(h.next, elm, t, i + 1);
      RemoveAfter(h, cur, s, i - 1);
    }
  }

  method Concat(head1: Record, head2: Record, ghost s1: seq<Record>, ghost s2: seq<Record>)
    requires Queue(head1, s1) && Queue(head2, s2) && Apart([head1] + s1, [head2] + s2)
    modifies head1, head2, s1`next
    ensures Queue(head1, s1 + s2) && Queue(head2, [])
  {
    ghost var t1, t2 := [head1] + s1, [head2] + s2;
    FirstOf(head2, s2);
    if head2.next != null {
      head1.back.next := head2.next;
      head1.back := head2.back;
      Init(head2);
      LinkedOn(t1, t2);
      AppendedUnder(head1, s1, head2, s2);
    } else {
      assert s1 + s2 == s1;
    }
  }

  method Swap(head1: Record, head2: Record, ghost s1: seq<Record>, ghost s2: seq<Record>)
    requires Queue(head1, s1) && Queue(head2, s2)
    requires Apart([head1] + s1, [head2] + s2) || (head1 == head2 && s1 == s2)
    modifies head1, head2
    ensures Queue(head1, s2) && Queue(head2, s1)
  {
    ghost var t1, t2 := [head1] + s1, [head2] + s2;
    FirstOf(head1, s1);
    FirstOf(head2, s2);
    var first, last := head1.next, head1.back;
    head1.next := head2.next;
    head1.back := head2.back;
    head2.next := first;
    head2.back := last;
    if head1.next == null { head1.back := head1; }
    if head2.next == null { head2.back := head2; }
    assert [head1] + s2 == t2[0 := head1] && [head2] + s1 == t1[0 := head2];
  }

  /** `STAILQ_LAST`: the record that holds the last slot. */
  function Last(h: Record, ghost s: seq<Record>): (r: Record?)
    requires Queue(h, s)
    reads h, s
    ensures r == if s == [] then null else s[|s| - 1]
  {
    FirstOf(h, s);
    if h.next == null then null else h.back
  }
}
