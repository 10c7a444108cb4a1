/** `LIST`: doubly linked lists, whose head has no pointer to the last slot. */
module DoublyLinked {
  import opened Links

  /** The list headed by `h` holds `s`; the head's `back` is not part of it. */
  ghost predicate List(h: Record, s: seq<Record>)
    reads h, s
  {
    var t := [h] + s;
    Chain(t) && BackLinked(t)
  }

  // ---------------------------------------------------------------------------
  // What the link writes of the macros amount to

  lemma LinkIn(h: Record, s: seq<Record>, i: nat, e: Record)
    requires i <= |s| && e != h && e !in s
    requires ChainBut([h] + s, i, i) && BackLinkedBut([h] + s, i + 1, i + 1)
    requires var t := [h] + s;
      && t[i].next == e && e.back == t[i]
      && e.next == (if i < |s| then t[i + 1] else null) && (i < |s| ==> t[i + 1].back == e)
    ensures List(h, Inserted(s, i, e))
  {
    hide Distinct, Chain, ChainBut, BackLinked, BackLinkedBut;
    var t := [h] + s;
    LinkedIn(t, i + 1, e);
    BackLinkedIn(t, i + 1, e);
    InsertedUnder(h, s, i, e);
  }

  lemma LinkOut(h: Record, s: seq<Record>, i: nat)
    requires i < |s|
    requires ChainBut([h] + s, i, i + 1) && BackLinkedBut([h] + s, i + 1, i + 2)
    requires var t := [h] + s;
      && t[i].next == (if i + 2 < |t| then t[i + 2] else null) && (i + 2 < |t| ==> t[i + 2].back == t[i])
    ensures List(h, Removed(s, i))
  {
    hide Distinct, Chain, ChainBut, BackLinked, BackLinkedBut;
    var t := [h] + s;
    LinkedOut(t, i + 1);
    BackLinkedOut(t, i + 1);
    RemovedUnder(h, s, i);
  }

  // ---------------------------------------------------------------------------
  // The macros

  method InsertHead(h: Record, elm: Record, ghost s: seq<Record>)
    requires List(h, s) && elm !in s && elm != h
    modifies h, s, elm
    ensures List(h, [elm] + s)
  {
    hide Distinct, Chain, ChainBut, BackLinked, BackLinkedBut;
    ghost var t := [h] + s;
    FirstOf(h, s);
    ChainHolds(t, 0, 0);
    BackLinksHold(t, 1, 1);
    elm.next := h.next;
    if elm.next != null {
      h.next.back := elm;
    }
    h.next := elm;
    elm.back := h;
    LinkIn(h, s, 0, elm);
    InsertedEnds(s, elm);
  }

  method InsertAfter(listelm: Record, elm: Record, ghost h: Record, ghost s: seq<Record>, ghost i: nat)
    requires List(h, s) && i < |s| && listelm == s[i] && elm !in s && elm != h
    modifies h, s, elm
    ensures List(h, Inserted(s, i + 1, elm))
  {
    hide Distinct, Chain, ChainBut, BackLinked, BackLinkedBut;
    ghost var t := [h] + s;
    Around(h, s, i);
    ChainHolds(t, i + 1, i + 1);
    BackLinksHold(t, i + 2, i + 2);
    elm.next := listelm.next;
    if elm.next != null {
      listelm.next.back := elm;
    }
    listelm.next := elm;
    elm.back := listelm;
    LinkIn(h, s, i + 1, elm);
  }

  method InsertBefore(listelm: Record, elm: Record, ghost h: Record, ghost s: seq<Record>, ghost i: nat)
    requires List(h, s) && i < |s| && listelm == s[i] && elm !in s && elm != h
    modifies h, s, elm
    ensures List(h, Inserted(s, i, elm))
  {
    hide Distinct, Chain, ChainBut, BackLinked, BackLinkedBut;
    ghost var t := [h] + s;
    Around(h, s, i);
    ChainHolds(t, i, i);
    BackLinksHold(t, i + 1, i + 1);
    elm.back := listelm.back;
    elm.next := listelm;
    listelm.back.next := elm;
    listelm.back := elm;
    LinkIn(h, s, i, elm);
  }

  method Remove(elm: Record, ghost h: Record, ghost s: seq<Record>, ghost i: nat)
    requires List(h, s) && i < |s| && elm == s[i]
    modifies h, s
    ensures List(h, Removed(s, i))
  {
    hide Distinct, Chain, ChainBut, BackLinked, BackLinkedBut;
    ghost var t := [h] + s;
    Around(h, s, i);
    ChainHolds(t, i, i + 1);
    BackLinksHold(t, i + 1, i + 2);
    if elm.next != null {
      elm.next.back := elm.back;
    }
    elm.back.next := elm.next;
    LinkOut(h, s, i);
  }

  method Concat(head1: Record, head2: Record, ghost s1: seq<Record>, ghost s2: seq<Record>)
    requires List(head1, s1) && List(head2, s2) && Apart([head1] + s1, [head2] + s2)
    modifies head1, head2, s1, s2
    ensures List(head1, s1 + s2) && List(head2, [])
  {
    hide Distinct, Chain, ChainBut, BackLinked, BackLinkedBut;
    ghost var t1, t2 := [head1] + s1, [head2] + s2;
    assert t1[0] == head1 && t2[0] == head2;
    FirstOf(head1, s1);
    FirstOf(head2, s2);
    ChainHolds(t1, |s1|, |s1|);
    ChainHolds(t2, 0, 0);
    assert s2 != [] ==> t2[1] == head2.next;
    BackLinksHold(t1, 0, 0);
    BackLinksHold(t2, 1, 1);
    var cur := head1.next;
    if cur == null {
      head1.next := head2.next;
      if head1.next != null {
        head2.next.back := head1;
        head2.next := null;
        LinkedOn(t1, t2);
        BackLinkedOn(t1, t2);
      }
    } else if head2.next != null {
      cur := WalkToLast(cur, t1);
      cur.next := head2.next;
      head2.next.back := cur;
      head2.next := null;
      LinkedOn(t1, t2);
      BackLinkedOn(t1, t2);
    }
    AppendedUnder(head1, s1, head2, s2);
    assert s2 == [] ==> t1 + t2[1..] == t1;
    Emptied(head2);
  }

  method Swap(head1: Record, head2: Record, ghost s1: seq<Record>, ghost s2: seq<Record>)
    requires List(head1, s1) && List(head2, s2)
    requires Apart([head1] + s1, [head2] + s2) || (head1 == head2 && s1 == s2)
    modifies head1, head2, s1, s2
    ensures List(head1, s2) && List(head2, s1)
  {
    hide Distinct, Chain, ChainBut, BackLinked, BackLinkedBut;
    ghost var t1, t2 := [head1] + s1, [head2] + s2;
    assert t1[0] == head1 && t2[0] == head2;
    FirstOf(head1, s1);
    FirstOf(head2, s2);
    ChainHolds(t1, 0, 0);
    ChainHolds(t2, 0, 0);
    assert s1 != [] ==> t1[1] == head1.next;
    assert s2 != [] ==> t2[1] == head2.next;
    BackLinksHold(t1, 1, 1);
    BackLinksHold(t2, 1, 1);
    var first := head1.next;
    head1.next := head2.next;
    head2.next := first;
    first := head1.next;
    if first != null { first.back := head1; }
    first := head2.next;
    if first != null { first.back := head2; }
    LinkedTo(head1, s1, head2);
    LinkedTo(head2, s2, head1);
    BackLinkedTo(head1, s1, head2);
    BackLinkedTo(head2, s2, head1);
  }

  /** `LIST_PREV`. */
  function Prev(elm: Record, h: Record, ghost s: seq<Record>, ghost i: nat): (r: Record?)
    requires List(h, s) && i < |s| && elm == s[i]
    reads h, s
    ensures r == if i == 0 then null else s[i - 1]
  {
    BackOf(h, s, i);
    assert i > 0 ==> ([h] + s)[0] == h && ([h] + s)[i] == s[i - 1];
    if elm.back == h then null else elm.back
  }
}
