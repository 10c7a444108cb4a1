/** `TAILQ`: doubly linked tail queues. */
module TailQueue {
  import opened Links

  /** The full heap invariant of the queue headed by `h` that holds `s`. */
  ghost predicate Queue(h: Record, s: seq<Record>)
    reads h, s
  {
    var t := [h] + s;
    Chain(t) && BackLinked(t) && EndsAt(t)
  }

  // ---------------------------------------------------------------------------
  // What the link writes of the macros amount to

  lemma LinkIn(h: Record, s: seq<Record>, i: nat, e: Record)
    requires i <= |s| && e != h && e !in s
    requires ChainBut([h] + s, i, i) && BackLinkedBut([h] + s, i + 1, i + 1)
    requires var t := [h] + s;
      && t[i].next == e && e.back == t[i]
      && e.next == (if i < |s| then t[i + 1] else null) && (i < |s| ==> t[i + 1].back == e)
      && h.back == if i < |s| then t[|s|] else e
    ensures Queue(h, Inserted(s, i, e))
  {
    hide Distinct, Chain, ChainBut, BackLinked, BackLinkedBut, EndsAt;
    var t := [h] + s;
    LinkedIn(t, i + 1, e);
    BackLinkedIn(t, i + 1, e);
    EndsWithIn(t, i + 1, e);
    InsertedUnder(h, s, i, e);
  }

  lemma LinkOut(h: Record, s: seq<Record>, i: nat)
    requires i < |s|
    requires ChainBut([h] + s, i, i + 1) && BackLinkedBut([h] + s, i + 1, i + 2)
    requires var t := [h] + s;
      && t[i].next == (if i + 2 < |t| then t[i + 2] else null) && (i + 2 < |t| ==> t[i + 2].back == t[i])
      && h.back == t[if i + 1 == |s| then i else |s|]
    ensures Queue(h, Removed(s, i))
  {
    hide Distinct, Chain, ChainBut, BackLinked, BackLinkedBut, EndsAt;
    var t := [h] + s;
    LinkedOut(t, i + 1);
    BackLinkedOut(t, i + 1);
    EndsWithOut(t, i + 1);
    RemovedUnder(h, s, i);
  }

  // ---------------------------------------------------------------------------
  // The macros

  method Init(h: Record)
    modifies h
    ensures Queue(h, [])
  {
    h.next := null;
    h.back := h;
  }

  method InsertHead(h: Record, elm: Record, ghost s: seq<Record>)
    requires Queue(h, s) && elm !in s && elm != h
    modifies h, s, elm
    ensures Queue(h, [elm] + s)
  {
    hide Distinct, Chain, ChainBut, BackLinked, BackLinkedBut, EndsAt;
    ghost var t := [h] + s;
    Ends(h, s);
    ChainHolds(t, 0, 0);
    BackLinksHold(t, 1, 1);
    elm.next := h.next;
    if elm.next != null {
      h.next.back := elm;
    } else {
      h.back := elm;
    }
    h.next := elm;
    elm.back := h;
    LinkIn(h, s, 0, elm);
    InsertedEnds(s, elm);
  }

  method InsertTail(h: Record, elm: Record, ghost s: seq<Record>)
    requires Queue(h, s) && elm !in s && elm != h
    modifies h, s, elm
    ensures Queue(h, s + [elm])
  {
    hide Distinct, Chain, ChainBut, BackLinked, BackLinkedBut, EndsAt;
    ghost var t := [h] + s;
    Ends(h, s);
    ChainHolds(t, |s|, |s|);
    BackLinksHold(t, |s| + 1, |s| + 1);
    elm.next := null;
    elm.back := h.back;
    h.back.next := elm;
    h.back := elm;
    LinkIn(h, s, |s|, elm);
    InsertedEnds(s, elm);
  }

  method InsertAfter(h: Record, listelm: Record, elm: Record, ghost s: seq<Record>, ghost i: nat)
    requires Queue(h, s) && i < |s| && listelm == s[i] && elm !in s && elm != h
    modifies h, s, elm
    ensures Queue(h, Inserted(s, i + 1, elm))
  {
    hide Distinct, Chain, ChainBut, BackLinked, BackLinkedBut, EndsAt;
    ghost var t := [h] + s;
    EndOf(h, s);
    Around(h, s, i);
    ChainHolds(t, i + 1, i + 1);
    BackLinksHold(t, i + 2, i + 2);
    elm.next := listelm.next;
    if elm.next != null {
      elm.next.back := elm;
    } else {
      h.back := elm;
    }
    listelm.next := elm;
    elm.back := listelm;
    LinkIn(h, s, i + 1, elm);
  }

  method InsertBefore(listelm: Record, elm: Record, ghost h: Record, ghost s: seq<Record>, ghost i: nat)
    requires Queue(h, s) && i < |s| && listelm == s[i] && elm !in s && elm != h
    modifies h, s, elm
    ensures Queue(h, Inserted(s, i, elm))
  {
    hide Distinct, Chain, ChainBut, BackLinked, BackLinkedBut, EndsAt;
    ghost var t := [h] + s;
    EndOf(h, s);
    Around(h, s, i);
    ChainHolds(t, i, i);
    BackLinksHold(t, i + 1, i + 1);
    elm.back := listelm.back;
    elm.next := listelm;
    listelm.back.next := elm;
    listelm.back := elm;
    LinkIn(h, s, i, elm);
  }

  method Remove(h: Record, elm: Record, ghost s: seq<Record>, ghost i: nat)
    requires Queue(h, s) && i < |s| && elm == s[i]
    modifies h, s
    ensures Queue(h, Removed(s, i))
  {
    hide Distinct, Chain, ChainBut, BackLinked, BackLinkedBut, EndsAt;
    ghost var t := [h] + s;
    EndOf(h, s);
    Around(h, s, i);
    ChainHolds(t, i, i + 1);
    BackLinksHold(t, i + 1, i + 2);
    if elm.next != null {
      elm.next.back := elm.back;
    } else {
      h.back := elm.back;
    }
    elm.back.next := elm.next;
    LinkOut(h, s, i);
  }

  method Concat(head1: Record, head2: Record, ghost s1: seq<Record>, ghost s2: seq<Record>)
    requires Queue(head1, s1) && Queue(head2, s2) && Apart([head1] + s1, [head2] + s2)
    modifies head1, head2, s1, s2
    ensures Queue(head1, s1 + s2) && Queue(head2, [])
  {
    hide Distinct, Chain, ChainBut, BackLinked, BackLinkedBut, EndsAt;
    ghost var t1, t2 := [head1] + s1, [head2] + s2;
    assert t1[0] == head1 && t2[0] == head2;
    Ends(head1, s1);
    Ends(head2, s2);
    ChainHolds(t1, |s1|, |s1|);
    ChainHolds(t2, 0, 0);
    assert s2 != [] ==> t2[1] == head2.next;
    BackLinksHold(t1, 0, 0);
    BackLinksHold(t2, 1, 1);
    if head2.next != null {
      head1.back.next := head2.next;
      head2.next.back := head1.back;
      head1.back := head2.back;
      Init(head2);
      LinkedOn(t1, t2);
      BackLinkedOn(t1, t2);
      EndsWithOn(t1, t2);
      AppendedUnder(head1, s1, head2, s2);
    } else {
      assert s1 + s2 == s1;
    }
  }

  method Swap(head1: Record, head2: Record, ghost s1: seq<Record>, ghost s2: seq<Record>)
    requires Queue(head1, s1) && Queue(head2, s2)
    requires Apart([head1] + s1, [head2] + s2) || (head1 == head2 && s1 == s2)
    modifies head1, head2, s1, s2
    ensures Queue(head1, s2) && Queue(head2, s1)
  {
    hide Distinct, Chain, ChainBut, BackLinked, BackLinkedBut;
    ghost var t1, t2 := [head1] + s1, [head2] + s2;
    assert t1[0] == head1 && t2[0] == head2;
    Ends(head1, s1);
    Ends(head2, s2);
    ChainHolds(t1, 0, 0);
    ChainHolds(t2, 0, 0);
    assert s1 != [] ==> t1[1] == head1.next;
    assert s2 != [] ==> t2[1] == head2.next;
    BackLinksHold(t1, 1, 1);
    BackLinksHold(t2, 1, 1);
    var first, last := head1.next, head1.back;
    head1.next := head2.next;
    head1.back := head2.back;
    head2.next := first;
    head2.back := last;
    first := head1.next;
    if first != null { first.back := head1; } else { head1.back := head1; }
    first := head2.next;
    if first != null { first.back := head2; } else { head2.back := head2; }
    LinkedTo(head1, s1, head2);
    LinkedTo(head2, s2, head1);
    BackLinkedTo(head1, s1, head2);
    BackLinkedTo(head2, s2, head1);
  }

  // ---------------------------------------------------------------------------
  // Queries

  lemma Ends(h: Record, s: seq<Record>)
    requires Queue(h, s)
    ensures h.next == if s == [] then null else s[0]
    ensures h.back == if s == [] then h else s[|s| - 1]
  {
    FirstOf(h, s);
  }

  /** The links of the element at position `i`. */
  lemma Neighbours(h: Record, s: seq<Record>, i: nat)
    requires Queue(h, s) && i < |s|
    ensures s[i].back == if i == 0 then h else s[i - 1]
    ensures s[i].next == if i == |s| - 1 then null else s[i + 1]
  {
    NextOf(h, s, i);
    BackOf(h, s, i);
  }

  /** The last slot, read as a head, ends at the slot that points to the last element. */
  lemma LastSlot(h: Record, s: seq<Record>)
    requires Queue(h, s)
    ensures h.back != null && (h.back == h || h.back in s)
    ensures h.back.back != null && (h.back.back == h || h.back.back in s)
    ensures h.back.back.next == if s == [] then null else s[|s| - 1]
  {
    var n := |s|;
    Ends(h, s);
    if n > 0 { Neighbours(h, s, n - 1); }
    if n > 1 { Neighbours(h, s, n - 2); }
  }

  /** The slot of an element, read as a head, ends at the slot that points to the element before it. */
  lemma SlotBefore(h: Record, s: seq<Record>, i: nat)
    requires Queue(h, s) && i < |s|
    ensures s[i].back != null && (s[i].back == h || s[i].back in s)
    ensures s[i].back.back != null && (s[i].back.back == h || s[i].back.back in s)
    ensures s[i].back.back.next == if i == 0 then null else s[i - 1]
  {
    Ends(h, s);
    Neighbours(h, s, |s| - 1);
    Neighbours(h, s, i);
    if i > 0 { Neighbours(h, s, i - 1); }
    if i > 1 { Neighbours(h, s, i - 2); }
  }

  /** `TAILQ_LAST`: the last slot read as a head leads to the slot before it. */
  function Last(h: Record, ghost s: seq<Record>): (r: Record?)
    requires Queue(h, s)
    reads h, s
    ensures r == if s == [] then null else s[|s| - 1]
  {
    LastSlot(h, s);
    h.back.back.next
  }

  /** `TAILQ_LAST_FAST`: the record that holds the last slot. */
  function LastFast(h: Record, ghost s: seq<Record>): (r: Record?)
    requires Queue(h, s)
    reads h, s
    ensures r == Last(h, s)
  {
    Ends(h, s);
    if h.next == null then null else h.back
  }

  /** `TAILQ_PREV`. */
  function Prev(elm: Record, ghost h: Record, ghost s: seq<Record>, ghost i: nat): (r: Record?)
    requires Queue(h, s) && i < |s| && elm == s[i]
    reads h, s
    ensures r == if i == 0 then null else s[i - 1]
  {
    SlotBefore(h, s, i);
    elm.back.back.next
  }

  /** `TAILQ_FOREACH` visits the elements in order. */
  method Foreach(h: Record, ghost s: seq<Record>) returns (visited: seq<Record>)
    requires Queue(h, s)
    ensures visited == s
  {
    Ends(h, s);
    visited := [];
    var e := h.next;
    while e != null
      invariant |visited| <= |s| && visited == s[..|visited|]
      invariant e == if |visited| < |s| then s[|visited|] else null
      decreases |s| - |visited|
    {
      Neighbours(h, s, |visited|);
      visited := visited + [e];
      e := e.next;
    }
  }

  /** `TAILQ_FOREACH_REVERSE` visits them in reverse order. */
  method ForeachReverse(h: Record, ghost s: seq<Record>) returns (visited: seq<Record>)
    requires Queue(h, s)
    ensures |visited| == |s| && forall k :: 0 <= k < |s| ==> visited[k] == s[|s| - 1 - k]
  {
    visited := [];
    var e := Last(h, s);
    while e != null
      invariant |visited| <= |s|
      invariant forall k :: 0 <= k < |visited| ==> visited[k] == s[|s| - 1 - k]
      invariant e == if |visited| < |s| then s[|s| - 1 - |visited|] else null
      decreases |s| - |visited|
    {
      visited := visited + [e];
      e := Prev(e, h, s, |s| - |visited|);
    }
  }
}
