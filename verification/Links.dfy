/**
 The records of sys/queue.h.  Heads and entries are both a link followed by a
 pointer to a link slot, and the macros rely on it: `TAILQ_LAST` and `TAILQ_PREV`
 cast an entry to a head.  A pointer to a slot is modelled as the record whose
 `next` is that slot.
 */
module Links {

  /** `next` is `tqh_first`/`tqe_next` and so on, `back` is `tqh_last`/`tqe_prev`. */
  class Record {
    var next: Record?
    var back: Record?
  }

  ghost predicate Distinct(t: seq<Record>) {
    forall i, j :: 0 <= i < j < |t| ==> t[i] != t[j]
  }

  /** The records of `t` are chained forward by `next`, ending in null; hence acyclic. */
  ghost predicate Chain(t: seq<Record>)
    reads t
  {
    && t != [] && Distinct(t) && t[|t| - 1].next == null
    && forall i, j :: 0 <= i < |t| && 0 <= j < |t| && j == i + 1 ==> t[i].next == t[j]
  }

  /** Each entry's `back` is the slot that points to it; `t[0]` is the head. */
  ghost predicate BackLinked(t: seq<Record>)
    reads t
  {
    forall i, j :: 0 <= i < |t| && 0 <= j < |t| && j == i + 1 ==> t[j].back == t[i]
  }

  /** The head's `back` is the slot of the last record. */
  ghost predicate EndsAt(t: seq<Record>)
    reads t
  {
    t != [] && t[0].back == t[|t| - 1]
  }

  /** The heap determines the sequence: two chains from the same head are the same. */
  lemma {:induction false} ChainUnique(t: seq<Record>, t': seq<Record>)
    requires Chain(t) && Chain(t') && t[0] == t'[0]
    ensures t == t'
  {
    var n := if |t| < |t'| then |t| else |t'|;
    var after, after' := Follower(t, n - 1), Follower(t', n - 1);
    ChainAgrees(t, t', n);
    assert t[n - 1] == t[..n][n - 1] == t'[..n][n - 1] == t'[n - 1];
    assert t[..n] == t && t'[..n] == t';
  }

  ghost function Follower(t: seq<Record>, i: nat): (r: Record?)
    requires Chain(t) && i < |t|
    reads t
    ensures r == t[i].next
    ensures r == null <==> i == |t| - 1
  {
    if i + 1 < |t| then t[i + 1] else null
  }

  lemma {:induction false} ChainAgrees(t: seq<Record>, t': seq<Record>, n: nat)
    requires Chain(t) && Chain(t') && t[0] == t'[0]
    requires 0 < n <= |t| && n <= |t'|
    ensures t[..n] == t'[..n]
  {
    if n > 1 {
      ChainAgrees(t, t', n - 1);
      assert t[n - 2] == t[..n - 1][n - 2] && t'[n - 2] == t'[..n - 1][n - 2];
      assert t[n - 2].next == t[n - 1] && t'[n - 2].next == t'[n - 1];
      assert t[..n] == t[..n - 1] + [t[n - 1]] && t'[..n] == t'[..n - 1] + [t'[n - 1]];
    }
  }

  lemma FirstOf(h: Record, s: seq<Record>)
    requires Chain([h] + s)
    ensures h.next == if s == [] then null else s[0]
  {
    var t := [h] + s;
    if s != [] { assert t[0].next == t[1]; }
  }

  lemma NextOf(h: Record, s: seq<Record>, i: nat)
    requires Chain([h] + s) && i < |s|
    ensures s[i].next == if i == |s| - 1 then null else s[i + 1]
  {
    var t := [h] + s;
    assert t[i + 1] == s[i];
    if i < |s| - 1 { assert t[i + 1].next == t[i + 2]; }
  }

  lemma BackOf(h: Record, s: seq<Record>, i: nat)
    requires BackLinked([h] + s) && i < |s|
    ensures s[i].back == if i == 0 then h else s[i - 1]
  {
    var t := [h] + s;
    assert t[i + 1] == s[i] && t[i + 1].back == t[i];
  }

  /** The links of the element at position `i`, as positions of the whole chain. */
  lemma Around(h: Record, s: seq<Record>, i: nat)
    requires Chain([h] + s) && BackLinked([h] + s) && i < |s|
    ensures var t := [h] + s;
      && t[i + 1] == s[i] && s[i].back == t[i]
      && s[i].next == if i + 2 < |t| then t[i + 2] else null
  {
    NextOf(h, s, i);
    BackOf(h, s, i);
  }

  lemma EndOf(h: Record, s: seq<Record>)
    requires EndsAt([h] + s)
    ensures ([h] + s)[0] == h && h.back == ([h] + s)[|s|]
  {
  }

  /** The queue of `s` with `e` put in at position `i`. */
  function Inserted<T>(s: seq<T>, i: nat, e: T): (r: seq<T>)
    requires i <= |s|
    ensures |r| == |s| + 1
    ensures forall k :: 0 <= k < |r| ==> r[k] == if k < i then s[k] else if k == i then e else s[k - 1]
  {
    s[..i] + [e] + s[i..]
  }

  /** The queue of `s` without position `i`. */
  function Removed<T>(s: seq<T>, i: nat): (r: seq<T>)
    requires i < |s|
    ensures |r| == |s| - 1
    ensures forall k :: 0 <= k < |r| ==> r[k] == if k < i then s[k] else s[k + 1]
  {
    s[..i] + s[i + 1..]
  }

  lemma InsertedUnder<T>(h: T, s: seq<T>, i: nat, e: T)
    requires i <= |s|
    ensures [h] + Inserted(s, i, e) == Inserted([h] + s, i + 1, e)
  {
  }

  lemma InsertedEnds<T>(s: seq<T>, e: T)
    ensures Inserted(s, 0, e) == [e] + s && Inserted(s, |s|, e) == s + [e]
  {
  }

  lemma RemovedUnder<T>(h: T, s: seq<T>, i: nat)
    requires i < |s|
    ensures [h] + Removed(s, i) == Removed([h] + s, i + 1)
  {
  }

  lemma AppendedUnder<T>(h: T, s: seq<T>, h': T, s': seq<T>)
    ensures [h] + (s + s') == ([h] + s) + ([h'] + s')[1..]
  {
  }

  /** Two chains with no record in common. */
  ghost predicate Apart(t: seq<Record>, t': seq<Record>) {
    forall i, j :: 0 <= i < |t| && 0 <= j < |t'| ==> t[i] != t'[j]
  }

  // ---------------------------------------------------------------------------
  // The link writes of the macros, as what they make of a chain.  `ChainBut` and
  // `BackLinkedBut` say what a queue's links are away from the writes.

  /** The `next` of every record of `t` is as in a chain, except at positions `x` and `y`. */
  ghost predicate ChainBut(t: seq<Record>, x: int, y: int)
    reads (set k | 0 <= k < |t| && k != x && k != y :: t[k])`next
  {
    && t != [] && Distinct(t)
    && (|t| - 1 != x && |t| - 1 != y ==> t[|t| - 1].next == null)
    && forall i, j :: 0 <= i < |t| && 0 <= j < |t| && j == i + 1 && i != x && i != y ==> t[i].next == t[j]
  }

  /** The `back` of every entry of `t` is as it should be, except at positions `x` and `y`. */
  ghost predicate BackLinkedBut(t: seq<Record>, x: int, y: int)
    reads (set k | 0 < k < |t| && k != x && k != y :: t[k])`back
  {
    forall i, j :: 0 <= i < |t| && 0 <= j < |t| && j == i + 1 && j != x && j != y ==> t[j].back == t[i]
  }

  lemma ChainHolds(t: seq<Record>, x: int, y: int)
    requires Chain(t)
    ensures Distinct(t) && ChainBut(t, x, y)
    ensures 0 <= x < |t| ==> forall k :: 0 <= k < |t| && k != x ==> t[k] != t[x]
    ensures 0 <= y < |t| ==> forall k :: 0 <= k < |t| && k != y ==> t[k] != t[y]
  {
  }

  lemma BackLinksHold(t: seq<Record>, x: int, y: int)
    requires Distinct(t) && BackLinked(t)
    ensures BackLinkedBut(t, x, y)
    ensures forall k :: 0 < k < |t| ==> t[k] != t[0]
    ensures 0 <= x < |t| ==> forall k :: 0 <= k < |t| && k != x ==> t[k] != t[x]
    ensures 0 <= y < |t| ==> forall k :: 0 <= k < |t| && k != y ==> t[k] != t[y]
  {
  }

  /** `e` is linked in between positions `i - 1` and `i`. */
  lemma LinkedIn(t: seq<Record>, i: nat, e: Record)
    requires 0 < i <= |t| && ChainBut(t, i - 1, i - 1) && e !in t
    requires t[i - 1].next == e && e.next == if i < |t| then t[i] else null
    ensures Chain(Inserted(t, i, e))
  {
    var t' := Inserted(t, i, e);
    forall a, b | 0 <= a < |t'| && 0 <= b < |t'| && b == a + 1
      ensures t'[a].next == t'[b]
    {
      if b < i { assert t[a].next == t[b]; }
      if a > i { assert t[a - 1].next == t[b - 1]; }
    }
  }

  lemma BackLinkedIn(t: seq<Record>, i: nat, e: Record)
    requires 0 < i <= |t| && BackLinkedBut(t, i, i)
    requires e.back == t[i - 1] && (i < |t| ==> t[i].back == e)
    ensures BackLinked(Inserted(t, i, e))
  {
    var t' := Inserted(t, i, e);
    forall a, b | 0 <= a < |t'| && 0 <= b < |t'| && b == a + 1
      ensures t'[b].back == t'[a]
    {
      if b < i { assert t[b].back == t[a]; }
      if a > i { assert t[b - 1].back == t[a - 1]; }
    }
  }

  lemma EndsWithIn(t: seq<Record>, i: nat, e: Record)
    requires 0 < i <= |t| && t[0].back == if i < |t| then t[|t| - 1] else e
    ensures EndsAt(Inserted(t, i, e))
  {
  }

  /** Position `i` is linked out. */
  lemma LinkedOut(t: seq<Record>, i: nat)
    requires 0 < i < |t| && ChainBut(t, i - 1, i)
    requires t[i - 1].next == if i + 1 < |t| then t[i + 1] else null
    ensures Chain(Removed(t, i))
  {
    var t' := Removed(t, i);
    forall a, b | 0 <= a < |t'| && 0 <= b < |t'| && b == a + 1
      ensures t'[a].next == t'[b]
    {
      if b < i { assert t[a].next == t[b]; }
      if a >= i { assert t[a + 1].next == t[b + 1]; }
    }
  }

  lemma BackLinkedOut(t: seq<Record>, i: nat)
    requires 0 < i < |t| && BackLinkedBut(t, i, i + 1)
    requires i + 1 < |t| ==> t[i + 1].back == t[i - 1]
    ensures BackLinked(Removed(t, i))
  {
    var t' := Removed(t, i);
    forall a, b | 0 <= a < |t'| && 0 <= b < |t'| && b == a + 1
      ensures t'[b].back == t'[a]
    {
      if b < i { assert t[b].back == t[a]; }
      if a >= i { assert t[b + 1].back == t[a + 1]; }
    }
  }

  lemma EndsWithOut(t: seq<Record>, i: nat)
    requires 0 < i < |t| && t[0].back == t[if i == |t| - 1 then i - 1 else |t| - 1]
    ensures EndsAt(Removed(t, i))
  {
  }

  /** The entries of `t'` are linked in after the last record of `t`; `t'[0]` is a head. */
  lemma LinkedOn(t: seq<Record>, t': seq<Record>)
    requires ChainBut(t, |t| - 1, |t| - 1) && ChainBut(t', 0, 0) && Apart(t, t') && 1 < |t'|
    requires t[|t| - 1].next == t'[1]
    ensures Chain(t + t'[1..])
  {
    var u, n := t + t'[1..], |t|;
    assert forall k :: 0 <= k < |u| ==> u[k] == if k < n then t[k] else t'[k - n + 1];
    forall a, b | 0 <= a < |u| && 0 <= b < |u| && b == a + 1
      ensures u[a].next == u[b]
    {
      if b < n { assert t[a].next == t[b]; }
      if a >= n { assert t'[a - n + 1].next == t'[b - n + 1]; }
    }
  }

  lemma BackLinkedOn(t: seq<Record>, t': seq<Record>)
    requires BackLinkedBut(t, 0, 0) && BackLinkedBut(t', 1, 1) && t != [] && 1 < |t'|
    requires t'[1].back == t[|t| - 1]
    ensures BackLinked(t + t'[1..])
  {
    var u, n := t + t'[1..], |t|;
    assert forall k :: 0 <= k < |u| ==> u[k] == if k < n then t[k] else t'[k - n + 1];
    forall a, b | 0 <= a < |u| && 0 <= b < |u| && b == a + 1
      ensures u[b].back == u[a]
    {
      if b < n { assert t[b].back == t[a]; }
      if a >= n { assert t'[b - n + 1].back == t'[a - n + 1]; }
    }
  }

  lemma EndsWithOn(t: seq<Record>, t': seq<Record>)
    requires t != [] && 1 < |t'| && t[0].back == t'[|t'| - 1]
    ensures EndsAt(t + t'[1..])
  {
  }

  lemma Emptied(h: Record)
    requires h.next == null
    ensures Chain([h] + []) && BackLinked([h] + [])
  {
    assert [h] + [] == [h];
  }

  /** The entries after the head `h` are linked in after the head `h'`. */
  lemma LinkedTo(h: Record, s: seq<Record>, h': Record)
    requires ChainBut([h] + s, 0, 0) && forall k :: 0 < k <= |s| ==> ([h] + s)[k] != h'
    requires h'.next == if s == [] then null else s[0]
    ensures Chain([h'] + s)
  {
    var t, t' := [h] + s, [h'] + s;
    assert forall k :: 0 < k < |t'| ==> t'[k] == t[k];
    forall a, b | 0 <= a < |t'| && 0 <= b < |t'| && b == a + 1
      ensures t'[a].next == t'[b]
    {
      if a > 0 { assert t[a].next == t[b]; }
    }
  }

  lemma BackLinkedTo(h: Record, s: seq<Record>, h': Record)
    requires BackLinkedBut([h] + s, 1, 1) && (s != [] ==> s[0].back == h')
    ensures BackLinked([h'] + s)
  {
    var t, t' := [h] + s, [h'] + s;
    forall a, b | 0 <= a < |t'| && 0 <= b < |t'| && b == a + 1
      ensures t'[b].back == t'[a]
    {
      if a > 0 { assert t[b].back == t[a]; }
    }
  }

  // ---------------------------------------------------------------------------
  // Walks

  /** The walk of `SLIST_REMOVE` and `STAILQ_REMOVE`: from the first element to the one before `elm`. */
  method WalkBefore(first: Record, elm: Record, ghost t: seq<Record>, ghost i: nat) returns (cur: Record)
    requires Chain(t) && 2 <= i < |t| && first == t[1] && elm == t[i]
    ensures cur == t[i - 1]
  {
    cur := first;
    ghost var k := 1;
    assert t[i - 1].next == t[i];
    while cur.next != elm
      invariant 1 <= k <= i - 1 && cur == t[k]
      decreases i - k
    {
      assert t[k].next == t[k + 1];
      cur := cur.next;
      k := k + 1;
    }
    assert t[k].next == t[k + 1];
  }

  /** The walk of `LIST_CONCAT` and `SLIST_CONCAT`: from the first element to the last. */
  method WalkToLast(first: Record, ghost t: seq<Record>) returns (cur: Record)
    requires Chain(t) && 2 <= |t| && first == t[1]
    ensures cur == t[|t| - 1]
  {
    cur := first;
    ghost var k := 1;
    ghost var rest := Follower(t, 1);
    while cur.next != null
      invariant 1 <= k < |t| && cur == t[k] && rest == Follower(t, k)
      decreases |t| - k
    {
      assert t[k].next == t[k + 1];
      cur := cur.next;
      k := k + 1;
      rest := Follower(t, k);
    }
  }
}
