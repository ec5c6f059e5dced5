/** The circular doubly linked lists of include/list.h, as sequences of nodes
    that start at the head, and the list walk of csv.c that frees its rows. */
module RingList {
  import opened Bytes

  class Node {
    var next: Node?
    var prev: Node?
  }

  ghost predicate Distinct(s: seq<Node>)
  {
    forall i, j :: 0 <= i < j < |s| ==> s[i] != s[j]
  }

  /** The element after `i`; the last one is followed by the head. */
  ghost function After(s: seq<Node>, i: nat): (n: Node)
    requires i < |s|
  {
    if i + 1 < |s| then s[i + 1] else s[0]
  }

  /** `a.next` and `b.prev` are inverse. */
  ghost predicate Linked(a: Node, b: Node)
    reads a, b
  {
    a.next == b && b.prev == a
  }

  /** Once around `s` and back to its head, in both directions. */
  ghost predicate Ring(s: seq<Node>)
    reads s
  {
    s != [] && Distinct(s) && forall i :: 0 <= i < |s| ==> Linked(s[i], After(s, i))
  }

  lemma {:induction false} LastBeforeHead(s: seq<Node>)
    requires Ring(s)
    ensures Linked(s[|s| - 1], s[0])
  {
    assert Linked(s[|s| - 1], After(s, |s| - 1));
  }

  method Init(head: Node)
    modifies head
    ensures Ring([head])
  {
    head.next := head;
    head.prev := head;
  }

  method IsEmpty(head: Node, ghost s: seq<Node>) returns (empty: bool)
    requires Ring(s) && head == s[0]
    ensures empty <==> s == [head]
  {
    assert Linked(s[0], After(s, 0));
    empty := head.next == head;
  }

  // ----- insertion

  ghost function Inserted(s: seq<Node>, i: nat, x: Node): (r: seq<Node>)
    requires i < |s|
    ensures |r| == |s| + 1
  {
    s[..i + 1] + [x] + s[i + 1..]
  }

  lemma InsertedDistinct(s: seq<Node>, i: nat, x: Node)
    requires Distinct(s) && i < |s| && x !in s
    ensures Distinct(Inserted(s, i, x))
  {
  }

  /** Links `x` between two neighbours of the ring. */
  method Link(x: Node, prev: Node, next: Node, ghost s: seq<Node>, ghost i: nat)
    requires Ring(s) && i < |s| && prev == s[i] && next == After(s, i) && x !in s
    modifies x, prev, next
    ensures Ring(Inserted(s, i, x))
  {
    next.prev := x;
    x.next := next;
    x.prev := prev;
    prev.next := x;
    hide Distinct, Inserted, After;
    ghost var r := Inserted(s, i, x);
    InsertedDistinct(s, i, x);
    forall k | 0 <= k < |r| ensures Linked(r[k], After(r, k)) {
      ghost var j := if k <= i then k else k - 1;
      assert old(Linked(s[j], After(s, j)));
      if j != i {
      }
    }
  }

  /** A new first element. */
  method Add(x: Node, head: Node, ghost s: seq<Node>)
    requires Ring(s) && head == s[0] && x !in s
    modifies x, head, head.next
    ensures Ring([head, x] + s[1..])
  {
    assert Linked(s[0], After(s, 0));
    Link(x, head, head.next, s, 0);
    assert Inserted(s, 0, x) == [head, x] + s[1..];
  }

  /** A new last element. */
  method AddTail(x: Node, head: Node, ghost s: seq<Node>)
    requires Ring(s) && head == s[0] && x !in s
    modifies x, head, head.prev
    ensures Ring(s + [x])
  {
    LastBeforeHead(s);
    Link(x, head.prev, head, s, |s| - 1);
    assert Inserted(s, |s| - 1, x) == s + [x];
  }

  // ----- removal

  /** Unlinks an element other than the head; the others close around the gap. */
  method Del(entry: Node, ghost s: seq<Node>, ghost i: nat)
    requires Ring(s) && 0 < i < |s| && entry == s[i]
    modifies entry, entry.next, entry.prev
    ensures Ring(Drop(s, i)) && entry.next == null && entry.prev == null
  {
    assert Linked(s[i], After(s, i)) && Linked(s[i - 1], After(s, i - 1)) && After(s, i - 1) == s[i];
    ghost var before, after := s[i - 1], After(s, i);
    entry.next.prev := entry.prev;
    entry.prev.next := entry.next;
    entry.next := null;
    entry.prev := null;
    assert before != entry && after != entry;
    hide Distinct, Drop, After;
    ghost var r := Drop(s, i);
    forall k | 0 <= k < |r| ensures Linked(r[k], After(r, k)) {
      if k != i - 1 {
        ghost var j := if k < i then k else k + 1;
        assert old(Linked(s[j], After(s, j)));
      }
    }
  }

  // ----- walks

  /** Counts the elements after the head. */
  method Size(head: Node, ghost s: seq<Node>) returns (n: nat)
    requires Ring(s) && head == s[0]
    ensures n == |s| - 1
  {
    n := 0;
    assert Linked(s[0], After(s, 0));
    var pos := head.next;
    while pos != head
      invariant n < |s| && pos == After(s, n)
      decreases |s| - n
    {
      assert n + 1 < |s| && Linked(s[n + 1], After(s, n + 1));
      n := n + 1;
      pos := pos.next;
    }
    assert n + 1 == |s|;
  }

  lemma {:induction false} Follows(s: seq<Node>, i: nat)
    requires Ring(s) && i < |s|
    ensures s[i].next == After(s, i) && After(s, i).prev == s[i] && After(s, i) in s
    ensures After(s, 0) == s[0] <==> |s| == 1
    ensures |s| > 1 ==> After(s, 0) == s[1]
  {
    assert Linked(s[i], After(s, i));
  }

  lemma SecondRemoved(s: seq<Node>)
    requires |s| > 1
    ensures var r := Drop(s, 1);
            r[0] == s[0] && After(r, 0) == After(s, 1) && s[1..] == [s[1]] + r[1..]
  {
  }

  /** A walk over the elements after the head: the next one, and its successor. */
  ghost predicate Walking(head: Node, pos: Node, tmp: Node?, r: seq<Node>)
    reads r
  {
    Ring(r) && r[0] == head && pos == After(r, 0) && (|r| > 1 ==> tmp == After(r, 1))
  }

  /** Unlinks the element under the walk and moves on. */
  method TakeFirst(head: Node, pos: Node, tmp: Node, ghost r: seq<Node>)
    returns (pos': Node, tmp': Node?, ghost r': seq<Node>)
    requires Walking(head, pos, tmp, r) && |r| > 1
    modifies r
    ensures Walking(head, pos', tmp', r') && r' != [] && r'[0] == head
    ensures r[1..] == [pos] + r'[1..] && |r'| < |r|
  {
    hide Ring, Drop, After;
    Follows(r, 0);
    Follows(r, 1);
    assert pos.next in r && pos.prev in r;
    Del(pos, r, 1);
    SecondRemoved(r);
    r' := Drop(r, 1);
    pos' := tmp;
    Follows(r', 0);
    if |r'| > 1 {
      Follows(r', 1);
    }
    tmp' := pos'.next;
  }

  lemma {:induction false} Inside(a: seq<Node>, r: seq<Node>, s: seq<Node>)
    requires r != [] && s != [] && r[0] == s[0] && a + r[1..] == s[1..]
    ensures forall i :: 0 <= i < |r| ==> r[i] in s
  {
    forall i | 0 < i < |r| ensures r[i] in s {
      assert (a + r[1..])[|a| + i - 1] == s[1..][|a| + i - 1];
    }
  }

  /** Takes every element out and frees it, keeping the successor at hand:
      all are freed once, in order, and an empty ring remains. */
  method FreeList(head: Node, ghost s: seq<Node>) returns (freed: seq<Node>)
    requires Ring(s) && head == s[0]
    modifies s
    ensures freed == s[1..] && Ring([head])
  {
    freed := [];
    var pos, tmp := Start(head, s);
    ghost var r := s;
    hide Walking, Ring;
    assert freed + r[1..] == s[1..];
    while pos != head
      invariant Walking(head, pos, tmp, r) && r != [] && s != [] && r[0] == head == s[0]
      invariant freed + r[1..] == s[1..]
      decreases |r|
    {
      Inside(freed, r, s);
      freed := freed + [pos];
      pos, tmp, r := TakeFirst(head, pos, tmp, r);
      Assoc(freed[..|freed| - 1], [freed[|freed| - 1]], r[1..]);
    }
  }

  method Start(head: Node, ghost s: seq<Node>) returns (pos: Node, tmp: Node?)
    requires Ring(s) && head == s[0]
    ensures Walking(head, pos, tmp, s)
  {
    Follows(s, 0);
    pos := head.next;
    if |s| > 1 {
      Follows(s, 1);
    }
    tmp := pos.next;
  }
}
