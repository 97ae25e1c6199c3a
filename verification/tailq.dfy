/** Tail queues: doubly linked lists whose back links are the addresses of forward links. */
module TailQ {
  import opened Seqs

  // A head and the entry of an element have the same layout: a forward link, and the address of a forward link.
  // The address of a forward link is modelled as the link object that holds it, and an element as its entry.
  //   head:    next is tqh_first, prev is tqh_last
  //   element: next is tqe_next,  prev is tqe_prev
  class Link {
    var next: Link?
    var prev: Link?
  }

  ghost predicate Distinct(s: seq<Link>) {
    forall i, j | 0 <= i < j < |s| :: s[i] != s[j]
  }

  // s is a head and the elements of its queue: every forward link leads to the element behind, every back link is
  // the place of the forward link before, and the head's back link is the place of the last forward link.
  ghost predicate Ring(s: seq<Link>)
    reads s
  {
    && s != [] && Distinct(s)
    && (forall k | 0 < k < |s| :: s[k - 1].next == s[k] && s[k].prev == s[k - 1])
    && s[|s| - 1].next == null && s[0].prev == s[|s| - 1]
  }

  // head is a queue of the elements s.
  ghost predicate Queue(head: Link, s: seq<Link>)
    reads head, s
  {
    Ring([head] + s)
  }

  // x comes after place i of the ring.
  function Inserted<T>(s: seq<T>, i: nat, x: T): seq<T>
    requires i < |s|
  {
    s[..i + 1] + [x] + s[i + 1..]
  }

  // What is in a ring at place i.
  lemma RingAt(s: seq<Link>, i: nat)
    requires Ring(s) && i < |s|
    ensures s[i].next == if i + 1 < |s| then s[i + 1] else null
    ensures s[i].prev == if i > 0 then s[i - 1] else s[|s| - 1]
  {
    assert i + 1 < |s| ==> s[i + 1].prev == s[i];
  }

  // A ring that was opened behind place i and closed again around x.
  lemma Grown(s: seq<Link>, i: nat, x: Link)
    requires i < |s| && Distinct(s) && x !in s && s[i].next == x && x.prev == s[i]
    requires if i + 1 < |s| then x.next == s[i + 1] && s[i + 1].prev == x && s[|s| - 1].next == null &&
      s[0].prev == s[|s| - 1]
             else x.next == null && s[0].prev == x
    requires forall k | 0 < k < |s| && k != i + 1 :: s[k - 1].next == s[k] && s[k].prev == s[k - 1]
    ensures Ring(Inserted(s, i, x))
  {
    var r := Inserted(s, i, x);
    assert forall k | 0 <= k <= i :: r[k] == s[k];
    assert forall k | i + 1 < k < |r| :: r[k] == s[k - 1];
  }

  method Init(head: Link)
    modifies head
    ensures Queue(head, [])
  {
    head.next := null;
    head.prev := head;
  }

  method InsertHead(head: Link, elm: Link, ghost s: seq<Link>)
    requires Queue(head, s) && elm !in [head] + s
    modifies head, elm, s
    ensures Queue(head, [elm] + s)
  {
    ghost var all := [head] + s;
    RingAt(all, 0);
    elm.next := head.next;
    if elm.next != null {
      head.next.prev := elm;
    } else {
      head.prev := elm;
    }
    head.next := elm;
    elm.prev := head;
    Grown(all, 0, elm);
    assert Inserted(all, 0, elm) == [head] + ([elm] + s);
  }

  method InsertTail(head: Link, elm: Link, ghost s: seq<Link>)
    requires Queue(head, s) && elm !in [head] + s
    modifies head, elm, s
    ensures Queue(head, s + [elm])
  {
    ghost var all := [head] + s;
    RingAt(all, |s|);
    elm.next := null;
    elm.prev := head.prev;
    head.prev.next := elm;
    head.prev := elm;
    Grown(all, |s|, elm);
    assert Inserted(all, |s|, elm) == [head] + (s + [elm]);
  }

  method InsertAfter(head: Link, listelm: Link, elm: Link, ghost s: seq<Link>, ghost i: nat)
    requires Queue(head, s) && elm !in [head] + s && i < |s| && s[i] == listelm
    modifies head, elm, s
    ensures Queue(head, s[..i + 1] + [elm] + s[i + 1..])
  {
    ghost var all := [head] + s;
    RingAt(all, i + 1);
    elm.next := listelm.next;
    if elm.next != null {
      elm.next.prev := elm;
    } else {
      head.prev := elm;
    }
    listelm.next := elm;
    elm.prev := listelm;
    Grown(all, i + 1, elm);
    assert Inserted(all, i + 1, elm) == [head] + (s[..i + 1] + [elm] + s[i + 1..]);
  }

  method InsertBefore(ghost head: Link, listelm: Link, elm: Link, ghost s: seq<Link>, ghost i: nat)
    requires Queue(head, s) && elm !in [head] + s && i < |s| && s[i] == listelm
    modifies head, elm, s
    ensures Queue(head, s[..i] + [elm] + s[i..])
  {
    ghost var all := [head] + s;
    RingAt(all, i + 1);
    elm.prev := listelm.prev;
    elm.next := listelm;
    listelm.prev.next := elm;
    listelm.prev := elm;
    Grown(all, i, elm);
    assert Inserted(all, i, elm) == [head] + (s[..i] + [elm] + s[i..]);
  }

  method Remove(head: Link, elm: Link, ghost s: seq<Link>, ghost i: nat)
    requires Queue(head, s) && i < |s| && s[i] == elm
    modifies head, s
    ensures Queue(head, s[..i] + s[i + 1..])
  {
    ghost var all := [head] + s;
    ghost var r := all[..i + 1] + all[i + 2..];
    RingAt(all, i + 1);
    RingAt(all, i);
    if elm.next != null {
      elm.next.prev := elm.prev;
    } else {
      head.prev := elm.prev;
    }
    elm.prev.next := elm.next;
    assert forall k | 0 <= k <= i :: r[k] == all[k];
    assert forall k | i < k < |r| :: r[k] == all[k + 1];
    assert Ring(r);
    assert r == [head] + (s[..i] + s[i + 1..]);
  }

  method Replace(head: Link, elm: Link, elm2: Link, ghost s: seq<Link>, ghost i: nat)
    requires Queue(head, s) && i < |s| && s[i] == elm && elm2 !in [head] + s
    modifies head, elm2, s
    ensures Queue(head, s[i := elm2])
  {
    ghost var all := [head] + s;
    ghost var r := all[i + 1 := elm2];
    RingAt(all, i + 1);
    elm2.next := elm.next;
    if elm2.next != null {
      elm2.next.prev := elm2;
    } else {
      head.prev := elm2;
    }
    elm2.prev := elm.prev;
    elm2.prev.next := elm2;
    assert Ring(r);
    assert r == [head] + s[i := elm2];
  }

  lemma DistinctParts(a: seq<Link>, b: seq<Link>)
    requires Distinct(a + b) && b != []
    ensures Distinct(a + b[1..]) && forall i, j | 0 <= i < |a| && 0 <= j < |b| :: a[i] != b[j]
  {
    var c := a + b;
    forall i, j | 0 <= i < |a| && 0 <= j < |b|
      ensures a[i] != b[j]
    {
      assert c[i] == a[i] && c[|a| + j] == b[j];
    }
    var d := a + b[1..];
    forall i, j | 0 <= i < j < |d|
      ensures d[i] != d[j]
    {
      assert d[i] == c[if i < |a| then i else i + 1] && d[j] == c[if j < |a| then j else j + 1];
    }
  }

  // The three writes that tie the ring b behind the ring a.
  method Tie(head1: Link, head2: Link, ghost a: seq<Link>, ghost b: seq<Link>)
    requires Ring(a) && Ring(b) && |b| > 1 && a[0] == head1 && b[0] == head2
    requires forall i, j | 0 <= i < |a| && 0 <= j < |b| :: a[i] != b[j]
    modifies a, b
    ensures a[|a| - 1].next == b[1] && b[1].prev == a[|a| - 1] && head1.prev == b[|b| - 1]
    ensures forall k | 0 < k < |a| :: a[k - 1].next == a[k] && a[k].prev == a[k - 1]
    ensures forall k | 1 < k < |b| :: b[k - 1].next == b[k] && b[k].prev == b[k - 1]
    ensures b[|b| - 1].next == null
  {
    RingAt(b, 0);
    RingAt(b, 1);
    RingAt(a, |a| - 1);
    head1.prev.next := head2.next;
    head2.next.prev := head1.prev;
    head1.prev := head2.prev;
  }

  method Concat(head1: Link, head2: Link, ghost s1: seq<Link>, ghost s2: seq<Link>)
    requires Queue(head1, s1) && Queue(head2, s2) && Distinct(([head1] + s1) + ([head2] + s2))
    modifies head1, head2, s1, s2
    ensures Queue(head1, s1 + s2) && Queue(head2, [])
  {
    ghost var a, b := [head1] + s1, [head2] + s2;
    DistinctParts(a, b);
    RingAt(b, 0);
    assert a + b[1..] == [head1] + (s1 + s2);
    if head2.next != null {
      Tie(head1, head2, a, b);
      Init(head2);
      Tied(a, b);
    }
  }

  lemma Tied(a: seq<Link>, b: seq<Link>)
    requires a != [] && |b| > 1 && Distinct(a + b[1..])
    requires a[|a| - 1].next == b[1] && b[1].prev == a[|a| - 1] && a[0].prev == b[|b| - 1]
    requires forall k | 0 < k < |a| :: a[k - 1].next == a[k] && a[k].prev == a[k - 1]
    requires forall k | 1 < k < |b| :: b[k - 1].next == b[k] && b[k].prev == b[k - 1]
    requires b[|b| - 1].next == null
    ensures Ring(a + b[1..])
  {
    hide Distinct;
    var r := a + b[1..];
    forall k | 0 < k < |r|
      ensures r[k - 1].next == r[k] && r[k].prev == r[k - 1]
    {
      if k > |a| {
        assert r[k - 1] == b[k - |a|] && r[k] == b[k - |a| + 1];
      }
    }
  }

  // ---------- traversal ----------

  function First(head: Link): Link?
    reads head
  {
    head.next
  }

  function Next(elm: Link): Link?
    reads elm
  {
    elm.next
  }

  // TAILQ_LAST reads the place of the last forward link as a head: its back link is the place of the forward
  // link before, which leads to the last element.
  method Last(head: Link, ghost s: seq<Link>) returns (r: Link?)
    requires Queue(head, s)
    ensures r == if s == [] then null else s[|s| - 1]
  {
    RingAt([head] + s, 0);
    RingAt([head] + s, |s|);
    if s != [] {
      RingAt([head] + s, |s| - 1);
    }
    r := head.prev.prev.next;
  }

  // TAILQ_PREV does the same from an element; before the first element it finds the end of the queue, null.
  method Prev(elm: Link, ghost head: Link, ghost s: seq<Link>, ghost i: nat) returns (r: Link?)
    requires Queue(head, s) && i < |s| && s[i] == elm
    ensures r == if i == 0 then null else s[i - 1]
  {
    RingAt([head] + s, i + 1);
    RingAt([head] + s, i);
    RingAt([head] + s, |s|);
    if i > 0 {
      RingAt([head] + s, i - 1);
    }
    r := elm.prev.prev.next;
  }

  // TAILQ_FOREACH visits the elements in order.
  method Foreach(head: Link, ghost s: seq<Link>) returns (visited: seq<Link>)
    requires Queue(head, s)
    ensures visited == s
  {
    visited := [];
    RingAt([head] + s, 0);
    var v := First(head);
    while v != null
      invariant |visited| <= |s| && visited == s[..|visited|]
      invariant v == if |visited| < |s| then s[|visited|] else null
      decreases |s| - |visited|
    {
      RingAt([head] + s, |visited| + 1);
      visited := visited + [v];
      v := Next(v);
    }
  }

  // TAILQ_FOREACH_REVERSE visits them in the opposite order.
  method ForeachReverse(head: Link, ghost s: seq<Link>) returns (visited: seq<Link>)
    requires Queue(head, s)
    ensures visited == Reverse(s)
  {
    visited := [];
    var v := Last(head, s);
    while v != null
      invariant |visited| <= |s| && forall k | 0 <= k < |visited| :: visited[k] == s[|s| - 1 - k]
      invariant v == if |visited| < |s| then s[|s| - 1 - |visited|] else null
      decreases |s| - |visited|
    {
      visited := visited + [v];
      v := Prev(v, head, s, |s| - |visited|);
    }
  }
}
