/** Comparators in the style of the C library: the sign of the result orders the keys. */
module Order {

  // Keys are compared only through a comparator; nothing else is known of them.
  type Key(!new)

  type Comparator = (Key, Key) -> int

  // The sign of cmp is a total preorder: antisymmetric in sign, and transitive.
  ghost predicate TotalPreorder(cmp: Comparator) {
    && (forall a, b :: cmp(a, b) < 0 <==> cmp(b, a) > 0)
    && (forall a, b, c :: cmp(a, b) <= 0 && cmp(b, c) <= 0 ==> cmp(a, c) <= 0)
  }

  lemma LessTransitive(cmp: Comparator, a: Key, b: Key, c: Key)
    requires TotalPreorder(cmp)
    requires cmp(a, b) <= 0 && cmp(b, c) <= 0 && (cmp(a, b) < 0 || cmp(b, c) < 0)
    ensures cmp(a, c) < 0
  {
    assert cmp(c, a) <= 0 ==> cmp(c, b) <= 0 && cmp(b, a) <= 0;
  }

  ghost predicate Ascending(cmp: Comparator, s: seq<Key>) {
    forall i, j | 0 <= i < j < |s| :: cmp(s[i], s[j]) < 0
  }

  // All of s lies below k.
  ghost predicate AllBelow(cmp: Comparator, s: seq<Key>, k: Key) {
    forall i | 0 <= i < |s| :: cmp(k, s[i]) > 0
  }

  // All of s lies above k.
  ghost predicate AllAbove(cmp: Comparator, s: seq<Key>, k: Key) {
    forall i | 0 <= i < |s| :: cmp(k, s[i]) < 0
  }

  // A key below x lies below everything from x on.
  lemma BelowRest(cmp: Comparator, a: seq<Key>, x: Key, b: seq<Key>, k: Key)
    requires TotalPreorder(cmp) && Ascending(cmp, a + [x] + b) && cmp(k, x) <= 0
    ensures AllAbove(cmp, b, k)
  {
    forall i | 0 <= i < |b|
      ensures cmp(k, b[i]) < 0
    {
      assert (a + [x] + b)[|a|] == x && (a + [x] + b)[|a| + 1 + i] == b[i];
      LessTransitive(cmp, k, x, b[i]);
    }
  }

  // A key above x lies above everything up to x.
  lemma AboveRest(cmp: Comparator, a: seq<Key>, x: Key, b: seq<Key>, k: Key)
    requires TotalPreorder(cmp) && Ascending(cmp, a + [x] + b) && cmp(k, x) >= 0
    ensures AllBelow(cmp, a, k)
  {
    forall i | 0 <= i < |a|
      ensures cmp(k, a[i]) > 0
    {
      assert (a + [x] + b)[|a|] == x && (a + [x] + b)[i] == a[i];
      LessTransitive(cmp, a[i], x, k);
    }
  }

  lemma EqualSelf(cmp: Comparator, k: Key)
    requires TotalPreorder(cmp)
    ensures cmp(k, k) == 0
  {
  }

  // No two places of an ascending sequence hold equal keys.
  lemma SamePlace(cmp: Comparator, s: seq<Key>, i: nat, j: nat)
    requires TotalPreorder(cmp) && Ascending(cmp, s) && i < |s| && j < |s| && cmp(s[i], s[j]) == 0
    ensures i == j
  {
    assert cmp(s[j], s[i]) == 0;
  }

  // What comparing k with x tells about the keys around x.
  lemma SplitBy(cmp: Comparator, k: Key, a: seq<Key>, x: Key, b: seq<Key>)
    requires TotalPreorder(cmp) && Ascending(cmp, a + [x] + b)
    ensures cmp(k, x) <= 0 ==> AllAbove(cmp, b, k)
    ensures cmp(k, x) >= 0 ==> AllBelow(cmp, a, k)
    ensures cmp(k, x) < 0 ==> AllAbove(cmp, [x] + b, k)
    ensures cmp(k, x) > 0 ==> AllBelow(cmp, a + [x], k)
  {
    if cmp(k, x) <= 0 {
      BelowRest(cmp, a, x, b, k);
    }
    if cmp(k, x) >= 0 {
      AboveRest(cmp, a, x, b, k);
    }
  }

  // Inserting a key where it belongs keeps the order.
  lemma InsertedAscending(cmp: Comparator, a: seq<Key>, k: Key, b: seq<Key>)
    requires TotalPreorder(cmp) && Ascending(cmp, a + b) && AllBelow(cmp, a, k) && AllAbove(cmp, b, k)
    ensures Ascending(cmp, a + [k] + b)
  {
    var s, t := a + b, a + [k] + b;
    forall i, j | 0 <= i < j < |t|
      ensures cmp(t[i], t[j]) < 0
    {
      if i != |a| && j != |a| {
        var i', j' := if i < |a| then i else i - 1, if j < |a| then j else j - 1;
        assert t[i] == s[i'] && t[j] == s[j'];
      }
    }
  }

  lemma RemovedAscending(cmp: Comparator, a: seq<Key>, k: Key, b: seq<Key>)
    requires Ascending(cmp, a + [k] + b)
    ensures Ascending(cmp, a + b)
  {
    var s, t := a + b, a + [k] + b;
    forall i, j | 0 <= i < j < |s|
      ensures cmp(s[i], s[j]) < 0
    {
      var i', j' := if i < |a| then i else i + 1, if j < |a| then j else j + 1;
      assert t[i'] == s[i] && t[j'] == s[j];
    }
  }
}
