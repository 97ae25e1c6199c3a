/** Sorting and searching arrays of elements of any size through a comparator. */
module Sorting {
  import opened Arith
  import opened Order
  import opened Seqs

  type byte = bv8

  // ---------- elements in memory ----------

  // Where element k begins.
  function Place(k: nat, size: nat): nat {
    k * size
  }

  lemma Fits(k: nat, num: nat, size: nat)
    requires k < num
    ensures Place(k, size) + size <= Place(num, size)
  {
    MulNext(k, size);
    MulMono(k + 1, num, size);
  }

  // The bytes of element k.
  function Element(b: seq<byte>, size: nat, k: nat): seq<byte>
    requires Place(k, size) + size <= |b|
  {
    b[Place(k, size)..Place(k, size) + size]
  }

  // The first num elements.
  function Elements(b: seq<byte>, num: nat, size: nat): (e: seq<seq<byte>>)
    requires Place(num, size) <= |b|
    ensures |e| == num
  {
    seq(num, k requires 0 <= k < num => Fits(k, num, size); Element(b, size, k))
  }

  // ---------- exchanging two elements ----------

  // The n bytes from p on and the n bytes from q on have changed places.
  ghost predicate Exchanged(a: seq<byte>, b: seq<byte>, p: nat, q: nat, n: nat)
    requires |a| == |b| && p + n <= |a| && q + n <= |a|
  {
    && b[p..p + n] == a[q..q + n] && b[q..q + n] == a[p..p + n]
    && (forall x | 0 <= x < |a| && !(p <= x < p + n) && !(q <= x < q + n) :: b[x] == a[x])
  }

  // swap_elements, on the places p and q of one array.
  method SwapElements(a: array<byte>, p: nat, q: nat, size: nat)
    requires p + size <= a.Length && q + size <= a.Length && (p == q || p + size <= q || q + size <= p)
    modifies a
    ensures Exchanged(old(a[..]), a[..], p, q, size)
  {
    ghost var was := a[..];
    for i := 0 to size
      invariant forall x | p <= x < p + i :: a[x] == was[q + (x - p)]
      invariant forall x | q <= x < q + i :: a[x] == was[p + (x - q)]
      invariant forall x | 0 <= x < a.Length && !(p <= x < p + i) && !(q <= x < q + i) :: a[x] == was[x]
    {
      var temp := a[p + i];
      a[p + i] := a[q + i];
      a[q + i] := temp;
    }
    assert a[..][p..p + size] == was[q..q + size];
    assert a[..][q..q + size] == was[p..p + size];
  }

  // Elements at different places do not overlap.
  lemma PlacesApart(i: nat, j: nat, size: nat)
    ensures i < j ==> Place(i, size) + size <= Place(j, size)
    ensures j < i ==> Place(j, size) + size <= Place(i, size)
  {
    MulNext(i, size);
    MulNext(j, size);
    if i < j {
      MulMono(i + 1, j, size);
    } else if j < i {
      MulMono(j + 1, i, size);
    }
  }

  lemma ExchangedElements(a: seq<byte>, b: seq<byte>, num: nat, size: nat, i: nat, j: nat, p: nat, q: nat)
    requires |a| == |b| && Place(num, size) <= |a| && i < num && j < num && p == Place(i, size) && q == Place(j, size)
    requires p + size <= |a| && q + size <= |a| && Exchanged(a, b, p, q, size)
    ensures Elements(b, num, size) == Swapped(Elements(a, num, size), i, j)
  {
    var e, f := Elements(a, num, size), Elements(b, num, size);
    forall k | 0 <= k < num
      ensures f[k] == Swapped(e, i, j)[k]
    {
      Fits(k, num, size);
      Fits(if k == i then j else if k == j then i else k, num, size);
      ExchangedElement(a, b, size, i, j, k);
    }
  }

  // The bytes behind the elements stay.
  lemma ExchangedTail(a: seq<byte>, b: seq<byte>, end: nat, p: nat, q: nat, n: nat)
    requires |a| == |b| && p + n <= end <= |a| && q + n <= end && Exchanged(a, b, p, q, n)
    ensures b[end..] == a[end..]
  {
  }

  lemma ExchangedElement(a: seq<byte>, b: seq<byte>, size: nat, i: nat, j: nat, k: nat)
    requires |a| == |b| && Place(i, size) + size <= |a| && Place(j, size) + size <= |a| && Place(k, size) + size <= |a|
    requires Exchanged(a, b, Place(i, size), Place(j, size), size)
    ensures k == i ==> Element(b, size, k) == Element(a, size, j)
    ensures k == j ==> Element(b, size, k) == Element(a, size, i)
    ensures k != i && k != j ==> Element(b, size, k) == Element(a, size, k)
  {
    hide Place, Exchanged;
    var p, q, r := Place(i, size), Place(j, size), Place(k, size);
    if k != i && k != j {
      PlacesApart(k, i, size);
      PlacesApart(k, j, size);
      OutOfTheWay(a, b, p, q, r, size);
    } else {
      Crossed(a, b, p, q, size);
    }
  }

  lemma Crossed(a: seq<byte>, b: seq<byte>, p: nat, q: nat, n: nat)
    requires |a| == |b| && p + n <= |a| && q + n <= |a| && Exchanged(a, b, p, q, n)
    ensures b[p..p + n] == a[q..q + n] && b[q..q + n] == a[p..p + n]
  {
  }

  lemma OutOfTheWay(a: seq<byte>, b: seq<byte>, p: nat, q: nat, r: nat, n: nat)
    requires |a| == |b| && p + n <= |a| && q + n <= |a| && r + n <= |a| && Exchanged(a, b, p, q, n)
    requires (r + n <= p || p + n <= r) && (r + n <= q || q + n <= r)
    ensures b[r..r + n] == a[r..r + n]
  {
    assert forall x | r <= x < r + n :: b[x] == a[x];
  }

  // ---------- rearrangements ----------

  // t is s with the elements from low to below end in another order.
  ghost predicate Rearranged<T>(s: seq<T>, t: seq<T>, low: nat, end: nat) {
    && low <= end <= |s| == |t|
    && (forall k | 0 <= k < |s| && !(low <= k < end) :: t[k] == s[k])
    && multiset(t[low..end]) == multiset(s[low..end])
  }

  lemma SwapRearranges<T>(s: seq<T>, i: nat, j: nat, low: nat, end: nat)
    requires low <= i < end <= |s| && low <= j < end
    ensures Rearranged(s, Swapped(s, i, j), low, end)
  {
    var a := s[low..end];
    assert Swapped(s, i, j)[low..end] == a[i - low := a[j - low]][j - low := a[i - low]];
  }

  lemma RearrangedTwice<T>(s: seq<T>, t: seq<T>, u: seq<T>, low: nat, end: nat)
    requires Rearranged(s, t, low, end) && Rearranged(t, u, low, end)
    ensures Rearranged(s, u, low, end)
  {
  }

  // A rearrangement of a part is one of the whole.
  lemma RearrangedPart<T>(s: seq<T>, t: seq<T>, low: nat, end: nat, low': nat, end': nat)
    requires Rearranged(s, t, low', end') && low <= low' && end' <= end <= |s|
    ensures Rearranged(s, t, low, end)
  {
    assert t[low..end] == t[low..low'] + t[low'..end'] + t[end'..end];
    assert s[low..end] == s[low..low'] + s[low'..end'] + s[end'..end];
    assert t[low..low'] == s[low..low'] && t[end'..end] == s[end'..end];
  }

  // Every element of the rearranged part was there before.
  lemma RearrangedFrom<T>(s: seq<T>, t: seq<T>, low: nat, end: nat, k: nat)
    requires Rearranged(s, t, low, end) && low <= k < end
    ensures exists m :: low <= m < end && t[k] == s[m]
  {
    assert t[k] == t[low..end][k - low];
    assert t[k] in multiset(t[low..end]);
    assert t[k] in s[low..end];
    var i :| 0 <= i < |s[low..end]| && s[low..end][i] == t[k];
    assert s[low + i] == t[k];
  }

  // ---------- quicksort ----------

  // A comparator on elements: cmp orders the keys that read finds in their bytes.
  datatype ByKey = ByKey(cmp: Comparator, read: seq<byte> -> Key) {
    function Compare(a: seq<byte>, b: seq<byte>): int {
      cmp(read(a), read(b))
    }

    ghost predicate Total() {
      TotalPreorder(cmp)
    }

    // The elements from low to below end are in order.
    ghost predicate Sorted(e: seq<seq<byte>>, low: nat, end: nat) {
      end <= |e| && forall i, j | low <= i < j < end :: Compare(e[i], e[j]) <= 0
    }

    // The elements from low to below end compare to the pivot as wanted: below it, or not below it.
    ghost predicate Side(e: seq<seq<byte>>, low: nat, end: nat, pivot: seq<byte>, below: bool) {
      end <= |e| && forall k | low <= k < end :: (Compare(e[k], pivot) < 0) == below
    }
  }

  lemma SideRearranged(o: ByKey, s: seq<seq<byte>>, t: seq<seq<byte>>, low: nat, end: nat, pivot: seq<byte>,
        below: bool)
    requires Rearranged(s, t, low, end) && o.Side(s, low, end, pivot, below)
    ensures o.Side(t, low, end, pivot, below)
  {
    forall k | low <= k < end
      ensures (o.Compare(t[k], pivot) < 0) == below
    {
      RearrangedFrom(s, t, low, end, k);
    }
  }

  // Two sorted sides around their pivot are sorted.
  lemma SidesSorted(o: ByKey, e: seq<seq<byte>>, low: nat, p: nat, end: nat)
    requires o.Total() && low <= p < end <= |e| && o.Sorted(e, low, p) && o.Sorted(e, p + 1, end)
    requires o.Side(e, low, p, e[p], true) && o.Side(e, p + 1, end, e[p], false)
    ensures o.Sorted(e, low, end)
  {
    var c, r := o.cmp, o.read;
    forall i, j | low <= i < j < end
      ensures o.Compare(e[i], e[j]) <= 0
    {
      assert i < p ==> c(r(e[i]), r(e[p])) <= 0;
      assert p < j ==> c(r(e[p]), r(e[j])) <= 0;
    }
  }

  method SwapAt(base: array<byte>, i: nat, j: nat, size: nat, ghost num: nat)
    requires Place(num, size) <= base.Length && i < num && j < num
    modifies base
    ensures Elements(base[..], num, size) == Swapped(old(Elements(base[..], num, size)), i, j)
    ensures base[Place(num, size)..] == old(base[Place(num, size)..])
  {
    hide Elements, Exchanged, Swapped;
    Fits(i, num, size);
    Fits(j, num, size);
    PlacesApart(i, j, size);
    ghost var was, end, p, q := base[..], Place(num, size), Place(i, size), Place(j, size);
    SwapElements(base, Place(i, size), Place(j, size), size);
    ExchangedElements(was, base[..], num, size, i, j, p, q);
    ExchangedTail(was, base[..], end, p, q, size);
    assert base[end..] == base[..][end..];
  }

  method CompareAt(base: array<byte>, i: nat, j: nat, size: nat, o: ByKey, ghost num: nat) returns (r: int)
    requires Place(num, size) <= base.Length && i < num && j < num
    ensures r == o.Compare(Elements(base[..], num, size)[i], Elements(base[..], num, size)[j])
  {
    Fits(i, num, size);
    Fits(j, num, size);
    assert base[Place(i, size)..Place(i, size) + size] == Element(base[..], size, i);
    assert base[Place(j, size)..Place(j, size) + size] == Element(base[..], size, j);
    r := o.Compare(base[Place(i, size)..Place(i, size) + size], base[Place(j, size)..Place(j, size) + size]);
  }

  // The state of the partition loop: e rearranges e0 and the pivot stays at high;
  // up to i the elements are below it, from i up to j they are not.
  ghost predicate Parting(o: ByKey, e0: seq<seq<byte>>, e: seq<seq<byte>>, low: nat, i: nat, j: nat, high: nat) {
    && low <= i <= j <= high < |e| && Rearranged(e0, e, low, high + 1)
    && o.Side(e, low, i, e[high], true) && o.Side(e, i, j, e[high], false)
  }

  // The pivot stands at p between what is below it and what is not.
  ghost predicate Parted(o: ByKey, e0: seq<seq<byte>>, e: seq<seq<byte>>, low: nat, p: nat, high: nat) {
    && low <= p <= high < |e| && Rearranged(e0, e, low, high + 1)
    && o.Side(e, low, p, e[p], true) && o.Side(e, p + 1, high + 1, e[p], false)
  }

  lemma PartingNext(o: ByKey, e0: seq<seq<byte>>, e: seq<seq<byte>>, low: nat, i: nat, j: nat, high: nat)
    requires Parting(o, e0, e, low, i, j, high) && j < high
    ensures if o.Compare(e[j], e[high]) < 0 then Parting(o, e0, Swapped(e, i, j), low, i + 1, j + 1, high)
            else Parting(o, e0, e, low, i, j + 1, high)
  {
    hide Rearranged;
    SwapKeeps(e0, e, i, j, low, high + 1);
  }

  lemma SwapKeeps<T>(s: seq<T>, t: seq<T>, i: nat, j: nat, low: nat, end: nat)
    requires Rearranged(s, t, low, end) && low <= i < end <= |t| && low <= j < end
    ensures Rearranged(s, Swapped(t, i, j), low, end)
  {
    SwapRearranges(t, i, j, low, end);
    RearrangedTwice(s, t, Swapped(t, i, j), low, end);
  }

  lemma PivotHome(o: ByKey, e0: seq<seq<byte>>, e: seq<seq<byte>>, low: nat, i: nat, high: nat)
    requires o.Total() && Parting(o, e0, e, low, i, high, high)
    ensures Parted(o, e0, Swapped(e, i, high), low, i, high)
  {
    SwapKeeps(e0, e, i, high, low, high + 1);
    var f := Swapped(e, i, high);
    assert f[i] == e[high];
    forall k | i + 1 <= k < high + 1
      ensures o.Compare(f[k], f[i]) >= 0
    {
      assert k < high ==> f[k] == e[k];
      assert k == high ==> f[k] == e[i];
    }
  }

  // partition: the last element is the pivot; what is below it goes in front of it.
  method Partition(base: array<byte>, low: nat, high: nat, size: nat, o: ByKey, ghost num: nat) returns (p: nat)
    requires Place(num, size) <= base.Length && low < high < num && o.Total()
    modifies base
    ensures Parted(o, old(Elements(base[..], num, size)), Elements(base[..], num, size), low, p, high)
    ensures base[Place(num, size)..] == old(base[Place(num, size)..])
  {
    hide Elements, Swapped, Rearranged, Parted, ByKey.Side, ByKey.Total;
    ghost var e0 := Elements(base[..], num, size);
    ghost var e := e0;
    ghost var tail := base[Place(num, size)..];
    var i := low;
    PartingStart(o, e, low, high);
    for j := low to high
      invariant Parting(o, e0, e, low, i, j, high)
      invariant e == Elements(base[..], num, size) && base[Place(num, size)..] == tail
    {
      var c := CompareAt(base, j, high, size, o, num);
      PartingNext(o, e0, e, low, i, j, high);
      if c < 0 {
        SwapAt(base, i, j, size, num);
        e := Swapped(e, i, j);
        i := i + 1;
      }
    }
    PivotHome(o, e0, e, low, i, high);
    SwapAt(base, i, high, size, num);
    return i;
  }

  lemma PartingStart(o: ByKey, e: seq<seq<byte>>, low: nat, high: nat)
    requires low < high < |e|
    ensures Parting(o, e, e, low, low, low, high)
  {
  }

  // quicksort of the elements from low to high.
  method Quicksort(base: array<byte>, low: nat, high: nat, size: nat, o: ByKey, ghost num: nat)
    requires Place(num, size) <= base.Length && low <= high + 1 <= num && o.Total()
    modifies base
    ensures var e := Elements(base[..], num, size);
            Rearranged(old(Elements(base[..], num, size)), e, low, high + 1) && o.Sorted(e, low, high + 1)
    ensures base[Place(num, size)..] == old(base[Place(num, size)..])
    decreases high + 1 - low
  {
    if low < high {
      hide Elements, Rearranged, Parted, ByKey.Sorted, ByKey.Total;
      ghost var e0 := Elements(base[..], num, size);
      var p := Partition(base, low, high, size, o, num);
      ghost var e1 := Elements(base[..], num, size);
      PartedBounds(o, e0, e1, low, p, high);
      if p > 0 {
        Quicksort(base, low, p - 1, size, o, num);
      }
      ghost var e2 := Elements(base[..], num, size);
      Quicksort(base, p + 1, high, size, o, num);
      ghost var e3 := Elements(base[..], num, size);
      BothSides(o, e0, e1, e2, e3, low, p, high);
    }
  }

  // The place of the pivot; and an empty side needs no sorting.
  lemma PartedBounds(o: ByKey, e0: seq<seq<byte>>, e: seq<seq<byte>>, low: nat, p: nat, high: nat)
    requires Parted(o, e0, e, low, p, high)
    ensures low <= p <= high && (p == low ==> Rearranged(e, e, low, p) && o.Sorted(e, low, p))
  {
  }

  // What lies outside of a rearrangement stays as it was.
  lemma Outside(o: ByKey, s: seq<seq<byte>>, t: seq<seq<byte>>, a: nat, b: nat, low: nat, end: nat,
        pivot: seq<byte>, below: bool)
    requires Rearranged(s, t, a, b) && (end <= a || b <= low)
    ensures o.Sorted(s, low, end) ==> o.Sorted(t, low, end)
    ensures o.Side(s, low, end, pivot, below) ==> o.Side(t, low, end, pivot, below)
  {
    assert end <= |s| ==> forall k | low <= k < end :: t[k] == s[k];
  }

  // Sorting the two sides of a partition sorts the whole.
  lemma BothSides(o: ByKey, e0: seq<seq<byte>>, e1: seq<seq<byte>>, e2: seq<seq<byte>>, e3: seq<seq<byte>>,
        low: nat, p: nat, high: nat)
    requires o.Total() && Parted(o, e0, e1, low, p, high)
    requires Rearranged(e1, e2, low, p) && o.Sorted(e2, low, p)
    requires Rearranged(e2, e3, p + 1, high + 1) && o.Sorted(e3, p + 1, high + 1)
    ensures Rearranged(e0, e3, low, high + 1) && o.Sorted(e3, low, high + 1)
  {
    hide Rearranged, ByKey.Sorted, ByKey.Side, ByKey.Total;
    SidesRearranged(e0, e1, e2, e3, low, p, high + 1);
    SideRearranged(o, e1, e2, low, p, e1[p], true);
    Outside(o, e1, e2, low, p, p + 1, high + 1, e1[p], false);
    SideRearranged(o, e2, e3, p + 1, high + 1, e1[p], false);
    Outside(o, e2, e3, p + 1, high + 1, low, p, e1[p], true);
    SidesSorted(o, e3, low, p, high + 1);
  }

  lemma SidesRearranged(e0: seq<seq<byte>>, e1: seq<seq<byte>>, e2: seq<seq<byte>>, e3: seq<seq<byte>>, low: nat,
        p: nat, end: nat)
    requires low <= p < end && Rearranged(e0, e1, low, end) && Rearranged(e1, e2, low, p) &&
      Rearranged(e2, e3, p + 1, end)
    ensures Rearranged(e0, e3, low, end) && |e3| == |e2| == |e1| >= end && e3[p] == e1[p]
  {
    RearrangedPart(e1, e2, low, end, low, p);
    RearrangedPart(e2, e3, low, end, p + 1, end);
    RearrangedTwice(e0, e1, e2, low, end);
    RearrangedTwice(e0, e2, e3, low, end);
    assert e2[p] == e1[p] && e3[p] == e2[p];
  }

  // qsort: the elements are sorted, none is lost or changed, and the bytes behind them stay.
  method Qsort(base: array<byte>, num: nat, size: nat, o: ByKey)
    requires Place(num, size) <= base.Length && o.Total()
    modifies base
    ensures var e := Elements(base[..], num, size);
            o.Sorted(e, 0, num) && multiset(e) == multiset(old(Elements(base[..], num, size)))
    ensures base[Place(num, size)..] == old(base[Place(num, size)..])
  {
    if num > 1 {
      Quicksort(base, 0, num - 1, size, o, num);
      assert Elements(base[..], num, size)[0..num] == Elements(base[..], num, size);
      assert old(Elements(base[..], num, size))[0..num] == old(Elements(base[..], num, size));
    }
  }

  // ---------- binary search ----------

  // Below an element that is below the key, or above one that is above it, nothing equals the key.
  lemma Beyond(o: ByKey, e: seq<seq<byte>>, key: Key, m: nat)
    requires o.Total() && o.Sorted(e, 0, |e|) && m < |e|
    ensures o.cmp(key, o.read(e[m])) > 0 ==> forall k | 0 <= k <= m :: o.cmp(key, o.read(e[k])) > 0
    ensures o.cmp(key, o.read(e[m])) < 0 ==> forall k | m <= k < |e| :: o.cmp(key, o.read(e[k])) < 0
  {
    forall k | 0 <= k < |e|
      ensures k <= m && o.cmp(key, o.read(e[m])) > 0 ==> o.cmp(key, o.read(e[k])) > 0
      ensures m <= k && o.cmp(key, o.read(e[m])) < 0 ==> o.cmp(key, o.read(e[k])) < 0
    {
      var c, a, b := o.cmp, o.read(e[k]), o.read(e[m]);
      if k < m {
        assert o.Compare(e[k], e[m]) <= 0;
        assert c(key, b) > 0 ==> c(b, key) < 0 && c(a, key) <= 0;
        assert c(key, a) <= 0 && c(a, b) <= 0 ==> c(key, b) <= 0;
      } else if m < k {
        assert o.Compare(e[m], e[k]) <= 0;
        assert c(key, b) < 0 ==> c(b, key) > 0;
        assert c(b, a) <= 0 && c(a, key) <= 0 ==> c(b, key) <= 0;
      }
    }
  }

  // bsearch: the index of an element equal to the key, or -1 if there is none.
  method Bsearch(key: Key, base: array<byte>, num: nat, size: nat, o: ByKey) returns (r: int)
    requires Place(num, size) <= base.Length && o.Total() && o.Sorted(Elements(base[..], num, size), 0, num)
    ensures var e := Elements(base[..], num, size);
            if r == -1 then forall k | 0 <= k < num :: o.cmp(key, o.read(e[k])) != 0
            else 0 <= r < num && o.cmp(key, o.read(e[r])) == 0
  {
    hide Elements;
    ghost var e := Elements(base[..], num, size);
    var low: nat, high: nat := 0, num;
    while low < high
      invariant low <= high <= num
      invariant forall k | 0 <= k < low :: o.cmp(key, o.read(e[k])) > 0
      invariant forall k | high <= k < num :: o.cmp(key, o.read(e[k])) < 0
    {
      var mid := low + (high - low) / 2;
      Fits(mid, num, size);
      var c := o.cmp(key, o.read(base[Place(mid, size)..Place(mid, size) + size]));
      ElementAt(base[..], num, size, mid);
      assert base[Place(mid, size)..Place(mid, size) + size] == base[..][Place(mid, size)..Place(mid, size) + size];
      Beyond(o, e, key, mid);
      if c == 0 {
        return mid;
      } else if c < 0 {
        high := mid;
      } else {
        low := mid + 1;
      }
    }
    return -1;
  }

  lemma ElementAt(b: seq<byte>, num: nat, size: nat, k: nat)
    requires Place(num, size) <= |b| && k < num
    ensures Place(k, size) + size <= |b| && Elements(b, num, size)[k] == b[Place(k, size)..Place(k, size) + size]
  {
    Fits(k, num, size);
  }

  // After qsort, bsearch finds a key exactly if some element had it before.
  method SortAndFind(key: Key, base: array<byte>, num: nat, size: nat, o: ByKey) returns (r: int)
    requires Place(num, size) <= base.Length && o.Total()
    modifies base
    ensures r == -1 <==> forall x | x in old(Elements(base[..], num, size)) :: o.cmp(key, o.read(x)) != 0
  {
    hide Elements, ByKey.Sorted;
    ghost var e := Elements(base[..], num, size);
    Qsort(base, num, size, o);
    ghost var f := Elements(base[..], num, size);
    forall x
      ensures x in e <==> x in f
    {
      assert x in multiset(e) <==> x in multiset(f);
    }
    r := Bsearch(key, base, num, size, o);
  }
}
