/** The physical frame allocator: regions of frames with a bitmap each. */
module Pmm {
  import opened Bits64
  import Arith
  import Words

  const PAGE := 4096
  const WORD := 0x1_0000_0000

  datatype Zone = Dma | Normal | High

  // ---------- runs of clear bits ----------

  ghost predicate Clear(bits: seq<bool>, i: nat, n: nat) {
    i + n <= |bits| && forall k | i <= k < i + n :: !bits[k]
  }

  // The lowest start from i on of n clear bits in a row, or the length.
  ghost function LowestRun(bits: seq<bool>, n: nat, i: nat): (r: nat)
    requires i <= |bits|
    ensures i <= r <= |bits| && (forall k: nat | i <= k < r :: !Clear(bits, k, n)) && (r < |bits| ==> Clear(bits, r, n))
    decreases |bits| - i
  {
    if i == |bits| || Clear(bits, i, n) then i else LowestRun(bits, n, i + 1)
  }

  lemma LowestRunIs(bits: seq<bool>, n: nat, r: nat)
    requires r <= |bits| && (forall k: nat | k < r :: !Clear(bits, k, n)) && (r < |bits| ==> Clear(bits, r, n))
    ensures LowestRun(bits, n, 0) == r
  {
  }

  // Bits i to i + n - 1 set to b.
  function Filled(bits: seq<bool>, i: nat, n: nat, b: bool): (r: seq<bool>)
    requires i + n <= |bits|
    ensures |r| == |bits|
  {
    seq(|bits|, k requires 0 <= k < |bits| => if i <= k < i + n then b else bits[k])
  }

  // Freeing restores every bit.
  lemma FillUndone(bits: seq<bool>, i: nat, n: nat)
    requires Clear(bits, i, n)
    ensures Filled(Filled(bits, i, n, true), i, n, false) == bits
  {
  }

  // The number of set bits.
  function Count(bits: seq<bool>): (n: nat)
    ensures n <= |bits|
  {
    if bits == [] then 0 else Count(bits[..|bits| - 1]) + if bits[|bits| - 1] then 1 else 0
  }

  lemma CountNext(bits: seq<bool>, i: nat)
    requires i < |bits|
    ensures Count(bits[..i + 1]) == Count(bits[..i]) + if bits[i] then 1 else 0
  {
    assert bits[..i + 1][..i] == bits[..i];
  }

  // Taking n clear bits raises the count by n.
  lemma {:induction false} CountFilled(bits: seq<bool>, i: nat, n: nat)
    requires Clear(bits, i, n)
    ensures Count(Filled(bits, i, n, true)) == Count(bits) + n
    decreases |bits|
  {
    var r := Filled(bits, i, n, true);
    if n == 0 {
      assert r == bits;
    } else if i + n == |bits| {
      assert Clear(bits[..|bits| - 1], i, n - 1);
      CountFilled(bits[..|bits| - 1], i, n - 1);
      assert r[..|bits| - 1] == Filled(bits[..|bits| - 1], i, n - 1, true);
    } else {
      assert Clear(bits[..|bits| - 1], i, n);
      CountFilled(bits[..|bits| - 1], i, n);
      assert r[..|bits| - 1] == Filled(bits[..|bits| - 1], i, n, true);
    }
  }

  // ---------- regions ----------

  ghost function BitsOf(words: seq<bv64>, pages: nat): (r: seq<bool>)
    requires |words| * 64 >= pages
    ensures |r| == pages
  {
    seq(pages, i requires 0 <= i < pages => Bit(words, i))
  }

  class Region {
    const base: nat
    const pages: nat
    const bitmap: array<bv64>
    var lastAlloc: nat
    const zone: Zone
    const next: Region?

    // A region with no frame taken, in front of the others.
    constructor (base: nat, pages: nat, zone: Zone, next: Region?)
      requires base < WORD && base % PAGE == 0 && pages * PAGE < WORD
      ensures this.base == base && this.pages == pages && this.zone == zone && this.next == next && lastAlloc == 0
      ensures Sized() && fresh(bitmap) && Bits() == seq(pages, _ => false)
    {
      this.base, this.pages, this.zone, this.next, lastAlloc := base, pages, zone, next, 0;
      bitmap := new bv64[(pages + 63) / 64](_ => 0);
      new;
      NoBits();
    }

    // The bitmap has a bit for every frame, and the numbers fit in 32 bits.
    predicate Sized() {
      bitmap.Length * 64 >= pages && base < WORD && base % PAGE == 0 && pages * PAGE < WORD
    }

    ghost function Bits(): (r: seq<bool>)
      requires Sized()
      reads bitmap
      ensures |r| == pages
    {
      BitsOf(bitmap[..], pages)
    }

    // test_bit_64
    method TestBit(i: nat) returns (r: bool)
      requires Sized() && i < pages
      ensures r == Bits()[i]
    {
      r := TestAt(bitmap[i / 64], Amount(i % 64));
    }

    // set_bit_64
    method SetBit(i: nat)
      requires Sized() && i < pages
      modifies bitmap
      ensures Bits() == old(Bits())[i := true]
    {
      hide Bit, BitsOf;
      Updated(bitmap[..], pages, i);
      PutWord(i / 64, SetAt(bitmap[i / 64], Amount(i % 64)));
    }

    // clear_bit_64
    method ClearBit(i: nat)
      requires Sized() && i < pages
      modifies bitmap
      ensures Bits() == old(Bits())[i := false]
    {
      hide Bit, BitsOf;
      Updated(bitmap[..], pages, i);
      PutWord(i / 64, ClearAt(bitmap[i / 64], Amount(i % 64)));
    }

    method PutWord(i: nat, w: bv64)
      requires i < bitmap.Length
      modifies bitmap
      ensures bitmap[..] == old(bitmap[..])[i := w]
    {
      bitmap[i] := w;
    }

    // The scan of pmm_alloc_pages_zone over one region.
    method FindRun(count: nat) returns (found: bool, start: nat)
      requires Sized() && count > 0
      ensures found == (LowestRun(Bits(), count, 0) < pages) && (found ==> start == LowestRun(Bits(), count, 0))
    {
      hide Scanned, Clear, Count, BitsOf;
      var consecutive := 0;
      start := 0;
      ghost var bits := Bits();
      ScannedNone(bits, count);
      for i := 0 to pages
        invariant Scanned(bits, count, i, consecutive) && (consecutive > 0 ==> start == i - consecutive)
      {
        var b := TestBit(i);
        ScannedNext(bits, count, i, consecutive);
        if !b {
          if consecutive == 0 {
            start := i;
          }
          consecutive := consecutive + 1;
          if consecutive == count {
            return true, start;
          }
        } else {
          consecutive := 0;
        }
      }
      ScannedAll(bits, count, consecutive);
      return false, 0;
    }

    method Fill(start: nat, count: nat)
      requires Sized() && start + count <= pages
      modifies bitmap
      ensures Bits() == Filled(old(Bits()), start, count, true)
    {
      for j := start to start + count
        invariant Bits() == Filled(old(Bits()), start, j - start, true)
      {
        SetBit(j);
      }
    }

    // The scan of pmm_free_pages: whether count bits from start on are all set.
    // overrun says that the scan leaves the frames of the region.
    method AllSet(start: nat, count: nat) returns (all: bool, overrun: bool)
      requires Sized() && start <= pages
      ensures overrun <==> start + count > pages && forall k | start <= k < pages :: Bits()[k]
      ensures all <==> start + count <= pages && forall k | start <= k < start + count :: Bits()[k]
    {
      for i := 0 to count
        invariant start + i <= pages && forall k | start <= k < start + i :: Bits()[k]
      {
        if start + i == pages {
          return false, true;
        }
        var b := TestBit(start + i);
        if !b {
          return false, false;
        }
      }
      return true, false;
    }

    method Release(start: nat, count: nat)
      requires Sized() && start + count <= pages
      modifies bitmap
      ensures Bits() == Filled(old(Bits()), start, count, false)
    {
      for i := 0 to count
        invariant Bits() == Filled(old(Bits()), start, i, false)
      {
        ClearBit(start + i);
      }
    }

    method CountSet() returns (n: nat)
      requires Sized()
      ensures n == Count(Bits())
    {
      n := 0;
      ghost var bits := Bits();
      for i := 0 to pages
        invariant n == Count(bits[..i])
      {
        var b := TestBit(i);
        CountNext(bits, i);
        if b {
          n := n + 1;
        }
      }
      assert bits[..pages] == bits;
    }
  }

  lemma NoBits()
    ensures forall j: bv7 | j < 64 :: !TestAt(0, j)
  {
  }

  // The bits after one word was replaced by itself with one bit set or cleared.
  lemma Updated(words: seq<bv64>, pages: nat, i: nat)
    requires |words| * 64 >= pages && i < pages
    ensures BitsOf(words[i / 64 := SetAt(words[i / 64], Amount(i % 64))], pages) == BitsOf(words, pages)[i := true]
    ensures BitsOf(words[i / 64 := ClearAt(words[i / 64], Amount(i % 64))], pages) == BitsOf(words, pages)[i := false]
  {
    hide Bit;
    var a, w := words[i / 64 := SetAt(words[i / 64], Amount(i % 64))], words[i / 64 := ClearAt(words[i / 64],
      Amount(i % 64))];
    forall k: nat | k < pages
      ensures BitsOf(a, pages)[k] == BitsOf(words, pages)[i := true][k]
      ensures BitsOf(w, pages)[k] == BitsOf(words, pages)[i := false][k]
    {
      BitSet(words, i, k);
    }
  }

  // The bits before i: the last c of them are clear and the one before is set, and no run of n ends there.
  ghost predicate Scanned(bits: seq<bool>, n: nat, i: nat, c: nat) {
    && c <= i <= |bits| && c < n && Clear(bits, i - c, c) && (c < i ==> bits[i - c - 1])
    && forall k: nat | k + n <= i :: !Clear(bits, k, n)
  }

  lemma ScannedNone(bits: seq<bool>, n: nat)
    requires n > 0
    ensures Scanned(bits, n, 0, 0)
  {
  }

  lemma ScannedNext(bits: seq<bool>, n: nat, i: nat, c: nat)
    requires i < |bits| && Scanned(bits, n, i, c)
    ensures if bits[i] then Scanned(bits, n, i + 1, 0)
            else if c + 1 < n then Scanned(bits, n, i + 1, c + 1)
            else LowestRun(bits, n, 0) == i - c
    ensures c + 1 <= n && c <= i
  {
    forall k: nat | k + n <= i + 1 && k < i - c
      ensures !Clear(bits, k, n)
    {
      assert k + n > i ==> k <= i - c - 1 < k + n;
    }
    if !bits[i] && c + 1 == n {
      LowestRunIs(bits, n, i - c);
    }
  }

  lemma ScannedAll(bits: seq<bool>, n: nat, c: nat)
    requires Scanned(bits, n, |bits|, c)
    ensures LowestRun(bits, n, 0) == |bits|
  {
    LowestRunIs(bits, n, |bits|);
  }

  // ---------- the list of regions ----------

  // What a region stands for.
  datatype View = View(base: nat, zone: Zone, bits: seq<bool>)

  // The end of a region as a 32-bit sum.
  function End(v: View): nat {
    (v.base + |v.bits| * PAGE) % WORD
  }

  // The address of frame s of a region as a 32-bit sum.
  function FrameAt(base: nat, s: nat): nat {
    (base + s * PAGE) % WORD
  }

  // The test of find_region_for_addr.
  predicate Holds(v: View, addr: nat) {
    v.base <= addr < End(v)
  }

  // Bases and sizes fit in 32 bits, and regions start at frame boundaries.
  ghost predicate InWord(m: seq<View>) {
    forall r | 0 <= r < |m| :: m[r].base < WORD && m[r].base % PAGE == 0 && |m[r].bits| * PAGE < WORD
  }

  // The first region of the zone from index r on with n clear bits in a row, or the length.
  ghost function Pick(m: seq<View>, zone: Zone, n: nat, r: nat): (k: nat)
    requires r <= |m|
    ensures r <= k <= |m| && (k < |m| ==> m[k].zone == zone && LowestRun(m[k].bits, n, 0) < |m[k].bits|)
    ensures forall j | r <= j < k :: m[j].zone == zone ==> LowestRun(m[j].bits, n, 0) == |m[j].bits|
    decreases |m| - r
  {
    if r == |m| || (m[r].zone == zone && LowestRun(m[r].bits, n, 0) < |m[r].bits|) then r else Pick(m, zone, n, r + 1)
  }

  // The first region from index r on that holds the address, or the length.
  ghost function Holder(m: seq<View>, addr: nat, r: nat): (k: nat)
    requires r <= |m|
    ensures r <= k <= |m| && (k < |m| ==> Holds(m[k], addr)) && forall j | r <= j < k :: !Holds(m[j], addr)
    decreases |m| - r
  {
    if r == |m| || Holds(m[r], addr) then r else Holder(m, addr, r + 1)
  }

  function WithBits(m: seq<View>, r: nat, bits: seq<bool>): seq<View>
    requires r < |m|
  {
    m[r := m[r].(bits := bits)]
  }

  // Taking count frames of the zone from the regions m gives addr and the regions n.
  ghost predicate Took(m: seq<View>, count: nat, zone: Zone, addr: nat, n: seq<View>) {
    var r := Pick(m, zone, count, 0);
    if count == 0 || r == |m| then addr == 0 && n == m
    else var s := LowestRun(m[r].bits, count, 0);
      addr == FrameAt(m[r].base, s) && n == WithBits(m, r, Filled(m[r].bits, s, count, true))
  }

  function TotalPages(m: seq<View>): nat {
    if m == [] then 0 else TotalPages(m[..|m| - 1]) + |m[|m| - 1].bits|
  }

  function TotalSet(m: seq<View>): nat {
    if m == [] then 0 else TotalSet(m[..|m| - 1]) + Count(m[|m| - 1].bits)
  }

  // The same over the regions of one zone.
  function ZonePages(m: seq<View>, z: Zone): nat {
    if m == [] then 0 else ZonePages(m[..|m| - 1], z) + if m[|m| - 1].zone == z then |m[|m| - 1].bits| else 0
  }

  function ZoneSet(m: seq<View>, z: Zone): (n: nat)
    ensures n <= ZonePages(m, z)
  {
    if m == [] then 0 else ZoneSet(m[..|m| - 1], z) + if m[|m| - 1].zone == z then Count(m[|m| - 1].bits) else 0
  }

  datatype Stats = Stats(total: nat, free: nat, taken: nat, zonesPages: map<Zone, nat>, zonesFree: map<Zone, nat>)

  // Region r of the list, or null past the end.
  ghost function Nth(list: seq<Region>, r: nat): Region? {
    if r < |list| then list[r] else null
  }

  // The regions of the list are linked in order, and their bitmaps are their own.
  ghost predicate Linked(first: Region?, list: seq<Region>) {
    && first == Nth(list, 0)
    && (forall r | 0 <= r < |list| :: list[r].Sized())
    && (forall r | 0 <= r < |list| :: list[r].next == Nth(list, r + 1))
    && (forall q, r | 0 <= q < r < |list| :: list[q].bitmap != list[r].bitmap)
  }

  class Manager {
    var regions: Region?
    var initialized: bool
    ghost var list: seq<Region>

    ghost function Bitmaps(): set<object>
      reads this
    {
      set r | r in list :: r.bitmap
    }

    ghost predicate Valid()
      reads this
    {
      Linked(regions, list) && (!initialized ==> list == [])
    }

    ghost function Views(): (m: seq<View>)
      requires Valid()
      reads this, Bitmaps()
    {
      ViewsOf(list)
    }

    constructor ()
      ensures Valid() && !initialized && list == []
    {
      regions, initialized, list := null, false, [];
    }

    // pmm_init
    method Init() returns (r: int)
      requires Valid()
      modifies this
      ensures Valid() && initialized && list == old(list) && r == if old(initialized) then -1 else 0
    {
      if initialized {
        return -1;
      }
      regions := null;
      initialized := true;
      return 0;
    }

    // pmm_alloc_pages_zone: takes the lowest run in the first region of the zone that has one.
    method AllocPagesZone(count: nat, zone: Zone) returns (addr: nat)
      requires Valid() && count < WORD
      modifies Bitmaps()
      ensures Valid()
      ensures Took(old(Views()), count, zone, addr, Views())
    {
      hide LowestRun, Count, BitsOf, Linked, ViewsOf, Took, WithBits, Filled;
      if !initialized || count == 0 {
        TookNone(Views(), zone, count);
        return 0;
      }
      ghost var m := Views();
      var region, r, start := Search(count, zone);
      if region == null {
        TookNone(m, zone, count);
        return 0;
      }
      addr := Take(region, r, start, count);
      TookAt(m, zone, count, r, addr, Views());
    }

    // The walk over the regions and the scan of each of the zone.
    method Search(count: nat, zone: Zone) returns (region: Region?, ghost r: nat, start: nat)
      requires Valid() && count > 0
      ensures r == Pick(Views(), zone, count, 0) <= |list| && region == Nth(list, Pick(Views(), zone, count, 0))
      ensures r < |list| ==> start == LowestRun(Views()[r].bits, count, 0) < |Views()[r].bits|
    {
      hide LowestRun, Count, BitsOf, Linked, ViewsOf, Pick;
      LinkedParts(regions, list);
      ghost var m := Views();
      PickStep(m, zone, count, |m|);
      region, r, start := regions, 0, 0;
      while region != null
        invariant r <= |list| && region == Nth(list, r)
        invariant Pick(m, zone, count, 0) == Pick(m, zone, count, r)
        decreases |list| - r
      {
        PickStep(m, zone, count, r);
        if region.zone == zone {
          var found;
          found, start := region.FindRun(count);
          if found {
            return;
          }
        }
        region := region.next;
        r := r + 1;
      }
    }

    method Take(region: Region, ghost r: nat, start: nat, count: nat) returns (addr: nat)
      requires Valid() && r < |list| && list[r] == region && start + count <= region.pages
      modifies region.bitmap
      ensures Valid() && addr == FrameAt(Views()[r].base, start)
      ensures Views() == WithBits(old(Views()), r, Filled(old(Views())[r].bits, start, count, true))
    {
      hide LowestRun, Count, BitsOf;
      ghost var m := Views();
      region.Fill(start, count);
      OnlyOne(list, m, r);
      addr := (region.base + start * PAGE) % WORD;
    }

    // pmm_add_region; room says whether both allocations succeed.
    method AddRegion(base: nat, size: nat, zone: Zone, room: bool) returns (r: int)
      requires Valid() && base < WORD && size < WORD
      modifies this
      ensures Valid() && initialized == old(initialized)
      ensures r == if initialized && PagesIn(base, size) > 0 && room then 0 else -1
      ensures Views() == if r == 0 then [View(AlignUp(base), zone, seq(PagesIn(base, size), _ => false))] +
        old(Views()) else old(Views())
      ensures r == 0 ==>
        list != [] && list[1..] == old(list) && fresh(list[0]) && fresh(list[0].bitmap) && list[0].lastAlloc == 0
      ensures r != 0 ==> list == old(list)
    {
      if !initialized {
        return -1;
      }
      hide Count, BitsOf, PagesIn, AlignUp, Linked, ViewsOf;
      var pages := PagesIn(base, size);
      if pages == 0 {
        return -1;
      }
      if !room {
        return -1;
      }
      var region := new Region(AlignUp(base), pages, zone, regions);
      LinkedParts(regions, list);
      PushFront(region);
      return 0;
    }

    method PushFront(region: Region)
      requires Valid() && initialized && region.next == regions && region.Sized()
      requires forall q | 0 <= q < |list| :: list[q].bitmap != region.bitmap
      modifies this
      ensures Valid() && initialized && list == [region] + old(list)
      ensures Views() == [View(region.base, region.zone, region.Bits())] + old(Views())
    {
      hide Linked, ViewsOf, BitsOf;
      LinkedParts(regions, list);
      LinkedMore(region, list);
      LinkedParts(region, [region] + list);
      ViewsMore(region, list);
      regions := region;
      list := [region] + list;
    }

    // What the lemmas about regions ask for holds in every state of a manager.
    lemma AlwaysInWord()
      requires Valid()
      ensures InWord(Views())
    {
      LinkedParts(regions, list);
    }

    // find_region_for_addr
    method FindRegion(addr: nat) returns (region: Region?, ghost r: nat)
      requires Valid()
      ensures r == Holder(Views(), addr, 0) <= |list| && region == Nth(list, Holder(Views(), addr, 0))
    {
      hide Count, BitsOf, Linked, ViewsOf, Holder, Holds, End;
      LinkedParts(regions, list);
      ghost var m := Views();
      HolderStep(m, addr, |m|);
      region, r := regions, 0;
      while region != null
        invariant r <= |list| && region == Nth(list, r)
        invariant Holder(m, addr, 0) == Holder(m, addr, r)
        decreases |list| - r
      {
        HolderStep(m, addr, r);
        HoldsIs(m[r], region.base, region.pages, addr);
        if addr >= region.base && addr < (region.base + region.pages * PAGE) % WORD {
          return;
        }
        region := region.next;
        r := r + 1;
      }
    }

    // pmm_free_pages
    // overrun says that the range test passes only because its sum wraps around, and that the scan for clear bits
    // finds none in the region and leaves it; what C reads there is not part of this model.
    method FreePages(addr: nat, count: nat) returns (r: int, overrun: bool)
      requires Valid() && addr < WORD && count < WORD
      modifies Bitmaps(), list
      ensures Valid()
      ensures overrun <==> Overruns(old(Views()), addr, count)
      ensures if overrun then r == -1 && Views() == old(Views()) else Gave(old(Views()), addr, count, r, Views())
      ensures r == 0 ==>
        var holder := HolderIn(list, old(Views()), addr);
        var start := (addr - holder.base) / PAGE;
        && holder.lastAlloc == Lower(start, old(holder.lastAlloc))
        && forall q | q in list && q != holder :: q.lastAlloc == old(q.lastAlloc)
      ensures r != 0 ==> forall q | q in list :: q.lastAlloc == old(q.lastAlloc)
    {
      hide Count, BitsOf, Linked, ViewsOf, WithBits, Filled, Gave, Holder, Holds, End, Overruns, Taken, PassesWrapped;
      hide Lower, RunTaken, RunPast;
      ghost var m := Views();
      Refused(m, addr, count);
      if !initialized || addr == 0 || count == 0 {
        return -1, false;
      }
      if addr % PAGE != 0 {
        return -1, false;
      }
      var region, k := FindRegion(addr);
      if region == null {
        return -1, false;
      }
      LinkedParts(regions, list);
      StartInside(m[k], addr);
      Tested(m, addr, count, k);
      r, overrun := FreeIn(region, k, (addr - region.base) / PAGE, count);
      if r == 0 {
        Accepted(m, addr, count, k, Views());
      }
    }

    // The rest of pmm_free_pages, for frames of a known region.
    method FreeIn(region: Region, ghost k: nat, startPage: nat, count: nat) returns (r: int, overrun: bool)
      requires Valid() && k < |list| && list[k] == region && startPage <= region.pages
      modifies region.bitmap, region
      ensures Valid() && r == if RunTaken(old(Views())[k].bits, startPage, count) then 0 else -1
      ensures overrun <==> RunPast(old(Views())[k].bits, startPage, count)
      ensures overrun ==> r == -1
      ensures Views() == if r == 0 then WithBits(old(Views()), k, Filled(old(Views())[k].bits, startPage, count, false))
                         else old(Views())
      ensures region.lastAlloc == if r == 0 then Lower(startPage, old(region.lastAlloc)) else old(region.lastAlloc)
    {
      hide Count, BitsOf, Linked, ViewsOf, WithBits, Filled, Lower;
      LinkedParts(regions, list);
      ghost var bits := region.Bits();
      if (startPage + count) % WORD > region.pages {
        return -1, false;
      }
      var taken;
      taken, overrun := region.AllSet(startPage, count);
      assert region.Bits() == bits;
      if !taken {
        return -1, overrun;
      }
      Put(region, k, startPage, count);
      return 0, false;
    }

    // Frees the frames and updates the allocation hint.
    method Put(region: Region, ghost r: nat, start: nat, count: nat)
      requires Valid() && r < |list| && list[r] == region && start + count <= region.pages
      modifies region.bitmap, region
      ensures region.lastAlloc == Lower(start, old(region.lastAlloc))
      ensures Valid() && Views() == WithBits(old(Views()), r, Filled(old(Views())[r].bits, start, count, false))
    {
      hide LowestRun, Count, BitsOf, Linked, ViewsOf, Filled;
      LinkedParts(regions, list);
      OwnBitmap(regions, list, r);
      ghost var m := Views();
      region.Release(start, count);
      OnlyOne(list, m, r);
      if start < region.lastAlloc {
        region.lastAlloc := start;
      }
    }

    // pmm_get_stats
    method GetStats() returns (s: Stats)
      requires Valid()
      ensures Tallied(s, Views())
    {
      hide Count, BitsOf, Linked, Tallied, TotalPages, TotalSet, ZonePages, ZoneSet;
      var zero := map[Dma := 0, Normal := 0, High := 0];
      s := Stats(0, 0, 0, zero, zero);
      NoneTallied(zero);
      if !initialized {
        return;
      }
      LinkedParts(regions, list);
      var region := regions;
      ghost var r, m := 0, Views();
      assert m[..0] == [];
      while region != null
        invariant r <= |list| && region == Nth(list, r) && Tallied(s, m[..r])
        decreases |list| - r
      {
        var allocatedPages := region.CountSet();
        var free := region.pages - allocatedPages;
        ghost var before := s;
        AllZones(s, m[..r]);
        s := CountIn(s, region.zone, region.pages, free, allocatedPages);
        TalliedNext(before, m, r, s);
        region := region.next;
        r := r + 1;
      }
      assert m[..r] == m;
    }
  }

  // The statistics with one more region.
  function CountIn(s: Stats, z: Zone, pages: nat, free: nat, taken: nat): Stats
    requires z in s.zonesPages && z in s.zonesFree
  {
    Stats(s.total + pages, s.free + free, s.taken + taken,
          s.zonesPages[z := s.zonesPages[z] + pages], s.zonesFree[z := s.zonesFree[z] + free])
  }

  lemma NoneTallied(zero: map<Zone, nat>)
    requires zero == map[Dma := 0, Normal := 0, High := 0]
    ensures Tallied(Stats(0, 0, 0, zero, zero), [])
  {
    forall z: Zone
      ensures z in zero && zero[z] == 0
    {
      assert z == Dma || z == Normal || z == High;
    }
  }

  lemma AllZones(s: Stats, m: seq<View>)
    requires Tallied(s, m)
    ensures forall z :: z in s.zonesPages && z in s.zonesFree
  {
  }

  // Giving back count frames at addr to the regions m answers r and leaves the regions n.
  ghost predicate Gave(m: seq<View>, addr: nat, count: nat, r: int, n: seq<View>) {
    var k := Holder(m, addr, 0);
    if addr != 0 && count > 0 && addr % PAGE == 0 && k < |m| && Taken(m[k], addr, count)
    then r == 0 && n == WithBits(m, k, Filled(m[k].bits, (addr - m[k].base) / PAGE, count, false))
    else r == -1 && n == m
  }

  // The sum of the first frame and the count passes the range test by wrapping around, and every frame from the first
  // one on is taken.
  ghost predicate Overruns(m: seq<View>, addr: nat, count: nat) {
    var k := Holder(m, addr, 0);
    addr != 0 && count > 0 && addr % PAGE == 0 && k < |m| && PassesWrapped(m[k], addr, count)
  }

  ghost predicate PassesWrapped(v: View, addr: nat, count: nat)
    requires Holds(v, addr)
  {
    var s := (addr - v.base) / PAGE;
    s + count >= WORD && (s + count) % WORD <= |v.bits| && forall k | s <= k < |v.bits| :: v.bits[k]
  }

  // An address that a region holds lies in one of its frames.
  lemma StartInside(v: View, addr: nat)
    requires Holds(v, addr) && v.base < WORD && |v.bits| * PAGE < WORD
    ensures v.base + |v.bits| * PAGE < WORD && v.base <= addr && 0 <= (addr - v.base) / PAGE < |v.bits|
  {
  }

  // The run of count bits from s on lies inside and is all set.
  ghost predicate RunTaken(bits: seq<bool>, s: nat, count: nat) {
    s + count <= |bits| && forall i | s <= i < s + count :: bits[i]
  }

  // The run goes past the end, the range test passes by wrapping around, and all bits up to the end are set.
  ghost predicate RunPast(bits: seq<bool>, s: nat, count: nat) {
    s + count > |bits| && (s + count) % WORD <= |bits| && forall i | s <= i < |bits| :: bits[i]
  }

  // What the range test and the scan say of the region that holds the address.
  lemma Tested(m: seq<View>, addr: nat, count: nat, k: nat)
    requires addr != 0 && count > 0 && addr % PAGE == 0 && count < WORD && k == Holder(m, addr, 0) < |m|
    requires |m[k].bits| * PAGE < WORD && (addr - m[k].base) / PAGE < |m[k].bits|
    ensures var v := m[k];
            var s := (addr - v.base) / PAGE;
            && (Taken(v, addr, count) <==> RunTaken(v.bits, s, count))
            && (Overruns(m, addr, count) <==> RunPast(v.bits, s, count))
  {
  }

  function Lower(a: nat, b: nat): nat {
    if a < b then a else b
  }

  // The region that holds the address, if there is one.
  ghost function HolderIn(list: seq<Region>, m: seq<View>, addr: nat): (region: Region)
    requires |list| == |m| > 0
  {
    var k := Holder(m, addr, 0);
    list[if k < |m| then k else 0]
  }

  lemma HoldsIs(v: View, base: nat, pages: nat, addr: nat)
    requires v.base == base && |v.bits| == pages
    ensures Holds(v, addr) <==> addr >= base && addr < (base + pages * PAGE) % WORD
  {
  }

  lemma HolderStep(m: seq<View>, addr: nat, r: nat)
    requires r <= |m|
    ensures Holder(m, addr, r) == if r == |m| || Holds(m[r], addr) then r else Holder(m, addr, r + 1)
  {
  }

  lemma Refused(m: seq<View>, addr: nat, count: nat)
    ensures addr == 0 || count == 0 || addr % PAGE != 0 || m == [] ==>
      Gave(m, addr, count, -1, m) && !Overruns(m, addr, count)
    ensures Holder(m, addr, 0) == |m| ==> Gave(m, addr, count, -1, m) && !Overruns(m, addr, count)
    ensures Holder(m, addr, 0) < |m| && !Taken(m[Holder(m, addr, 0)], addr, count) ==> Gave(m, addr, count, -1, m)
  {
  }

  lemma Accepted(m: seq<View>, addr: nat, count: nat, k: nat, n: seq<View>)
    requires addr != 0 && count > 0 && addr % PAGE == 0 && k == Holder(m, addr, 0) < |m| && Taken(m[k], addr, count)
    requires n == WithBits(m, k, Filled(m[k].bits, (addr - m[k].base) / PAGE, count, false))
    ensures Gave(m, addr, count, 0, n)
  {
  }

  // The count frames from addr on lie in the region and are all taken.
  ghost predicate Taken(v: View, addr: nat, count: nat)
    requires Holds(v, addr)
  {
    var s := (addr - v.base) / PAGE;
    s + count <= |v.bits| && forall k | s <= k < s + count :: v.bits[k]
  }

  // pmm_page_align_up, in 32 bits.
  function AlignUp(addr: nat): (r: nat)
    ensures r < WORD && r % PAGE == 0
  {
    (addr + PAGE - 1) % WORD / PAGE * PAGE
  }

  // The frames of a new region, in 32 bits: the difference wraps around if the size ends before the first frame
  // boundary.
  function PagesIn(base: nat, size: nat): (pages: nat)
    ensures pages * PAGE < WORD
  {
    (size - (AlignUp(base) - base)) % WORD / PAGE
  }

  // The bytes before the first frame boundary.
  function Pad(base: nat): nat {
    (PAGE - base % PAGE) % PAGE
  }

  // On words, the mask of pmm_page_align_up is AlignUp.
  lemma AlignMask(addr: bv32)
    ensures Words.N((addr + 0x1000 - 1) & !(0x1000 - 1)) == AlignUp(Words.N(addr))
  {
    PageWord();
    SumWord(addr);
    hide Words.N, Words.Plus, Words.Masked;
    Words.PlusIs(addr, 0xFFF);
    Words.MaskRounds(Words.Plus(addr, 0xFFF), 0x1000);
  }

  lemma PageWord()
    ensures Words.N(0x1000) == PAGE && Words.N(0xFFF) == PAGE - 1 && Arith.PowerOfTwo(PAGE)
  {
    assert Arith.PowerOfTwo(1) && Arith.PowerOfTwo(8) && Arith.PowerOfTwo(64) && Arith.PowerOfTwo(512);
  }

  lemma SumWord(addr: bv32)
    ensures (addr + 0x1000 - 1) & !(0x1000 - 1) == Words.Masked(Words.Plus(addr, 0xFFF), 0x1000)
  {
  }

  lemma PadRounds(base: nat)
    ensures Pad(base) < PAGE && base + Pad(base) == (base + PAGE - 1) / PAGE * PAGE
  {
  }

  lemma ModWord(d: int)
    requires -WORD <= d < 2 * WORD
    ensures d % WORD == if d < 0 then d + WORD else if d < WORD then d else d - WORD
  {
  }

  lemma AlignUpIs(base: nat)
    requires base < WORD
    ensures AlignUp(base) == (base + Pad(base)) % WORD && (base + Pad(base)) % PAGE == 0 && Pad(base) < PAGE
  {
    hide Pad;
    PadRounds(base);
    ModWord(base + PAGE - 1);
    ModWord(base + Pad(base));
  }

  lemma PagesInIs(base: nat, size: nat)
    requires base < WORD && size < WORD
    ensures PagesIn(base, size) == (if Pad(base) <= size then size - Pad(base) else WORD + size - Pad(base)) / PAGE
  {
    hide Pad, AlignUp;
    AlignUpIs(base);
    ModWord(base + Pad(base));
    ModWord(size - (AlignUp(base) - base));
  }

  // Every frame of a new region lies in the memory it was made of.
  ghost predicate AllInside(base: nat, size: nat) {
    forall s: nat | s < PagesIn(base, size) ::
      base <= FrameAt(AlignUp(base), s) && FrameAt(AlignUp(base), s) + PAGE <= base + size
  }

  // That is so exactly if there is no frame, or the memory reaches the first frame boundary and the last frame does not
  // run past the end of the address space.
  lemma RegionInside(base: nat, size: nat)
    requires base < WORD && size < WORD
    ensures AllInside(base, size) <==>
            PagesIn(base, size) == 0 || (Pad(base) <= size && base + Pad(base) + PagesIn(base, size) * PAGE <= WORD)
  {
    AlignUpIs(base);
    PagesInIs(base, size);
    hide Pad, AlignUp, PagesIn;
    InsideFrom(base, size, Pad(base), AlignUp(base), PagesIn(base, size));
  }

  // The same for any start first and number of pages.
  lemma InsideFrom(base: nat, size: nat, pad: nat, up: nat, pages: nat)
    requires base < WORD && size < WORD && pad < PAGE && (base + pad) % PAGE == 0 && up == (base + pad) % WORD
    requires pages == (if pad <= size then size - pad else WORD + size - pad) / PAGE
    ensures (forall s: nat | s < pages :: base <= FrameAt(up, s) && FrameAt(up, s) + PAGE <= base + size) <==>
            pages == 0 || (pad <= size && base + pad + pages * PAGE <= WORD)
  {
    var first := base + pad;
    ModWord(first);
    if pages > 0 {
      if pad > size {
        FirstFrame(first, up);
      } else if first + pages * PAGE > WORD {
        FrameSum(first, pages - 1);
        FrameOver(first, up, pages - 1);
      } else {
        forall s: nat | s < pages
          ensures FrameAt(up, s) == first + s * PAGE
        {
          FrameBelow(first, up, s);
        }
      }
    }
  }

  lemma FirstFrame(first: nat, up: nat)
    requires up == first % WORD
    ensures FrameAt(up, 0) == up
  {
  }

  lemma FrameOver(first: nat, up: nat, s: nat)
    requires up == first % WORD && WORD <= first + s * PAGE < 2 * WORD
    ensures FrameAt(up, s) == first + s * PAGE - WORD
  {
    ModWord(first + s * PAGE);
  }

  lemma FrameBelow(first: nat, up: nat, s: nat)
    requires up == first % WORD && first + s * PAGE < WORD
    ensures FrameAt(up, s) == first + s * PAGE
  {
  }

  // The frame that runs past the end of the address space begins at or behind it, since both are multiples of a frame.
  lemma FrameSum(first: nat, s: nat)
    requires first % PAGE == 0 && first + s * PAGE + PAGE > WORD
    ensures first + s * PAGE >= WORD
  {
  }

  // What the counts are after the regions m.
  ghost predicate Tallied(s: Stats, m: seq<View>) {
    && s.total == TotalPages(m) && s.taken == TotalSet(m) && s.total == s.taken + s.free
    && (forall z :: z in s.zonesPages && s.zonesPages[z] == ZonePages(m, z))
    && (forall z :: z in s.zonesFree && s.zonesFree[z] == ZonePages(m, z) - ZoneSet(m, z))
  }

  lemma TalliedNext(s: Stats, m: seq<View>, r: nat, t: Stats)
    requires r < |m| && Tallied(s, m[..r])
    requires m[r].zone in s.zonesPages && m[r].zone in s.zonesFree
    requires t == CountIn(s, m[r].zone, |m[r].bits|, |m[r].bits| - Count(m[r].bits), Count(m[r].bits))
    ensures Tallied(t, m[..r + 1])
  {
    hide TotalPages, TotalSet, ZonePages, ZoneSet, Count;
    forall z {
      NextTotals(m, r, z);
    }
    NextTotals(m, r, Dma);
  }

  lemma NextTotals(m: seq<View>, r: nat, z: Zone)
    requires r < |m|
    ensures TotalPages(m[..r + 1]) == TotalPages(m[..r]) + |m[r].bits|
    ensures TotalSet(m[..r + 1]) == TotalSet(m[..r]) + Count(m[r].bits)
    ensures ZonePages(m[..r + 1], z) == ZonePages(m[..r], z) + if z == m[r].zone then |m[r].bits| else 0
    ensures ZoneSet(m[..r + 1], z) == ZoneSet(m[..r], z) + if z == m[r].zone then Count(m[r].bits) else 0
  {
    assert m[..r + 1][..r] == m[..r];
  }

  // ---------- what the calls do to each other ----------

  // No address lies in two regions.
  ghost predicate Disjoint(m: seq<View>) {
    forall q, r, addr | 0 <= q < r < |m| :: !(Holds(m[q], addr) && Holds(m[r], addr))
  }

  // A region is found by its addresses exactly if it ends below 2^32; else its end wraps around, at or below its base,
  // and no address finds it.
  lemma FoundBelowWord(v: View)
    requires v.base < WORD && 0 < |v.bits| * PAGE < WORD
    ensures (exists addr :: Holds(v, addr)) <==> v.base + |v.bits| * PAGE < WORD
  {
    assert v.base + |v.bits| * PAGE < WORD ==> Holds(v, v.base);
  }

  // A region of the last gigabyte of the address space, all free.
  ghost function LastGigabyte(): View {
    View(AlignUp(0xC000_0000), High, seq(PagesIn(0xC000_0000, 0x4000_0000), _ => false))
  }

  lemma LastGigabyteIs()
    ensures var v := LastGigabyte();
            && v.base == 0xC000_0000 && v.zone == High && |v.bits| == 0x4_0000
            && forall k | 0 <= k < |v.bits| :: !v.bits[k]
  {
    assert AlignUp(0xC000_0000) == 0xC000_0000;
    assert PagesIn(0xC000_0000, 0x4000_0000) == 0x4_0000;
  }

  // Every frame of that region can be taken once, and none can be given back.
  lemma LastGigabyteLost(m: seq<View>, addr: nat, count: nat)
    requires m == [LastGigabyte()] && 0 < count <= 0x4_0000
    ensures |LastGigabyte().bits| == 0x4_0000
    ensures var n := WithBits(m, 0, Filled(m[0].bits, 0, count, true));
            Took(m, count, High, 0xC000_0000, n) && Gave(n, addr, count, -1, n) && n != m
  {
    LastGigabyteIs();
    hide LastGigabyte, Count;
    FirstTaken(m, count);
    NotFound(WithBits(m, 0, Filled(m[0].bits, 0, count, true)), addr, count);
  }

  lemma FirstTaken(m: seq<View>, count: nat)
    requires |m| == 1 && 0 < count <= |m[0].bits| && m[0].base < WORD
    requires forall k | 0 <= k < |m[0].bits| :: !m[0].bits[k]
    ensures var n := WithBits(m, 0, Filled(m[0].bits, 0, count, true));
            Took(m, count, m[0].zone, m[0].base, n) && n != m
  {
    var v := m[0];
    assert Clear(v.bits, 0, count);
    LowestRunIs(v.bits, count, 0);
    var n := WithBits(m, 0, Filled(v.bits, 0, count, true));
    assert n[0].bits[0] && !v.bits[0];
  }

  lemma NotFound(n: seq<View>, addr: nat, count: nat)
    requires |n| == 1 && End(n[0]) <= n[0].base
    ensures Gave(n, addr, count, -1, n)
  {
    assert !Holds(n[0], addr);
  }

  // A null answer means that there is no run, but for the frame whose address is 0 or wraps around to it.
  lemma NullAnswer(m: seq<View>, count: nat, zone: Zone, addr: nat, n: seq<View>)
    requires InWord(m) && Took(m, count, zone, addr, n)
    ensures addr == 0 <==>
            var r := Pick(m, zone, count, 0);
            count == 0 || r == |m|
            || (var at := m[r].base + LowestRun(m[r].bits, count, 0) * PAGE; at == 0 || at == WORD)
  {
  }

  // Freeing what was just taken succeeds and restores every bitmap exactly if the region ends below 2^32 and the answer
  // was not null.
  lemma GiveUndoes(m: seq<View>, count: nat, zone: Zone, addr: nat, n: seq<View>)
    requires InWord(m) && Disjoint(m) && Took(m, count, zone, addr, n) && count > 0 && Pick(m, zone, count, 0) < |m|
    ensures var v := m[Pick(m, zone, count, 0)];
            Gave(n, addr, count, 0, m) <==> addr != 0 && v.base + |v.bits| * PAGE < WORD
  {
    var r := Pick(m, zone, count, 0);
    if m[r].base + |m[r].bits| * PAGE < WORD {
      GiveRestores(m, count, zone, addr, n);
    } else {
      GiveMisses(m, count, zone, addr, n);
    }
  }

  lemma GiveRestores(m: seq<View>, count: nat, zone: Zone, addr: nat, n: seq<View>)
    requires InWord(m) && Disjoint(m) && Took(m, count, zone, addr, n) && count > 0 && Pick(m, zone, count, 0) < |m|
    requires var v := m[Pick(m, zone, count, 0)]; v.base + |v.bits| * PAGE < WORD
    ensures Gave(n, addr, count, 0, m) <==> addr != 0
  {
    hide Disjoint, Holds, FrameAt, Pick, Holder, LowestRun, Count;
    var r := Pick(m, zone, count, 0);
    var s := LowestRun(m[r].bits, count, 0);
    assert Clear(m[r].bits, s, count);
    FrameHeld(m[r], s, addr);
    HolderIs(m, n, r, addr);
    FillUndone(m[r].bits, s, count);
    assert WithBits(n, r, m[r].bits) == m;
  }

  lemma FrameHeld(v: View, s: nat, addr: nat)
    requires v.base + |v.bits| * PAGE < WORD && v.base % PAGE == 0 && s < |v.bits| && addr == FrameAt(v.base, s)
    ensures addr == v.base + s * PAGE && Holds(v, addr) && (addr - v.base) / PAGE == s && addr % PAGE == 0
  {
  }

  // With disjoint regions the holder does not depend on the bits.
  lemma HolderIs(m: seq<View>, n: seq<View>, r: nat, addr: nat)
    requires Disjoint(m) && r < |m| && |n| == |m| && Holds(m[r], addr)
    requires forall k | 0 <= k < |m| :: n[k].base == m[k].base && |n[k].bits| == |m[k].bits|
    ensures Holder(n, addr, 0) == r && Holds(n[r], addr)
  {
    forall k | 0 <= k < |m|
      ensures Holds(m[k], addr) == Holds(n[k], addr)
    {
      HoldsIs(m[k], m[k].base, |m[k].bits|, addr);
      HoldsIs(n[k], m[k].base, |m[k].bits|, addr);
    }
    hide Holds;
  }

  // The region that lost the frames is not found by any address, so giving back cannot reach them.
  lemma GiveMisses(m: seq<View>, count: nat, zone: Zone, addr: nat, n: seq<View>)
    requires InWord(m) && Took(m, count, zone, addr, n) && count > 0 && Pick(m, zone, count, 0) < |m|
    requires var v := m[Pick(m, zone, count, 0)]; v.base + |v.bits| * PAGE >= WORD
    ensures !Gave(n, addr, count, 0, m)
  {
    var r := Pick(m, zone, count, 0);
    var s := LowestRun(m[r].bits, count, 0);
    assert Clear(m[r].bits, s, count);
    assert n[r].bits[s] && !m[r].bits[s];
    var k := Holder(n, addr, 0);
    assert !Holds(n[r], addr);
    assert k != r;
  }

  // Taking frames moves exactly count of them from the free to the taken ones.
  lemma TakeCounts(m: seq<View>, count: nat, zone: Zone, addr: nat, n: seq<View>)
    requires Took(m, count, zone, addr, n)
    ensures TotalPages(n) == TotalPages(m)
    ensures TotalSet(n) == TotalSet(m) + if Pick(m, zone, count, 0) < |m| then count else 0
  {
    var r := Pick(m, zone, count, 0);
    if count > 0 && r < |m| {
      var s := LowestRun(m[r].bits, count, 0);
      assert Clear(m[r].bits, s, count);
      CountFilled(m[r].bits, s, count);
      TotalsChange(m, r, Filled(m[r].bits, s, count, true));
    }
  }

  lemma {:induction false} TotalsChange(m: seq<View>, r: nat, bits: seq<bool>)
    requires r < |m| && |bits| == |m[r].bits|
    ensures var n := WithBits(m, r, bits);
            TotalPages(n) == TotalPages(m) && TotalSet(n) == TotalSet(m) - Count(m[r].bits) + Count(bits)
  {
    var n, last := WithBits(m, r, bits), |m| - 1;
    if r < last {
      TotalsChange(m[..last], r, bits);
      assert n[..last] == WithBits(m[..last], r, bits);
    } else {
      assert n[..last] == m[..last];
    }
  }

  lemma LinkedParts(first: Region?, list: seq<Region>)
    requires Linked(first, list)
    ensures first == Nth(list, 0) && forall r | 0 <= r < |list| :: list[r].Sized() && list[r].next == Nth(list, r + 1)
  {
  }

  lemma OwnBitmap(first: Region?, list: seq<Region>, r: nat)
    requires Linked(first, list) && r < |list|
    ensures forall q | 0 <= q < |list| && q != r :: list[q].bitmap != list[r].bitmap
  {
  }

  lemma PickStep(m: seq<View>, zone: Zone, n: nat, r: nat)
    requires r <= |m|
    ensures Pick(m, zone, n, r) ==
            if r == |m| || (m[r].zone == zone && LowestRun(m[r].bits, n, 0) < |m[r].bits|) then r
              else Pick(m, zone, n, r + 1)
  {
  }

  // A new region in front.
  lemma LinkedMore(region: Region, list: seq<Region>)
    requires Linked(region.next, list) && region.Sized() &&
      forall q | 0 <= q < |list| :: list[q].bitmap != region.bitmap
    ensures Linked(region, [region] + list)
  {
    var l := [region] + list;
    forall r | 0 <= r < |l|
      ensures l[r].next == Nth(l, r + 1)
    {
      assert Nth(l, r + 1) == Nth(list, r);
      assert r > 0 ==> l[r] == list[r - 1];
    }
  }

  lemma ViewsMore(region: Region, list: seq<Region>)
    requires forall q | 0 <= q < |[region] + list| :: ([region] + list)[q].Sized()
    requires region.Sized() && forall q | 0 <= q < |list| :: list[q].Sized()
    ensures ViewsOf([region] + list) == [View(region.base, region.zone, region.Bits())] + ViewsOf(list)
  {
    hide ViewsOf, BitsOf;
  }

  lemma TookNone(m: seq<View>, zone: Zone, n: nat)
    requires n == 0 || m == [] || Pick(m, zone, n, 0) == Pick(m, zone, n, |m|)
    ensures Took(m, n, zone, 0, m)
  {
  }

  lemma TookAt(m: seq<View>, zone: Zone, n: nat, r: nat, addr: nat, after: seq<View>)
    requires n > 0 && r < |m| && Pick(m, zone, n, 0) == Pick(m, zone, n, r) == r
    requires var s := LowestRun(m[r].bits, n, 0);
             s < |m[r].bits| && addr == FrameAt(m[r].base, s) && after == WithBits(m, r, Filled(m[r].bits, s, n, true))
    ensures Took(m, n, zone, addr, after)
  {
  }

  ghost function ViewsOf(list: seq<Region>): (m: seq<View>)
    requires forall r | 0 <= r < |list| :: list[r].Sized()
    reads set r | r in list :: r.bitmap
    ensures |m| == |list| && forall r | 0 <= r < |list| :: m[r] == View(list[r].base, list[r].zone, list[r].Bits())
  {
    if list == [] then []
    else
      var last := list[|list| - 1];
      ViewsOf(list[..|list| - 1]) + [View(last.base, last.zone, last.Bits())]
  }

  // What the views are when only the bits of region r differ from m.
  lemma OnlyOne(list: seq<Region>, m: seq<View>, r: nat)
    requires (forall q | 0 <= q < |list| :: list[q].Sized()) && r < |list| == |m|
    requires forall q | 0 <= q < |list| :: m[q].base == list[q].base && m[q].zone == list[q].zone
    requires forall q | 0 <= q < |list| && q != r :: m[q].bits == list[q].Bits()
    ensures ViewsOf(list) == WithBits(m, r, list[r].Bits())
  {
    hide ViewsOf, BitsOf;
  }
}
