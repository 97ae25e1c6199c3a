/** The virtual-page allocator: aligned first fit over a fixed table of pages. */
module Vmm {
  import opened Arith
  import Words

  const PAGE_SIZE := 4096
  const MAX_PAGES := 1024
  const BASE_ADDRESS := 0x10_0000
  const TAG_KERNEL := 0xDEAD_0000
  const WORD := 0x1_0000_0000  // size_t and uintptr_t have 32 bits

  datatype State = Free | Used | Reserved

  datatype Page = Page(baseAddr: nat, size: nat, state: State, allocPages: nat, tag: nat, isKernel: bool)

  // What a call comes to; a failed assert stops the kernel.
  datatype Outcome = Null | At(addr: nat) | AssertFailed

  function BaseOf(i: nat): nat {
    BASE_ADDRESS + i * PAGE_SIZE
  }

  function Blank(i: nat): Page {
    Page(BaseOf(i), PAGE_SIZE, Free, 0, 0, false)
  }

  const ZERO := Page(0, 0, Free, 0, 0, false)

  // The addresses are in place, and no page counts more pages than there are.
  ghost predicate Laid(t: seq<Page>) {
    && |t| == MAX_PAGES
    && (forall i | 0 <= i < |t| :: t[i].baseAddr == BaseOf(i) && t[i].size == PAGE_SIZE)
    && (forall i | 0 <= i < |t| :: t[i].allocPages <= MAX_PAGES)
  }

  // ---------- the block structure ----------

  // If a block starts at i, it is used throughout and only its first page says how long it is.
  ghost predicate BlockAt(t: seq<Page>, i: nat)
    requires i < |t|
  {
    t[i].allocPages > 0 ==>
      && i + t[i].allocPages <= |t|
      && (forall k | i <= k < i + t[i].allocPages :: t[k].state == Used)
      && (forall k | i < k < i + t[i].allocPages :: t[k].allocPages == 0)
  }

  // Page i lies in some block.
  ghost predicate Covered(t: seq<Page>, i: nat) {
    exists h: nat :: h < |t| && h <= i < h + t[h].allocPages
  }

  // The table is split into blocks; pages outside are not used, and free ones are blank.
  ghost predicate Blocks(t: seq<Page>) {
    && (forall i | 0 <= i < |t| :: BlockAt(t, i))
    && (forall i | 0 <= i < |t| && t[i].state == Used :: Covered(t, i))
    && (forall i | 0 <= i < |t| && t[i].state == Free :: t[i].tag == 0 && !t[i].isKernel)
  }

  // No page lies in two blocks.
  lemma BlocksDisjoint(t: seq<Page>, g: nat, h: nat, k: nat)
    requires Blocks(t) && g < |t| && h < |t|
    requires g <= k < g + t[g].allocPages && h <= k < h + t[h].allocPages
    ensures g == h
  {
    assert BlockAt(t, g) && BlockAt(t, h);
  }

  // ---------- allocation ----------

  ghost predicate AllFree(t: seq<Page>, i: nat, n: nat) {
    i + n <= |t| && forall k | i <= k < i + n :: t[k].state == Free
  }

  // n free pages start at page i, whose address is a multiple of align.
  ghost predicate Fits(t: seq<Page>, n: nat, align: nat, i: nat)
    requires align > 0
  {
    BaseOf(i) % align == 0 && AllFree(t, i, n)
  }

  // The lowest page from i on where the block fits, or the length of the table.
  ghost function FirstFit(t: seq<Page>, n: nat, align: nat, i: nat): (r: nat)
    requires align > 0 && i <= |t|
    ensures i <= r <= |t| && (forall k: nat | i <= k < r :: !Fits(t, n, align, k)) && (r < |t| ==> Fits(t, n, align, r))
    decreases |t| - i
  {
    if i == |t| || Fits(t, n, align, i) then i else FirstFit(t, n, align, i + 1)
  }

  lemma FirstFitIs(t: seq<Page>, n: nat, align: nat, r: nat)
    requires align > 0 && r <= |t|
    requires forall k: nat | k < r :: !Fits(t, n, align, k)
    requires r < |t| ==> Fits(t, n, align, r)
    ensures FirstFit(t, n, align, 0) == r
  {
  }

  // Pages i to i + n - 1 as one block.
  function Taken(t: seq<Page>, i: nat, n: nat, tag: nat, isKernel: bool): (r: seq<Page>)
    requires i + n <= |t|
    ensures |r| == |t|
  {
    seq(|t|, k requires 0 <= k < |t| =>
      if i <= k < i + n then Page(t[k].baseAddr, t[k].size, Used, if k == i then n else 0, tag, isKernel) else t[k])
  }

  // Pages i to i + n - 1 free.
  function Released(t: seq<Page>, i: nat, n: nat): (r: seq<Page>)
    requires i + n <= |t|
    ensures |r| == |t|
  {
    seq(|t|, k requires 0 <= k < |t| =>
      if i <= k < i + n then Page(t[k].baseAddr, t[k].size, Free, 0, 0, false) else t[k])
  }

  lemma TakenLaid(t: seq<Page>, i: nat, n: nat, tag: nat, isKernel: bool)
    requires Laid(t) && i + n <= |t|
    ensures Laid(Taken(t, i, n, tag, isKernel)) && Laid(Released(t, i, n))
  {
  }

  // What a block looks like: its pages are used, and carry the tag and the owner; its first one alone has the length.
  lemma TakenPages(t: seq<Page>, i: nat, n: nat, tag: nat, isKernel: bool, k: nat)
    requires Laid(t) && i + n <= |t| && k < |t|
    ensures var p := Taken(t, i, n, tag, isKernel)[k];
            && p.baseAddr == BaseOf(k)
            && (i <= k < i + n ==> p.state == Used && p.tag == tag && p.isKernel == isKernel)
            && (n > 0 && k == i ==> p.allocPages == n) && (i < k < i + n ==> p.allocPages == 0)
            && (k < i || i + n <= k ==> p == t[k])
  {
  }

  lemma TakenBlocks(t: seq<Page>, i: nat, n: nat, tag: nat, isKernel: bool)
    requires Blocks(t) && n > 0 && AllFree(t, i, n)
    ensures Blocks(Taken(t, i, n, tag, isKernel))
  {
    var r := Taken(t, i, n, tag, isKernel);
    forall h | 0 <= h < |r|
      ensures BlockAt(r, h)
    {
      assert BlockAt(t, h);
    }
    forall k | 0 <= k < |r| && r[k].state == Used
      ensures Covered(r, k)
    {
      if i <= k < i + n {
        assert r[i].allocPages == n;
      } else {
        var h: nat :| h < |t| && h <= k < h + t[h].allocPages;
        assert BlockAt(t, h);
        assert r[h] == t[h];
      }
    }
  }

  lemma ReleasedBlocks(t: seq<Page>, i: nat)
    requires Blocks(t) && i < |t| && t[i].allocPages > 0
    ensures i + t[i].allocPages <= |t| && Blocks(Released(t, i, t[i].allocPages))
  {
    assert BlockAt(t, i);
    var n := t[i].allocPages;
    var r := Released(t, i, n);
    forall h | 0 <= h < |r|
      ensures BlockAt(r, h)
    {
      assert BlockAt(t, h);
      if r[h].allocPages > 0 {
        assert r[h] == t[h];
        Apart(t, i, h);
      }
    }
    forall k | 0 <= k < |r| && r[k].state == Used
      ensures Covered(r, k)
    {
      var h: nat :| h < |t| && h <= k < h + t[h].allocPages;
      assert r[h] == t[h];
    }
  }

  // Two blocks lie one after the other.
  lemma Apart(t: seq<Page>, g: nat, h: nat)
    requires Blocks(t) && g < |t| && h < |t| && g != h && t[g].allocPages > 0 && t[h].allocPages > 0
    ensures g + t[g].allocPages <= h || h + t[h].allocPages <= g
  {
    assert BlockAt(t, g) && BlockAt(t, h);
  }

  // Freeing undoes allocating, page for page.
  lemma ReleaseUndoes(t: seq<Page>, i: nat, n: nat, tag: nat, isKernel: bool)
    requires Blocks(t) && AllFree(t, i, n)
    ensures Released(Taken(t, i, n, tag, isKernel), i, n) == t
  {
    var r := Released(Taken(t, i, n, tag, isKernel), i, n);
    forall k | 0 <= k < |t|
      ensures r[k] == t[k]
    {
      assert BlockAt(t, k);
    }
  }

  // ---------- free ----------

  // How many of the pages from i on are used before the first that is not, or the end.
  function UsedRun(t: seq<Page>, i: nat, end: nat): (r: nat)
    requires i <= end <= |t|
    ensures i <= r <= end && (forall k | i <= k < r :: t[k].state == Used) && (r < end ==> t[r].state != Used)
    decreases end - i
  {
    if i == end || t[i].state != Used then i else UsedRun(t, i + 1, end)
  }

  // The page that holds the address, or the length of the table.
  function PageOf(addr: nat): nat {
    if BASE_ADDRESS <= addr < BaseOf(MAX_PAGES) then (addr - BASE_ADDRESS) / PAGE_SIZE else MAX_PAGES
  }

  lemma PageOfIs(addr: nat, i: nat)
    requires i < MAX_PAGES
    ensures BaseOf(i) <= addr < BaseOf(i) + PAGE_SIZE <==> PageOf(addr) == i
  {
  }

  // The table after vmm_free, whatever the table.
  function AfterFree(t: seq<Page>, addr: nat): (r: seq<Page>)
    requires |t| == MAX_PAGES
    ensures |r| == |t|
  {
    var i := PageOf(addr);
    if i == MAX_PAGES || t[i].state != Used || t[i].allocPages == 0 || i + t[i].allocPages > |t| then t
    else Released(t, i, UsedRun(t, i, i + t[i].allocPages) - i)
  }

  // In a table of blocks: the block whose first page holds the address is freed, as a whole and alone.
  lemma FreeBlock(t: seq<Page>, addr: nat)
    requires Laid(t) && Blocks(t)
    ensures var i := PageOf(addr);
            if i < MAX_PAGES && t[i].allocPages > 0
            then i + t[i].allocPages <= |t| && AfterFree(t, addr) == Released(t, i, t[i].allocPages)
            else AfterFree(t, addr) == t
  {
    var i := PageOf(addr);
    if i < MAX_PAGES && t[i].allocPages > 0 {
      assert BlockAt(t, i);
      var r := UsedRun(t, i, i + t[i].allocPages);
      assert r == i + t[i].allocPages;
    }
  }

  // ---------- tags and reservations ----------

  function Tagged(t: seq<Page>, addr: nat, tag: nat): (r: seq<Page>)
    requires |t| == MAX_PAGES
    ensures |r| == |t|
  {
    var i := PageOf(addr);
    if addr == 0 || i == MAX_PAGES || t[i].state != Used then t else t[i := t[i].(tag := tag)]
  }

  lemma TaggedBlocks(t: seq<Page>, addr: nat, tag: nat)
    requires Blocks(t) && |t| == MAX_PAGES
    ensures Blocks(Tagged(t, addr, tag))
  {
    var r := Tagged(t, addr, tag);
    forall h | 0 <= h < |r|
      ensures BlockAt(r, h)
    {
      assert BlockAt(t, h);
    }
    forall k | 0 <= k < |r| && r[k].state == Used
      ensures Covered(r, k)
    {
      var h: nat :| h < |t| && h <= k < h + t[h].allocPages;
      assert h <= k < h + r[h].allocPages;
    }
  }

  function AlignDown(addr: nat): nat {
    addr - addr % PAGE_SIZE
  }

  // The rounded range that vmm_reserve_range takes; rounding up wraps around at the end of memory.
  predicate InRange(addr: nat, start: nat, end: nat) {
    AlignDown(start) <= addr < AlignDown((end + PAGE_SIZE - 1) % WORD)
  }

  function SetAside(t: seq<Page>, start: nat, end: nat): (r: seq<Page>)
    ensures |r| == |t|
  {
    seq(|t|, k requires 0 <= k < |t| =>
      if InRange(t[k].baseAddr, start, end) then t[k].(state := Reserved, tag := TAG_KERNEL, isKernel := true)
        else t[k])
  }

  // Reserving sets aside, for the kernel, exactly the pages that begin before the end and end behind the start, so
  // every page that is in the range in part; and leaves the others as they are.
  lemma SetAsidePages(t: seq<Page>, start: nat, end: nat, k: nat)
    requires Laid(t) && k < MAX_PAGES && end <= WORD - PAGE_SIZE
    ensures var r := SetAside(t, start, end);
            r[k] == if BaseOf(k) < end && start < BaseOf(k) + PAGE_SIZE
                    then t[k].(state := Reserved, tag := TAG_KERNEL, isKernel := true) else t[k]
  {
    RangeMeets(BaseOf(k), start, end);
  }

  // A page is in the rounded range exactly if it begins before the end and ends behind the start.
  lemma RangeMeets(addr: nat, start: nat, end: nat)
    requires addr % PAGE_SIZE == 0 && end <= WORD - PAGE_SIZE
    ensures InRange(addr, start, end) <==> addr < end && start < addr + PAGE_SIZE
  {
  }

  // Within a page of 2^32 the rounded end wraps around to 0, and nothing is set aside.
  lemma SetAsideNothing(t: seq<Page>, start: nat, end: nat)
    requires WORD - PAGE_SIZE < end < WORD
    ensures SetAside(t, start, end) == t
  {
    assert AlignDown((end + PAGE_SIZE - 1) % WORD) == 0;
  }

  ghost predicate TouchesUsed(t: seq<Page>, start: nat, end: nat) {
    exists k :: 0 <= k < |t| && t[k].state == Used && InRange(t[k].baseAddr, start, end)
  }

  // Reserving keeps the block structure exactly when it takes no used page.
  lemma SetAsideBlocks(t: seq<Page>, start: nat, end: nat)
    requires Blocks(t)
    ensures Blocks(SetAside(t, start, end)) <==> !TouchesUsed(t, start, end)
  {
    var r := SetAside(t, start, end);
    if TouchesUsed(t, start, end) {
      var k :| 0 <= k < |t| && t[k].state == Used && InRange(t[k].baseAddr, start, end);
      var h: nat :| h < |t| && h <= k < h + t[h].allocPages;
      assert r[k].state == Reserved && r[h].allocPages == t[h].allocPages;
      assert !BlockAt(r, h);
    } else {
      forall h | 0 <= h < |r|
        ensures BlockAt(r, h)
      {
        assert BlockAt(t, h);
      }
      forall k | 0 <= k < |r| && r[k].state == Used
        ensures Covered(r, k)
      {
        assert r[k] == t[k];
        var h: nat :| h < |t| && h <= k < h + t[h].allocPages;
        assert h <= k < h + r[h].allocPages;
      }
    }
  }

  // ---------- counting ----------

  function Count(t: seq<Page>, s: State): (n: nat)
    ensures n <= |t|
  {
    if t == [] then 0 else Count(t[..|t| - 1], s) + if t[|t| - 1].state == s then 1 else 0
  }

  lemma CountOne(t: seq<Page>, i: nat, s: State)
    requires i < |t|
    ensures Count(t[..i + 1], s) == Count(t[..i], s) + if t[i].state == s then 1 else 0
  {
    assert t[..i + 1][..i] == t[..i];
  }

  lemma {:induction false} CountUsed(t: seq<Page>, i: nat, j: nat)
    requires i <= j <= |t| && forall k | i <= k < j :: t[k].state == Used
    ensures Count(t[..j], Used) == Count(t[..i], Used) + (j - i)
    ensures Count(t[..j], Free) == Count(t[..i], Free) && Count(t[..j], Reserved) == Count(t[..i], Reserved)
    decreases j - i
  {
    if i >= j {
    } else {
      CountUsed(t, i, j - 1);
      CountOne(t, j - 1, Used);
      CountOne(t, j - 1, Free);
      CountOne(t, j - 1, Reserved);
    }
  }

  lemma {:induction false} CountAll(t: seq<Page>)
    ensures Count(t, Used) + Count(t, Free) + Count(t, Reserved) == |t|
  {
    if t == [] {
    } else {
      CountAll(t[..|t| - 1]);
    }
  }

  // m is the length of the longest run of free pages.
  ghost predicate LongestRun(t: seq<Page>, m: nat) {
    && (m > 0 ==> exists i :: 0 <= i < |t| && AllFree(t, i, m))
    && forall i: nat, n: nat | i < |t| && n > m :: !AllFree(t, i, n)
  }

  // A block of n pages without alignment fits exactly if it is no longer than the longest run.
  lemma FitsRun(t: seq<Page>, n: nat, m: nat)
    requires LongestRun(t, m) && n > 0
    ensures FirstFit(t, n, PAGE_SIZE, 0) < |t| <==> n <= m
  {
    var f := FirstFit(t, n, PAGE_SIZE, 0);
    if n <= m {
      var i :| 0 <= i < |t| && AllFree(t, i, m);
      assert BaseOf(i) % PAGE_SIZE == 0;
      assert Fits(t, n, PAGE_SIZE, i);
    }
  }

  // ---------- alignment ----------

  lemma PagePower()
    ensures PowerOfTwo(PAGE_SIZE)
  {
    assert PowerOfTwo(1) && PowerOfTwo(4) && PowerOfTwo(16) && PowerOfTwo(64) && PowerOfTwo(256) && PowerOfTwo(1024);
  }

  // (addr + align - 1) & ~(align - 1), for a power of two.
  function AlignUp(addr: nat, align: nat): nat
    requires align > 0
  {
    addr + align - 1 - (addr + align - 1) % align
  }

  // On words, the two masks of the allocator are PowerOfTwo and AlignUp; all page addresses are below 2^31.
  lemma AlignMasks(addr: bv32, align: bv32)
    requires align != 0 && Words.N(addr) <= 0x8000_0000
    ensures align & (align - 1) == 0 <==> PowerOfTwo(Words.N(align))
    ensures Words.N(align) > 0
    ensures PowerOfTwo(Words.N(align)) ==>
              Words.N((addr + align - 1) & !(align - 1)) == AlignUp(Words.N(addr), Words.N(align))
  {
    Words.PowerTest(align);
    Words.Positive(align);
    if align & (align - 1) == 0 {
      Words.RoundsUp(addr, align);
    }
  }

  // AlignUp is the least multiple of align from addr on.
  lemma AlignUpLeast(addr: nat, align: nat)
    requires align > 0
    ensures AlignUp(addr, align) % align == 0 && addr <= AlignUp(addr, align) < addr + align
    ensures AlignUp(addr, align) == addr <==> addr % align == 0
  {
    var x := addr + align - 1;
    var q := x / align;
    assert x == q * align + x % align;
    DivModUnique(q * align, q, align, 0);
    if addr % align == 0 {
      var d := addr / align;
      DivModUnique(x, d, align, align - 1);
    }
  }

  lemma BetweenMultiples(x: nat, up: nat, align: nat)
    requires align > 0 && up % align == 0 && up - align < x < up
    ensures x % align != 0
  {
    var q := up / align;
    assert up == q * align;
    MulNext(q - 1, align);
    DivModUnique(x, q - 1, align, x - (q - 1) * align);
  }

  lemma PageAligned(align: nat, i: nat)
    requires PowerOfTwo(align) && align <= PAGE_SIZE
    ensures BaseOf(i) % align == 0
  {
    PowersDivide(align, PAGE_SIZE);
    var q := PAGE_SIZE / align;
    assert PAGE_SIZE == q * align;
    assert BaseOf(i) == (256 + i) * PAGE_SIZE;
    Nested(256 + i, q, align);
    DivModUnique(BaseOf(i), (256 + i) * q, align, 0);
  }

  lemma Nested(a: int, b: int, c: int)
    ensures a * (b * c) == (a * b) * c
  {
  }

  lemma WholePages(up: nat, align: nat)
    requires align > 0 && up % align == 0 && align % PAGE_SIZE == 0
    ensures up % PAGE_SIZE == 0
  {
    var q, p := up / align, align / PAGE_SIZE;
    assert up == q * align && align == p * PAGE_SIZE;
    Nested(q, p, PAGE_SIZE);
    DivModUnique(up, q * p, PAGE_SIZE, 0);
  }

  // Jumping to the aligned address skips no aligned page.
  lemma Jump(i: nat, align: nat)
    requires PowerOfTwo(align) && align > PAGE_SIZE && BaseOf(i) % align != 0
    ensures var n := (AlignUp(BaseOf(i), align) - BaseOf(i)) / PAGE_SIZE;
            n > 0 && BaseOf(i + n) == AlignUp(BaseOf(i), align) &&
              forall k: nat | i <= k < i + n :: BaseOf(k) % align != 0
  {
    hide AlignUp, PowerOfTwo;
    var up := AlignUp(BaseOf(i), align);
    AlignUpLeast(BaseOf(i), align);
    PagePower();
    PowersDivide(PAGE_SIZE, align);
    WholePages(up, align);
    Skipped(i, up, align, (up - BaseOf(i)) / PAGE_SIZE);
  }

  lemma Skipped(i: nat, up: nat, align: nat, n: nat)
    requires align > 0 && up % align == 0 && up % PAGE_SIZE == 0 && up - align < BaseOf(i) < up
    requires n == (up - BaseOf(i)) / PAGE_SIZE
    ensures n > 0 && BaseOf(i + n) == up && forall k: nat | i <= k < i + n :: BaseOf(k) % align != 0
  {
    forall k: nat | i <= k < i + n
      ensures BaseOf(k) % align != 0
    {
      BetweenMultiples(BaseOf(k), up, align);
    }
  }

  // Where no page fits: a used page in the way rules out every start up to it.
  lemma InTheWay(t: seq<Page>, n: nat, align: nat, i: nat, j: nat)
    requires align > 0 && i + j < |t| && j < n && t[i + j].state != Free
    ensures forall k: nat | i <= k <= i + j :: !Fits(t, n, align, k)
  {
  }

  // ---------- the allocator ----------

  // What vmm_alloc_internal answers.
  ghost function Answer(t: seq<Page>, n: nat, align: nat): Outcome
    requires align > 0
  {
    var r := FirstFit(t, n, align, 0);
    if r < |t| then At(BaseOf(r)) else Null
  }

  ghost function AfterAlloc(t: seq<Page>, n: nat, align: nat, tag: nat, isKernel: bool): seq<Page>
    requires align > 0
  {
    var r := FirstFit(t, n, align, 0);
    if r < |t| then Taken(t, r, n, tag, isKernel) else t
  }

  // The size in pages, rounded up; the sum wraps around for the last 4095 sizes.
  function PagesFor(size: nat): nat {
    (size + PAGE_SIZE - 1) % WORD / PAGE_SIZE
  }

  class Allocator {
    const pageTable: array<Page>
    var initialized: bool

    ghost predicate Valid()
      reads this, pageTable
    {
      && pageTable.Length == MAX_PAGES
      && if initialized then Laid(pageTable[..]) else forall i | 0 <= i < MAX_PAGES :: pageTable[i] == ZERO
    }

    // The static table before vmm_init.
    constructor ()
      ensures Valid() && !initialized && fresh(pageTable)
    {
      pageTable := new Page[MAX_PAGES](_ => ZERO);
      initialized := false;
    }

    method Init()
      requires Valid()
      modifies this, pageTable
      ensures Valid() && initialized
      ensures old(initialized) ==> pageTable[..] == old(pageTable[..])
      ensures !old(initialized) ==> Laid(pageTable[..]) && forall i | 0 <= i < MAX_PAGES :: pageTable[i] == Blank(i)
    {
      if initialized {
        return;
      }
      for i := 0 to MAX_PAGES
        invariant forall k | 0 <= k < i :: pageTable[k] == Blank(k)
      {
        pageTable[i] := Blank(i);
      }
      initialized := true;
    }

    // vmm_reserve_range; false stands for the failed assert.
    method ReserveRange(start: nat, end: nat) returns (ok: bool)
      requires Valid() && start < WORD && end < WORD
      modifies pageTable
      ensures Valid() && ok == initialized
      ensures pageTable[..] == if ok then SetAside(old(pageTable[..]), start, end) else old(pageTable[..])
    {
      if !initialized {
        return false;
      }
      var from, to := AlignDown(start), AlignDown((end + PAGE_SIZE - 1) % WORD);
      for i := 0 to MAX_PAGES
        invariant forall k | 0 <= k < i :: pageTable[k] == SetAside(old(pageTable[..]), start, end)[k]
        invariant forall k | i <= k < MAX_PAGES :: pageTable[k] == old(pageTable[k])
      {
        if pageTable[i].baseAddr >= from && pageTable[i].baseAddr < to {
          pageTable[i] := pageTable[i].(state := Reserved, tag := TAG_KERNEL, isKernel := true);
        }
      }
      return true;
    }

    // The inner scan: whether all n pages from i on are free, and else the first that is not.
    method Scan(i: nat, n: nat) returns (free: bool, j: nat)
      requires i + n <= pageTable.Length
      ensures free ==> AllFree(pageTable[..], i, n)
      ensures !free ==> j < n && pageTable[i + j].state != State.Free
    {
      j := 0;
      while j < n
        invariant j <= n && forall k | i <= k < i + j :: pageTable[k].state == State.Free
      {
        if pageTable[i + j].state != State.Free {
          return false, j;
        }
        j := j + 1;
      }
      return true, j;
    }

    method Mark(i: nat, n: nat, tag: nat, isKernel: bool)
      requires i + n <= pageTable.Length
      modifies pageTable
      ensures pageTable[..] == Taken(old(pageTable[..]), i, n, tag, isKernel)
    {
      for j := 0 to n
        invariant forall k | 0 <= k < pageTable.Length ::
          pageTable[k] == if k < i + j then Taken(old(pageTable[..]), i, n, tag, isKernel)[k] else old(pageTable[k])
      {
        pageTable[i + j] := pageTable[i + j].(state := Used, allocPages := if j == 0 then n
          else 0, tag := tag, isKernel := isKernel);
      }
    }

    method AllocInternal(n: nat, align: nat, tag: nat, isKernel: bool) returns (r: Outcome)
      requires Valid() && PowerOfTwo(align)
      modifies pageTable
      ensures Valid()
      ensures if initialized && 0 < n <= MAX_PAGES
              then r == Answer(old(pageTable[..]), n, align) &&
                   pageTable[..] == AfterAlloc(old(pageTable[..]), n, align, tag, isKernel)
              else r == AssertFailed && pageTable[..] == old(pageTable[..])
    {
      if !(initialized && 0 < n <= MAX_PAGES) {
        return AssertFailed;
      }
      hide Fits, PowerOfTwo;
      ghost var t := pageTable[..];
      var i := 0;
      while i <= MAX_PAGES - n
        invariant pageTable[..] == t && forall k: nat | k < i :: !Fits(t, n, align, k)
        decreases MAX_PAGES - i
      {
        if pageTable[i].state == Reserved {
          InTheWay(t, n, align, i, 0);
          i := i + 1;
          continue;
        }
        if align > PAGE_SIZE {
          var alignedAddr := AlignUp(pageTable[i].baseAddr, align);
          AlignUpLeast(BaseOf(i), align);
          if alignedAddr != pageTable[i].baseAddr {
            Jump(i, align);
            var offsetPages := (alignedAddr - pageTable[i].baseAddr) / PAGE_SIZE;
            NoneAligned(t, n, align, i, offsetPages);
            if i + offsetPages + n > MAX_PAGES {
              i := i + 1;
              continue;
            }
            i := i + (offsetPages - 1);
            i := i + 1;
            continue;
          }
        } else {
          PageAligned(align, i);
        }
        var blockFree, j := Scan(i, n);
        if blockFree {
          FitsHere(t, n, align, i);
          FirstFitIs(t, n, align, i);
          TakenLaid(t, i, n, tag, isKernel);
          Mark(i, n, tag, isKernel);
          return At(pageTable[i].baseAddr);
        }
        InTheWay(t, n, align, i, j);
        i := i + j;
        i := i + 1;
      }
      NoRoom(t, n, align, i);
      FirstFitIs(t, n, align, MAX_PAGES);
      return Null;
    }

    method Alloc(size: nat) returns (r: Outcome)
      requires Valid() && size < WORD
      modifies pageTable
      ensures Valid() && r == Allocated(initialized, old(pageTable[..]), size, PAGE_SIZE)
      ensures pageTable[..] == Afterwards(initialized, old(pageTable[..]), size, PAGE_SIZE, 0, false)
    {
      r := AllocTagged(size, 0, false);
    }

    method AllocAligned(size: nat, align: nat) returns (r: Outcome)
      requires Valid() && size < WORD
      modifies pageTable
      ensures Valid() && r == Allocated(initialized, old(pageTable[..]), size, align)
      ensures pageTable[..] == Afterwards(initialized, old(pageTable[..]), size, align, 0, false)
    {
      if size == 0 || !PowerOfTwo(align) {
        return Null;
      }
      var pagesNeeded := PagesFor(size);
      if pagesNeeded > MAX_PAGES {
        return Null;
      }
      r := AllocInternal(pagesNeeded, align, 0, false);
    }

    method AllocTagged(size: nat, tag: nat, isKernel: bool) returns (r: Outcome)
      requires Valid() && size < WORD
      modifies pageTable
      ensures Valid() && r == Allocated(initialized, old(pageTable[..]), size, PAGE_SIZE)
      ensures pageTable[..] == Afterwards(initialized, old(pageTable[..]), size, PAGE_SIZE, tag, isKernel)
    {
      if size == 0 {
        return Null;
      }
      var pagesNeeded := PagesFor(size);
      if pagesNeeded > MAX_PAGES {
        return Null;
      }
      PagePower();
      r := AllocInternal(pagesNeeded, PAGE_SIZE, tag, isKernel);
    }

    method Free(addr: nat)
      requires Valid()
      modifies pageTable
      ensures Valid() && pageTable[..] == if initialized then AfterFree(old(pageTable[..]), addr)
        else old(pageTable[..])
    {
      if addr == 0 || !initialized {
        return;
      }
      for i := 0 to MAX_PAGES
        invariant pageTable[..] == old(pageTable[..]) && PageOf(addr) >= i
      {
        PageOfIs(addr, i);
        if pageTable[i].baseAddr <= addr < pageTable[i].baseAddr + pageTable[i].size {
          if pageTable[i].state != Used {
            return;
          }
          var pages := pageTable[i].allocPages;
          if pages == 0 || i + pages > MAX_PAGES {
            return;
          }
          FreePages(i, pages);
          return;
        }
      }
    }

    // Frees n pages, but stops at one that is not used.
    method FreePages(i: nat, n: nat)
      requires Valid() && initialized && i + n <= MAX_PAGES
      modifies pageTable
      ensures Valid()
      ensures pageTable[..] == Released(old(pageTable[..]), i, UsedRun(old(pageTable[..]), i, i + n) - i)
    {
      ghost var t := pageTable[..];
      ghost var r := UsedRun(t, i, i + n);
      TakenLaid(t, i, r - i, 0, false);
      for j := 0 to n
        invariant i + j <= r
        invariant forall k | 0 <= k < MAX_PAGES :: pageTable[k] == if k < i + j then Released(t, i, r - i)[k] else t[k]
      {
        if pageTable[i + j].state != Used {
          assert pageTable[..] == Released(t, i, r - i);
          return;
        }
        pageTable[i + j] := pageTable[i + j].(state := State.Free, allocPages := 0, tag := 0, isKernel := false);
      }
      assert pageTable[..] == Released(t, i, r - i);
    }

    method SetTag(addr: nat, tag: nat)
      requires Valid()
      modifies pageTable
      ensures Valid()
      ensures pageTable[..] == if initialized then Tagged(old(pageTable[..]), addr, tag) else old(pageTable[..])
    {
      if addr == 0 {
        return;
      }
      for i := 0 to MAX_PAGES
        invariant pageTable[..] == old(pageTable[..]) && (initialized ==> PageOf(addr) >= i)
      {
        PageOfIs(addr, i);
        if pageTable[i].baseAddr <= addr < pageTable[i].baseAddr + pageTable[i].size {
          if pageTable[i].state == Used {
            pageTable[i] := pageTable[i].(tag := tag);
          }
          return;
        }
      }
    }

    // The walk jumps over whole blocks; in a table of blocks it counts every page once, by its state.
    method Stats() returns (usedKb: nat, freeKb: nat, reservedKb: nat)
      requires Valid()
      ensures var t := pageTable[..];
              && usedKb == 4 * Walk(t, 0, Used)
              && freeKb == 4 * Walk(t, 0, State.Free)
              && reservedKb == 4 * Walk(t, 0, Reserved)
      ensures var t := pageTable[..];
              Blocks(t) ==>
                && usedKb == 4 * Count(t, Used)
                && freeKb == 4 * Count(t, State.Free)
                && reservedKb == 4 * Count(t, Reserved)
    {
      var used: nat, free: nat, reserved: nat := 0, 0, 0;
      ghost var t := pageTable[..];
      var i := 0;
      while i < MAX_PAGES
        invariant used + Walk(t, i, Used) == Walk(t, 0, Used)
        invariant free + Walk(t, i, State.Free) == Walk(t, 0, State.Free)
        invariant reserved + Walk(t, i, Reserved) == Walk(t, 0, Reserved)
        decreases MAX_PAGES - i
      {
        var page := pageTable[i];
        if page.allocPages > 0 {
          if page.state == Used {
            used := used + page.allocPages;
          } else if page.state == Reserved {
            reserved := reserved + page.allocPages;
          } else {
            free := free + page.allocPages;
          }
          i := i + page.allocPages;
        } else {
          if page.state == Used {
            used := used + 1;
          } else if page.state == Reserved {
            reserved := reserved + 1;
          } else {
            free := free + 1;
          }
          i := i + 1;
        }
      }
      if Blocks(t) {
        WalkCounts(t, 0);
      }
      return used * PAGE_SIZE / 1024, free * PAGE_SIZE / 1024, reserved * PAGE_SIZE / 1024;
    }

    method LargestFreeBlock() returns (r: nat)
      requires pageTable.Length == MAX_PAGES
      ensures r % PAGE_SIZE == 0 && LongestRun(pageTable[..], r / PAGE_SIZE)
    {
      var maxFree, currentFree := 0, 0;
      ghost var t := pageTable[..];
      for i := 0 to MAX_PAGES
        invariant currentFree <= maxFree && Tail(t, i, currentFree) && RunBefore(t, i, maxFree)
      {
        if pageTable[i].state == State.Free {
          RunLonger(t, i, currentFree, maxFree);
          currentFree := currentFree + 1;
          if currentFree > maxFree {
            maxFree := currentFree;
          }
        } else {
          RunBroken(t, i, maxFree);
          currentFree := 0;
        }
      }
      assert t[..MAX_PAGES] == t;
      return maxFree * PAGE_SIZE;
    }
  }

  // ---------- what the walks keep ----------

  // No block reaches across the boundary before page i.
  ghost predicate Between(t: seq<Page>, i: nat) {
    i <= |t| && forall h | 0 <= h < i :: h + t[h].allocPages <= i
  }

  lemma CountBlock(t: seq<Page>, i: nat)
    requires Blocks(t) && Between(t, i) && i < |t| && t[i].allocPages > 0
    ensures var j := i + t[i].allocPages;
            && t[i].state == Used && Between(t, j) && Count(t[..j], Used) == Count(t[..i], Used) + t[i].allocPages
            && Count(t[..j], State.Free) == Count(t[..i], State.Free) &&
              Count(t[..j], Reserved) == Count(t[..i], Reserved)
  {
    assert BlockAt(t, i);
    CountUsed(t, i, i + t[i].allocPages);
  }

  lemma CountSingle(t: seq<Page>, i: nat)
    requires Blocks(t) && Between(t, i) && i < |t| && t[i].allocPages == 0
    ensures t[i].state != Used && Between(t, i + 1)
    ensures forall s :: Count(t[..i + 1], s) == Count(t[..i], s) + if t[i].state == s then 1 else 0
  {
    forall s
      ensures Count(t[..i + 1], s) == Count(t[..i], s) + if t[i].state == s then 1 else 0
    {
      CountOne(t, i, s);
    }
    assert t[i].state == Used ==> Covered(t, i);
  }

  // What a walk from page i on, over whole blocks, counts under a state.
  function Walk(t: seq<Page>, i: nat, s: State): nat
    decreases |t| - i
  {
    if i >= |t| then 0
    else if t[i].allocPages > 0 then
      (if t[i].state == s then t[i].allocPages else 0) + Walk(t, i + t[i].allocPages, s)
    else
      (if t[i].state == s then 1 else 0) + Walk(t, i + 1, s)
  }

  // In a table of blocks the walk counts the pages.
  lemma {:induction false} WalkCounts(t: seq<Page>, i: nat)
    requires Blocks(t) && Between(t, i)
    ensures forall s :: Count(t[..i], s) + Walk(t, i, s) == Count(t, s)
    decreases |t| - i
  {
    if i == |t| {
      assert t[..i] == t;
    } else if t[i].allocPages > 0 {
      CountBlock(t, i);
      WalkCounts(t, i + t[i].allocPages);
    } else {
      CountSingle(t, i);
      WalkCounts(t, i + 1);
    }
  }

  // Exactly the last n pages before page i are free without a gap.
  ghost predicate Tail(t: seq<Page>, i: nat, n: nat) {
    n <= i <= |t| && AllFree(t, i - n, n) && (n < i ==> t[i - n - 1].state != State.Free)
  }

  // The longest run of free pages before page i.
  ghost predicate RunBefore(t: seq<Page>, i: nat, m: nat)
    requires i <= |t|
  {
    LongestRun(t[..i], m)
  }

  lemma RunLonger(t: seq<Page>, i: nat, n: nat, m: nat)
    requires i < |t| && t[i].state == State.Free && n <= m && Tail(t, i, n) && RunBefore(t, i, m)
    ensures Tail(t, i + 1, n + 1) && RunBefore(t, i + 1, if n + 1 > m then n + 1 else m)
  {
    var a, b := t[..i], t[..i + 1];
    if n + 1 > m {
      assert AllFree(b, i - n, n + 1);
    } else if m > 0 {
      var j :| 0 <= j < |a| && AllFree(a, j, m);
      assert AllFree(b, j, m);
    }
    forall j: nat, k: nat | j < |b| && k > (if n + 1 > m then n + 1 else m)
      ensures !AllFree(b, j, k)
    {
      if j + k <= i {
        assert AllFree(b, j, k) ==> AllFree(a, j, k);
      } else if n < i {
        assert b[i - n - 1].state != State.Free;
      }
    }
  }

  lemma RunBroken(t: seq<Page>, i: nat, m: nat)
    requires i < |t| && t[i].state != State.Free && RunBefore(t, i, m)
    ensures Tail(t, i + 1, 0) && RunBefore(t, i + 1, m)
  {
    var a, b := t[..i], t[..i + 1];
    if m > 0 {
      var j :| 0 <= j < |a| && AllFree(a, j, m);
      assert AllFree(b, j, m);
    }
    forall j: nat, k: nat | j < |b| && k > m
      ensures !AllFree(b, j, k)
    {
      assert b[i].state != State.Free;
      assert AllFree(b, j, k) ==> AllFree(a, j, k);
    }
  }

  // ---------- whole calls and whole runs ----------

  // The answer of the three allocation calls.
  ghost function Allocated(initialized: bool, t: seq<Page>, size: nat, align: nat): Outcome {
    if size == 0 || !PowerOfTwo(align) || PagesFor(size) > MAX_PAGES then Null
    else if initialized && PagesFor(size) > 0 then Answer(t, PagesFor(size), align)
    else AssertFailed
  }

  ghost function Afterwards(initialized: bool, t: seq<Page>, size: nat, align: nat, tag: nat,
        isKernel: bool): seq<Page> {
    if size == 0 || !PowerOfTwo(align) || PagesFor(size) > MAX_PAGES || !initialized || PagesFor(size) == 0 then t
    else AfterAlloc(t, PagesFor(size), align, tag, isKernel)
  }

  // Before the sum wraps around, PagesFor is the least number of pages that hold the size.
  lemma PagesForLeast(size: nat)
    requires 0 < size <= WORD - PAGE_SIZE
    ensures var n := PagesFor(size); n > 0 && (n - 1) * PAGE_SIZE < size <= n * PAGE_SIZE
  {
  }

  // Page k shares a byte with the size bytes from addr on.
  predicate Meets(k: nat, addr: nat, size: nat) {
    BaseOf(k) < addr + size && addr < BaseOf(k) + PAGE_SIZE
  }

  lemma MeetsRun(i: nat, k: nat, size: nat)
    requires 0 < size <= WORD - PAGE_SIZE
    ensures Meets(k, BaseOf(i), size) <==> i <= k < i + PagesFor(size)
    ensures BaseOf(i) + size <= BaseOf(MAX_PAGES) <==> i + PagesFor(size) <= MAX_PAGES
  {
    PagesForLeast(size);
  }

  // The size bytes from page i on are a place for an allocation: aligned, inside, and on free pages alone.
  ghost predicate Place(t: seq<Page>, i: nat, size: nat, align: nat)
    requires align > 0 && |t| == MAX_PAGES
  {
    && BaseOf(i) % align == 0 && BaseOf(i) + size <= BaseOf(MAX_PAGES)
    && forall k | 0 <= k < MAX_PAGES && Meets(k, BaseOf(i), size) :: t[k].state == Free
  }

  lemma PlaceFits(t: seq<Page>, i: nat, size: nat, align: nat)
    requires align > 0 && |t| == MAX_PAGES && 0 < size <= WORD - PAGE_SIZE
    ensures Place(t, i, size, align) <==> Fits(t, PagesFor(size), align, i)
  {
    hide PagesFor, Meets;
    forall k: nat
      ensures Meets(k, BaseOf(i), size) <==> i <= k < i + PagesFor(size)
    {
      MeetsRun(i, k, size);
    }
    MeetsRun(i, 0, size);
  }

  // An allocation gives the lowest place that there is, and null exactly if there is none.
  lemma AnswerMeans(t: seq<Page>, size: nat, align: nat)
    requires Laid(t) && 0 < size <= WORD - PAGE_SIZE && PowerOfTwo(align)
    ensures var o := Allocated(true, t, size, align);
            || (o == Null && forall i: nat :: !Place(t, i, size, align))
            || exists i: nat :: o == At(BaseOf(i)) && Place(t, i, size, align) &&
                 forall j: nat | j < i :: !Place(t, j, size, align)
  {
    var n := PagesFor(size);
    PagesForLeast(size);
    hide PagesFor, Place, PowerOfTwo;
    forall i: nat
      ensures Place(t, i, size, align) <==> Fits(t, n, align, i)
    {
      PlaceFits(t, i, size, align);
    }
    var f := FirstFit(t, n, align, 0);
    if n <= MAX_PAGES && f < MAX_PAGES {
      assert Allocated(true, t, size, align) == At(BaseOf(f)) && Place(t, f, size, align);
    }
  }

  // Afterwards the pages of the place are used and carry the tag and the owner, and all others are as they were.
  lemma AfterwardsMeans(t: seq<Page>, size: nat, align: nat, tag: nat, isKernel: bool, k: nat)
    requires Laid(t) && 0 < size <= WORD - PAGE_SIZE && PowerOfTwo(align) && k < MAX_PAGES
    ensures var o, r := Allocated(true, t, size, align), Afterwards(true, t, size, align, tag, isKernel);
            && |r| == MAX_PAGES
            && if o.At? && Meets(k, o.addr, size)
               then t[k].state == Free && r[k].state == Used && r[k].tag == tag && r[k].isKernel == isKernel
               else r[k] == t[k]
  {
    var n := PagesFor(size);
    PagesForLeast(size);
    MeetsRun(FirstFit(t, n, align, 0), k, size);
  }

  // The sizes that stop the kernel are exactly the last 4095.
  lemma SizeWraps(t: seq<Page>, size: nat)
    requires 0 < size < WORD
    ensures Allocated(true, t, size, PAGE_SIZE) == AssertFailed <==> size > WORD - PAGE_SIZE
  {
    PagePower();
    if size <= WORD - PAGE_SIZE {
      PagesForLeast(size);
    }
  }

  // Unaligned allocation succeeds exactly up to the largest free block.
  lemma SucceedsUpToLargest(t: seq<Page>, size: nat, m: nat)
    requires |t| == MAX_PAGES && LongestRun(t, m) && 0 < size <= WORD - PAGE_SIZE
    ensures Allocated(true, t, size, PAGE_SIZE).At? <==> PagesFor(size) * PAGE_SIZE <= m * PAGE_SIZE
  {
    PagePower();
    PagesForLeast(size);
    FitsRun(t, PagesFor(size), m);
    assert m > 0 ==> exists i :: 0 <= i < |t| && AllFree(t, i, m);
  }

  datatype Call =
    | AllocCall(size: nat, align: nat, tag: nat, isKernel: bool)
    | FreeCall(addr: nat)
    | TagCall(addr: nat, tag: nat)
    | ReserveCall(start: nat, end: nat)

  ghost function After(t: seq<Page>, c: Call): (r: seq<Page>)
    requires |t| == MAX_PAGES
    ensures |r| == MAX_PAGES
  {
    match c
    case AllocCall(size, align, tag, isKernel) => Afterwards(true, t, size, align, tag, isKernel)
    case FreeCall(addr) => AfterFree(t, addr)
    case TagCall(addr, tag) => Tagged(t, addr, tag)
    case ReserveCall(start, end) => SetAside(t, start, end)
  }

  lemma AfterLaid(t: seq<Page>, c: Call)
    requires Laid(t)
    ensures Laid(After(t, c))
  {
  }

  // One call keeps the block structure exactly if it does not reserve a used page.
  lemma AfterBlocks(t: seq<Page>, c: Call)
    requires Laid(t) && Blocks(t)
    ensures Blocks(After(t, c)) <==> (c.ReserveCall? ==> !TouchesUsed(t, c.start, c.end))
  {
    hide Blocks, TouchesUsed, LongestRun;
    match c
    case AllocCall(size, align, tag, isKernel) =>
      if After(t, c) != t {
        var n := PagesFor(size);
        TakenBlocks(t, FirstFit(t, n, align, 0), n, tag, isKernel);
      }
    case FreeCall(addr) =>
      FreeBlock(t, addr);
      if AfterFree(t, addr) != t {
        ReleasedBlocks(t, PageOf(addr));
      }
    case TagCall(addr, tag) => TaggedBlocks(t, addr, tag);
    case ReserveCall(start, end) => SetAsideBlocks(t, start, end);
  }

  ghost function Run(t: seq<Page>, calls: seq<Call>): (r: seq<Page>)
    requires |t| == MAX_PAGES
    ensures |r| == MAX_PAGES
    decreases |calls|
  {
    if calls == [] then t else Run(After(t, calls[0]), calls[1..])
  }

  // No call of the run reserves a page that is used at the time.
  ghost predicate Gentle(t: seq<Page>, calls: seq<Call>)
    requires |t| == MAX_PAGES
    decreases |calls|
  {
    calls != [] ==>
      && (calls[0].ReserveCall? ==> !TouchesUsed(t, calls[0].start, calls[0].end))
      && Gentle(After(t, calls[0]), calls[1..])
  }

  // The table is split into blocks at every point of the run.
  ghost predicate AlwaysBlocks(t: seq<Page>, calls: seq<Call>)
    requires |t| == MAX_PAGES
  {
    forall k | 0 <= k <= |calls| :: Blocks(Run(t, calls[..k]))
  }

  lemma AlwaysFirst(t: seq<Page>, calls: seq<Call>)
    requires |t| == MAX_PAGES && calls != []
    ensures AlwaysBlocks(t, calls) <==> Blocks(t) && AlwaysBlocks(After(t, calls[0]), calls[1..])
  {
    hide Blocks, After;
    assert Run(t, calls[..0]) == t;
    forall k | 0 <= k < |calls|
      ensures Run(t, calls[..k + 1]) == Run(After(t, calls[0]), calls[1..][..k])
    {
      assert calls[..k + 1][0] == calls[0] && calls[..k + 1][1..] == calls[1..][..k];
    }
    assert forall k | 0 < k <= |calls| :: Run(t, calls[..k]) == Run(After(t, calls[0]), calls[1..][..k - 1]);
  }

  // A run keeps the table split into blocks, at every point, exactly if no call reserves a page that is used at the
  // time.
  lemma {:induction false} RunBlocks(t: seq<Page>, calls: seq<Call>)
    requires Laid(t) && Blocks(t)
    ensures Laid(Run(t, calls)) && (AlwaysBlocks(t, calls) <==> Gentle(t, calls))
    decreases |calls|
  {
    hide Blocks, After, TouchesUsed;
    if calls == [] {
      assert forall k | 0 <= k <= |calls| :: calls[..k] == [];
    } else {
      var u := After(t, calls[0]);
      AfterLaid(t, calls[0]);
      AfterBlocks(t, calls[0]);
      AlwaysFirst(t, calls);
      if Blocks(u) {
        RunBlocks(u, calls[1..]);
      } else {
        RunLaid(u, calls[1..]);
        assert Run(u, calls[1..][..0]) == u;
      }
    }
  }

  lemma {:induction false} RunLaid(t: seq<Page>, calls: seq<Call>)
    requires Laid(t)
    ensures Laid(Run(t, calls))
    decreases |calls|
  {
    hide After;
    if calls == [] {
    } else {
      AfterLaid(t, calls[0]);
      RunLaid(After(t, calls[0]), calls[1..]);
    }
  }

  // The same for every run that starts in the table of vmm_init.
  lemma RunsFromInit(t: seq<Page>, calls: seq<Call>)
    requires |t| == MAX_PAGES && forall i | 0 <= i < |t| :: t[i] == Blank(i)
    ensures Laid(Run(t, calls)) && (AlwaysBlocks(t, calls) <==> Gentle(t, calls))
  {
    assert Laid(t) && Blocks(t);
    RunBlocks(t, calls);
  }

  lemma NoneAligned(t: seq<Page>, n: nat, align: nat, i: nat, d: nat)
    requires align > 0 && forall k: nat | i <= k < i + d :: BaseOf(k) % align != 0
    ensures forall k: nat | i <= k < i + d :: !Fits(t, n, align, k)
  {
  }

  lemma FitsHere(t: seq<Page>, n: nat, align: nat, i: nat)
    requires align > 0 && BaseOf(i) % align == 0 && AllFree(t, i, n)
    ensures Fits(t, n, align, i)
  {
  }

  lemma NoRoom(t: seq<Page>, n: nat, align: nat, i: nat)
    requires align > 0 && i + n > |t|
    ensures forall k: nat | i <= k :: !Fits(t, n, align, k)
  {
  }
}