/** Two-level page tables: a directory of tables of entries, as a flat map from pages to entries. */
module Paging {
  import opened Arith
  import Words

  const ENTRIES := 1024
  const PAGE := 4096
  const PAGES := 0x10_0000     // pages of a 32-bit address space
  const WORD := 0x1_0000_0000
  const WRITABLE := 2

  // ---------- entries ----------

  // (addr >> 22) & 0x3FF
  function PdIndex(addr: nat): nat {
    addr / 0x40_0000 % ENTRIES
  }

  // (addr >> 12) & 0x3FF
  function PtIndex(addr: nat): nat {
    addr / PAGE % ENTRIES
  }

  // entry & ~0xFFF
  function Frame(entry: nat): (r: nat)
    ensures r % PAGE == 0 && r <= entry < r + PAGE
  {
    entry - entry % PAGE
  }

  // entry & PAGE_PRESENT
  predicate Present(entry: nat) {
    entry % 2 == 1
  }

  // (flags & 0xFFF) | PAGE_PRESENT
  function LowBits(flags: nat): (r: nat)
    ensures r < PAGE && r % 2 == 1 && r == flags % PAGE + (1 - flags % 2)
  {
    flags % PAGE + (1 - flags % 2)
  }

  // frame | (flags & 0xFFF) | PAGE_PRESENT, for an aligned frame.
  function MakeEntry(frame: nat, flags: nat): (r: nat)
    requires frame % PAGE == 0
    ensures Present(r) && Frame(r) == frame && r % PAGE == LowBits(flags) && (frame < WORD ==> r < WORD)
  {
    frame + LowBits(flags)
  }

  predicate Aligned(addr: nat) {
    addr % PAGE == 0
  }

  lemma Powers()
    ensures PowerOfTwo(ENTRIES) && PowerOfTwo(PAGE) && Words.N(0x400) == ENTRIES && Words.N(0x1000) == PAGE
  {
    assert PowerOfTwo(1) && PowerOfTwo(8) && PowerOfTwo(64) && PowerOfTwo(512);
  }

  lemma RestIs(y: bv32)
    ensures Words.Rest(y, 0x400) == y & 0x3FF && Words.Rest(y, 0x1000) == y & 0xFFF
    ensures Words.Masked(y, 0x1000) == y & 0xFFFF_F000
  {
  }

  // On machine words, the arithmetic forms of the indices are the shifts and masks of the source.
  lemma IndexMasks(addr: bv32)
    ensures Words.N((addr >> 22) & 0x3FF) == PdIndex(Words.N(addr))
    ensures Words.N((addr >> 12) & 0x3FF) == PtIndex(Words.N(addr))
  {
    hide Words.N, Words.Rest, PowerOfTwo;
    Powers();
    Words.ShiftDivides(addr);
    RestIs(addr >> 22);
    RestIs(addr >> 12);
    Words.RestRemains(addr >> 22, 0x400);
    Words.RestRemains(addr >> 12, 0x400);
  }

  // And so are those of entries and of the test for an aligned address.
  lemma EntryMasks(x: bv32)
    ensures Words.N(x & 0xFFFF_F000) == Frame(Words.N(x)) && Words.N(x & 0xFFF) == Words.N(x) % PAGE
    ensures (x & 1 == 1 <==> Present(Words.N(x))) && (x & 0xFFF == 0 <==> Aligned(Words.N(x)))
  {
    hide Words.N, Words.Rest, Words.Masked, PowerOfTwo;
    Powers();
    RestIs(x);
    Words.MaskRounds(x, 0x1000);
    Words.RestRemains(x, 0x1000);
    Words.Half(x);
    Words.LastBit(x);
    Words.Small();
    if x & 0xFFF != 0 {
      Words.Positive(x & 0xFFF);
    }
  }

  function LowWord(flags: bv32): bv32 {
    (flags & 0xFFF) | 1
  }

  function EntryWord(frame: bv32, flags: bv32): bv32 {
    frame | (flags & 0xFFF) | 1
  }

  lemma OrIsPlus(frame: bv32, flags: bv32)
    requires frame & 0xFFF == 0
    ensures EntryWord(frame, flags) == Words.Plus(frame, LowWord(flags))
  {
  }

  lemma LastBitSet(x: bv32)
    ensures (x | 1) >> 1 == x >> 1 && (x | 1) & 1 == 1
  {
  }

  lemma BitSet(x: bv32)
    ensures Words.N(x | 1) / 2 == Words.N(x) / 2 && Words.N(x | 1) % 2 == 1
  {
    hide Words.N;
    LastBitSet(x);
    Words.Half(x);
    Words.Half(x | 1);
  }

  lemma LowWordIs(flags: bv32)
    ensures Words.N(LowWord(flags)) == LowBits(Words.N(flags))
  {
    hide Words.N;
    EntryMasks(flags);
    BitSet(flags & 0xFFF);
    OddOne(Words.N(flags), Words.N(flags & 0xFFF), Words.N((flags & 0xFFF) | 1));
  }

  lemma OddOne(flags: nat, low: nat, odd: nat)
    requires low == flags % PAGE && odd / 2 == low / 2 && odd % 2 == 1
    ensures odd == LowBits(flags)
  {
  }

  lemma AlignedWord(frame: bv32)
    requires frame & 0xFFF == 0
    ensures Words.N(frame) % PAGE == 0
  {
    hide Words.N;
    EntryMasks(frame);
  }

  lemma MakeFrom(e: bv32, frame: bv32, low: bv32, flags: nat)
    requires e == Words.Plus(frame, low) && Words.N(frame) % PAGE == 0 && Words.N(low) == LowBits(flags)
    ensures Words.N(e) == MakeEntry(Words.N(frame), flags)
  {
    hide Words.N, Words.Plus, LowBits;
    Words.PlusIs(frame, low);
    Words.Bounded(frame);
    FrameFits(Words.N(frame), LowBits(flags));
  }

  // An entry is put together as the source does.
  lemma MakeMask(frame: bv32, flags: bv32)
    requires frame & 0xFFF == 0
    ensures Words.N(frame) % PAGE == 0
    ensures Words.N(EntryWord(frame, flags)) == MakeEntry(Words.N(frame), Words.N(flags))
  {
    hide Words.N, Words.Plus, EntryWord, LowWord, LowBits, MakeEntry;
    AlignedWord(frame);
    OrIsPlus(frame, flags);
    LowWordIs(flags);
    MakeFrom(EntryWord(frame, flags), frame, LowWord(flags), Words.N(flags));
  }

  lemma FrameFits(frame: nat, low: nat)
    requires frame % PAGE == 0 && frame < WORD && low < PAGE
    ensures (frame + low) % WORD == frame + low
  {
  }

  // The two indices of an address name its page.
  lemma IndexSplit(addr: nat)
    requires addr < WORD
    ensures PdIndex(addr) == addr / PAGE / ENTRIES && PtIndex(addr) == addr / PAGE % ENTRIES
    ensures addr / PAGE < PAGES && addr / PAGE == PdIndex(addr) * ENTRIES + PtIndex(addr)
  {
  }

  // ---------- tables ----------

  // The contents of the pages that hold the directory and the tables, by address.
  type Tables = map<nat, seq<nat>>

  ghost predicate Paged(m: Tables) {
    forall a | a in m :: a != 0 && a < WORD && Aligned(a) && |m[a]| == ENTRIES
  }

  // The present entries of the directory d lead to tables of their own.
  ghost predicate Wired(m: Tables, d: nat) {
    && Paged(m) && d in m
    && (forall i | 0 <= i < ENTRIES && Present(m[d][i]) :: Frame(m[d][i]) in m && Frame(m[d][i]) != d)
    && (forall i, j | 0 <= i < j < ENTRIES && Present(m[d][i]) && Present(m[d][j]) :: Frame(m[d][i]) != Frame(m[d][j]))
  }

  // The entry for virtual page v, or 0 if there is no table for it.
  ghost function Entry(m: Tables, d: nat, v: nat): nat
    requires Wired(m, d) && v < PAGES
  {
    var e := m[d][v / ENTRIES];
    if Present(e) then m[Frame(e)][v % ENTRIES] else 0
  }

  // The flat map that the tables stand for.
  ghost function View(m: Tables, d: nat): map<nat, nat>
    requires Wired(m, d)
  {
    map v | 0 <= v < PAGES && Present(Entry(m, d, v)) :: Entry(m, d, v)
  }

  ghost function Zeros(): seq<nat> {
    seq(ENTRIES, _ => 0)
  }

  // Entry i of page a set to e.
  function Written(m: Tables, a: nat, i: nat, e: nat): Tables
    requires a in m && i < |m[a]|
  {
    var s: seq<nat> := m[a][i := e];
    m[a := s]
  }

  // A new empty table maps nothing.
  lemma NewTable(m: Tables, d: nat, i: nat, page: nat, e: nat)
    requires Wired(m, d) && i < ENTRIES && !Present(m[d][i]) && Present(e) && Frame(e) == page
    requires page !in m && page != 0 && page < WORD && Aligned(page)
    ensures var n := Written(m[page := Zeros()], d, i, e); Wired(n, d) && View(n, d) == View(m, d)
  {
    var n := Written(m[page := Zeros()], d, i, e);
    assert Wired(n, d);
    forall v | 0 <= v < PAGES
      ensures Entry(n, d, v) == Entry(m, d, v)
    {
    }
  }

  // Writing one entry of the table for a page changes the map at that page alone.
  lemma SetEntry(m: Tables, d: nat, v: nat, e: nat)
    requires Wired(m, d) && v < PAGES && Present(m[d][v / ENTRIES])
    ensures var a := Frame(m[d][v / ENTRIES]);
            var n := Written(m, a, v % ENTRIES, e);
            Wired(n, d) && View(n, d) == if Present(e) then View(m, d)[v := e] else View(m, d) - {v}
  {
    var a := Frame(m[d][v / ENTRIES]);
    var n := Written(m, a, v % ENTRIES, e);
    assert n[d] == m[d];
    assert Wired(n, d);
    forall w | 0 <= w < PAGES
      ensures Entry(n, d, w) == if w == v then e else Entry(m, d, w)
    {
      if v != w && Present(m[d][w / ENTRIES]) {
        OtherTable(m, d, v, w);
      }
    }
  }

  // Different pages have their entries in different places.
  lemma OtherTable(m: Tables, d: nat, v: nat, w: nat)
    requires Wired(m, d) && v < PAGES && w < PAGES && v != w
    requires Present(m[d][v / ENTRIES]) && Present(m[d][w / ENTRIES])
    ensures Frame(m[d][v / ENTRIES]) != Frame(m[d][w / ENTRIES]) || v % ENTRIES != w % ENTRIES
  {
    var i, j := v / ENTRIES, w / ENTRIES;
    assert i < j ==> Frame(m[d][i]) != Frame(m[d][j]);
    assert j < i ==> Frame(m[d][j]) != Frame(m[d][i]);
  }

  // ---------- the mapper ----------

  class Mapper {
    var memory: map<nat, array<nat>>  // the pages that hold the directory and the tables, by address
    var currentDirectory: nat         // an address, or 0 for none

    // Different addresses are different pages.
    ghost predicate Apart()
      reads this
    {
      forall a, b | a in memory && b in memory && a != b :: memory[a] != memory[b]
    }

    ghost function Snap(): Tables
      reads this, memory.Values
    {
      map a | a in memory :: memory[a][..]
    }

    ghost predicate Valid()
      reads this, memory.Values
    {
      Apart() && Wired(Snap(), currentDirectory)
    }

    ghost function Mapped(): map<nat, nat>
      requires Valid()
      reads this, memory.Values
    {
      View(Snap(), currentDirectory)
    }

    // paging_init; page is what the frame allocator gave, 0 for none.
    constructor (page: nat)
      requires page != 0 ==> Aligned(page) && page < WORD
      ensures page == 0 ==> currentDirectory == 0 && memory == map[]
      ensures page != 0 ==> Valid() && Mapped() == map[] && fresh(memory.Values) && memory.Keys == {page}
    {
      memory, currentDirectory := map[], 0;
      new;
      if page != 0 {
        var directory := new nat[ENTRIES](_ => 0);
        memory := map[page := directory];
        currentDirectory := page;
        assert Snap()[page] == Zeros();
      }
    }

    method Store(a: nat, i: nat, e: nat)
      requires Apart() && a in memory && i < memory[a].Length
      modifies memory[a]
      ensures Snap() == Written(old(Snap()), a, i, e)
    {
      memory[a][i] := e;
    }

    method Clear(page: nat)
      requires Apart() && page !in memory
      modifies this`memory
      ensures Apart() && Snap() == old(Snap())[page := Zeros()]
      ensures memory.Keys == old(memory).Keys + {page} && forall a | a in old(memory) :: memory[a] == old(memory)[a]
      ensures fresh(memory[page])
    {
      var table := new nat[ENTRIES](_ => 0);
      memory := memory[page := table];
      assert Snap()[page] == Zeros();
    }

    // The table for an address, made in the given page if there is none and one is wanted; 0 for no table.
    method GetOrCreate(virt: nat, create: bool, page: nat) returns (table: nat)
      requires Valid() && virt < WORD
      requires page != 0 ==> Aligned(page) && page < WORD && page !in memory
      modifies if create then {this, memory[currentDirectory]} else {}
      ensures Valid() && currentDirectory == old(currentDirectory) && Mapped() == old(Mapped())
      ensures forall a | a in old(memory) :: a in memory && memory[a] == old(memory)[a]
      ensures fresh(memory.Values - old(memory).Values)
      ensures Leads(virt) == (old(Leads(virt)) || (create && page != 0))
      ensures table == if Leads(virt) then Frame(memory[currentDirectory][PdIndex(virt)]) else 0
      ensures !create ==> memory == old(memory) && Snap() == old(Snap())
      ensures table != 0 && !old(Leads(virt)) ==>
        table == page && memory[currentDirectory][PdIndex(virt)] == MakeEntry(page, WRITABLE)
    {
      var pdi := PdIndex(virt);
      var entry := memory[currentDirectory][pdi];
      if Present(entry) {
        return Frame(entry);
      }
      if !create {
        return 0;
      }
      if page == 0 {
        return 0;
      }
      NewTable(Snap(), currentDirectory, pdi, page, MakeEntry(page, WRITABLE));
      Clear(page);
      Store(currentDirectory, pdi, MakeEntry(page, WRITABLE));
      return page;
    }

    // There is a table for the address.
    ghost predicate Leads(virt: nat)
      requires Valid()
      reads this, memory.Values
    {
      Present(Snap()[currentDirectory][PdIndex(virt)])
    }

    // paging_map_page: maps one page and no other, or fails and changes no translation.
    method MapPage(virt: nat, phys: nat, flags: nat, page: nat) returns (ok: bool)
      requires Valid() && virt < WORD && phys < WORD
      requires page != 0 ==> Aligned(page) && page < WORD && page !in memory
      modifies this, memory.Values
      ensures Valid() && currentDirectory == old(currentDirectory) && fresh(memory.Values - old(memory).Values)
      ensures ok == (Aligned(virt) && Aligned(phys) && (old(Leads(virt)) || page != 0))
      ensures Mapped() == if ok then old(Mapped())[virt / PAGE := MakeEntry(phys, flags)] else old(Mapped())
    {
      if !Aligned(virt) || !Aligned(phys) {
        return false;
      }
      var pt := GetOrCreate(virt, true, page);
      if pt == 0 {
        return false;
      }
      IndexSplit(virt);
      SetEntry(Snap(), currentDirectory, virt / PAGE, MakeEntry(phys, flags));
      Store(pt, PtIndex(virt), MakeEntry(phys, flags));
      return true;
    }

    // paging_unmap_page: succeeds exactly on the address of a mapped page, and unmaps that page alone.
    method UnmapPage(virt: nat) returns (ok: bool)
      requires Valid() && virt < WORD
      modifies memory.Values
      ensures Valid() && ok == (Aligned(virt) && virt / PAGE in old(Mapped()))
      ensures Mapped() == if ok then old(Mapped()) - {virt / PAGE} else old(Mapped())
    {
      if !Aligned(virt) {
        return false;
      }
      var pt := GetOrCreate(virt, false, 0);
      IndexSplit(virt);
      if pt == 0 {
        return false;
      }
      if !Present(memory[pt][PtIndex(virt)]) {
        return false;
      }
      SetEntry(Snap(), currentDirectory, virt / PAGE, 0);
      Store(pt, PtIndex(virt), 0);
      return true;
    }

    // paging_get_physical: the frame of the page that holds the address, or 0.
    method GetPhysical(virt: nat) returns (phys: nat)
      requires Valid() && virt < WORD
      modifies {}
      ensures phys == if virt / PAGE in Mapped() then Frame(Mapped()[virt / PAGE]) else 0
    {
      var pt := GetOrCreate(virt, false, 0);
      IndexSplit(virt);
      if pt == 0 {
        return 0;
      }
      var entry := memory[pt][PtIndex(virt)];
      if !Present(entry) {
        return 0;
      }
      return Frame(entry);
    }
  }
}
