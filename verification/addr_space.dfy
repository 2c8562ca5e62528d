/**
 * An address space of the MMU build: its page table, updated in place, and the physical
 * frames the page pools have handed out. The methods follow src/core/mmu/mem.c over the
 * RISC-V walker; each is proved against the page map `Page`.
 *
 * ERROR never returns in the source; here it is the outcome Halted.
 */
module AddrSpaces {
  import opened Arith
  import opened Colors
  import opened Frames
  import opened Inflating
  import opened Mapping
  import opened Options
  import opened PageTable
  import opened Searching
  import opened Unmapping

  /** A range of virtual addresses in bytes; `end` is its last byte. */
  datatype Section = Section(beg: nat, end: nat)

  /**
   * How a call ends: normally, refused by the section check, in ERROR, without a frame for a
   * table (the source goes on to a null table), or using a null or a data pointer as an entry.
   */
  datatype Outcome = Done | NoSection | Halted | NoTable | WildWalk

  /** The reservation bits of an entry; pte_set leaves them clear. */
  function RswOf(e: Pte): nat {
    if e.Invalid? then e.rsw else 0
  }

  /** (addr & ~(size - 1)) | (va & (size - 1)) for a power of two `size`. */
  function JoinOffset(addr: nat, va: nat, size: nat): nat
    requires size > 0
  {
    addr - addr % size + va % size
  }

  /** The offset arithmetic of mem_translate, in bytes, is that of PageOf, in pages. */
  lemma ByteAddress(pfn: nat, lvl: nat, va: nat)
    requires lvl < LVLS
    ensures JoinOffset(pfn * PAGE_SIZE, va, LvlPages(lvl) * PAGE_SIZE)
            == (pfn - pfn % LvlPages(lvl) + va / PAGE_SIZE % LvlPages(lvl)) * PAGE_SIZE + va % PAGE_SIZE
  {
    ScaledRemainder(pfn, 0, LvlPages(lvl));
    ScaledRemainder(va / PAGE_SIZE, va % PAGE_SIZE, LvlPages(lvl));
  }

  lemma ScaledRemainder(page: nat, offset: nat, size: nat)
    requires offset < PAGE_SIZE && size > 0
    ensures (page * PAGE_SIZE + offset) % (size * PAGE_SIZE) == page % size * PAGE_SIZE + offset
  {
    var q, r := page / size, page % size;
    assert page == q * size + r;
    assert (page * PAGE_SIZE + offset) == q * (size * PAGE_SIZE) + (r * PAGE_SIZE + offset);
    DivModUnique(page * PAGE_SIZE + offset, size * PAGE_SIZE, q, r * PAGE_SIZE + offset);
  }

  /**
   * What mem_alloc_vpage returns: the first page, or nothing. NoTables is its ERROR when no
   * frame is left for a table; Astray is a search that runs off the end of the root table.
   */
  datatype VPage = Base(vpn: nat) | NoSpace | NoTables | Astray

  /** A region of physical memory, in bytes. */
  datatype Region = Region(base: nat, size: nat)

  const ROOT_BYTES: nat := 262144 * PAGE_SIZE

  ghost predicate RegionOk(r: Region, roots: nat) {
    r.size > 0 && r.base + r.size <= roots * ROOT_BYTES
  }

  /** Some byte of the region lies in the block of root entry `i`. */
  ghost predicate Covers(r: Region, i: nat) {
    r.base < (i + 1) * ROOT_BYTES && i * ROOT_BYTES < r.base + r.size
  }

  ghost predicate SomeCovers(rs: seq<Region>, i: nat) {
    exists k :: 0 <= k < |rs| && Covers(rs[k], i)
  }

  /** The entries from the one of the first byte to the one of the last are those the region covers. */
  lemma CoversRange(r: Region, roots: nat, i: nat)
    requires RegionOk(r, roots)
    ensures Covers(r, i) <==> r.base / ROOT_BYTES <= i <= (r.base + r.size - 1) / ROOT_BYTES
    ensures (r.base + r.size - 1) / ROOT_BYTES < roots
  {
  }

  /** The root table has up to 2048 entries (Sv39x4), and addresses have 64 bits. */
  ghost predicate Bounds(roots: nat, sections: seq<Section>) {
    roots <= 2048 && forall i :: 0 <= i < |sections| ==> sections[i].end < VA_WRAP
  }

  /**
   * A search for `n` pages from page `from`, in a section that ends at byte `end`, and the page
   * table it began with. `first` is the page at which it is out of busy blocks.
   */
  datatype Search = Search(mem0: Memory, lab0: map<nat, Label>, from: nat, first: nat, n: nat, end: nat)

  /** An entry whose pages are not for mem_alloc_vpage to give out. */
  predicate Taken(e: Pte) {
    e.Leaf? || e == Invalid(RSW_RSRV)
  }

  class AddrSpace {
    const roots: nat
    const root: nat
    const dfltFlags: nat
    const sections: seq<Section>
    var mem: Memory
    var frames: set<nat>
    ghost var lab: map<nat, Label>
    /** How often the pools have had no frames to give. */
    ghost var refused: nat

    ghost predicate Valid()
      reads this
    {
      && WellFormed(mem, lab, root, roots) && Bounds(roots, sections)
      && mem.Keys <= frames
    }

    /** as_init: a root table without a valid entry, in a frame of its own. */
    constructor (roots: nat, root: nat, dfltFlags: nat, sections: seq<Section>, frames: set<nat>)
      requires root in frames && Bounds(roots, sections)
      ensures Valid() && this.roots == roots && this.root == root && this.frames == frames && this.sections == sections
      ensures this.dfltFlags == dfltFlags
      ensures refused == 0 && mem == map[root := seq(roots, i => Invalid(0))]
      ensures forall q :: 0 <= q < Total(roots) ==> Page(q) == Free(0)
    {
      this.roots, this.root, this.dfltFlags, this.sections := roots, root, dfltFlags, sections;
      this.frames, refused := frames, 0;
      mem, lab := map[root := seq(roots, i => Invalid(0))], map[root := Label(0, 0)];
    }

    ghost function TermAt(vpn: nat): Terminal
      reads this`mem
    {
      Term(mem, root, 0, vpn)
    }

    ghost function Page(vpn: nat): Page
      reads this`mem
    {
      PageOf(TermAt(vpn), vpn)
    }

    ghost function At(lvl: nat, vpn: nat): PtePtr
      reads this`mem
    {
      GetFrom(mem, root, 0, lvl, vpn)
    }

    predicate InMem(p: PtePtr)
      reads this`mem
    {
      p.Ptr? && p.tbl in mem && p.idx < |mem[p.tbl]|
    }

    function Pte(p: PtePtr): Pte
      requires InMem(p)
      reads this`mem
    {
      mem[p.tbl][p.idx]
    }

    // ----- the physical allocator, as far as the page tables see it

    /** Any run of frames the pools regard as free, or none. */
    method MemAllocPpages(n: nat, aligned: bool) returns (r: Option<nat>)
      requires n > 0
      modifies this`frames, this`refused
      ensures r.None? ==> frames == old(frames) && refused == old(refused) + 1
      ensures r.Some? ==> refused == old(refused)
      ensures r.Some? ==> Run(r.value, n) !! old(frames) && frames == old(frames) + Run(r.value, n)
      ensures r.Some? && aligned ==> r.value % n == 0
    {
      if * {
        refused := refused + 1;
        return None;
      }
      ghost var b := FramesBounded(frames);
      assert b * n % n == 0 && b * n >= b by { MultipleOf(b, n); }
      var base: nat :| (forall k :: base <= k < base + n ==> k !in frames) && (aligned ==> base % n == 0);
      frames := frames + Run(base, n);
      return Some(base);
    }

    // ----- single entries

    /** pt_get_pte: the loop over the levels above `lvl`. */
    method PtGetPte(lvl: nat, vpn: nat) returns (p: PtePtr)
      requires Valid() && lvl < LVLS && vpn < Total(roots)
      ensures p == At(lvl, vpn)
      ensures p.Ptr? ==>
                && InMem(p) && p.idx == Index(lvl, vpn) && Aligned(Pte(p), lvl)
                && (Pte(p).Table? ==> lvl < LVLS - 1)
                && (!Pte(p).Table? ==> TermAt(vpn) == Terminal(Pte(p), lvl))
    {
      var tbl, i := root, 0;
      p := Ptr(tbl, Index(0, vpn));
      DescentLabel(mem, lab, root, roots, root, 0, 0, vpn);
      while i < lvl
        invariant i <= lvl
        invariant p == At(i, vpn) && InMem(p) && p.idx == Index(i, vpn)
        invariant lab[p.tbl].lvl == i && TermAt(vpn) == Term(mem, p.tbl, i, vpn)
        invariant GetFrom(mem, p.tbl, i, lvl, vpn) == At(lvl, vpn)
      {
        DescentStep(mem, root, 0, i, vpn);
        match Pte(p) {
          case Invalid(_) => return Null;
          case Leaf(_, _) => return Wild;
          case Table(c) =>
            p := Ptr(c, Index(i + 1, vpn));
            DescentLabel(mem, lab, root, roots, root, 0, i + 1, vpn);
        }
        i := i + 1;
      }
      assert TableOk(mem, lab, roots, p.tbl);
      assert EntryOk(mem, lab, p.tbl, p.idx);
    }

    /** Writes a leaf or an invalid entry. */
    method PteSet(p: PtePtr, e: Pte, lvl: nat, va: nat)
      requires Valid() && lvl < LVLS && va < Total(roots)
      requires p.Ptr? && p == At(lvl, va) && !e.Table? && Aligned(e, lvl)
      modifies this`mem
      ensures Valid() && mem.Keys == old(mem.Keys)
      ensures forall q :: 0 <= q < Total(roots) ==>
                TermAt(q) == (if Block(lvl, q) == Block(lvl, va) then Terminal(e, lvl) else old(TermAt(q)))
      ensures forall q, k :: 0 <= q < Total(roots) && 0 <= k <= lvl ==> At(k, q) == old(At(k, q))
    {
      hide PageTable.Term, PageTable.GetFrom;
      SetEntryWellFormed(mem, lab, root, roots, lvl, va, e);
      forall q | 0 <= q < Total(roots)
        ensures Term(mem[p.tbl := mem[p.tbl][p.idx := e]], root, 0, q) ==
                (if Block(lvl, q) == Block(lvl, va) then Terminal(e, lvl) else TermAt(q))
      {
        SetEntryTerm(mem, lab, root, roots, lvl, va, e, q);
      }
      forall q, k | 0 <= q < Total(roots) && 0 <= k <= lvl
        ensures GetFrom(mem[p.tbl := mem[p.tbl][p.idx := e]], root, 0, k, q) == At(k, q)
      {
        SetEntryTerm(mem, lab, root, roots, lvl, va, e, q);
      }
      DescentLabel(mem, lab, root, roots, root, 0, lvl, va);
      assert mem[p.tbl := mem[p.tbl][p.idx := e]].Keys == mem.Keys;
      mem := mem[p.tbl := mem[p.tbl][p.idx := e]];
    }

    /**
     * mem_alloc_pt: points a non-table entry at a fresh table whose entries are invalid and
     * carry the entry's reservation bits. None if no frame could be had.
     */
    method MemAllocPt(p: PtePtr, lvl: nat, va: nat) returns (pt: Option<nat>)
      requires Valid() && lvl < LVLS - 1 && va < Total(roots)
      requires p.Ptr? && p == At(lvl, va) && InMem(p) && !Pte(p).Table?
      modifies this`mem, this`frames, this`lab, this`refused
      ensures Valid() && old(frames) <= frames && old(refused) <= refused
      ensures pt.None? ==> mem == old(mem) && frames == old(frames) && lab == old(lab) && refused > old(refused)
      ensures pt.Some? ==> forall q :: 0 <= q < Total(roots) ==>
                       TermAt(q) == (if Block(lvl, q) == Block(lvl, va)
                                     then Terminal(Invalid(RswOf(old(Pte(p)))), lvl + 1) else old(TermAt(q)))
      ensures pt.Some? ==> At(lvl + 1, va) == Ptr(pt.value, Index(lvl + 1, va)) && InMem(At(lvl + 1, va))
      ensures pt.Some? ==> InMem(p) && Pte(p) == Table(pt.value)
      ensures pt.Some? ==> pt.value !in old(frames) && frames == old(frames) + {pt.value}
                           && mem.Keys == old(mem.Keys) + {pt.value}
      ensures old(Pte(p)).Invalid? ==> forall q :: 0 <= q < Total(roots) ==> Page(q) == old(Page(q))
      ensures forall q, k :: 0 <= q < Total(roots) && 0 <= k <= lvl ==> At(k, q) == old(At(k, q))
    {
      hide Term, GetFrom, WellFormed;
      var f := MemAllocPpages(1, false);
      if f.None? {
        return None;
      }
      assert f.value in Run(f.value, 1);
      assert Run(f.value, 1) == {f.value};
      var rsw := RswOf(Pte(p));
      AddFreeTable(mem, lab, root, roots, lvl, va, f.value, rsw);
      lab := lab[f.value := Label(lvl + 1, BlockBase(lvl, va))];
      MemLinkTable(p, f.value, rsw);
      pt := f;
    }

    /** The entry is set first, then the frame's old contents are overwritten. */
    method MemLinkTable(p: PtePtr, c: nat, rsw: nat)
      requires InMem(p) && c !in mem
      modifies this`mem
      ensures mem == WithTable(old(mem), p.tbl, p.idx, c, FreeTable(rsw))
    {
      assert |FreeTable(rsw)| == ENTRIES;
      var junk: seq<Pte> :| |junk| == ENTRIES;
      mem := WithTable(mem, p.tbl, p.idx, c, junk);
      var i := 0;
      while i < ENTRIES
        invariant i <= ENTRIES
        invariant c in mem && |mem[c]| == ENTRIES
        invariant forall j :: 0 <= j < i ==> mem[c][j] == Invalid(rsw)
        invariant mem == WithTable(old(mem), p.tbl, p.idx, c, mem[c])
      {
        mem := mem[c := mem[c][i := Invalid(rsw)]];
        i := i + 1;
      }
      assert mem[c] == FreeTable(rsw);
    }

    // ----- sections

    ghost predicate InSection(i: nat, va: nat)
      requires i < |sections|
    {
      sections[i].beg <= va <= sections[i].end
    }

    /** `i` is the first section that holds the address. */
    ghost predicate IsSection(i: nat, va: nat) {
      i < |sections| && InSection(i, va) && forall j :: 0 <= j < i ==> !InSection(j, va)
    }

    /** The section of the first byte of a range of pages is the section of its last byte. */
    ghost predicate InOneSection(v: nat, n: nat) {
      exists i: nat :: IsSection(i, v * PAGE_SIZE) && IsSection(i, (v * PAGE_SIZE + n * PAGE_SIZE - 1) % VA_WRAP)
    }

    /** Where one section holds every address, every range that does not wrap is in one section. */
    lemma OnlySection(v: nat, n: nat)
      requires |sections| == 1 && sections[0].beg == 0 && n > 0 && (v + n) * PAGE_SIZE <= sections[0].end + 1 <= VA_WRAP
      ensures InOneSection(v, n)
    {
      assert IsSection(0, v * PAGE_SIZE) && IsSection(0, (v * PAGE_SIZE + n * PAGE_SIZE - 1) % VA_WRAP);
    }

    /** mem_find_sec: the first section that holds the address. */
    method MemFindSec(va: nat) returns (r: Option<nat>)
      ensures r.Some? ==> IsSection(r.value, va)
      ensures r.None? ==> forall j :: 0 <= j < |sections| ==> !InSection(j, va)
    {
      var i := 0;
      while i < |sections|
        invariant i <= |sections|
        invariant forall j :: 0 <= j < i ==> !InSection(j, va)
      {
        if va >= sections[i].beg && va <= sections[i].end {
          return Some(i);
        }
        i := i + 1;
      }
      return None;
    }

    // ----- the address space of the hypervisor

    /**
     * as_map_physical_identity, which as_init runs for AS_HYP: every root entry that meets a
     * region of physical memory maps its block one to one.
     */
    method AsMapPhysicalIdentity(regions: seq<Region>)
      requires Valid() && forall k :: 0 <= k < |regions| ==> RegionOk(regions[k], roots)
      modifies this`mem
      ensures Valid()
      ensures forall q :: 0 <= q < Total(roots) ==>
                Page(q) == if SomeCovers(regions, Block(0, q)) then Mapped(q, dfltFlags) else old(Page(q))
    {
      hide Term, GetFrom, WellFormed, RegionOk, Covers, PageOf;
      for i := 0 to |regions|
        invariant Valid()
        invariant forall q :: 0 <= q < Total(roots) ==>
                    Page(q) == if SomeCovers(regions[..i], Block(0, q)) then Mapped(q, dfltFlags) else old(Page(q))
      {
        label L:
        MapRegion(regions[i]);
        forall q | 0 <= q < Total(roots)
          ensures Page(q) == if SomeCovers(regions[..i + 1], Block(0, q)) then Mapped(q, dfltFlags) else old(Page(q))
        {
          SomeCoversMore(regions, i, Block(0, q));
          assert Page(q) == if Covers(regions[i], Block(0, q)) then Mapped(q, dfltFlags) else old@L(Page(q));
        }
      }
      assert regions[..|regions|] == regions;
    }

    lemma SomeCoversMore(rs: seq<Region>, i: nat, e: nat)
      requires i < |rs|
      ensures SomeCovers(rs[..i + 1], e) <==> SomeCovers(rs[..i], e) || Covers(rs[i], e)
    {
      hide Covers;
      if SomeCovers(rs[..i], e) {
        var k :| 0 <= k < i && Covers(rs[..i][k], e);
        assert rs[..i + 1][k] == rs[k];
      }
      assert rs[..i + 1][i] == rs[i];
      assert forall k :: 0 <= k < i ==> rs[..i + 1][k] == rs[..i][k];
    }

    /** The entries of one region. */
    method MapRegion(r: Region)
      requires Valid() && RegionOk(r, roots)
      modifies this`mem
      ensures Valid()
      ensures forall q :: 0 <= q < Total(roots) ==>
                Page(q) == if Covers(r, Block(0, q)) then Mapped(q, dfltFlags) else old(Page(q))
    {
      hide Term, GetFrom, WellFormed, PageOf, Covers;
      var first: nat := r.base / ROOT_BYTES;
      var top: nat := (r.base + r.size + ROOT_BYTES - 1) / ROOT_BYTES;
      var entries: nat := (top * ROOT_BYTES - first * ROOT_BYTES - 1) / ROOT_BYTES + 1;
      CoversRange(r, roots, first);
      RegionEntries(r);
      for j := 0 to entries
        invariant Valid()
        invariant forall q :: 0 <= q < Total(roots) ==>
                    Page(q) == if first <= Block(0, q) < first + j then Mapped(q, dfltFlags) else old(Page(q))
      {
        RootStart(first + j);
        AtRoot((first + j) * 262144);
        label L:
        MapBlock(Ptr(root, first + j), 0, (first + j) * 262144, (first + j) * 262144, dfltFlags);
        forall q | 0 <= q < Total(roots)
          ensures Page(q) == if first <= Block(0, q) < first + (j + 1) then Mapped(q, dfltFlags) else old(Page(q))
        {
          assert Page(q) == if Block(0, q) == first + j then Mapped(q, dfltFlags) else old@L(Page(q));
        }
      }
      forall q | 0 <= q < Total(roots) ensures Covers(r, Block(0, q)) <==> first <= Block(0, q) < first + entries {
        CoversRange(r, roots, Block(0, q));
      }
    }

    lemma RegionEntries(r: Region)
      requires r.size > 0
      ensures var first, top := r.base / ROOT_BYTES, (r.base + r.size + ROOT_BYTES - 1) / ROOT_BYTES;
              && top == (r.base + r.size - 1) / ROOT_BYTES + 1 && first < top
              && first + (top * ROOT_BYTES - first * ROOT_BYTES - 1) / ROOT_BYTES + 1 == top
    {
    }

    lemma RootStart(i: nat)
      requires i < roots
      ensures i * 262144 < Total(roots) && Index(0, i * 262144) == i && i * 262144 % LvlPages(0) == 0
    {
    }

    // ----- lookup

    /** mem_translate: the walk with its own loop; agrees with the page map on every byte. */
    method MemTranslate(va: nat) returns (pa: Option<nat>)
      requires Valid() && va < Total(roots) * PAGE_SIZE
      ensures pa == match Page(va / PAGE_SIZE)
                    case Free(_) => None
                    case Mapped(f, _) => Some(f * PAGE_SIZE + va % PAGE_SIZE)
    {
      ghost var vpn := va / PAGE_SIZE;
      hide PageTable.Term, PageTable.GetFrom;
      var p := Ptr(root, Index(0, va / PAGE_SIZE));
      var lvl := 0;
      DescentLabel(mem, lab, root, roots, root, 0, 0, vpn);
      var i := 0;
      while i < LVLS
        invariant i <= LVLS && lvl == 0
        invariant i < LVLS ==> p == At(i, vpn) && InMem(p) && p.idx == Index(i, vpn) && lab[p.tbl].lvl == i
        invariant i < LVLS ==> TermAt(vpn) == Term(mem, p.tbl, i, vpn)
        invariant i < LVLS
      {
        assert TableOk(mem, lab, roots, p.tbl);
        assert EntryOk(mem, lab, p.tbl, p.idx);
        if !Pte(p).Table? {
          lvl := i;
          break;
        }
        DescentStep(mem, root, 0, i, vpn);
        p := Ptr(Pte(p).pfn, Index(i + 1, va / PAGE_SIZE));
        DescentLabel(mem, lab, root, roots, root, 0, i + 1, vpn);
        i := i + 1;
      }
      hide JoinOffset;
      if Pte(p).Leaf? {
        pa := Some(JoinOffset(Pte(p).pfn * PAGE_SIZE, va, LvlPages(lvl) * PAGE_SIZE));
        ByteAddress(Pte(p).pfn, lvl, va);
      } else {
        pa := None;
      }
    }

    // ----- mapping

    predicate Mappable(e: Pte, lvl: nat, left: nat, vpn: nat, pfn: nat)
      requires lvl < LVLS
    {
      !e.Leaf? && !e.Table? && LvlPages(lvl) <= left && vpn % LvlPages(lvl) == 0 && pfn % LvlPages(lvl) == 0
    }

    /** What MemAllocPt takes from the pools. */
    lemma SpentPt(mem0: Memory, frames0: set<nat>, pt: Option<nat>)
      requires mem0.Keys <= frames0
      requires pt.None? ==> mem == mem0 && frames == frames0
      requires pt.Some? ==> pt.value !in frames0 && frames == frames0 + {pt.value} && mem.Keys == mem0.Keys + {pt.value}
      ensures Spent(mem0, frames0, mem, frames, [])
    {
      if pt.Some? {
        SpentTable(mem0, frames0, mem, pt.value);
      } else {
        SpentNone(mem0, frames0, mem);
      }
    }

    /** A table for the free entry of a page, on the way down to the level a mapping fits. */
    method DescendTable(p: PtePtr, lvl: nat, vpn: nat, ghost mem0: Memory) returns (ok: bool)
      requires Valid() && lvl < LVLS - 1 && vpn < Total(roots) && p == At(lvl, vpn) && InMem(p) && Pte(p).Invalid?
      requires TermAt(vpn) == Terminal(Pte(p), lvl) && Deepened(mem0, mem, root, roots, vpn)
      modifies this`mem, this`frames, this`lab, this`refused
      ensures Valid() && old(frames) <= frames && old(refused) <= refused
      ensures forall q :: 0 <= q < Total(roots) ==> Page(q) == old(Page(q))
      ensures Deepened(mem0, mem, root, roots, vpn) && At(lvl, vpn) == p
      ensures Spent(old(mem), old(frames), mem, frames, [])
      ensures ok ==> InMem(p) && Pte(p).Table? && At(lvl + 1, vpn).Ptr? && TermAt(vpn).lvl == lvl + 1
      ensures !ok ==> refused > old(refused)
    {
      hide Term, GetFrom, WellFormed, Deepened, Index, Block, LvlPages, Spent;
      ghost var mem1 := mem;
      WholeBlock(lvl, vpn);
      var pt := MemAllocPt(p, lvl, vpn);
      ok := pt.Some?;
      SpentPt(mem1, old(frames), pt);
      if ok {
        forall q | 0 <= q < Total(roots)
          ensures PageIn(mem, root, q) == PageIn(mem1, root, q)
          ensures Grown(Was(mem1, root, q), Was(mem, root, q), lvl, q, vpn)
        {
          assert Page(q) == old(Page(q)) && old(TermAt(q)) == Was(mem1, root, q) && TermAt(q) == Was(mem, root, q);
        }
        DeepenedMore(mem0, mem1, mem, root, roots, vpn, lvl);
      }
    }

    /**
     * The level search of mem_map: descends from the root, building tables, to an invalid
     * entry whose block fits the rest of the request and both alignments.
     */
    method MapDescend(vpn: nat, left: nat, pfn: nat) returns (r: Outcome, lvl: nat, p: PtePtr)
      requires Valid() && vpn < Total(roots) && left > 0
      modifies this`mem, this`frames, this`lab, this`refused
      ensures Valid() && old(frames) <= frames && old(refused) <= refused
      ensures forall q :: 0 <= q < Total(roots) ==> Page(q) == old(Page(q))
      ensures r.Done? ==> lvl < LVLS && p == At(lvl, vpn) && InMem(p) && p.idx == Index(lvl, vpn)
                          && Mappable(Pte(p), lvl, left, vpn, pfn)
                          && TermAt(vpn).lvl == lvl >= old(TermAt(vpn).lvl)
      ensures r.Done? ==> lvl == FillLvl(old(TermAt(vpn).lvl), vpn, left, pfn) && !Page(vpn).Mapped?
      ensures Deepened(old(mem), mem, root, roots, vpn)
      ensures Spent(old(mem), old(frames), mem, frames, [])
      ensures r.Halted? ==> Page(vpn).Mapped?
      ensures r.NoTable? ==> refused > old(refused)
      ensures r.Done? || r.Halted? || r.NoTable?
    {
      hide Term, GetFrom, Deepened, WellFormed, Spent;
      SpentNone(mem, frames, mem);
      AtRoot(vpn);
      DeepenedNone(mem, root, roots, vpn);
      lvl := 0;
      p := Null;
      while lvl < LVLS
        invariant Valid() && old(frames) <= frames && old(refused) <= refused && lvl < LVLS
        invariant At(lvl, vpn).Ptr?
        invariant TermAt(vpn).lvl == if lvl < old(TermAt(vpn).lvl) then old(TermAt(vpn).lvl) else lvl
        invariant FillLvl(TermAt(vpn).lvl, vpn, left, pfn) == FillLvl(old(TermAt(vpn).lvl), vpn, left, pfn)
        invariant Deepened(old(mem), mem, root, roots, vpn) && Spent(old(mem), old(frames), mem, frames, [])
        invariant forall q :: 0 <= q < Total(roots) ==> Page(q) == old(Page(q))
      {
        AtTerm(lvl, vpn);
        p := PtGetPte(lvl, vpn);
        if Mappable(Pte(p), lvl, left, vpn, pfn) {
          return Done, lvl, p;
        } else if Pte(p).Invalid? {
          ghost var mem1, frames1 := mem, frames;
          var ok := DescendTable(p, lvl, vpn, old(mem));
          SpentMore(old(mem), old(frames), mem1, frames1, mem, frames, [], []);
          if !ok {
            return NoTable, lvl, p;
          }
        } else if Pte(p).Leaf? {
          return Halted, lvl, p;
        }
        AtTerm(lvl + 1, vpn);
        DescentStep(mem, root, 0, lvl, vpn);
        lvl := lvl + 1;
      }
    }

    lemma AtRoot(vpn: nat)
      ensures At(0, vpn) == Ptr(root, Index(0, vpn))
    {
    }

    lemma IndexInTable(lvl: nat, vpn: nat)
      requires Valid() && lvl < LVLS && vpn < Total(roots) && At(lvl, vpn).Ptr?
      ensures Index(lvl, vpn) < TableSize(lvl, roots)
    {
    }

    lemma AtTerm(lvl: nat, vpn: nat)
      requires Valid() && lvl < LVLS && vpn < Total(roots)
      ensures TermAt(vpn).lvl < LVLS && !TermAt(vpn).pte.Table? && Aligned(TermAt(vpn).pte, TermAt(vpn).lvl)
      ensures At(lvl, vpn).Ptr? <==> lvl <= TermAt(vpn).lvl
      ensures At(lvl, vpn).Ptr? ==> InMem(At(lvl, vpn)) && At(lvl, vpn).idx == Index(lvl, vpn)
                                    && (lvl == TermAt(vpn).lvl ==> Pte(At(lvl, vpn)) == TermAt(vpn).pte)
                                    && (lvl < TermAt(vpn).lvl ==> Pte(At(lvl, vpn)).Table?)
      ensures lvl > TermAt(vpn).lvl ==> At(lvl, vpn) == if TermAt(vpn).pte.Leaf? then Wild else Null
    {
      DescentTerm(mem, lab, root, roots, root, 0, lvl, vpn);
      DescentLabel(mem, lab, root, roots, root, 0, lvl, vpn);
    }

    /** All pages of the block of a leaf or an invalid entry are decided by it. */
    lemma TermBlock(vpn: nat, q: nat)
      requires Valid() && vpn < Total(roots) && q < Total(roots)
      requires Block(TermAt(vpn).lvl, q) == Block(TermAt(vpn).lvl, vpn)
      ensures TermAt(q) == TermAt(vpn)
    {
      SameTerm(mem, lab, root, roots, vpn, q);
    }

    lemma WholeBlock(lvl: nat, vpn: nat)
      requires Valid() && vpn < Total(roots) && TermAt(vpn).lvl == lvl
      ensures forall q :: 0 <= q < Total(roots) && Block(lvl, q) == Block(lvl, vpn) ==> TermAt(q) == TermAt(vpn)
    {
      hide Term, Block, WellFormed;
      forall q | 0 <= q < Total(roots) && Block(lvl, q) == Block(lvl, vpn) ensures TermAt(q) == TermAt(vpn) {
        TermBlock(vpn, q);
      }
    }

    lemma NextAt(lvl: nat, vpn: nat)
      requires lvl < LVLS && vpn < Total(roots) && At(lvl, vpn).Ptr?
      requires Index(lvl, vpn) + 1 < TableSize(lvl, roots)
      ensures vpn + LvlPages(lvl) < Total(roots)
      ensures At(lvl, vpn + LvlPages(lvl)) == Ptr(At(lvl, vpn).tbl, Index(lvl, vpn) + 1)
      ensures Index(lvl, vpn + LvlPages(lvl)) == Index(lvl, vpn) + 1
    {
      NextEntry(lvl, vpn, roots);
      DescentSame(mem, root, 0, lvl, vpn, vpn + LvlPages(lvl));
    }

    lemma AlignedStep(lvl: nat, vpn: nat)
      requires vpn % LvlPages(lvl) == 0
      ensures LvlPages(lvl) > 0 && (vpn + LvlPages(lvl)) % LvlPages(lvl) == 0
    {
    }

    /** One block of mem_map: an aligned leaf maps its pages to consecutive frames. */
    method MapBlock(p: PtePtr, lvl: nat, vpn: nat, pfn: nat, flags: nat)
      requires Valid() && lvl < LVLS && vpn < Total(roots) && p.Ptr? && p == At(lvl, vpn)
      requires vpn % LvlPages(lvl) == 0 && pfn % LvlPages(lvl) == 0
      modifies this`mem
      ensures Valid() && mem.Keys == old(mem.Keys)
      ensures forall q :: 0 <= q < Total(roots) ==>
                Page(q) == (if vpn <= q < vpn + LvlPages(lvl) then Mapped(pfn + (q - vpn), flags) else old(Page(q)))
      ensures forall q :: 0 <= q < Total(roots) && !(vpn <= q < vpn + LvlPages(lvl)) ==>
                Was(mem, root, q) == Was(old(mem), root, q)
      ensures forall q, k :: 0 <= q < Total(roots) && 0 <= k <= lvl ==> At(k, q) == old(At(k, q))
    {
      hide PageTable.Term, PageTable.GetFrom;
      PteSet(p, Leaf(pfn, flags), lvl, vpn);
      forall q | 0 <= q < Total(roots)
        ensures Page(q) == (if vpn <= q < vpn + LvlPages(lvl) then Mapped(pfn + (q - vpn), flags) else old(Page(q)))
        ensures !(vpn <= q < vpn + LvlPages(lvl)) ==> Was(mem, root, q) == Was(old(mem), root, q)
      {
        BlockIsRun(lvl, vpn, q);
      }
    }

    /** One entry of mem_map: the frames of the block, and the leaf that maps it to them. */
    method MapEntry(p: PtePtr, lvl: nat, vpn: nat, ghost next: Option<nat>, ppages: Option<nat>, pfn: nat, flags: nat)
      returns (run: Option<nat>, ghost more: seq<nat>)
      requires Valid() && lvl < LVLS && vpn < Total(roots) && p.Ptr? && p == At(lvl, vpn) && vpn % LvlPages(lvl) == 0
      requires next == if ppages.Some? then Some(pfn) else None
      requires ppages.Some? ==> pfn % LvlPages(lvl) == 0
      modifies this`mem, this`frames, this`refused
      ensures Valid() && old(frames) <= frames && mem.Keys == old(mem.Keys)
      ensures refused == if run.None? then old(refused) + 1 else old(refused)
      ensures Supplied(next, old(mem), old(frames), mem, frames, more)
      ensures run.None? ==> ppages.None? && more == [] && mem == old(mem) && frames == old(frames)
      ensures run.Some? ==> |more| == LvlPages(lvl) && run.value % LvlPages(lvl) == 0 && (ppages.Some? ==> run == next)
      ensures run.Some? ==> forall q :: 0 <= q < Total(roots) ==>
                Page(q) == (if vpn <= q < vpn + LvlPages(lvl) then Mapped(more[q - vpn], flags) else old(Page(q)))
      ensures forall q :: 0 <= q < Total(roots) && !(vpn <= q < vpn + LvlPages(lvl)) ==>
                Was(mem, root, q) == Was(old(mem), root, q)
      ensures forall q, k :: 0 <= q < Total(roots) && 0 <= k <= lvl ==> At(k, q) == old(At(k, q))
    {
      hide Term, GetFrom, LvlPages, WellFormed, PageOf, Supplied, Spent;
      ghost var mem0, frames0 := mem, frames;
      run := MapFrames(ppages, pfn, LvlPages(lvl));
      more := [];
      if run.None? {
        SpentNone(mem, frames, mem);
        SuppliedNone(next, mem, frames, mem, frames);
        return;
      }
      MapBlock(p, lvl, vpn, run.value, flags);
      more := seq(LvlPages(lvl), k requires 0 <= k => run.value + k);
      SuppliedRun(next, mem0, frames0, mem, frames, run.value, LvlPages(lvl));
    }

    /**
     * The entry loop of mem_map: fills entries of one table, from the one MapDescend found,
     * while a whole block is left. Later entries are overwritten whatever they hold.
     */
    method MapFill(p: PtePtr, lvl: nat, vpn0: nat, ppages: Option<nat>, left: nat, flags: nat)
      returns (r: Outcome, n: nat, ghost got: seq<nat>)
      requires Valid() && lvl < LVLS && vpn0 + left <= Total(roots) && left > 0
      requires p == At(lvl, vpn0) && InMem(p) && p.idx == Index(lvl, vpn0)
      requires Mappable(Pte(p), lvl, left, vpn0, if ppages.Some? then ppages.value else 0)
      modifies this`mem, this`frames, this`lab, this`refused
      ensures Valid() && old(frames) <= frames && old(refused) <= refused
      ensures r.Done? || r.NoTable? || (r.Halted? && ppages.None?)
      ensures !r.Done? ==> refused > old(refused)
      ensures n == |got| <= left
      ensures forall q :: 0 <= q < Total(roots) ==>
                Page(q) == (if vpn0 <= q < vpn0 + n then Mapped(got[q - vpn0], flags) else old(Page(q)))
      ensures Supplied(ppages, old(mem), old(frames), mem, frames, got)
      ensures r.Done? && n == 0 ==> TermAt(vpn0).lvl > lvl
      ensures ppages.Some? ==> n == Span(lvl, FillCount(lvl, vpn0, left, roots))
      ensures ppages.Some? ==>
                forall q :: 0 <= q < Total(roots) && !(vpn0 <= q < vpn0 + n) ==> Was(mem, root, q) == Was(old(mem), root, q)
    {
      hide Term, GetFrom, Index, LvlPages, TableSize, WellFormed, PageOf, Supplied, Spent, Span, FillCount;
      IndexInTable(lvl, vpn0);
      SpanNext(lvl, 0);
      SpentNone(mem, frames, mem);
      SuppliedNone(ppages, mem, frames, mem, frames);
      var vpn: nat, pfn: nat := vpn0, if ppages.Some? then ppages.value else 0;
      var entry: nat, size := p.idx, LvlPages(lvl);
      n, got := 0, [];
      while entry < TableSize(lvl, roots) && n < left && left - n >= size
        invariant Valid() && old(frames) <= frames && old(refused) <= refused
        invariant n == |got| <= left && vpn == vpn0 + n && vpn % size == 0
        invariant ppages.Some? ==> pfn == ppages.value + n && pfn % size == 0
        invariant entry < TableSize(lvl, roots) && n < left ==>
                    At(lvl, vpn) == Ptr(p.tbl, entry) && Index(lvl, vpn) == entry
        invariant n == 0 ==> mem == old(mem) && entry < TableSize(lvl, roots) && left >= size
        invariant forall q :: 0 <= q < Total(roots) ==>
                    Page(q) == (if vpn0 <= q < vpn then Mapped(got[q - vpn0], flags) else old(Page(q)))
        invariant ppages.Some? ==>
                    forall q :: 0 <= q < Total(roots) && !(vpn0 <= q < vpn) ==> Was(mem, root, q) == Was(old(mem), root, q)
        invariant p.idx <= entry <= TableSize(lvl, roots) && n == Span(lvl, entry - p.idx)
        invariant Supplied(ppages, old(mem), old(frames), mem, frames, got)
        decreases left - n
      {
        ghost var before, mem1 := frames, mem;
        ghost var next := if ppages.Some? then Some(ppages.value + n) else None;
        var run;
        ghost var more;
        run, more := MapEntry(Ptr(p.tbl, entry), lvl, vpn, next, ppages, pfn, flags);
        SuppliedMore(ppages, next, old(mem), old(frames), mem1, before, mem, frames, got, more);
        if run.None? {
          if lvl == LVLS - 1 {
            return Halted, n, got;
          }
          ghost var mem2, frames2 := mem, frames;
          r := MapFallback(lvl, vpn);
          SuppliedNone(next, mem2, frames2, mem, frames);
          SuppliedMore(ppages, next, old(mem), old(frames), mem2, frames2, mem, frames, got, []);
          return r, n, got;
        }
        pfn := run.value;
        if entry + 1 < TableSize(lvl, roots) && n + size < left {
          NextAt(lvl, vpn);
        }
        AlignedStep(lvl, vpn);
        AlignedStep(lvl, pfn);
        got := got + more;
        SpanNext(lvl, entry - p.idx);
        vpn, pfn, n, entry := vpn + size, pfn + size, n + size, entry + 1;
      }
      FilledAll(lvl, vpn0, left, entry);
      return Done, n, got;
    }

    lemma SpanNext(lvl: nat, i: nat)
      ensures Span(lvl, 0) == 0 && Span(lvl, i + 1) == Span(lvl, i) + LvlPages(lvl)
    {
    }

    /** Where the entry loop stops: at the end of the table, or when no whole block is left. */
    lemma FilledAll(lvl: nat, vpn: nat, left: nat, entry: nat)
      requires lvl < LVLS && vpn < Total(roots) && Index(lvl, vpn) <= entry <= TableSize(lvl, roots)
      requires Span(lvl, entry - Index(lvl, vpn)) <= left
      requires entry == TableSize(lvl, roots) || left - Span(lvl, entry - Index(lvl, vpn)) < LvlPages(lvl)
      ensures entry - Index(lvl, vpn) == FillCount(lvl, vpn, left, roots)
    {
      hide Index, TableSize;
    }

    /** The frames of the next block: the caller's, or an aligned run from the pools. */
    method MapFrames(ppages: Option<nat>, pfn: nat, size: nat) returns (run: Option<nat>)
      requires size > 0 && (ppages.Some? ==> pfn % size == 0)
      modifies this`frames, this`refused
      ensures ppages.Some? ==> run == Some(pfn) && frames == old(frames)
      ensures run.None? ==> frames == old(frames)
      ensures refused == if run.None? then old(refused) + 1 else old(refused)
      ensures run.Some? ==> run.value % size == 0
      ensures run.Some? && ppages.None? ==>
                Run(run.value, size) !! old(frames) && frames == old(frames) + Run(run.value, size)
    {
      if ppages.None? {
        run := MemAllocPpages(size, true);
      } else {
        run := Some(pfn);
      }
    }

    /** No frames for a whole block: mem_map makes a table of the entry and tries a level down. */
    method MapFallback(lvl: nat, vpn: nat) returns (r: Outcome)
      requires Valid() && lvl < LVLS - 1 && vpn < Total(roots) && At(lvl, vpn).Ptr?
      modifies this`mem, this`frames, this`lab, this`refused
      ensures Valid() && old(frames) <= frames && old(refused) <= refused && (r.Done? || r.NoTable?)
      ensures r.NoTable? ==> refused > old(refused)
      ensures Spent(old(mem), old(frames), mem, frames, [])
      ensures forall q :: 0 <= q < Total(roots) ==> Page(q) == old(Page(q))
      ensures r.Done? && old(InMem(At(lvl, vpn)) && Pte(At(lvl, vpn)).Invalid?) ==> TermAt(vpn).lvl > lvl
    {
      hide Term, GetFrom, Spent;
      var p := PtGetPte(lvl, vpn);
      if Pte(p).Invalid? {
        var pt := MemAllocPt(p, lvl, vpn);
        SpentPt(old(mem), old(frames), pt);
        // without a table the source would retry without end
        return if pt.Some? then Done else NoTable;
      }
      SpentNone(mem, frames, mem);
      return Done;
    }

    /** One round of mem_map: the level search at a page, and the fill of the table it found. */
    method MapRound(vpn: nat, ppages: Option<nat>, left: nat, flags: nat) returns (r: Outcome, n: nat, ghost got: seq<nat>)
      requires Valid() && vpn + left <= Total(roots) && left > 0
      modifies this`mem, this`frames, this`lab, this`refused
      ensures Valid() && old(frames) <= frames && old(refused) <= refused && n == |got| <= left
      ensures forall q :: 0 <= q < Total(roots) ==>
                Page(q) == (if vpn <= q < vpn + n then Mapped(got[q - vpn], flags) else old(Page(q)))
      ensures Supplied(ppages, old(mem), old(frames), mem, frames, got)
      ensures r.Halted? ==> (ppages.None? && refused > old(refused)) || (n == 0 && old(Page(vpn)).Mapped?)
      ensures r.NoTable? ==> refused > old(refused)
      ensures r.Done? || r.Halted? || r.NoTable?
      ensures r.Done? ==> n > 0 || TermAt(vpn).lvl > old(TermAt(vpn).lvl)
      ensures r.Done? && ppages.Some? ==> Round(old(mem), mem, root, roots, vpn, left, ppages.value, n)
    {
      hide Term, GetFrom, Index, LvlPages, WellFormed, PageOf, Supplied, Spent, FillLvl, FillCount, Deepened;
      ghost var mem1 := mem;
      var lvl, p;
      got := [];
      n := 0;
      r, lvl, p := MapDescend(vpn, left, if ppages.Some? then ppages.value else 0);
      ghost var before := frames;
      SuppliedNone(ppages, mem1, old(frames), mem, frames);
      if !r.Done? {
        return;
      }
      ghost var mem2 := mem;
      r, n, got := MapFill(p, lvl, vpn, ppages, left, flags);
      SuppliedMore(ppages, ppages, mem1, old(frames), mem2, before, mem, frames, [], got);
      if ppages.Some? && r.Done? {
        RoundOf(mem1, mem2, mem, root, roots, vpn, left, ppages.value, lvl, n);
      }
    }

    /** The outer loop of mem_map: one table's worth of entries at a time. */
    method MapPages(v: nat, ppages: Option<nat>, numPages: nat, flags: nat) returns (r: Outcome, ghost got: seq<nat>)
      requires Valid() && v + numPages <= Total(roots)
      modifies this`mem, this`frames, this`lab, this`refused
      ensures Valid() && old(frames) <= frames && old(refused) <= refused && |got| <= numPages
      ensures r.Done? ==> |got| == numPages
      ensures forall q :: 0 <= q < Total(roots) ==>
                Page(q) == (if v <= q < v + |got| then Mapped(got[q - v], flags) else old(Page(q)))
      ensures Supplied(ppages, old(mem), old(frames), mem, frames, got)
      ensures r.Halted? ==> (ppages.None? && refused > old(refused))
                            || (|got| < numPages && old(Page(v + |got|)).Mapped?)
      ensures r.NoTable? ==> refused > old(refused)
      ensures r.Done? || r.Halted? || r.NoTable?
      ensures ppages.Some? && !r.NoTable? ==> (r.Halted? <==> Noticed(old(mem), root, roots, v, numPages, ppages.value))
    {
      hide Term, GetFrom, Index, LvlPages, WellFormed, PageOf, Supplied, Spent, FillPages, Untouched, Round;
      ghost var mem0, pfn0 := mem, if ppages.Some? then ppages.value else 0;
      UntouchedStart(mem, root, roots, v);
      SpentNone(mem, frames, mem);
      SuppliedNone(ppages, mem, frames, mem, frames);
      var next := ppages;
      var count := 0;
      got := [];
      while count < numPages
        invariant Valid() && old(frames) <= frames && old(refused) <= refused
        invariant count == |got| <= numPages
        invariant next == if ppages.Some? then Some(ppages.value + count) else None
        invariant forall q :: 0 <= q < Total(roots) ==>
                    Page(q) == (if v <= q < v + count then Mapped(got[q - v], flags) else old(Page(q)))
        invariant Supplied(ppages, mem0, old(frames), mem, frames, got)
        invariant ppages.Some? ==> Untouched(mem0, mem, root, roots, v + count)
        invariant ppages.Some? ==>
                    Noticed(mem0, root, roots, v, numPages, pfn0)
                    == Noticed(mem0, root, roots, v + count, numPages - count, pfn0 + count)
        decreases numPages - count, LVLS - TermAt(v + count).lvl
      {
        ghost var before, mem1 := frames, mem;
        var n;
        ghost var more;
        AtTerm(0, v + count);
        r, n, more := MapRound(v + count, next, numPages - count, flags);
        SuppliedMore(ppages, next, mem0, old(frames), mem1, before, mem, frames, got, more);
        got := got + more;
        if !r.Done? {
          return r, got;
        }
        if ppages.Some? {
          RoundStep(mem0, mem1, mem, root, roots, v + count, numPages - count, pfn0 + count, n);
        }
        count := count + n;
        next := if next.Some? then Some(next.value + n) else None;
      }
      r := Done;
    }

    /**
     * mem_map without colours. With `ppages` the pages are mapped to the consecutive frames
     * from that base, otherwise to frames the pools hand out block by block. `got` is the
     * frame each page ends up at.
     */
    method MemMap(va: nat, ppages: Option<nat>, numPages: nat, flags: nat) returns (r: Outcome, ghost got: seq<nat>)
      requires Valid() && va / PAGE_SIZE + numPages <= Total(roots)
      modifies this`mem, this`frames, this`lab, this`refused
      ensures Valid() && old(frames) <= frames && old(refused) <= refused
      ensures r.NoSection? <==> !InOneSection(va / PAGE_SIZE, numPages)
      ensures r.NoSection? ==> mem == old(mem) && frames == old(frames)
      ensures forall q :: 0 <= q < Total(roots) && !(va / PAGE_SIZE <= q < va / PAGE_SIZE + numPages) ==>
                Page(q) == old(Page(q))
      ensures r.Done? ==> |got| == numPages
      ensures Supplied(ppages, old(mem), old(frames), mem, frames, got)
      ensures forall q :: va / PAGE_SIZE <= q < va / PAGE_SIZE + numPages ==>
                Page(q) == if q - va / PAGE_SIZE < |got| then Mapped(got[q - va / PAGE_SIZE], flags) else old(Page(q))
      ensures r.Halted? ==> (ppages.None? && refused > old(refused))
                            || (|got| < numPages && old(Page(va / PAGE_SIZE + |got|)).Mapped?)
      ensures ppages.Some? && (r.Done? || r.Halted?) ==>
                (r.Halted? <==> Noticed(old(mem), root, roots, va / PAGE_SIZE, numPages, ppages.value))
      ensures r.NoTable? ==> refused > old(refused)
      ensures r.Done? || r.NoSection? || r.Halted? || r.NoTable?
    {
      hide Supplied, Spent, Term, WellFormed, PageOf;
      var v: nat := va / PAGE_SIZE;
      var sec := MemFindSec(v * PAGE_SIZE);
      var secEnd := MemFindSec((v * PAGE_SIZE + numPages * PAGE_SIZE - 1) % VA_WRAP);
      if sec.None? || sec != secEnd {
        SpentNone(mem, frames, mem);
        SuppliedNone(ppages, mem, frames, mem, frames);
        return NoSection, [];
      }
      r, got := MapPages(v, ppages, numPages, flags);
    }

    // ----- splitting

    /**
     * mem_expand_pte: replaces a leaf or an invalid entry by a table of the next level with
     * the same pages. The pieces of a superpage get the default flags of the address space.
     */
    method MemExpandPte(vpn: nat, lvl: nat) returns (r: Outcome)
      requires Valid() && vpn < Total(roots) && lvl < LVLS
      modifies this`mem, this`frames, this`lab, this`refused
      ensures Valid() && (r.Done? || r.NoTable? || r.WildWalk?)
      ensures TablesTaken(old(mem), old(frames), mem, frames) && old(refused) <= refused
      ensures r.NoTable? ==> refused > old(refused)
      ensures forall q :: 0 <= q < Total(roots) && Block(lvl, q) != Block(lvl, vpn) ==> TermAt(q) == old(TermAt(q))
      ensures !r.Done? || lvl == LVLS - 1 || old(TermAt(vpn)).lvl != lvl ==> mem == old(mem)
      ensures r.Done? && lvl < LVLS - 1 && old(TermAt(vpn)).lvl == lvl && old(TermAt(vpn)).pte.Leaf? ==>
                forall q :: 0 <= q < Total(roots) && Block(lvl, q) == Block(lvl, vpn) ==>
                  && TermAt(q) == Terminal(Piece(old(TermAt(vpn)).pte, lvl + 1, Index(lvl + 1, q)), lvl + 1)
                  && old(TermAt(q)) == old(TermAt(vpn))
                  && Page(q) == Mapped(old(Page(q)).pfn, dfltFlags)
      ensures r.Done? && lvl < LVLS - 1 && old(TermAt(vpn)).lvl == lvl ==>
                forall q :: 0 <= q < Total(roots) && Block(lvl, q) == Block(lvl, vpn) ==>
                  TermAt(q).lvl == lvl + 1 && TermAt(q).pte.Leaf? == old(TermAt(vpn)).pte.Leaf?
      ensures old(TermAt(vpn)).pte.Invalid? ==> forall q :: 0 <= q < Total(roots) ==> Page(q) == old(Page(q))
      ensures r.WildWalk? <==> old(TermAt(vpn)).lvl < lvl < LVLS - 1 && old(TermAt(vpn)).pte.Leaf?
    {
      hide Term, GetFrom, Index, LvlPages, WellFormed;
      AtTerm(lvl, vpn);
      if LVLS - 1 <= lvl {
        return Done;
      }
      var p := PtGetPte(lvl, vpn);
      if p.Wild? {
        return WildWalk;
      }
      if p.Ptr? && !Pte(p).Table? {
        var e := Pte(p);
        var vld, rsv := e.Leaf?, RswOf(e) == RSW_RSRV;
        forall q | 0 <= q < Total(roots) && Block(lvl, q) == Block(lvl, vpn)
          ensures TermAt(q) == Terminal(e, lvl)
          ensures vld ==> Page(q) == PageOf(Terminal(e, lvl), q)
          ensures vld ==> PageOf(Terminal(Piece(e, lvl + 1, Index(lvl + 1, q)), lvl + 1), q)
                          == Mapped(Page(q).pfn, dfltFlags)
        {
          TermBlock(vpn, q);
          if vld {
            SplitLeaf(e.pfn, e.flags, dfltFlags, lvl, q);
          }
        }
        var pt := MemAllocPt(p, lvl, vpn);
        if pt.None? {
          return NoTable;
        }
        if vld || rsv {
          MemFillSplit(pt.value, vpn, lvl + 1, e);
        }
      }
      return Done;
    }

    /** The loop of mem_expand_pte over the entries of the new table. */
    method MemFillSplit(tbl: nat, vpn: nat, lvl: nat, e: Pte)
      requires Valid() && vpn < Total(roots) && 0 < lvl < LVLS && At(lvl, vpn) == Ptr(tbl, Index(lvl, vpn))
      requires e.Leaf? || e == Invalid(RSW_RSRV)
      requires Aligned(e, lvl - 1)
      requires forall q :: 0 <= q < Total(roots) && Block(lvl - 1, q) == Block(lvl - 1, vpn) ==>
                 TermAt(q) == Terminal(Invalid(RswOf(e)), lvl)
      modifies this`mem
      ensures Valid() && mem.Keys == old(mem.Keys)
      ensures forall q :: 0 <= q < Total(roots) && Block(lvl - 1, q) == Block(lvl - 1, vpn) ==>
                TermAt(q) == Terminal(Piece(e, lvl, Index(lvl, q)), lvl)
      ensures forall q :: 0 <= q < Total(roots) && Block(lvl - 1, q) != Block(lvl - 1, vpn) ==>
                TermAt(q) == old(TermAt(q))
      ensures forall q, k :: 0 <= q < Total(roots) && 0 <= k <= lvl ==> At(k, q) == old(At(k, q))
    {
      hide Term, GetFrom, Index, LvlPages, Block, WellFormed;
      var entry: nat, page: nat := 0, BlockBase(lvl - 1, vpn);
      FirstAt(lvl, vpn);
      while entry < ENTRIES
        invariant Valid() && mem.Keys == old(mem.Keys) && entry <= ENTRIES && page % LvlPages(lvl) == 0
        invariant entry < ENTRIES ==> page < Total(roots) && Block(lvl - 1, page) == Block(lvl - 1, vpn)
                                      && Index(lvl, page) == entry && At(lvl, page) == Ptr(tbl, entry)
        invariant forall q :: 0 <= q < Total(roots) && Block(lvl - 1, q) == Block(lvl - 1, vpn) ==>
                    TermAt(q) == Terminal(if Index(lvl, q) < entry then Piece(e, lvl, Index(lvl, q))
                                          else Invalid(RswOf(e)), lvl)
        invariant forall q :: 0 <= q < Total(roots) && Block(lvl - 1, q) != Block(lvl - 1, vpn) ==>
                    TermAt(q) == old(TermAt(q))
        invariant forall q, k :: 0 <= q < Total(roots) && 0 <= k <= lvl ==> At(k, q) == old(At(k, q))
      {
        PieceAligned(e, lvl, entry);
        PteSet(Ptr(tbl, entry), Piece(e, lvl, entry), lvl, page);
        forall q | 0 <= q < Total(roots)
          ensures Block(lvl, q) == Block(lvl, page) <==>
                  Block(lvl - 1, q) == Block(lvl - 1, vpn) && Index(lvl, q) == entry
        {
          BlockInBlock(lvl, q, page);
        }
        if entry + 1 < ENTRIES {
          NextInBlock(lvl, page, roots);
          NextAt(lvl, page);
        }
        AlignedStep(lvl, page);
        entry, page := entry + 1, page + LvlPages(lvl);
      }
    }

    lemma FirstAt(lvl: nat, vpn: nat)
      requires 0 < lvl < LVLS && vpn < Total(roots) && At(lvl, vpn).Ptr?
      ensures var first := BlockBase(lvl - 1, vpn);
              && first < Total(roots) && Block(lvl - 1, first) == Block(lvl - 1, vpn)
              && Index(lvl, first) == 0 && first % LvlPages(lvl) == 0
              && At(lvl, first) == Ptr(At(lvl, vpn).tbl, 0)
    {
      hide Index, Block, BlockBase, LvlPages, GetFrom, Total;
      FirstInBlock(lvl, vpn);
      DescentSame(mem, root, 0, lvl, vpn, BlockBase(lvl - 1, vpn));
    }

    lemma PieceAligned(e: Pte, lvl: nat, idx: nat)
      requires 0 < lvl < LVLS && Aligned(e, lvl - 1)
      ensures !Piece(e, lvl, idx).Table? && Aligned(Piece(e, lvl, idx), lvl)
    {
    }

    /** Entry `idx` of the table that replaces `e`. */
    function Piece(e: Pte, lvl: nat, idx: nat): Pte {
      if e.Leaf? then Leaf(e.pfn + Span(lvl, idx), dfltFlags) else Invalid(RSW_RSRV)
    }

    // ----- unmapping

    /** mem_free_ppages without colours. */
    method MemFreePpages(base: nat, n: nat)
      modifies this`frames
      ensures frames == old(frames) - Run(base, n)
    {
      frames := frames - Run(base, n);
    }

    /** Clears one leaf that lies in the range, and gives its frames back if asked to. */
    method UnmapBlock(p: PtePtr, lvl: nat, v: nat, free: bool,
                      ghost mem0: Memory, ghost frames0: set<nat>, ghost at: nat, ghost top: nat)
      requires Valid() && lvl < LVLS && at <= v && v + LvlPages(lvl) <= top <= Total(roots)
      requires p.Ptr? && p == At(lvl, v) && v % LvlPages(lvl) == 0
      requires TermAt(v).pte.Leaf? && TermAt(v).lvl == lvl
      requires AllMapped(mem0, root, at, top) && Cleared(mem0, mem, root, roots, dfltFlags, at, v, top)
      requires Accounted(mem0, frames0, mem, frames, root, at, v, top, free)
      requires free ==> OwnFrames(mem0, root, frames0, at, top)
      modifies this`mem, this`frames
      ensures Valid() && Cleared(mem0, mem, root, roots, dfltFlags, at, v + LvlPages(lvl), top)
      ensures Accounted(mem0, frames0, mem, frames, root, at, v + LvlPages(lvl), top, free)
      ensures forall q, k :: 0 <= q < Total(roots) && 0 <= k <= lvl ==> At(k, q) == old(At(k, q))
      ensures forall q :: v + LvlPages(lvl) <= q < Total(roots) ==> TermAt(q) == old(TermAt(q))
    {
      hide Term, GetFrom, WellFormed, Cleared, Accounted, Block, Index, LvlPages, OwnFrames;
      AtTerm(lvl, v);
      BlockFrames(lvl, v, mem0, at, top);
      AccountedFree(mem0, frames0, mem, frames, root, at, v, LvlPages(lvl), top, free);
      ghost var mem1 := mem;
      if free {
        MemFreePpages(Pte(p).pfn, LvlPages(lvl));
      }
      PteSet(p, Invalid(0), lvl, v);
      forall q | v + LvlPages(lvl) <= q < Total(roots) ensures TermAt(q) == old(TermAt(q)) {
        BlockIsRun(lvl, v, q);
      }
      AccountedSame(mem0, frames0, mem1, mem, frames, root, at, v + LvlPages(lvl), top, free);
      ClearBlock(mem0, mem1, mem, root, roots, dfltFlags, at, v, top, lvl);
    }

    /** The frames of a leaf at the frontier are those its pages mapped to at the start. */
    lemma BlockFrames(lvl: nat, v: nat, mem0: Memory, at: nat, top: nat)
      requires Valid() && lvl < LVLS && at <= v && v + LvlPages(lvl) <= top <= Total(roots)
      requires v % LvlPages(lvl) == 0 && TermAt(v).pte.Leaf? && TermAt(v).lvl == lvl
      requires Cleared(mem0, mem, root, roots, dfltFlags, at, v, top)
      ensures Run(TermAt(v).pte.pfn, LvlPages(lvl)) == FramesOf(mem0, root, v, v + LvlPages(lvl))
    {
      hide Term, GetFrom, WellFormed;
      AtTerm(lvl, v);
      forall q | v <= q < v + LvlPages(lvl)
        ensures PageIn(mem0, root, q).Mapped? && PageIn(mem0, root, q).pfn == TermAt(v).pte.pfn + (q - v)
      {
        BlockIsRun(lvl, v, q);
        TermBlock(v, q);
      }
      FramesOfRun(mem0, root, v, LvlPages(lvl), TermAt(v).pte.pfn);
    }

    /** Splits the superpage at `v`, part of which lies outside the range. */
    method UnmapSplit(lvl: nat, v: nat, free: bool,
                      ghost mem0: Memory, ghost frames0: set<nat>, ghost at: nat, ghost top: nat) returns (r: Outcome)
      requires Valid() && at <= v < top <= Total(roots)
      requires TermAt(v).pte.Leaf? && TermAt(v).lvl == lvl < LVLS
      requires v > BlockBase(lvl, v) || top < BlockBase(lvl, v) + LvlPages(lvl)
      requires Cleared(mem0, mem, root, roots, dfltFlags, at, v, top)
      requires Accounted(mem0, frames0, mem, frames, root, at, v, top, free)
      modifies this`mem, this`frames, this`lab, this`refused
      ensures Valid() && old(refused) <= refused && (r.Done? || (r.NoTable? && refused > old(refused)))
      ensures r.Done? ==> lvl < LVLS - 1 && TermAt(v).lvl == lvl + 1 && TermAt(v).pte.Leaf?
      ensures Cleared(mem0, mem, root, roots, dfltFlags, at, v, top)
      ensures Accounted(mem0, frames0, mem, frames, root, at, v, top, free)
    {
      hide Term, GetFrom, WellFormed, Index, Cleared, Accounted, LvlPages, Span, Block;
      SplitLevel(lvl, v, top);
      ghost var mem1, lab1, frames1 := mem, lab, frames;
      r := MemExpandPte(v, lvl);
      AccountedTable(mem0, frames0, mem1, frames1, mem, frames, root, at, v, top, free);
      if r.Done? {
        SplitKeeps(mem0, mem1, mem, lab1, root, roots, dfltFlags, at, v, top, lvl);
      }
    }

    lemma SplitLevel(lvl: nat, v: nat, top: nat)
      requires lvl < LVLS && v < top
      requires v > BlockBase(lvl, v) || top < BlockBase(lvl, v) + LvlPages(lvl)
      ensures lvl < LVLS - 1
    {
    }

    /** Where mem_unmap stands between two tables: at an entry, or about to walk through a leaf. */
    ghost predicate AtFrontier(lvl: int, v: nat, mem0: Memory, at: nat, top: nat)
      reads this`mem
    {
      && 0 <= lvl < LVLS
      && (if At(lvl, v).Ptr? then FreeWay(mem0, root, at, v, top)
          else At(lvl, v).Wild? && Stuck(mem0, root, at, top, v))
    }

    lemma FrontierLeaf(mem0: Memory, at: nat, v: nat, q: nat, top: nat)
      requires at <= v <= q < top <= Total(roots)
      requires AllMapped(mem0, root, at, top) && Cleared(mem0, mem, root, roots, dfltFlags, at, v, top)
      ensures TermAt(q).pte.Leaf?
    {
      hide Term;
      assert Was(mem0, root, q).pte.Leaf? && Kept(mem0, mem, root, dfltFlags, at, top, q);
    }

    lemma BaseOfBlock(lvl: nat, v: nat)
      requires lvl < LVLS
      ensures v - v % LvlPages(lvl) == BlockBase(lvl, v)
    {
    }

    /** Past the leaf at `v`, mem_unmap stands at the next entry of the table or at its end. */
    lemma NextFrontier(lvl: nat, v: nat, mem0: Memory, at: nat, top: nat)
      requires Valid() && lvl < LVLS && at <= v && v + LvlPages(lvl) <= top <= Total(roots)
      requires v % LvlPages(lvl) == 0 && TermAt(v).lvl == lvl
      requires AllMapped(mem0, root, at, top) && Cleared(mem0, mem, root, roots, dfltFlags, at, v, top)
      requires FreeWay(mem0, root, at, v, top)
      ensures FreeWay(mem0, root, at, v + LvlPages(lvl) - 1, top)
      ensures v + LvlPages(lvl) < top ==>
                if Index(lvl, v) + 1 < TableSize(lvl, roots)
                then FreeWay(mem0, root, at, v + LvlPages(lvl), top)
                     && At(lvl, v + LvlPages(lvl)) == Ptr(At(lvl, v).tbl, Index(lvl, v) + 1)
                else AtFrontier(lvl - 1, v + LvlPages(lvl), mem0, at, top)
    {
      hide Term, GetFrom, WellFormed, Cleared, AllMapped, Stuck, FreeWay, Index, TableSize;
      var b := v + LvlPages(lvl);
      BlockIsRun(lvl, v, b - 1);
      TermBlock(v, b - 1);
      FreeWayStep(mem0, mem, root, roots, dfltFlags, at, v, top, lvl);
      AtTerm(lvl, v);
      if b < top {
        if Index(lvl, v) + 1 < TableSize(lvl, roots) {
          MidTable(lvl, v, roots);
          NextAt(lvl, v);
        } else {
          EndOfTable(lvl, v, roots);
          AtTerm(lvl - 1, b);
          FrontierLeaf(mem0, at, v, b, top);
          if b % 262144 != 0 && TermAt(b).lvl == 0 {
            TermBlock(b, v);
          }
        }
        if !Stuck(mem0, root, at, top, b) {
          FreeWayLonger(mem0, root, at, b, top);
        }
      }
    }

    /**
     * The inner loop of mem_unmap: clears leaves of one table until the range or the table
     * ends, a table entry turns up, or a leaf has to be split.
     */
    method UnmapEntries(p: PtePtr, lvl0: nat, v0: nat, top: nat, free: bool,
                        ghost mem0: Memory, ghost frames0: set<nat>, ghost at: nat)
      returns (r: Outcome, lvl: int, v: nat)
      requires Valid() && at <= v0 < top <= Total(roots) && lvl0 < LVLS
      requires p.Ptr? && p == At(lvl0, v0) && TermAt(v0).lvl == lvl0
      requires AllMapped(mem0, root, at, top) && Cleared(mem0, mem, root, roots, dfltFlags, at, v0, top)
      requires FreeWay(mem0, root, at, v0, top)
      requires Accounted(mem0, frames0, mem, frames, root, at, v0, top, free)
      requires free ==> OwnFrames(mem0, root, frames0, at, top)
      modifies this`mem, this`frames, this`lab, this`refused
      ensures Valid() && old(refused) <= refused && (r.Done? || (r.NoTable? && refused > old(refused)))
      ensures v0 <= v <= top && Cleared(mem0, mem, root, roots, dfltFlags, at, v, top)
      ensures Accounted(mem0, frames0, mem, frames, root, at, v, top, free)
      ensures r.Done? ==> v > v0 || lvl == lvl0 + 1
      ensures r.Done? ==> FreeWay(mem0, root, at, v - 1, top) && (v < top ==> AtFrontier(lvl, v, mem0, at, top))
    {
      hide Term, GetFrom, WellFormed, Index, Cleared, Accounted, Block, Span, BlockBase, FreeWay, OwnFrames, AllMapped,
        Stuck, LvlPages;
      lvl, v := lvl0, v0;
      var entry: nat, size := p.idx, LvlPages(lvl0);
      AtTerm(lvl0, v0);
      IndexInTable(lvl0, v0);
      FreeWayShorter(mem0, root, at, v0, top);
      while entry < TableSize(lvl0, roots) && v < top
        invariant Valid() && old(refused) <= refused && v0 <= v <= top && entry <= TableSize(lvl0, roots)
        invariant entry < TableSize(lvl0, roots) && v < top ==>
                    At(lvl0, v) == Ptr(p.tbl, entry) && FreeWay(mem0, root, at, v, top)
        invariant entry == TableSize(lvl0, roots) && v < top ==> AtFrontier(lvl0 - 1, v, mem0, at, top)
        invariant FreeWay(mem0, root, at, v - 1, top)
        invariant v == v0 ==> TermAt(v).lvl == lvl0 && entry < TableSize(lvl0, roots)
        invariant Cleared(mem0, mem, root, roots, dfltFlags, at, v, top)
        invariant Accounted(mem0, frames0, mem, frames, root, at, v, top, free)
      {
        AtTerm(lvl0, v);
        if Pte(Ptr(p.tbl, entry)).Table? {
          return Done, lvl0, v;
        }
        FrontierLeaf(mem0, at, v, v, top);
        BaseOfBlock(lvl0, v);
        var base := v - v % size;
        if v > base || top < base + size {
          r := UnmapSplit(lvl0, v, free, mem0, frames0, at, top);
          if r.Done? {
            AtTerm(lvl0 + 1, v);
          }
          return r, lvl0 + 1, v;
        }
        NextFrontier(lvl0, v, mem0, at, top);
        UnmapBlock(Ptr(p.tbl, entry), lvl0, v, free, mem0, frames0, at, top);
        entry, v := entry + 1, v + size;
      }
      return Done, if entry == TableSize(lvl0, roots) then lvl0 - 1 else lvl0, v;
    }

    /**
     * mem_unmap of a range whose pages are all mapped. It clears exactly the range, and with
     * `free` gives back exactly its frames, unless a root boundary inside the range stops it:
     * Done and WildWalk tell the two apart exactly. NoTable is a split without a free frame.
     */
    method MemUnmap(at: nat, n: nat, free: bool) returns (r: Outcome)
      requires Valid() && at + n <= Total(roots)
      requires AllMapped(mem, root, at, at + n)
      requires free ==> OwnFrames(mem, root, frames, at, at + n)
      modifies this`mem, this`frames, this`lab, this`refused
      ensures Valid() && (r.Done? || r.NoTable? || r.WildWalk?)
      ensures r.NoTable? ==> refused > old(refused)
      ensures r.Done? ==> !Blocked(old(mem), root, at, at + n)
      ensures r.WildWalk? ==> Blocked(old(mem), root, at, at + n)
      ensures r.Done? ==> forall q :: at <= q < at + n ==> Page(q) == Free(0)
      ensures KeptOutside(old(mem), mem, root, roots, dfltFlags, at, at + n) && old(mem.Keys) <= mem.Keys
      ensures r.Done? ==> forall q :: 0 <= q < Total(roots) && !(at <= q < at + n) ==>
                Page(q) == if Meets(old(TermAt(q)), q, at, at + n) then Reflag(old(Page(q)), dfltFlags) else old(Page(q))
      ensures r.Done? ==> frames == (old(frames) - (if free then FramesOf(old(mem), root, at, at + n) else {}))
                                    + (mem.Keys - old(mem.Keys))
    {
      hide Term, GetFrom, WellFormed, Index, Cleared, Accounted, Block, Span, BlockBase, FreeWay, OwnFrames, AllMapped,
        Stuck, LvlPages;
      ghost var mem0, lab0, frames0, top := mem, lab, frames, at + n;
      var vaddr, end := at, at + n;
      var lvl: int := 0;
      StartUnmap(at, top, free);
      while vaddr < end
        invariant Valid() && old(refused) <= refused && at <= vaddr <= top
        invariant vaddr < top ==> AtFrontier(lvl, vaddr, mem0, at, top)
        invariant FreeWay(mem0, root, at, vaddr - 1, top)
        invariant Cleared(mem0, mem, root, roots, dfltFlags, at, vaddr, top)
        invariant Accounted(mem0, frames0, mem, frames, root, at, vaddr, top, free)
        decreases end - vaddr, LVLS - lvl
      {
        FrontierLeaf(mem0, at, vaddr, vaddr, top);
        AtTerm(lvl, vaddr);
        var p := PtGetPte(lvl, vaddr);
        if p.Wild? {
          EndUnmap(mem0, frames0, at, vaddr, top, free);
          return WildWalk;
        }
        if Pte(p).Table? {
          AtTerm(lvl + 1, vaddr);
          lvl := lvl + 1;
        } else {
          r, lvl, vaddr := UnmapEntries(p, lvl, vaddr, end, free, mem0, frames0, at);
          if r.NoTable? {
            EndUnmap(mem0, frames0, at, vaddr, top, free);
            return;
          }
        }
      }
      EndUnmap(mem0, frames0, at, top, top, free);
      ExactUnmap(mem0, lab0, at, top);
      r := Done;
    }

    lemma StartUnmap(at: nat, top: nat, free: bool)
      requires Valid() && top <= Total(roots)
      requires free ==> OwnFrames(mem, root, frames, at, top)
      ensures Cleared(mem, mem, root, roots, dfltFlags, at, at, top) && FreeWay(mem, root, at, at - 1, top)
      ensures Accounted(mem, frames, mem, frames, root, at, at, top, free)
      ensures AtFrontier(0, at, mem, at, top)
    {
      hide Term;
    }

    lemma EndUnmap(mem0: Memory, frames0: set<nat>, at: nat, v: nat, top: nat, free: bool)
      requires Cleared(mem0, mem, root, roots, dfltFlags, at, v, top) && at <= v <= top
      requires Accounted(mem0, frames0, mem, frames, root, at, v, top, free)
      requires AllMapped(mem0, root, at, top)
      ensures FreeWay(mem0, root, at, top - 1, top) ==> !Blocked(mem0, root, at, top)
      ensures forall q :: at <= q < v ==> Page(q) == Free(0)
      ensures KeptOutside(mem0, mem, root, roots, dfltFlags, at, top) && mem0.Keys <= mem.Keys
      ensures v == top ==> frames == (frames0 - (if free then FramesOf(mem0, root, at, top) else {}))
                                     + (mem.Keys - mem0.Keys)
    {
      hide Term, Kept, FramesOf;
      forall q | at <= q < v ensures Page(q) == Free(0) {
        assert Was(mem, root, q).pte == Invalid(0);
      }
    }

    lemma ExactUnmap(mem0: Memory, lab0: map<nat, Label>, at: nat, top: nat)
      requires Valid() && WellFormed(mem0, lab0, root, roots) && at <= top <= Total(roots)
      requires AllMapped(mem0, root, at, top) && Cleared(mem0, mem, root, roots, dfltFlags, at, top, top)
      ensures forall q :: 0 <= q < Total(roots) && !(at <= q < top) ==>
                Page(q) == if Meets(Was(mem0, root, q), q, at, top) then Reflag(PageIn(mem0, root, q), dfltFlags)
                           else PageIn(mem0, root, q)
    {
      hide Term, WellFormed, Kept, Meets, PageOf;
      forall q | 0 <= q < Total(roots) && !(at <= q < top)
        ensures PageIn(mem, root, q) == if Meets(Was(mem0, root, q), q, at, top) then Reflag(PageIn(mem0, root, q), dfltFlags)
                                        else PageIn(mem0, root, q)
      {
        KeptExactly(mem0, mem, lab0, lab, root, roots, dfltFlags, at, top, q);
      }
    }

    // ----- mapping and unmapping

    /** Pages mapped to distinct frames that the pools handed out and that hold no table. */
    lemma SuppliedFrames(mem0: Memory, frames0: set<nat>, v: nat, n: nat, got: seq<nat>)
      requires Supplied(None, mem0, frames0, mem, frames, got) && |got| == n
      requires forall q :: v <= q < v + n ==> PageIn(mem, root, q).Mapped? && PageIn(mem, root, q).pfn == got[q - v]
      ensures AllMapped(mem, root, v, v + n) && OwnFrames(mem, root, frames, v, v + n)
      ensures FramesOf(mem, root, v, v + n) == FrameSet(got)
    {
      hide Term, FrameSet, FramesOf;
      forall f | f in FrameSet(got) ensures f in FramesOf(mem, root, v, v + n) {
        var k :| 0 <= k < |got| && got[k] == f;
        assert PageIn(mem, root, v + k).pfn == f;
      }
      forall q | v <= q < v + n ensures Was(mem, root, q).pte.Leaf? {
        assert PageIn(mem, root, q).Mapped?;
      }
      forall f | f in FramesOf(mem, root, v, v + n) ensures f in FrameSet(got) {
        var q :| v <= q < v + n && PageIn(mem, root, q).Mapped? && PageIn(mem, root, q).pfn == f;
        assert got[q - v] == f;
      }
    }

    /**
     * mem_map of fresh frames, then mem_unmap that gives them back: the pools end where they
     * began, but for the tables made on the way, and every other page maps where it did.
     */
    method MapUnmap(va: nat, n: nat, flags: nat) returns (mapped: Outcome, unmapped: Outcome)
      requires Valid() && va / PAGE_SIZE + n <= Total(roots)
      modifies this`mem, this`frames, this`lab, this`refused
      ensures Valid()
      ensures mapped.Done? && unmapped.Done? ==>
                var v := va / PAGE_SIZE;
                && old(mem.Keys) <= mem.Keys && frames == old(frames) + (mem.Keys - old(mem.Keys))
                && (forall q :: v <= q < v + n ==> Page(q) == Free(0))
                && (forall q :: 0 <= q < Total(roots) && !(v <= q < v + n) ==>
                      Page(q) == old(Page(q)) || Page(q) == Reflag(old(Page(q)), dfltFlags))
    {
      hide Term, GetFrom, WellFormed, PageOf, OwnFrames, FramesOf, Supplied, FrameSet;
      var v: nat := va / PAGE_SIZE;
      ghost var mem0, frames0 := mem, frames;
      ghost var got;
      mapped, got := MemMap(va, None, n, flags);
      unmapped := NoSection;
      if mapped.Done? {
        forall q | v <= q < v + n ensures PageIn(mem, root, q) == Mapped(got[q - v], flags) {
          assert Page(q) == Mapped(got[q - v], flags);
        }
        SuppliedFrames(mem0, frames0, v, n, got);
        ghost var mem1, frames1 := mem, frames;
        unmapped := MemUnmap(v, n, true);
        if unmapped.Done? {
          SpentBack(mem0, frames0, mem1, frames1, got);
        }
      }
    }

    lemma SpentBack(mem0: Memory, frames0: set<nat>, mem1: Memory, frames1: set<nat>, got: seq<nat>)
      requires Supplied(None, mem0, frames0, mem1, frames1, got) && mem1.Keys <= mem.Keys
      requires frames == (frames1 - FrameSet(got)) + (mem.Keys - mem1.Keys)
      ensures mem0.Keys <= mem.Keys && frames == frames0 + (mem.Keys - mem0.Keys)
    {
      hide FrameSet, Obtained;
    }

    // ----- reserving virtual pages

    ghost predicate HasBusy(s: nat, n: nat)
      reads this`mem
    {
      BusyIn(mem, root, roots, s, n)
    }

    ghost predicate BlockStart(addr: nat)
      reads this`mem
    {
      StartsBlock(mem, root, roots, addr)
    }

    /** The block after the one that starts at `addr` starts where that one ends. */
    lemma EdgeStart(addr: nat)
      requires Valid() && addr < Total(roots) && BlockStart(addr)
      ensures BlockStart(addr + LvlPages(TermAt(addr).lvl))
    {
      hide Term, GetFrom, WellFormed, Index;
      var t, next := TermAt(addr), addr + LvlPages(TermAt(addr).lvl);
      AtTerm(0, addr);
      BaseOfBlock(t.lvl, addr);
      if next < Total(roots) {
        AtTerm(0, next);
        BlockIsRun(t.lvl, addr, next);
        BlockIsRun(t.lvl, addr, next - 1);
        TermBlock(addr, next - 1);
        BlockEdge(TermAt(next).lvl, next);
        if Block(TermAt(next).lvl, next - 1) == Block(TermAt(next).lvl, next) {
          TermBlock(next, next - 1);
        }
      }
    }

    /** lo .. hi - 1 is a union of whole blocks of free, unreserved entries. */
    ghost predicate Tiled(lo: nat, hi: nat)
      reads this`mem
    {
      forall q :: lo <= q < hi ==>
        && !Taken(TermAt(q).pte) && TermAt(q).pte.Invalid?
        && lo <= BlockBase(TermAt(q).lvl, q)
        && BlockBase(TermAt(q).lvl, q) + LvlPages(TermAt(q).lvl) <= hi
    }

    /** A run that is not empty is followed by the start of a block. */
    ghost predicate Anchored(addr: nat, count: nat)
      reads this`mem
    {
      && count <= addr && Tiled(addr - count, addr) && (count > 0 ==> addr <= Total(roots))
      && (count > 0 && addr < Total(roots) ==> addr % LvlPages(TermAt(addr).lvl) == 0)
    }

    /** Extends the run by the free block at `addr`. */
    lemma AnchorBlock(addr: nat, count: nat)
      requires Valid() && addr < Total(roots) && Anchored(addr, count)
      requires TermAt(addr).pte.Invalid? && !Taken(TermAt(addr).pte) && addr % LvlPages(TermAt(addr).lvl) == 0
      ensures Anchored(addr + LvlPages(TermAt(addr).lvl), count + LvlPages(TermAt(addr).lvl))
    {
      hide Term, GetFrom, WellFormed, Index;
      var t, next := TermAt(addr), addr + LvlPages(TermAt(addr).lvl);
      AtTerm(0, addr);
      BaseOfBlock(t.lvl, addr);
      BlockFits(t.lvl, addr, roots);
      forall q | addr <= q < next
        ensures q < Total(roots) && TermAt(q) == t && BlockBase(t.lvl, q) == addr
      {
        BlockIsRun(t.lvl, addr, q);
        assert Block(t.lvl, q) == Block(t.lvl, addr);
        TermBlock(addr, q);
      }
      EdgeStart(addr);
    }

    lemma AnchorNone(addr: nat)
      ensures Anchored(addr, 0)
    {
    }

    /** A table for the free block at `addr`, as the search makes it: no page changes. */
    method VTable(p: PtePtr, lvl: nat, addr: nat, count: nat) returns (ok: bool)
      requires Valid() && lvl < LVLS - 1 && addr < Total(roots) && Anchored(addr, count)
      requires p.Ptr? && p == At(lvl, addr) && InMem(p) && Pte(p).Invalid? && TermAt(addr) == Terminal(Pte(p), lvl)
      modifies this`mem, this`frames, this`lab, this`refused
      ensures Valid() && old(frames) <= frames && old(refused) <= refused
      ensures forall q :: 0 <= q < Total(roots) ==> Page(q) == old(Page(q))
      ensures Anchored(addr, count) && (old(BlockStart(addr)) ==> BlockStart(addr))
      ensures !ok ==> refused > old(refused)
      ensures ok ==> At(lvl + 1, addr).Ptr? && TermAt(addr).lvl == lvl + 1 && InMem(p) && Pte(p).Table?
      ensures ok ==> forall q :: 0 <= q < Total(roots) ==>
                if Block(lvl, q) == Block(lvl, addr) then Was(mem, root, q).lvl == lvl + 1
                else Was(mem, root, q) == Was(old(mem), root, q)
      ensures At(lvl, addr) == p
    {
      hide Term, GetFrom, WellFormed, Index;
      var pt := MemAllocPt(p, lvl, addr);
      forall q | addr - count <= q < addr ensures TermAt(q) == old(TermAt(q)) {
        BlockIsRun(lvl, addr, q);
      }
      FinerAligned(lvl, addr);
      ok := pt.Some?;
      if ok {
        forall q | 0 <= q < Total(roots)
          ensures if Block(lvl, q) == Block(lvl, addr) then Was(mem, root, q).lvl == lvl + 1
                  else Was(mem, root, q) == Was(old(mem), root, q)
        {
          assert TermAt(q) == Was(mem, root, q) && old(TermAt(q)) == Was(old(mem), root, q);
        }
      }
    }

    lemma FinerAligned(lvl: nat, addr: nat)
      ensures addr % LvlPages(lvl) == 0 ==> addr % LvlPages(lvl + 1) == 0
    {
      if lvl == 0 && addr % 262144 == 0 {
        DivModUnique(addr, 512, addr / 262144 * 512, 0);
      }
    }

    /** pte_allocable: the block fits the request, or there is no finer block. */
    predicate PteAllocable(e: Pte, lvl: nat, left: nat, addr: nat): (r: bool)
      requires lvl < LVLS && left > 0
      ensures r ==> addr % LvlPages(lvl) == 0 && LvlPages(lvl) <= left
    {
      lvl == LVLS - 1 || (e.Invalid? && LvlPages(lvl) <= left && addr % LvlPages(lvl) == 0)
    }

    /** What a search from page `first` of the section that ends at byte `end` has come to. */
    ghost predicate Scans(c: Search, addr: nat, count: nat)
      reads this`mem
    {
      && WellFormed(c.mem0, c.lab0, root, roots)
      && Scanning(c.mem0, mem, root, roots, c.first, c.n, c.end, addr, count)
    }

    ghost predicate Tested(c: Search, addr: nat) {
      Test(c.mem0, root, roots, c.first, c.n, addr)
    }

    ghost predicate Halts(c: Search, addr: nat) {
      Stop(c.mem0, root, roots, c.first, c.n, c.end, addr)
    }

    ghost predicate InTable(c: Search, lvl: nat, addr0: nat, addr: nat) {
      Inside(c.mem0, root, roots, c.first, c.n, c.end, lvl, addr0, addr)
    }

    /** The search moves past a busy or a fitting entry of its table. */
    lemma ScanEntry(c: Search, lvl: nat, addr0: nat, addr: nat, count: nat)
      requires Valid() && Scans(c, addr, count) && InTable(c, lvl, addr0, addr) && addr0 <= addr < Total(roots) && count < c.n
      requires At(lvl, addr).Ptr? && TermAt(addr).lvl == lvl < LVLS
      requires Taken(TermAt(addr).pte) || PteAllocable(TermAt(addr).pte, lvl, c.n - count, addr)
      ensures var next := addr + LvlPages(lvl);
              && Scans(c, next, if Taken(TermAt(addr).pte) then 0 else count + LvlPages(lvl))
              && (if Index(lvl, addr) + 1 < TableSize(lvl, roots) then InTable(c, lvl, addr0, next) else Tested(c, next))
    {
      hide Term, GetFrom, WellFormed, Index, EntryLvl, Inside, Stop, Test;
      AtTerm(0, addr);
      EntryBusy(c, addr, count);
      if BusyAt(c.mem0, root, addr) {
        assert c.first <= addr;
        EdgeStart(addr);
        InsideBusy(c, lvl, addr0, addr, count);
        StepBusy(c.mem0, mem, c.lab0, lab, root, roots, c.first, c.n, c.end, addr, count);
      } else {
        TakenThere(c.mem0, mem, root, roots, c.first, c.n, c.end, addr, count);
        EdgeStart(addr);
        InsideNoStop(c.mem0, root, roots, c.first, c.n, c.end, lvl, addr0, addr);
        StepTake(c.mem0, mem, c.lab0, lab, root, roots, c.first, c.n, c.end, addr, count);
      }
      AfterEntry(c.mem0, root, roots, c.first, c.n, c.end, lvl, addr0, addr);
    }

    lemma EntryBusy(c: Search, addr: nat, count: nat)
      requires Valid() && Scans(c, addr, count) && addr < Total(roots)
      ensures BusyAt(c.mem0, root, addr) <==> Taken(TermAt(addr).pte)
    {
      hide Term, GetFrom, WellFormed, Index, EntryLvl, Stop;
      AtTerm(0, addr);
      assert PageIn(mem, root, addr) == PageIn(c.mem0, root, addr);
    }

    lemma InsideBusy(c: Search, lvl: nat, addr0: nat, addr: nat, count: nat)
      requires Scans(c, addr, count) && InTable(c, lvl, addr0, addr) && addr < Total(roots)
      requires BusyAt(c.mem0, root, addr) && TermAt(addr).lvl == lvl
      ensures !Halts(c, addr)
    {
      hide Term, WellFormed, Index, Stop, Test, Inside, BusyAt;
      assert EntryLvl(c.mem0, root, c.first, c.n, addr) == lvl;
      InsideNoStop(c.mem0, root, roots, c.first, c.n, c.end, lvl, addr0, addr);
    }

    /** The search goes down to a table it has found or made. */
    lemma ScanDown(c: Search, lvl: nat, addr0: nat, addr: nat, count: nat)
      requires Valid() && Scans(c, addr, count) && InTable(c, lvl, addr0, addr) && addr < Total(roots)
      requires TermAt(addr).lvl > lvl
      ensures Tested(c, addr)
    {
      hide Term, WellFormed, Index, Stop, Test, Inside, EntryLvl;
      InsideTurn(c.mem0, root, roots, c.first, c.n, c.end, lvl, addr0, addr);
    }

    // ----- the same, for a search that may still be inside a busy block

    /** Where the search stands: on its way out of busy blocks, or past it. */
    ghost predicate Stage(c: Search, addr: nat, count: nat)
      reads this`mem
    {
      && WellFormed(c.mem0, c.lab0, root, roots) && c.from <= addr && c.first == Landing(c.mem0, root, roots, c.from)
      && (if Buried(c.mem0, root, roots, addr) then
            && count == 0 && SamePages(c.mem0, mem, root, roots) && Landing(c.mem0, root, roots, addr) == c.first
            && (forall q :: addr <= q < Total(roots) ==> Was(mem, root, q) == Was(c.mem0, root, q))
          else Scans(c, addr, count) && !SkipStops(c.mem0, root, roots, c.n, c.end, c.from))
    }

    /** The search is about to test the room at `addr`. */
    ghost predicate Due(c: Search, addr: nat, count: nat) {
      if Buried(c.mem0, root, roots, addr)
      then addr == c.from || SkipDue(c.mem0, root, roots, c.n, c.end, c.from, addr)
      else count < c.n ==> Tested(c, addr)
    }

    /** The search is about to look at the entry of `addr` in a table of level `lvl`. */
    ghost predicate Inner(c: Search, lvl: nat, addr0: nat, addr: nat) {
      if Buried(c.mem0, root, roots, addr)
      then InSkip(c.mem0, root, roots, c.n, c.end, c.from, lvl, addr)
      else InTable(c, lvl, addr0, addr)
           || (Tested(c, addr) && c.first <= addr && EntryLvl(c.mem0, root, c.first, c.n, addr) != lvl)
    }

    lemma StageStart(c: Search)
      requires Valid() && c.mem0 == mem && c.lab0 == lab && c.first == Landing(mem, root, roots, c.from)
      ensures Stage(c, c.from, 0) && Due(c, c.from, 0)
    {
      hide Term, GetFrom, WellFormed, Scanning, Buried, Turn, PageIn;
      forall q | 0 <= q < Total(roots) ensures Was(mem, root, q).lvl < LVLS {
        AtTerm(0, q);
        assert TermAt(q) == Was(mem, root, q);
      }
      if !Buried(mem, root, roots, c.from) {
        ScanStart(mem, mem, root, roots, c.first, c.n, c.end);
      }
    }

    lemma StageFirst(c: Search, lvl: nat, addr: nat, count: nat)
      requires Stage(c, addr, count) && Due(c, addr, count) && count < c.n && !Short(c.end, addr, c.n)
      ensures Inner(c, lvl, addr, addr)
    {
      hide Term, WellFormed, Scanning, Buried, Test, Short, SkipStops;
    }

    lemma StageBusy(c: Search, addr: nat, count: nat)
      requires Valid() && Stage(c, addr, count) && addr < Total(roots)
      ensures BusyAt(c.mem0, root, addr) <==> Taken(TermAt(addr).pte)
      ensures !Taken(TermAt(addr).pte) ==> Scans(c, addr, count) && !Buried(c.mem0, root, roots, addr)
      ensures Was(c.mem0, root, addr).lvl <= TermAt(addr).lvl
      ensures Buried(c.mem0, root, roots, addr) ==> Was(c.mem0, root, addr) == TermAt(addr)
    {
      hide Term, GetFrom, WellFormed, EntryLvl, Landing, SkipStops;
      AtTerm(0, addr);
      assert PageIn(mem, root, addr) == PageIn(c.mem0, root, addr);
    }

    /** The search moves past a busy or a fitting entry of its table. */
    lemma StageEntry(c: Search, lvl: nat, addr0: nat, addr: nat, count: nat)
      requires Valid() && Stage(c, addr, count) && Inner(c, lvl, addr0, addr) && addr0 <= addr < Total(roots) && count < c.n
      requires At(lvl, addr).Ptr? && TermAt(addr).lvl == lvl < LVLS
      requires Taken(TermAt(addr).pte) || PteAllocable(TermAt(addr).pte, lvl, c.n - count, addr)
      ensures var next, count' := addr + LvlPages(lvl), if Taken(TermAt(addr).pte) then 0 else count + LvlPages(lvl);
              && Stage(c, next, count')
              && (if Index(lvl, addr) + 1 < TableSize(lvl, roots) then Inner(c, lvl, addr0, next) else Due(c, next, count'))
    {
      hide Term, GetFrom, WellFormed, Index, EntryLvl, Inside, Stop, Test, Landing, SkipStops, Buried, InSkip, SkipDue, Scanning,
        BusyAt, TableSize, LvlPages;
      StageBusy(c, addr, count);
      if Buried(c.mem0, root, roots, addr) {
        BuriedEntry(c, lvl, addr0, addr);
      } else {
        EntryThere(c, lvl, addr, count);
        ScanEntry(c, lvl, addr0, addr, count);
        NotBuriedNext(c, addr, addr + LvlPages(lvl), if Taken(TermAt(addr).pte) then 0 else count + LvlPages(lvl));
      }
    }

    lemma EntryThere(c: Search, lvl: nat, addr: nat, count: nat)
      requires Valid() && Scans(c, addr, count) && addr < Total(roots) && count < c.n && TermAt(addr).lvl == lvl < LVLS
      requires Taken(TermAt(addr).pte) || PteAllocable(TermAt(addr).pte, lvl, c.n - count, addr)
      ensures c.first <= addr && EntryLvl(c.mem0, root, c.first, c.n, addr) == lvl
    {
      hide Term, GetFrom, WellFormed, Index, TakeLvl, BusyAt;
      AtTerm(0, addr);
      EntryBusy(c, addr, count);
      if !BusyAt(c.mem0, root, addr) {
        TakenThere(c.mem0, mem, root, roots, c.first, c.n, c.end, addr, count);
      }
    }

    /** Past the first step the search stands at starts of blocks. */
    lemma NotBuriedNext(c: Search, addr: nat, next: nat, count: nat)
      requires Valid() && Scans(c, next, count) && c.first <= addr < next
      ensures !Buried(c.mem0, root, roots, next)
    {
      hide Term, GetFrom, WellFormed, PageIn, Busy;
    }

    lemma BuriedEntry(c: Search, lvl: nat, addr0: nat, addr: nat)
      requires Valid() && Stage(c, addr, 0) && Inner(c, lvl, addr0, addr) && addr < Total(roots)
      requires Buried(c.mem0, root, roots, addr) && TermAt(addr).lvl == lvl < LVLS
      ensures var next := addr + LvlPages(lvl);
              && Stage(c, next, 0)
              && (if Index(lvl, addr) + 1 < TableSize(lvl, roots) then Inner(c, lvl, addr0, next) else Due(c, next, 0))
    {
      hide Term, GetFrom, WellFormed, Index, EntryLvl, SkipStops, InSkip, SkipDue, Scanning, TableSize, Landing, Buried, LvlPages;
      var next := addr + LvlPages(lvl);
      assert Was(c.mem0, root, addr) == TermAt(addr);
      SkipStep(c.mem0, root, roots, c.n, c.end, c.from, lvl, addr);
      if !Buried(c.mem0, root, roots, next) {
        Landed(c, next);
        if Index(lvl, addr) + 1 < TableSize(lvl, roots) {
          NextIn(lvl, addr);
          LandedBelow(c.mem0, root, roots, c.n, lvl, addr);
        }
      }
    }

    lemma NextIn(lvl: nat, addr: nat)
      requires lvl < LVLS && addr < Total(roots) && Index(lvl, addr) + 1 < TableSize(lvl, roots)
      ensures addr + LvlPages(lvl) < Total(roots)
    {
      NextEntry(lvl, addr, roots);
    }

    /** Out of the busy blocks the search begins. */
    lemma Landed(c: Search, next: nat)
      requires Valid() && WellFormed(c.mem0, c.lab0, root, roots) && SamePages(c.mem0, mem, root, roots)
      requires forall q :: next <= q < Total(roots) ==> Was(mem, root, q) == Was(c.mem0, root, q)
      requires !Buried(c.mem0, root, roots, next) && Landing(c.mem0, root, roots, next) == c.first
      ensures c.first == next && Scans(c, next, 0) && Tested(c, next)
    {
      hide Term, GetFrom, WellFormed, Scanning, Buried, Turn, SamePages;
      forall q | next <= q < Total(roots) ensures Was(c.mem0, root, q).lvl < LVLS {
        AtTerm(0, q);
        assert TermAt(q) == Was(mem, root, q);
      }
      ScanStart(c.mem0, mem, root, roots, c.first, c.n, c.end);
    }

    /** The search goes down to a table it has found or made. */
    lemma StageDown(c: Search, lvl: nat, addr0: nat, addr: nat, count: nat)
      requires Valid() && Stage(c, addr, count) && Inner(c, lvl, addr0, addr) && addr < Total(roots) && TermAt(addr).lvl > lvl
      ensures Due(c, addr, count)
    {
      hide Term, WellFormed, Index, Stop, Test, Inside, EntryLvl, Landing, SkipStops, Scanning, Buried;
      StageBusy(c, addr, count);
      if !Buried(c.mem0, root, roots, addr) && InTable(c, lvl, addr0, addr) {
        ScanDown(c, lvl, addr0, addr, count);
      }
    }

    /** A table for the entry at `addr`, which does not fit. */
    method ScanTable(p: PtePtr, lvl: nat, addr: nat, count: nat, ghost c: Search) returns (ok: bool)
      requires Valid() && lvl < LVLS - 1 && addr < Total(roots) && Anchored(addr, count) && count < c.n
      requires p.Ptr? && p == At(lvl, addr) && InMem(p) && Pte(p).Invalid? && TermAt(addr) == Terminal(Pte(p), lvl)
      requires !Taken(Pte(p)) && !PteAllocable(Pte(p), lvl, c.n - count, addr)
      requires Stage(c, addr, count)
      modifies this`mem, this`frames, this`lab, this`refused
      ensures Valid() && old(frames) <= frames && old(refused) <= refused
      ensures forall q :: 0 <= q < Total(roots) ==> Page(q) == old(Page(q))
      ensures Anchored(addr, count)
      ensures !ok ==> refused > old(refused)
      ensures ok ==> At(lvl + 1, addr).Ptr? && TermAt(addr).lvl == lvl + 1 && InMem(p) && Pte(p).Table?
      ensures At(lvl, addr) == p
      ensures ok ==> Stage(c, addr, count)
    {
      hide Term, GetFrom, WellFormed, Index, EntryLvl, Scanning, Landing, SkipStops, Buried;
      ghost var mem1, lab1 := mem, lab;
      StageBusy(c, addr, count);
      TakenThere(c.mem0, mem, root, roots, c.first, c.n, c.end, addr, count);
      WholeBlock(lvl, addr);
      ok := VTable(p, lvl, addr, count);
      if ok {
        forall q | 0 <= q < Total(roots) ensures PageIn(mem, root, q) == PageIn(mem1, root, q) {
          assert Page(q) == old(Page(q)) && old(Page(q)) == PageIn(mem1, root, q);
        }
        StepTable(c.mem0, mem1, mem, c.lab0, lab1, root, roots, c.first, c.n, c.end, addr, count, lvl);
      }
    }

    /**
     * The inner loop of mem_alloc_vpage over the entries of one table. Base stands for
     * carrying on; `count` pages before `addr` are the run found so far.
     */
    method VScan(lvl0: nat, addr0: nat, count0: nat, fixed: bool, n: nat, ghost c: Search)
      returns (st: VPage, lvl: nat, addr: nat, count: nat)
      requires Valid() && lvl0 < LVLS && addr0 < Total(roots) && At(lvl0, addr0).Ptr?
      requires count0 < n == c.n && Anchored(addr0, count0)
      requires Stage(c, addr0, count0) && Due(c, addr0, count0) && !Short(c.end, addr0, n)
      modifies this`mem, this`frames, this`lab, this`refused
      ensures Valid() && old(frames) <= frames && old(refused) <= refused
      ensures forall q :: 0 <= q < Total(roots) ==> Page(q) == old(Page(q))
      ensures st.Base? || st.NoTables? || st.NoSpace?
      ensures st.NoTables? ==> refused > old(refused)
      ensures st.NoSpace? ==> fixed && addr0 <= addr < addr0 - count0 + n && addr < Total(roots) && Busy(Page(addr))
      ensures st.Base? ==> lvl < LVLS && count <= n && Anchored(addr, count)
      ensures st.Base? ==> (lvl == 0 || (addr < Total(roots) && At(lvl, addr).Ptr?))
      ensures st.Base? ==> addr > addr0 || (addr == addr0 && lvl > lvl0) || count == n
      ensures st.Base? ==> addr >= addr0 && (addr == addr0 ==> count == count0)
      ensures st.Base? && fixed ==> addr - count == addr0 - count0
      ensures st.Base? && fixed && BusyAt(c.mem0, root, addr0) ==> addr == addr0
      ensures st.Base? ==> Stage(c, addr, count) && Due(c, addr, count)
    {
      hide Term, GetFrom, WellFormed, Index, LvlPages, TableSize, PageOf, Tiled, Anchored, Busy, BlockStart, Stage, Due, Inner,
        BusyAt, Short;
      var p := PtGetPte(lvl0, addr0);
      var entry := p.idx;
      lvl, addr, count := lvl0, addr0, count0;
      IndexInTable(lvl0, addr0);
      StageFirst(c, lvl0, addr0, count0);
      while entry < TableSize(lvl0, roots) && count < n
        invariant Valid() && old(frames) <= frames && old(refused) <= refused && entry <= TableSize(lvl0, roots)
        invariant forall q :: 0 <= q < Total(roots) ==> Page(q) == old(Page(q))
        invariant addr0 <= addr && count <= n && Anchored(addr, count) && (addr == addr0 ==> count == count0)
        invariant entry < TableSize(lvl0, roots) ==> addr < Total(roots) && At(lvl0, addr) == Ptr(p.tbl, entry)
                                                     && Index(lvl0, addr) == entry
        invariant fixed ==> addr - count == addr0 - count0
        invariant entry == TableSize(lvl0, roots) ==> addr > addr0
        invariant Stage(c, addr, count)
        invariant if entry < TableSize(lvl0, roots) then Inner(c, lvl0, addr0, addr) else Due(c, addr, count)
        invariant fixed && BusyAt(c.mem0, root, addr0) ==> addr == addr0
        decreases TableSize(lvl0, roots) - entry
      {
        AtTerm(lvl0, addr);
        StageBusy(c, addr, count);
        var q := Ptr(p.tbl, entry);
        if Taken(Pte(q)) {
          if fixed {
            TakenBusy(addr);
            return NoSpace, lvl, addr, count;
          }
        } else if Pte(q).Invalid? && !PteAllocable(Pte(q), lvl0, n - count, addr) {
          var ok := ScanTable(q, lvl0, addr, count, c);
          if !ok {
            return NoTables, lvl, addr, count;
          }
        }
        if Pte(q).Table? {
          AtTerm(lvl0 + 1, addr);
          StageDown(c, lvl0, addr0, addr, count);
          return Base(0), lvl0 + 1, addr, count;
        }
        StageEntry(c, lvl0, addr0, addr, count);
        if Taken(Pte(q)) {
          count := 0;
          AnchorNone(addr + LvlPages(lvl0));
        } else {
          AnchorBlock(addr, count);
          count := count + LvlPages(lvl0);
        }
        if entry + 1 < TableSize(lvl0, roots) {
          NextAt(lvl0, addr);
        }
        addr, entry := addr + LvlPages(lvl0), entry + 1;
      }
      if count == n {
        DueFull(c, addr);
      }
      return Base(0), 0, addr, count;
    }

    lemma DueFull(c: Search, addr: nat)
      requires c.n > 0 && Stage(c, addr, c.n)
      ensures Due(c, addr, c.n)
    {
      hide WellFormed, Scanning, Buried, Landing, SkipStops;
    }

    lemma TakenBusy(addr: nat)
      requires Taken(TermAt(addr).pte)
      ensures Busy(Page(addr))
    {
      hide Term;
    }

    /** After the first block of a tiled range the rest is tiled. */
    lemma TiledRest(lo: nat, hi: nat)
      requires Valid() && lo < hi <= Total(roots) && Tiled(lo, hi)
      ensures TermAt(lo).lvl < LVLS && BlockBase(TermAt(lo).lvl, lo) == lo
      ensures lo + LvlPages(TermAt(lo).lvl) <= hi && Tiled(lo + LvlPages(TermAt(lo).lvl), hi)
    {
      hide Term, GetFrom, WellFormed, Index;
      var t := TermAt(lo);
      AtTerm(0, lo);
      BlockFits(t.lvl, lo, roots);
      var next := lo + LvlPages(t.lvl);
      forall q | next <= q < hi ensures next <= BlockBase(TermAt(q).lvl, q) {
        AtTerm(0, q);
        BlockFits(TermAt(q).lvl, q, roots);
        if BlockBase(TermAt(q).lvl, q) < next {
          BlockIsRun(TermAt(q).lvl, BlockBase(TermAt(q).lvl, q), next - 1);
          BlockIsRun(TermAt(q).lvl, BlockBase(TermAt(q).lvl, q), q);
          TermBlock(q, next - 1);
          BlockIsRun(t.lvl, lo, next - 1);
          TermBlock(lo, next - 1);
          BlockIsRun(t.lvl, lo, q);
        }
      }
    }

    /** The descent of the reservation loop: the first level whose entry is not valid. */
    method VFirstInvalid(addr: nat) returns (lvl: nat, p: PtePtr)
      requires Valid() && addr < Total(roots) && TermAt(addr).pte.Invalid?
      ensures lvl == TermAt(addr).lvl < LVLS && p == At(lvl, addr) && p.Ptr?
    {
      hide Term, GetFrom, WellFormed;
      lvl := 0;
      AtTerm(0, addr);
      while lvl < LVLS
        invariant lvl <= TermAt(addr).lvl
      {
        AtTerm(lvl, addr);
        p := PtGetPte(lvl, addr);
        if Pte(p).Invalid? {
          break;
        }
        lvl := lvl + 1;
      }
    }

    /** The reservation loop of mem_alloc_vpage: block by block over a free run. */
    method VReserve(vpage: nat, n: nat)
      requires Valid() && vpage + n <= Total(roots) && Tiled(vpage, vpage + n)
      modifies this`mem
      ensures Valid()
      ensures forall q :: 0 <= q < Total(roots) ==>
                Page(q) == if vpage <= q < vpage + n then Free(RSW_RSRV) else old(Page(q))
    {
      hide Term, GetFrom, WellFormed, Index, LvlPages;
      var count, addr := 0, vpage;
      while count < n
        invariant Valid() && count <= n && addr == vpage + count && Tiled(addr, vpage + n)
        invariant forall q :: 0 <= q < Total(roots) ==>
                    Page(q) == if vpage <= q < addr then Free(RSW_RSRV) else old(Page(q))
      {
        TiledRest(addr, vpage + n);
        BlockFits(TermAt(addr).lvl, addr, roots);
        var lvl, p := VFirstInvalid(addr);
        label L:
        PteSet(p, Invalid(RSW_RSRV), lvl, addr);
        forall q | 0 <= q < Total(roots)
          ensures TermAt(q)
                  == if addr <= q < addr + LvlPages(lvl) then Terminal(Invalid(RSW_RSRV), lvl) else old@L(TermAt(q))
          ensures Page(q) == if addr <= q < addr + LvlPages(lvl) then Free(RSW_RSRV) else old@L(Page(q))
        {
          BlockIsRun(lvl, addr, q);
        }
        count, addr := count + LvlPages(lvl), addr + LvlPages(lvl);
      }
    }

    /** The first address of the search. */
    function SearchFrom(section: nat, at: Option<nat>): nat
      requires section < |sections|
    {
      if at.Some? then at.value else sections[section].beg
    }

    ghost predicate Searchable(section: nat, at: Option<nat>, n: nat)
      requires section < |sections|
    {
      && n > 0 && SearchFrom(section, at) % PAGE_SIZE == 0 && SearchFrom(section, at) <= sections[section].end
      && (at.Some? ==> IsSection(section, at.value))
    }

    /**
     * mem_alloc_vpage: finds `n` free pages from `at`, or from the start of the section, and
     * reserves them. Whatever the outcome, no other page changes.
     */
    method MemAllocVpage(section: nat, at: Option<nat>, n: nat) returns (r: VPage)
      requires Valid() && section < |sections|
      modifies this`mem, this`frames, this`lab, this`refused
      ensures Valid() && old(frames) <= frames && old(refused) <= refused
      ensures r.NoTables? ==> refused > old(refused)
      ensures !Searchable(section, at, n) ==> r.NoSpace?
      ensures r.Base? ==> 0 < n && r.vpn + n <= Total(roots)
      ensures r.Base? ==> forall q :: r.vpn <= q < r.vpn + n ==> old(Page(q)).Free? && old(Page(q)) != Free(RSW_RSRV)
      ensures forall q :: 0 <= q < Total(roots) ==>
                Page(q) == if r.Base? && r.vpn <= q < r.vpn + n then Free(RSW_RSRV) else old(Page(q))
      ensures var first, end := SearchFrom(section, at) / PAGE_SIZE, sections[section].end;
              Searchable(section, at, n) && !r.NoTables? ==>
                && (at.Some? && first + n <= Total(roots) ==>
                      (r.Base? <==> !old(HasBusy(first, n)) && !GivesUp(old(mem), root, roots, first, n, end)))
                && (at.Some? && r.Astray? ==> first + n > Total(roots))
                && (at.Some? && r.Base? ==> r.vpn == first && first + n <= (end + 1) / PAGE_SIZE)
                && (at.None? ==>
                      var landing := Landing(old(mem), root, roots, first);
                      && (r.NoSpace? <==> GivesUpFrom(old(mem), root, roots, first, n, end))
                      && (r.Base? ==> FirstFit(old(mem), root, roots, landing, n, r.vpn)
                                      && (r.vpn + n <= (end + 1) / PAGE_SIZE <==>
                                            exists s: nat :: landing <= s && s + n <= (end + 1) / PAGE_SIZE
                                                             && !BusyIn(old(mem), root, roots, s, n)))
                      && (r.Astray? ==> NoRunBefore(old(mem), root, roots, landing, n, Total(roots))))
    {
      hide Term, GetFrom, WellFormed, LvlPages, PageOf, Busy, BusyIn, BusyAt, GivesUp, GivesUpFrom, FirstFit, NoRunBefore, Short,
        Tiled, Landing;
      var start := sections[section].beg;
      if at.Some? {
        var sec := MemFindSec(at.value);
        if sec != Some(section) {
          return NoSpace;
        }
        start := at.value;
      }
      var top := sections[section].end;
      if start > top || start % PAGE_SIZE != 0 || n == 0 {
        return NoSpace;
      }
      ghost var c := Search(mem, lab, start / PAGE_SIZE, Landing(mem, root, roots, start / PAGE_SIZE), n, top);
      r := VSearch(start / PAGE_SIZE, n, top, at.Some?, c);
      if r.Base? {
        RoomIn(start / PAGE_SIZE, n, section);
        FirstFitInside(c.mem0, root, roots, c.first, n, r.vpn, (top + 1) / PAGE_SIZE);
        NotBusyRun(c, r.vpn);
        forall q | r.vpn <= q < r.vpn + n ensures old(Page(q)).Free? && old(Page(q)) != Free(RSW_RSRV) {
          assert old(Page(q)) == PageIn(c.mem0, root, q);
        }
        VReserve(r.vpn, n);
      }
    }

    /** The loops of mem_alloc_vpage that look for a run; Base is the run found. */
    method VSearch(from: nat, n: nat, top: nat, fixed: bool, ghost c: Search) returns (st: VPage)
      requires Valid() && n > 0 && c == Search(mem, lab, from, Landing(mem, root, roots, from), n, top)
      modifies this`mem, this`frames, this`lab, this`refused
      ensures Valid() && old(frames) <= frames && old(refused) <= refused
      ensures forall q :: 0 <= q < Total(roots) ==> Page(q) == old(Page(q))
      ensures st.NoTables? ==> refused > old(refused)
      ensures st.Base? ==> st.vpn + n <= Total(roots) && Tiled(st.vpn, st.vpn + n) && !Short(top, from, n)
      ensures st.Base? ==> !BusyIn(c.mem0, root, roots, st.vpn, n) && FirstFit(c.mem0, root, roots, c.first, n, st.vpn)
      ensures st.Astray? ==> NoRunBefore(c.mem0, root, roots, c.first, n, Total(roots))
      ensures st.Base? || st.Astray? ==> !GivesUpFrom(c.mem0, root, roots, from, n, top)
      ensures st.NoSpace? && !fixed ==> GivesUpFrom(c.mem0, root, roots, from, n, top)
      ensures fixed && st.Base? ==> st.vpn == from && !GivesUp(c.mem0, root, roots, from, n, top)
      ensures fixed && st.Astray? ==> from + n > Total(roots)
      ensures fixed && st.NoSpace? ==> BusyIn(c.mem0, root, roots, from, n) || GivesUp(c.mem0, root, roots, from, n, top)
    {
      hide Term, GetFrom, WellFormed, Index, LvlPages, Anchored, PageOf, Busy, BusyIn, BusyAt, GivesUp, GivesUpFrom, FirstFit,
        NoRunBefore, Short, Tiled, Stage, Due, Landing, Buried;
      var addr: nat, lvl: nat, count: nat := from, 0, 0;
      AnchorNone(addr);
      StageStart(c);
      BuriedBusy(c);
      while count < n
        invariant Valid() && old(frames) <= frames && old(refused) <= refused
        invariant lvl < LVLS && count <= n && Anchored(addr, count) && addr >= from
        invariant lvl == 0 || (addr < Total(roots) && At(lvl, addr).Ptr?)
        invariant Stage(c, addr, count) && Due(c, addr, count)
        invariant fixed ==> addr - count == from
        invariant fixed && Buried(c.mem0, root, roots, from) ==> addr == from
        invariant addr == from ==> count == 0
        invariant addr > from ==> !Short(top, from, n)
        invariant forall q :: 0 <= q < Total(roots) ==> Page(q) == old(Page(q))
        decreases n > count, Total(roots) - addr, LVLS - lvl
      {
        if Short(top, addr, n) {
          StageShort(c, addr, count);
          return NoSpace;
        }
        if addr >= Total(roots) {
          StageOff(c, addr, count);
          return Astray;
        }
        AtRoot(addr);
        st, lvl, addr, count := VScan(lvl, addr, count, fixed, n, c);
        if !st.Base? {
          if st.NoSpace? {
            BusyFound(c, addr);
          }
          return st;
        }
      }
      RunFree(addr, n);
      forall q | addr - n <= q < addr
        ensures PageIn(c.mem0, root, q).Free? && PageIn(c.mem0, root, q) != Free(RSW_RSRV)
      {
        assert Page(q) == old(Page(q)) && old(Page(q)) == PageIn(c.mem0, root, q);
      }
      FreeRun(c, addr - n);
      StageFound(c, addr);
      st := Base(addr - n);
    }

    /** A search that starts inside a busy block starts at a busy page. */
    lemma BuriedBusy(c: Search)
      requires c.n > 0
      ensures Buried(c.mem0, root, roots, c.from) ==>
                BusyAt(c.mem0, root, c.from) && BusyIn(c.mem0, root, roots, c.from, c.n)
    {
      hide BusyAt, Was;
      if Buried(c.mem0, root, roots, c.from) {
        BusyThere(c.mem0, root, roots, c.from, c.n, c.from);
      }
    }

    /** The first test of the room keeps a run that starts there inside the section. */
    lemma RoomIn(first: nat, n: nat, section: nat)
      requires Valid() && section < |sections| && first * PAGE_SIZE <= sections[section].end
      requires !Short(sections[section].end, first, n)
      ensures first + n <= Total(roots) ==> first + n <= (sections[section].end + 1) / PAGE_SIZE
    {
      hide WellFormed;
      assert sections[section].end < VA_WRAP;
    }

    lemma NotBusyRun(c: Search, s: nat)
      requires s + c.n <= Total(roots) && !BusyIn(c.mem0, root, roots, s, c.n)
      ensures forall q :: s <= q < s + c.n ==> PageIn(c.mem0, root, q).Free? && PageIn(c.mem0, root, q) != Free(RSW_RSRV)
    {
      hide PageIn;
      forall q | s <= q < s + c.n ensures PageIn(c.mem0, root, q).Free? && PageIn(c.mem0, root, q) != Free(RSW_RSRV) {
        assert !BusyAt(c.mem0, root, q);
      }
    }

    lemma FreeRun(c: Search, s: nat)
      requires forall q :: s <= q < s + c.n ==> PageIn(c.mem0, root, q).Free? && PageIn(c.mem0, root, q) != Free(RSW_RSRV)
      ensures !BusyIn(c.mem0, root, roots, s, c.n)
    {
      hide PageIn;
    }

    /** Too little room where the search stands. */
    lemma StageShort(c: Search, addr: nat, count: nat)
      requires Stage(c, addr, count) && Due(c, addr, count) && count < c.n && Short(c.end, addr, c.n)
      ensures GivesUpFrom(c.mem0, root, roots, c.from, c.n, c.end)
      ensures !Buried(c.mem0, root, roots, c.from) ==> GivesUp(c.mem0, root, roots, c.from, c.n, c.end)
    {
      hide Scanning, GivesUp, Test, Short, WellFormed, Landing, SkipStops, Buried;
      if !Buried(c.mem0, root, roots, addr) {
        EndShort(c.mem0, mem, root, roots, c.first, c.n, c.end, addr, count);
      }
      if !Buried(c.mem0, root, roots, c.from) {
        NotBuried(c.mem0, root, roots, c.from, c.n, c.end);
      }
    }

    lemma StageOff(c: Search, addr: nat, count: nat)
      requires Stage(c, addr, count) && Due(c, addr, count) && count < c.n && addr >= Total(roots)
      requires !Short(c.end, addr, c.n) && !Short(c.end, c.from, c.n)
      ensures NoRunBefore(c.mem0, root, roots, c.first, c.n, Total(roots))
      ensures !GivesUpFrom(c.mem0, root, roots, c.from, c.n, c.end)
    {
      hide Scanning, GivesUp, Short, WellFormed, Turn, NoRunBefore, Landing, SkipStops, BusyAt;
      EndOff(c.mem0, mem, root, roots, c.first, c.n, c.end, addr, count);
    }

    lemma StageFound(c: Search, addr: nat)
      requires c.n > 0 && Stage(c, addr, c.n) && !Short(c.end, c.from, c.n)
      ensures FirstFit(c.mem0, root, roots, c.first, c.n, addr - c.n)
      ensures !GivesUpFrom(c.mem0, root, roots, c.from, c.n, c.end)
      ensures !Buried(c.mem0, root, roots, c.from) ==> !GivesUp(c.mem0, root, roots, c.from, c.n, c.end)
    {
      hide Scanning, GivesUp, WellFormed, FirstFit, Landing, SkipStops, Short, Buried;
      EndFound(c.mem0, mem, root, roots, c.first, c.n, c.end, addr);
      if !Buried(c.mem0, root, roots, c.from) {
        NotBuried(c.mem0, root, roots, c.from, c.n, c.end);
      }
    }

    lemma BusyFound(c: Search, addr: nat)
      requires addr < Total(roots) && Busy(Page(addr)) && Page(addr) == PageIn(c.mem0, root, addr)
      requires c.from <= addr < c.from + c.n
      ensures BusyIn(c.mem0, root, roots, c.from, c.n)
    {
      hide Term, Busy, PageIn;
      BusyThere(c.mem0, root, roots, c.from, c.n, addr);
    }

    lemma RunFree(addr: nat, n: nat)
      requires Anchored(addr, n) && n > 0
      ensures n <= addr <= Total(roots) && Tiled(addr - n, addr)
      ensures forall q :: addr - n <= q < addr ==> Page(q).Free? && Page(q) != Free(RSW_RSRV)
    {
      hide Term;
    }

    // ----- coloured mapping

    /** One level of mem_inflate_pt. */
    method InflateLevel(lvl: nat, v: nat, n: nat) returns (r: Outcome)
      requires Valid() && v + n <= Total(roots) && lvl < LVLS - 1
      modifies this`mem, this`frames, this`lab, this`refused
      ensures r.NoTable? ==> refused > old(refused)
      ensures Valid() && old(mem.Keys) <= mem.Keys && old(frames) <= frames && old(refused) <= refused
      ensures r.Done? || r.NoTable? || r.WildWalk?
      ensures r.Done? ==> Inflated(old(mem), mem, root, roots, dfltFlags, lvl, v, Steps(lvl, n))
      ensures r.WildWalk? ==> lvl > 0 && exists q :: v <= q < v + n && Was(old(mem), root, q).lvl < lvl
    {
      hide Term, GetFrom, WellFormed, Index, Block, Inflated, Visited, LvlPages, Span, PageOf;
      ghost var mem0 := mem;
      var vaddr := v;
      ghost var m := 0;
      InflateNone(mem, root, roots, dfltFlags, lvl, v);
      StepCount(lvl, n, 0);
      assert Span(lvl, 0) == 0 by { SpanZero(lvl); }
      while vaddr < v + n
        invariant Valid() && mem0.Keys <= mem.Keys && old(frames) <= frames && old(refused) <= refused
        invariant vaddr == v + Span(lvl, m) && m <= Steps(lvl, n)
        invariant Inflated(mem0, mem, root, roots, dfltFlags, lvl, v, m)
      {
        StepCount(lvl, n, m);
        StepBlock(lvl, v, m);
        ghost var mem1 := mem;
        InflatedLow(mem0, mem, root, roots, dfltFlags, lvl, v, m, vaddr);
        ghost var at0 := TermAt(vaddr);
        forall q | 0 <= q < Total(roots) && Block(lvl, q) == Block(lvl, vaddr) && Was(mem1, root, q).lvl == lvl
          ensures at0.lvl == lvl
        {
          TermBlock(q, vaddr);
        }
        label L:
        r := MemExpandPte(vaddr, lvl);
        if !r.Done? {
          return r;
        }
        forall q | 0 <= q < Total(roots)
          ensures if Block(lvl, q) == Block(lvl, vaddr) && Was(mem1, root, q).lvl == lvl
                  then Split(Was(mem1, root, q), Was(mem, root, q), dfltFlags, lvl, q)
                  else Was(mem, root, q) == Was(mem1, root, q)
        {
          assert old@L(TermAt(q)) == Was(mem1, root, q) && old@L(Page(q)) == PageIn(mem1, root, q);
          SameTerm(mem1, old@L(lab), root, roots, vaddr, q);
          ExpandSplits(mem1, lvl, vaddr, q, at0);
        }
        InflateMore(mem0, mem1, mem, root, roots, dfltFlags, lvl, v, m, vaddr);
        vaddr := vaddr + LvlPages(lvl);
        m := m + 1;
      }
      StepCount(lvl, n, m);
      r := Done;
    }

    /** What MemExpandPte promises, for one page. */
    lemma ExpandSplits(mem1: Memory, lvl: nat, vaddr: nat, q: nat, at0: Terminal)
      requires at0 == Was(mem1, root, vaddr)
      requires Block(lvl, q) != Block(lvl, vaddr) || at0.lvl != lvl ==> TermAt(q) == Was(mem1, root, q)
      requires Block(lvl, q) == Block(lvl, vaddr) && at0.lvl == lvl ==>
                 && Was(mem1, root, q) == at0
                 && TermAt(q).lvl == lvl + 1 && TermAt(q).pte.Leaf? == at0.pte.Leaf?
                 && (at0.pte.Leaf? ==> Page(q) == Mapped(PageIn(mem1, root, q).pfn, dfltFlags))
                 && (at0.pte.Invalid? ==> Page(q) == PageIn(mem1, root, q))
      requires !at0.pte.Table?
      requires Block(lvl, q) == Block(lvl, vaddr) && Was(mem1, root, q).lvl == lvl ==> at0.lvl == lvl
      ensures if Block(lvl, q) == Block(lvl, vaddr) && Was(mem1, root, q).lvl == lvl
              then Split(Was(mem1, root, q), Was(mem, root, q), dfltFlags, lvl, q)
              else Was(mem, root, q) == Was(mem1, root, q)
    {
      hide Term;
    }

    lemma SpanZero(lvl: nat)
      ensures Span(lvl, 0) == 0
    {
    }

    /** mem_inflate_pt, for a table of three levels. */
    method MemInflatePt(v: nat, n: nat) returns (r: Outcome, ghost mem1: Memory)
      requires Valid() && v + n <= Total(roots)
      modifies this`mem, this`frames, this`lab, this`refused
      ensures r.NoTable? ==> refused > old(refused)
      ensures Valid() && old(frames) <= frames && old(refused) <= refused && (r.Done? || r.NoTable? || r.WildWalk?)
      ensures r.Done? ==>
                && Inflated(old(mem), mem1, root, roots, dfltFlags, 0, v, Steps(0, n))
                && Inflated(mem1, mem, root, roots, dfltFlags, 1, v, Steps(1, n))
      ensures r.WildWalk? ==> !Inflatable(old(mem), root, v, n)
    {
      hide Term, GetFrom, WellFormed, Inflated, Inflatable;
      ghost var mem0, lab0 := mem, lab;
      r := InflateLevel(0, v, n);
      mem1 := mem;
      if r.Done? {
        r := InflateLevel(1, v, n);
        if r.WildWalk? {
          ghost var q :| v <= q < v + n && Was(mem1, root, q).lvl < 1;
          WildStep(mem0, mem1, lab0, root, roots, dfltFlags, v, n, q);
        }
      }
    }

    /** A last-level entry decides its own page alone. */
    method SetPage(p: PtePtr, pfn: nat, flags: nat, vpn: nat)
      requires Valid() && vpn < Total(roots) && p.Ptr? && p == At(2, vpn)
      modifies this`mem
      ensures Valid() && Page(vpn) == Mapped(pfn, flags)
      ensures forall q :: 0 <= q < Total(roots) && q != vpn ==> TermAt(q) == old(TermAt(q)) && Page(q) == old(Page(q))
    {
      hide Term, GetFrom, WellFormed, Index;
      PteSet(p, Leaf(pfn, flags), 2, vpn);
    }

    /** The loop of the coloured path: one last-level entry for each coloured frame. */
    method MapColors(v: nat, n: nat, g: Geometry, base: nat, colors: set<nat>, flags: nat) returns (r: Outcome)
      requires Valid() && v + n <= Total(roots) && ValidGeometry(g) && SomeColor(g, colors)
      modifies this`mem
      ensures Valid() && (r.Done? || r.WildWalk?)
      ensures r.Done? <==> forall q :: v <= q < v + n ==> old(TermAt(q)).lvl == 2
      ensures forall q :: 0 <= q < Total(roots) && !(v <= q < v + n) ==> TermAt(q) == old(TermAt(q))
      ensures r.Done? ==> forall q :: v <= q < v + n ==> Page(q) == Mapped(PhysPage(g, base, colors, q - v), flags)
    {
      hide Term, GetFrom, WellFormed, Index, NextClr, SomeColor, PageOf, Block;
      var index, i := 0, 0;
      while i < n
        invariant Valid() && i <= n
        invariant index == if i == 0 then 0 else Kth(g, base, colors, 0, i - 1) + 1
        invariant forall q :: v <= q < v + i ==>
                    old(TermAt(q)).lvl == 2 && Page(q) == Mapped(PhysPage(g, base, colors, q - v), flags)
        invariant forall q :: 0 <= q < Total(roots) && !(v <= q < v + i) ==> TermAt(q) == old(TermAt(q))
      {
        AtTerm(2, v + i);
        var p := PtGetPte(2, v + i);
        if !p.Ptr? {
          assert old(TermAt(v + i)).lvl < 2;
          return WildWalk;
        }
        index := PpNextClr(g, base, index, colors);
        assert index == Kth(g, base, colors, 0, i);
        SetPage(p, base + index, flags, v + i);
        index, i := index + 1, i + 1;
      }
      r := Done;
    }

    /**
     * The coloured path of mem_map: pages v .. v + n - 1 go to the coloured frames counted
     * from `base`. It ends normally exactly when the steps of mem_inflate_pt reach the range.
     */
    method MapColored(v: nat, n: nat, g: Geometry, base: nat, colors: set<nat>, flags: nat) returns (r: Outcome)
      requires Valid() && v + n <= Total(roots) && ValidGeometry(g) && SomeColor(g, colors)
      modifies this`mem, this`frames, this`lab, this`refused
      ensures r.NoTable? ==> refused > old(refused)
      ensures Valid() && old(frames) <= frames && old(refused) <= refused && (r.Done? || r.NoTable? || r.WildWalk?)
      ensures r.Done? ==> Inflatable(old(mem), root, v, n)
      ensures r.WildWalk? ==> !Inflatable(old(mem), root, v, n)
      ensures r.Done? ==> forall q :: 0 <= q < Total(roots) ==>
                if v <= q < v + n then Page(q) == Mapped(PhysPage(g, base, colors, q - v), flags)
                else Page(q) == old(Page(q)) || Page(q) == Reflag(old(Page(q)), dfltFlags)
    {
      hide Term, GetFrom, WellFormed, Inflated, Inflatable, Index, PhysPage, SomeColor;
      ghost var mem0, lab0 := mem, lab;
      ghost var mem1;
      r, mem1 := MemInflatePt(v, n);
      if !r.Done? {
        return r;
      }
      ghost var mem2 := mem;
      InflatedLevels(mem0, mem1, mem2, lab0, root, roots, dfltFlags, v, n);
      label L:
      r := MapColors(v, n, g, base, colors, flags);
      assert forall q :: 0 <= q < Total(roots) ==> old@L(TermAt(q)) == Was(mem2, root, q);
      forall q | 0 <= q < Total(roots) && !(v <= q < v + n)
        ensures Page(q) == old(Page(q)) || Page(q) == Reflag(old(Page(q)), dfltFlags)
      {
        assert TermAt(q) == old@L(TermAt(q)) && old(Page(q)) == PageIn(mem0, root, q);
        InflatedKeeps(mem0, mem1, mem2, root, roots, dfltFlags, v, n, q);
      }
    }

    /** mem_map for frames of some, not all, colours. */
    method MemMapColored(va: nat, numPages: nat, g: Geometry, base: nat, colors: set<nat>, flags: nat) returns (r: Outcome)
      requires Valid() && va / PAGE_SIZE + numPages <= Total(roots) && ValidGeometry(g) && !AllClrs(g, colors)
      modifies this`mem, this`frames, this`lab, this`refused
      ensures Valid() && old(frames) <= frames && old(refused) <= refused && !r.Halted? && SomeColor(g, colors)
      ensures r.NoSection? <==> !InOneSection(va / PAGE_SIZE, numPages)
      ensures r.NoSection? ==> mem == old(mem) && frames == old(frames)
      ensures r.NoTable? ==> refused > old(refused)
      ensures r.Done? ==> Inflatable(old(mem), root, va / PAGE_SIZE, numPages)
      ensures r.WildWalk? ==> !Inflatable(old(mem), root, va / PAGE_SIZE, numPages)
      ensures r.Done? ==> forall q :: 0 <= q < Total(roots) ==>
                if va / PAGE_SIZE <= q < va / PAGE_SIZE + numPages
                then Page(q) == Mapped(PhysPage(g, base, colors, q - va / PAGE_SIZE), flags)
                else Page(q) == old(Page(q)) || Page(q) == Reflag(old(Page(q)), dfltFlags)
    {
      NotAllClrs(g, colors);
      var v: nat := va / PAGE_SIZE;
      var sec := MemFindSec(v * PAGE_SIZE);
      var secEnd := MemFindSec((v * PAGE_SIZE + numPages * PAGE_SIZE - 1) % VA_WRAP);
      if sec.None? || sec != secEnd {
        return NoSection;
      }
      r := MapColored(v, numPages, g, base, colors, flags);
    }
  }

  /**
   * A mapping silently replaced: page 1 is mapped to frame 7, then pages 0 and 1 to frames 9 and
   * 10. Unless the pools run out of tables, both calls end normally.
   */
  method OverwrittenCalls() returns (space: AddrSpace, first: Outcome, second: Outcome)
    ensures space.Valid() && !first.Halted? && !second.Halted?
    ensures space.refused == 0 ==> first.Done? && second.Done? && space.Page(1) == Mapped(10, 0)
  {
    hide Term, GetFrom, WellFormed, Noticed, AddrSpace.IsSection;
    space := new AddrSpace(1, 0, 0, [Section(0, Total(1) * PAGE_SIZE - 1)], {0});
    space.OnlySection(1, 1);
    space.OnlySection(0, 2);
    SmallPagesNoticed(space.mem, space.root, 1, 1, 1, 7);
    assert !space.Page(1).Mapped?;
    ghost var got;
    first, got := space.MemMap(PAGE_SIZE, Some(7), 1, 0);
    SmallPagesNoticed(space.mem, space.root, 1, 0, 2, 9);
    assert !space.Page(0).Mapped?;
    second, got := space.MemMap(0, Some(9), 2, 0);
    if second.Done? {
      assert space.Page(1) == Mapped(got[1], 0);
    }
  }

  /** The search that gives up, as calls: 512 pages from page 256 of an empty section of 768 pages. */
  method GivesUpCalls() returns (space: AddrSpace, r: VPage)
    ensures space.Valid() && forall q :: 0 <= q < Total(1) ==> space.Page(q) == Free(0)
    ensures space.refused == 0 ==> r.NoSpace?
  {
    hide Term, GetFrom, WellFormed, GivesUp, BusyIn;
    space := new AddrSpace(1, 0, 0, [Section(0, 768 * PAGE_SIZE - 1)], {0});
    assert seq(1, i => Invalid(0)) == [Invalid(0)];
    GivesUpExample(space.mem);
    assert space.IsSection(0, 256 * PAGE_SIZE);
    r := space.MemAllocVpage(0, Some(256 * PAGE_SIZE), 512);
  }
}
