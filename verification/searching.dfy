/**
 * The search of mem_alloc_vpage (src/core/mmu/mem.c:342-393) as a property of the page table
 * before the call: through which entry it looks at each page, and at which pages it compares
 * what is left of the section with the request.
 *
 * The search makes tables on its way. A free page is taken through the highest entry whose
 * block lies inside the request; the search leaves a table at its end, or where it has to go
 * down a level, and only there does it test the room again.
 */
module Searching {
  import opened PageTable
  import opened Unmapping

  /** A page mem_alloc_vpage must not give out. */
  predicate Busy(p: Page) {
    p.Mapped? || p == Free(RSW_RSRV)
  }

  ghost predicate BusyAt(mem: Memory, root: nat, q: nat) {
    Busy(PageIn(mem, root, q))
  }

  /** Some of the `n` pages from `s` on must not be given out. */
  ghost predicate BusyIn(mem: Memory, root: nat, roots: nat, s: nat, n: nat) {
    exists q :: s <= q < s + n && q < Total(roots) && BusyAt(mem, root, q)
  }

  /** The test of the room left, in the unsigned arithmetic of addresses. */
  predicate Short(end: nat, vpn: nat, n: nat) {
    !(vpn == 0 && end == VA_WRAP - 1) && (end + 1 - vpn * PAGE_SIZE) % VA_WRAP / PAGE_SIZE < n
  }

  /** The first page of the free run before page `p`, or `p`. */
  ghost function RunStart(mem: Memory, root: nat, first: nat, p: nat): nat
    requires first <= p
  {
    if p == first || BusyAt(mem, root, p - 1) then p else RunStart(mem, root, first, p - 1)
  }

  /** The block of the page lies inside the request of `n` pages from `s`. */
  predicate Fits(lvl: nat, p: nat, s: nat, n: nat) {
    s <= BlockBase(lvl, p) && BlockBase(lvl, p) + LvlPages(lvl) <= s + n
  }

  /** The level at which a free page, decided at level `lvl`, becomes part of the request. */
  function TakeLvl(lvl: nat, p: nat, s: nat, n: nat): (r: nat)
    ensures r >= LVLS - 1 || Fits(r, p, s, n)
    ensures lvl < LVLS ==> lvl <= r < LVLS
    ensures forall k :: lvl <= k < r ==> !Fits(k, p, s, n)
    decreases LVLS - lvl
  {
    if lvl >= LVLS - 1 || Fits(lvl, p, s, n) then lvl else TakeLvl(lvl + 1, p, s, n)
  }

  /** The level of the entry through which the search passes page `p`. */
  ghost function EntryLvl(mem: Memory, root: nat, first: nat, n: nat, p: nat): nat
    requires first <= p
  {
    if BusyAt(mem, root, p) then Was(mem, root, p).lvl
    else TakeLvl(Was(mem, root, p).lvl, p, RunStart(mem, root, first, p), n)
  }

  /** The entries of page `c` and of the page before it lie in different tables. */
  ghost predicate Turn(mem: Memory, root: nat, roots: nat, first: nat, n: nat, c: nat)
    requires first < c
  {
    || c == Total(roots)
    || EntryLvl(mem, root, first, n, c - 1) != EntryLvl(mem, root, first, n, c)
    || TableBlock(EntryLvl(mem, root, first, n, c), c - 1) != TableBlock(EntryLvl(mem, root, first, n, c), c)
  }

  /** The pages at which the search tests the room left. */
  ghost predicate Test(mem: Memory, root: nat, roots: nat, first: nat, n: nat, c: nat) {
    c == first || (first < c <= Total(roots) && Turn(mem, root, roots, first, n, c))
  }

  ghost predicate Stop(mem: Memory, root: nat, roots: nat, first: nat, n: nat, end: nat, c: nat) {
    Test(mem, root, roots, first, n, c) && Short(end, c, n)
  }

  /** No run of `n` free pages, from `first` on, ends at page `c` or before. */
  ghost predicate NoRunBefore(mem: Memory, root: nat, roots: nat, first: nat, n: nat, c: nat) {
    forall s: nat :: first <= s && s + n <= c ==> BusyIn(mem, root, roots, s, n)
  }

  /** The search gives up: before it has passed a free run it comes to a page where there is no room for one. */
  ghost predicate GivesUp(mem: Memory, root: nat, roots: nat, first: nat, n: nat, end: nat) {
    exists c: nat :: first <= c && Stop(mem, root, roots, first, n, end, c) && NoRunBefore(mem, root, roots, first, n, c)
  }

  // ----- a section that starts inside a busy block

  /** Page `p` lies in a busy block, behind the block's first page. */
  ghost predicate Buried(mem: Memory, root: nat, roots: nat, p: nat) {
    p < Total(roots) && BusyAt(mem, root, p) && p % LvlPages(Was(mem, root, p).lvl) != 0
  }

  /** From inside a busy block the search steps on by the size of the block. */
  ghost function NextHop(mem: Memory, root: nat, p: nat): nat {
    p + LvlPages(Was(mem, root, p).lvl)
  }

  /** Where the steps from inside busy blocks come to the start of a block or to a free page. */
  ghost function Landing(mem: Memory, root: nat, roots: nat, p: nat): (r: nat)
    ensures r >= p && !Buried(mem, root, roots, r)
    decreases Total(roots) - p
  {
    if Buried(mem, root, roots, p) then Landing(mem, root, roots, NextHop(mem, root, p)) else p
  }

  /** The entries of pages `p` and `next` lie in different tables. */
  ghost predicate Jumps(mem: Memory, root: nat, p: nat, next: nat) {
    || Was(mem, root, p).lvl != Was(mem, root, next).lvl
    || TableBlock(Was(mem, root, p).lvl, p) != TableBlock(Was(mem, root, p).lvl, next)
  }

  /** On its way out of busy blocks the search comes to a page where it tests the room and finds too little. */
  ghost predicate SkipStops(mem: Memory, root: nat, roots: nat, n: nat, end: nat, p: nat)
    decreases Total(roots) - p
  {
    Buried(mem, root, roots, p) &&
    var next := NextHop(mem, root, p);
    Buried(mem, root, roots, next)
    && ((Jumps(mem, root, p, next) && Short(end, next, n)) || SkipStops(mem, root, roots, n, end, next))
  }

  /** The search from page `first` gives up, at once, on its way out of busy blocks, or after it. */
  ghost predicate GivesUpFrom(mem: Memory, root: nat, roots: nat, first: nat, n: nat, end: nat) {
    || Short(end, first, n) || SkipStops(mem, root, roots, n, end, first)
    || GivesUp(mem, root, roots, Landing(mem, root, roots, first), n, end)
  }

  /** From the start of a block or a free page there is nothing to get out of. */
  lemma NotBuried(mem: Memory, root: nat, roots: nat, first: nat, n: nat, end: nat)
    requires !Buried(mem, root, roots, first) && n > 0
    ensures Landing(mem, root, roots, first) == first
    ensures GivesUpFrom(mem, root, roots, first, n, end) <==> GivesUp(mem, root, roots, first, n, end)
  {
    hide BusyIn, Turn, Buried, Short;
    if Short(end, first, n) {
      assert Stop(mem, root, roots, first, n, end, first);
      assert NoRunBefore(mem, root, roots, first, n, first);
    }
  }

  /** Part-way through a table of level `lvl`, still inside a busy block at `addr`: the room there is tested on the way down. */
  ghost predicate InSkip(mem: Memory, root: nat, roots: nat, n: nat, end: nat, from: nat, lvl: nat, addr: nat) {
    SkipStops(mem, root, roots, n, end, from) <==>
    (Was(mem, root, addr).lvl != lvl && Short(end, addr, n)) || SkipStops(mem, root, roots, n, end, addr)
  }

  ghost predicate SkipDue(mem: Memory, root: nat, roots: nat, n: nat, end: nat, from: nat, addr: nat) {
    SkipStops(mem, root, roots, n, end, from) <==> Short(end, addr, n) || SkipStops(mem, root, roots, n, end, addr)
  }

  /** One step from inside a busy block. */
  lemma SkipStep(mem: Memory, root: nat, roots: nat, n: nat, end: nat, from: nat, lvl: nat, addr: nat)
    requires Buried(mem, root, roots, addr) && Was(mem, root, addr).lvl == lvl < LVLS
    requires InSkip(mem, root, roots, n, end, from, lvl, addr)
    ensures var next := addr + LvlPages(lvl);
            && Landing(mem, root, roots, addr) == Landing(mem, root, roots, next)
            && (!Buried(mem, root, roots, next) ==> !SkipStops(mem, root, roots, n, end, from))
            && (Buried(mem, root, roots, next) ==>
                  if Index(lvl, addr) + 1 < TableSize(lvl, roots) then InSkip(mem, root, roots, n, end, from, lvl, next)
                  else SkipDue(mem, root, roots, n, end, from, next))
  {
    hide PageIn, Term, Short, Busy, Index, TableBlock, TableSize, LvlPages;
    TableStep(lvl, addr, roots);
  }

  lemma TableStep(lvl: nat, addr: nat, roots: nat)
    requires lvl < LVLS && addr < Total(roots)
    ensures var next := addr + LvlPages(lvl);
            next < Total(roots) ==>
              (TableBlock(lvl, addr) == TableBlock(lvl, next) <==> Index(lvl, addr) + 1 < TableSize(lvl, roots))
  {
    if Index(lvl, addr) + 1 < TableSize(lvl, roots) {
      NextEntry(lvl, addr, roots);
    } else if lvl == 1 {
      BlockNests(addr);
      BlockNests(addr + 512);
    }
  }

  /** Out of the busy block, the search cannot take the page it comes to through an entry of the same level. */
  lemma LandedBelow(mem: Memory, root: nat, roots: nat, n: nat, lvl: nat, addr: nat)
    requires Buried(mem, root, roots, addr) && Was(mem, root, addr).lvl == lvl < LVLS
    requires var next := addr + LvlPages(lvl); next < Total(roots) && !Buried(mem, root, roots, next)
    ensures EntryLvl(mem, root, addr + LvlPages(lvl), n, addr + LvlPages(lvl)) != lvl
  {
    hide PageIn, Term, Busy;
    var next := addr + LvlPages(lvl);
    assert next % LvlPages(lvl) != 0;
    if !BusyAt(mem, root, next) {
      BelowBase(lvl, next);
    }
  }

  lemma BelowBase(lvl: nat, p: nat)
    requires lvl < LVLS && p % LvlPages(lvl) != 0
    ensures BlockBase(lvl, p) < p && lvl < LVLS - 1
  {
  }

  // ----- what the search has passed

  /** No run of `n` free pages starts in lo .. hi - 1. */
  ghost predicate Passed(mem: Memory, root: nat, roots: nat, lo: nat, hi: int, n: nat) {
    forall s: nat :: lo <= s < hi ==> BusyIn(mem, root, roots, s, n)
  }

  /** The first run of `n` free pages starts at `s`. */
  ghost predicate FirstFit(mem: Memory, root: nat, roots: nat, first: nat, n: nat, s: nat) {
    first <= s && !BusyIn(mem, root, roots, s, n) && Passed(mem, root, roots, first, s, n)
  }

  // ----- the search part-way

  /** The free run that ends before `addr` starts at `s`. */
  ghost predicate RunFrom(mem: Memory, root: nat, first: nat, s: int, addr: nat) {
    && first <= s <= addr && (forall q :: s <= q < addr ==> !BusyAt(mem, root, q))
    && (s == first || BusyAt(mem, root, s - 1))
  }

  /** The tables made so far reach no lower than the entries the search is going to use. */
  ghost predicate LevelsOk(mem0: Memory, mem: Memory, root: nat, roots: nat, first: nat, n: nat, addr: nat)
    requires first <= addr
  {
    forall q :: addr <= q < Total(roots) ==>
      Was(mem0, root, q).lvl <= Was(mem, root, q).lvl <= EntryLvl(mem0, root, first, n, q)
  }

  ghost predicate NoStop(mem0: Memory, root: nat, roots: nat, first: nat, n: nat, end: nat, addr: nat) {
    forall c :: first <= c < addr ==> !Stop(mem0, root, roots, first, n, end, c)
  }

  ghost predicate SamePages(mem0: Memory, mem: Memory, root: nat, roots: nat) {
    forall q :: 0 <= q < Total(roots) ==> PageIn(mem, root, q) == PageIn(mem0, root, q)
  }

  ghost predicate StartsBlock(mem: Memory, root: nat, roots: nat, addr: nat) {
    addr < Total(roots) ==> addr % LvlPages(Was(mem, root, addr).lvl) == 0
  }

  /** From `mem0`, the search has come to `addr` with `count` free pages just before it. */
  ghost predicate Scanning(mem0: Memory, mem: Memory, root: nat, roots: nat, first: nat, n: nat, end: nat,
                           addr: nat, count: nat) {
    && RunFrom(mem0, root, first, addr - count, addr)
    && SamePages(mem0, mem, root, roots)
    && LevelsOk(mem0, mem, root, roots, first, n, addr)
    && Passed(mem0, root, roots, first, addr - count, n)
    && NoStop(mem0, root, roots, first, n, end, addr)
    && (addr > first || (addr < Total(roots) && BusyAt(mem0, root, addr)) ==> StartsBlock(mem, root, roots, addr))
  }

  lemma {:induction false} RunStartIs(mem: Memory, root: nat, first: nat, s: nat, p: nat)
    requires RunFrom(mem, root, first, s, p)
    ensures RunStart(mem, root, first, p) == s
    decreases p
  {
    hide PageIn, Busy;
    if s < p {
      assert !BusyAt(mem, root, p - 1);
      RunStartIs(mem, root, first, s, p - 1);
    }
  }

  /** Pages of one block fit at the same levels above it. */
  lemma FitsSame(k: nat, lvl: nat, p: nat, q: nat, s: nat, n: nat)
    requires k <= lvl < LVLS && Block(lvl, p) == Block(lvl, q)
    ensures Fits(k, p, s, n) == Fits(k, q, s, n)
  {
    hide Block;
    CoarserBlock(k, lvl, p, q);
  }

  lemma {:induction false} TakeLvlSame(l: nat, lvl: nat, p: nat, q: nat, s: nat, n: nat)
    requires l <= lvl < LVLS && Block(lvl, p) == Block(lvl, q)
    ensures TakeLvl(l, p, s, n) == lvl ==> TakeLvl(l, q, s, n) == lvl
    ensures TakeLvl(l, p, s, n) > lvl ==> TakeLvl(l, q, s, n) > lvl
    decreases lvl - l
  {
    hide Fits, Block;
    FitsSame(l, lvl, p, q, s, n);
    if l < lvl {
      TakeLvlSame(l + 1, lvl, p, q, s, n);
    }
  }

  /** The pages of a free block, from `addr` on, are passed through entries of its level, or all through lower ones. */
  lemma BlockEntries(mem0: Memory, mem: Memory, lab0: map<nat, Label>, lab: map<nat, Label>, root: nat, roots: nat,
                     first: nat, n: nat, s: nat, addr: nat, q: nat)
    requires WellFormed(mem0, lab0, root, roots) && WellFormed(mem, lab, root, roots)
    requires addr <= q < Total(roots) && RunFrom(mem0, root, first, s, addr) && !BusyAt(mem0, root, addr)
    requires SamePages(mem0, mem, root, roots) && LevelsOk(mem0, mem, root, roots, first, n, addr)
    requires var lvl := Was(mem, root, addr).lvl; Block(lvl, q) == Block(lvl, addr)
    ensures var lvl := Was(mem, root, addr).lvl;
            && lvl < LVLS && Was(mem, root, q) == Was(mem, root, addr) && !BusyAt(mem0, root, q)
            && RunStart(mem0, root, first, q) == s
            && (EntryLvl(mem0, root, first, n, addr) == lvl ==> EntryLvl(mem0, root, first, n, q) == lvl)
            && (EntryLvl(mem0, root, first, n, addr) > lvl ==> EntryLvl(mem0, root, first, n, q) > lvl)
  {
    hide Term, WellFormed, Block, PageOf, Busy;
    var lvl := Was(mem, root, addr).lvl;
    SameTerm(mem, lab, root, roots, addr, addr);
    FreeBlock(mem0, mem, lab0, lab, root, roots, addr, lvl, q);
    forall x | addr <= x < q ensures !BusyAt(mem0, root, x) {
      BetweenBlock(lvl, addr, x, q);
      FreeBlock(mem0, mem, lab0, lab, root, roots, addr, lvl, x);
    }
    RunStartIs(mem0, root, first, s, q);
    RunStartIs(mem0, root, first, s, addr);
    TakeLvlSame(Was(mem0, root, addr).lvl, lvl, addr, q, s, n);
  }

  lemma BetweenBlock(lvl: nat, a: nat, x: nat, b: nat)
    requires lvl < LVLS && a <= x <= b && Block(lvl, a) == Block(lvl, b)
    ensures Block(lvl, x) == Block(lvl, a)
  {
  }

  lemma FreeBlock(mem0: Memory, mem: Memory, lab0: map<nat, Label>, lab: map<nat, Label>, root: nat, roots: nat,
                  addr: nat, lvl: nat, q: nat)
    requires WellFormed(mem0, lab0, root, roots) && WellFormed(mem, lab, root, roots)
    requires addr < Total(roots) && q < Total(roots) && Block(lvl, q) == Block(lvl, addr)
    requires Was(mem0, root, addr).lvl <= lvl == Was(mem, root, addr).lvl < LVLS
    requires SamePages(mem0, mem, root, roots)
    ensures Was(mem, root, q) == Was(mem, root, addr) && Was(mem0, root, q) == Was(mem0, root, addr)
    ensures BusyAt(mem0, root, q) == BusyAt(mem0, root, addr)
  {
    hide Term, WellFormed, Block;
    SameTerm(mem, lab, root, roots, addr, q);
    CoarserBlock(Was(mem0, root, addr).lvl, lvl, addr, q);
    SameTerm(mem0, lab0, root, roots, addr, q);
  }

  /** Inside one block the search does not turn. */
  lemma NoTurnInside(mem: Memory, root: nat, roots: nat, first: nat, n: nat, lvl: nat, addr: nat, c: nat)
    requires first <= addr < c < Total(roots) && lvl < LVLS && Block(lvl, c) == Block(lvl, addr)
    requires EntryLvl(mem, root, first, n, c - 1) == EntryLvl(mem, root, first, n, c) == lvl
    ensures !Test(mem, root, roots, first, n, c)
  {
    hide Block, EntryLvl;
    BetweenBlock(lvl, addr, c - 1, c);
    if lvl > 0 {
      CoarserBlock(lvl - 1, lvl, c - 1, c);
    }
  }

  lemma StepNoStop(mem0: Memory, root: nat, roots: nat, first: nat, n: nat, end: nat, lvl: nat, addr: nat, next: nat)
    requires first <= addr < next <= Total(roots) && lvl < LVLS && NoStop(mem0, root, roots, first, n, end, addr)
    requires !Stop(mem0, root, roots, first, n, end, addr)
    requires forall q :: addr <= q < next ==> Block(lvl, q) == Block(lvl, addr) && EntryLvl(mem0, root, first, n, q) == lvl
    ensures NoStop(mem0, root, roots, first, n, end, next)
  {
    hide Block, EntryLvl, Test, Short;
    forall c | addr < c < next ensures !Stop(mem0, root, roots, first, n, end, c) {
      assert EntryLvl(mem0, root, first, n, c - 1) == EntryLvl(mem0, root, first, n, c) == lvl;
      NoTurnInside(mem0, root, roots, first, n, lvl, addr, c);
    }
  }

  /** A free entry whose block fits the rest of the request is the one the search takes the page through. */
  lemma TakenThere(mem0: Memory, mem: Memory, root: nat, roots: nat, first: nat, n: nat, end: nat, addr: nat, count: nat)
    requires Scanning(mem0, mem, root, roots, first, n, end, addr, count) && addr < Total(roots) && count < n
    requires Was(mem, root, addr).lvl < LVLS && !BusyAt(mem0, root, addr)
    ensures var lvl := Was(mem, root, addr).lvl;
            (EntryLvl(mem0, root, first, n, addr) == lvl) <==>
            (lvl == LVLS - 1 || (LvlPages(lvl) <= n - count && addr % LvlPages(lvl) == 0))
  {
    hide Term, PageOf, Busy, Passed, NoStop;
    RunStartIs(mem0, root, first, addr - count, addr);
    FitsHere(Was(mem, root, addr).lvl, addr, addr - count, n);
  }

  lemma FitsHere(lvl: nat, addr: nat, s: nat, n: nat)
    requires lvl < LVLS && s <= addr && (addr > s ==> addr % LvlPages(lvl) == 0)
    ensures Fits(lvl, addr, s, n) <==> LvlPages(lvl) <= s + n - addr && addr % LvlPages(lvl) == 0
  {
  }

  /** Taking a free block. */
  lemma StepTake(mem0: Memory, mem: Memory, lab0: map<nat, Label>, lab: map<nat, Label>, root: nat, roots: nat,
                 first: nat, n: nat, end: nat, addr: nat, count: nat)
    requires WellFormed(mem0, lab0, root, roots) && WellFormed(mem, lab, root, roots)
    requires Scanning(mem0, mem, root, roots, first, n, end, addr, count) && addr < Total(roots) && count < n
    requires !BusyAt(mem0, root, addr) && !Stop(mem0, root, roots, first, n, end, addr)
    requires var lvl := Was(mem, root, addr).lvl;
             (lvl < LVLS && EntryLvl(mem0, root, first, n, addr) == lvl && addr % LvlPages(lvl) == 0
              && StartsBlock(mem, root, roots, addr + LvlPages(lvl)))
    ensures var lvl := Was(mem, root, addr).lvl; var next := addr + LvlPages(lvl);
            && next <= Total(roots) && EntryLvl(mem0, root, first, n, next - 1) == lvl
            && Scanning(mem0, mem, root, roots, first, n, end, next, count + LvlPages(lvl))
  {
    hide Term, WellFormed, Block, PageOf, Busy, EntryLvl, Stop, Passed, StartsBlock, SamePages;
    var lvl := Was(mem, root, addr).lvl;
    var next := addr + LvlPages(lvl);
    EndOfBlock(lvl, addr, roots);
    forall q | addr <= q < next
      ensures Block(lvl, q) == Block(lvl, addr) && EntryLvl(mem0, root, first, n, q) == lvl && !BusyAt(mem0, root, q)
    {
      BlockIsRun(lvl, addr, q);
      BlockEntries(mem0, mem, lab0, lab, root, roots, first, n, addr - count, addr, q);
    }
    StepNoStop(mem0, root, roots, first, n, end, lvl, addr, next);
  }

  lemma EndOfBlock(lvl: nat, addr: nat, roots: nat)
    requires lvl < LVLS && addr < Total(roots) && addr % LvlPages(lvl) == 0
    ensures addr + LvlPages(lvl) <= Total(roots)
  {
  }

  /** Passing a busy block. */
  lemma StepBusy(mem0: Memory, mem: Memory, lab0: map<nat, Label>, lab: map<nat, Label>, root: nat, roots: nat,
                 first: nat, n: nat, end: nat, addr: nat, count: nat)
    requires WellFormed(mem0, lab0, root, roots) && WellFormed(mem, lab, root, roots)
    requires Scanning(mem0, mem, root, roots, first, n, end, addr, count) && addr < Total(roots) && count < n
    requires BusyAt(mem0, root, addr) && !Stop(mem0, root, roots, first, n, end, addr)
    requires var lvl := Was(mem, root, addr).lvl; lvl < LVLS && StartsBlock(mem, root, roots, addr + LvlPages(lvl))
    ensures var lvl := Was(mem, root, addr).lvl; var next := addr + LvlPages(lvl);
            && next <= Total(roots) && EntryLvl(mem0, root, first, n, addr) == EntryLvl(mem0, root, first, n, next - 1) == lvl
            && Scanning(mem0, mem, root, roots, first, n, end, next, 0)
  {
    hide Term, WellFormed, Block, PageOf, Busy, Stop, SamePages, BusyIn;
    var lvl := Was(mem, root, addr).lvl;
    var next := addr + LvlPages(lvl);
    EndOfBlock(lvl, addr, roots);
    forall q | addr <= q < next
      ensures Block(lvl, q) == Block(lvl, addr) && EntryLvl(mem0, root, first, n, q) == lvl && BusyAt(mem0, root, q)
    {
      BlockIsRun(lvl, addr, q);
      FreeBlock(mem0, mem, lab0, lab, root, roots, addr, lvl, q);
    }
    StepNoStop(mem0, root, roots, first, n, end, lvl, addr, next);
    forall s: nat | first <= s < next ensures BusyIn(mem0, root, roots, s, n) {
      if addr - count <= s {
        BusyThere(mem0, root, roots, s, n, if s < addr then addr else s);
      }
    }
  }

  lemma BusyThere(mem: Memory, root: nat, roots: nat, s: nat, n: nat, q: nat)
    requires s <= q < s + n && q < Total(roots) && BusyAt(mem, root, q)
    ensures BusyIn(mem, root, roots, s, n)
  {
    hide PageIn, Busy;
  }

  /** Making a table of a free block that does not fit. */
  lemma StepTable(mem0: Memory, mem: Memory, mem': Memory, lab0: map<nat, Label>, lab: map<nat, Label>, root: nat, roots: nat,
                  first: nat, n: nat, end: nat, addr: nat, count: nat, lvl: nat)
    requires WellFormed(mem0, lab0, root, roots) && WellFormed(mem, lab, root, roots)
    requires Scanning(mem0, mem, root, roots, first, n, end, addr, count) && addr < Total(roots) && count < n
    requires !BusyAt(mem0, root, addr) && lvl == Was(mem, root, addr).lvl < LVLS
    requires EntryLvl(mem0, root, first, n, addr) != lvl
    requires SamePages(mem, mem', root, roots)
    requires forall q :: 0 <= q < Total(roots) ==>
               if Block(lvl, q) == Block(lvl, addr) then Was(mem', root, q).lvl == lvl + 1
               else Was(mem', root, q) == Was(mem, root, q)
    requires StartsBlock(mem, root, roots, addr) ==> StartsBlock(mem', root, roots, addr)
    ensures Scanning(mem0, mem', root, roots, first, n, end, addr, count)
  {
    hide Term, WellFormed, Block, PageOf, Busy, EntryLvl, NoStop, Passed, StartsBlock;
    assert lvl < EntryLvl(mem0, root, first, n, addr);
    forall q | addr <= q < Total(roots)
      ensures Was(mem0, root, q).lvl <= Was(mem', root, q).lvl <= EntryLvl(mem0, root, first, n, q)
    {
      if Block(lvl, q) == Block(lvl, addr) {
        BlockEntries(mem0, mem, lab0, lab, root, roots, first, n, addr - count, addr, q);
      }
    }
    forall q | 0 <= q < Total(roots) ensures PageIn(mem', root, q) == PageIn(mem0, root, q) {
      assert PageIn(mem', root, q) == PageIn(mem, root, q);
    }
  }

  /** Part-way through a table of level `lvl`, from `addr0` on: the room has been tested at `addr0`, not since. */
  ghost predicate Inside(mem0: Memory, root: nat, roots: nat, first: nat, n: nat, end: nat, lvl: nat, addr0: nat, addr: nat) {
    if addr == addr0 then Test(mem0, root, roots, first, n, addr) && !Stop(mem0, root, roots, first, n, end, addr)
    else first < addr < Total(roots) && EntryLvl(mem0, root, first, n, addr - 1) == lvl
         && TableBlock(lvl, addr - 1) == TableBlock(lvl, addr)
  }

  lemma InsideNoStop(mem0: Memory, root: nat, roots: nat, first: nat, n: nat, end: nat, lvl: nat, addr0: nat, addr: nat)
    requires first <= addr && Inside(mem0, root, roots, first, n, end, lvl, addr0, addr)
    requires EntryLvl(mem0, root, first, n, addr) == lvl
    ensures !Stop(mem0, root, roots, first, n, end, addr)
  {
    hide EntryLvl, Short;
  }

  /** Where the search has to go down it tests the room. */
  lemma InsideTurn(mem0: Memory, root: nat, roots: nat, first: nat, n: nat, end: nat, lvl: nat, addr0: nat, addr: nat)
    requires first <= addr && Inside(mem0, root, roots, first, n, end, lvl, addr0, addr)
    requires EntryLvl(mem0, root, first, n, addr) != lvl
    ensures Test(mem0, root, roots, first, n, addr)
  {
    hide EntryLvl, Short;
  }

  /** After an entry of its own level the search is at the next one, or leaves the table and tests the room. */
  lemma AfterEntry(mem0: Memory, root: nat, roots: nat, first: nat, n: nat, end: nat, lvl: nat, addr0: nat, addr: nat)
    requires lvl < LVLS && first <= addr && addr0 <= addr < Total(roots) && addr % LvlPages(lvl) == 0
    requires EntryLvl(mem0, root, first, n, addr + LvlPages(lvl) - 1) == lvl
    ensures var next := addr + LvlPages(lvl);
            if Index(lvl, addr) + 1 < TableSize(lvl, roots) then Inside(mem0, root, roots, first, n, end, lvl, addr0, next)
            else Test(mem0, root, roots, first, n, next)
  {
    hide EntryLvl, Short, Index, LvlPages, TableSize, TableBlock;
    NextTable(lvl, addr, roots);
  }

  lemma NextTable(lvl: nat, addr: nat, roots: nat)
    requires lvl < LVLS && addr < Total(roots) && addr % LvlPages(lvl) == 0
    ensures var next := addr + LvlPages(lvl);
            if Index(lvl, addr) + 1 < TableSize(lvl, roots)
            then next < Total(roots) && TableBlock(lvl, next - 1) == TableBlock(lvl, next)
            else next <= Total(roots) && (next < Total(roots) ==> TableBlock(lvl, next - 1) != TableBlock(lvl, next))
  {
    var next := addr + LvlPages(lvl);
    EndOfBlock(lvl, addr, roots);
    BlockIsRun(lvl, addr, next - 1);
    assert TableBlock(lvl, next - 1) == TableBlock(lvl, addr) by {
      if lvl > 0 {
        CoarserBlock(lvl - 1, lvl, addr, next - 1);
      }
    }
    if Index(lvl, addr) + 1 < TableSize(lvl, roots) {
      NextEntry(lvl, addr, roots);
    } else {
      LastEntry(lvl, addr, roots);
    }
  }

  lemma LastEntry(lvl: nat, addr: nat, roots: nat)
    requires lvl < LVLS && addr % LvlPages(lvl) == 0 && Index(lvl, addr) + 1 >= TableSize(lvl, roots)
    ensures if lvl == 0 then addr + LvlPages(lvl) >= Total(roots)
            else TableBlock(lvl, addr + LvlPages(lvl)) != TableBlock(lvl, addr)
  {
    if lvl == 1 {
      BlockNests(addr);
      BlockNests(addr + 512);
    }
  }

  lemma ScanStart(mem0: Memory, mem: Memory, root: nat, roots: nat, first: nat, n: nat, end: nat)
    requires !Buried(mem0, root, roots, first) && SamePages(mem0, mem, root, roots)
    requires forall q :: first <= q < Total(roots) ==> Was(mem, root, q) == Was(mem0, root, q) && Was(mem0, root, q).lvl < LVLS
    ensures Scanning(mem0, mem, root, roots, first, n, end, first, 0)
  {
    hide Term, PageOf, Busy;
  }

  // ----- how the search ends

  lemma EndShort(mem0: Memory, mem: Memory, root: nat, roots: nat, first: nat, n: nat, end: nat, addr: nat, count: nat)
    requires Scanning(mem0, mem, root, roots, first, n, end, addr, count) && count < n
    requires Stop(mem0, root, roots, first, n, end, addr)
    ensures GivesUp(mem0, root, roots, first, n, end)
  {
    hide BusyIn, BusyAt, Stop, LevelsOk;
    assert NoRunBefore(mem0, root, roots, first, n, addr);
  }

  lemma EndFound(mem0: Memory, mem: Memory, root: nat, roots: nat, first: nat, n: nat, end: nat, addr: nat)
    requires Scanning(mem0, mem, root, roots, first, n, end, addr, n) && n > 0
    ensures FirstFit(mem0, root, roots, first, n, addr - n) && !GivesUp(mem0, root, roots, first, n, end)
  {
    hide BusyAt, Stop, LevelsOk;
    assert !BusyIn(mem0, root, roots, addr - n, n);
  }

  lemma EndOff(mem0: Memory, mem: Memory, root: nat, roots: nat, first: nat, n: nat, end: nat, addr: nat, count: nat)
    requires Scanning(mem0, mem, root, roots, first, n, end, addr, count) && count < n && addr >= Total(roots)
    requires addr == first || addr == Total(roots)
    requires !Stop(mem0, root, roots, first, n, end, addr)
    ensures NoRunBefore(mem0, root, roots, first, n, Total(roots)) && !GivesUp(mem0, root, roots, first, n, end)
  {
    hide BusyAt, BusyIn, Short, LevelsOk, Turn;
  }

  // ----- what follows for a section

  /** A free run that starts two requests before the end of the section is never given up. */
  lemma RoomForTwo(mem: Memory, root: nat, roots: nat, first: nat, n: nat, end: nat, s: nat)
    requires first <= s && !BusyIn(mem, root, roots, s, n) && end < VA_WRAP
    requires s + 2 * n <= (end + 1) / PAGE_SIZE
    ensures !GivesUp(mem, root, roots, first, n, end)
  {
    hide BusyIn, Test;
    forall c: nat | first <= c && NoRunBefore(mem, root, roots, first, n, c) ensures !Short(end, c, n) {
      assert c < s + n;
      RoomAt(end, c, n);
    }
  }

  /** Inside the section the test compares the pages left with the request. */
  lemma RoomAt(end: nat, c: nat, n: nat)
    requires end < VA_WRAP && c <= (end + 1) / PAGE_SIZE
    ensures c + n <= (end + 1) / PAGE_SIZE ==> !Short(end, c, n)
    ensures c + n > (end + 1) / PAGE_SIZE && c > 0 && n > 0 ==> Short(end, c, n)
  {
  }

  /** The first free run lies inside the section exactly if some free run does. */
  lemma FirstFitInside(mem: Memory, root: nat, roots: nat, first: nat, n: nat, s: nat, top: nat)
    requires FirstFit(mem, root, roots, first, n, s)
    ensures s + n <= top <==> exists t: nat :: first <= t && t + n <= top && !BusyIn(mem, root, roots, t, n)
  {
    hide BusyIn;
  }

  // ----- examples

  /**
   * A section of pages 0 to 767 with nothing in it, and a request for 512 pages from page 256.
   * The search leaves a level-2 table at page 512, finds 256 pages left, and gives up.
   */
  lemma GivesUpExample(mem: Memory)
    requires mem == map[0 := [Invalid(0)]]
    ensures !BusyIn(mem, 0, 1, 256, 512) && GivesUp(mem, 0, 1, 256, 512, 768 * PAGE_SIZE - 1)
  {
    forall q | 0 <= q < Total(1) ensures Was(mem, 0, q) == Terminal(Invalid(0), 0) && !BusyAt(mem, 0, q) {
    }
    hide Term, PageOf, BusyAt;
    RunStartIs(mem, 0, 256, 256, 511);
    RunStartIs(mem, 0, 256, 256, 512);
    assert TakeLvl(0, 511, 256, 512) == 2 && TakeLvl(0, 512, 256, 512) == 2;
    assert Turn(mem, 0, 1, 256, 512, 512);
    assert Stop(mem, 0, 1, 256, 512, 768 * PAGE_SIZE - 1, 512);
  }

  /**
   * A section of pages 0 to 999 whose first 512 pages are reserved by one entry: a request for
   * 512 pages gets pages 512 to 1023, some of them outside the section.
   */
  lemma PastEndExample() returns (mem: Memory, lab: map<nat, Label>)
    ensures WellFormed(mem, lab, 0, 1)
    ensures FirstFit(mem, 0, 1, 0, 512, 512) && !GivesUp(mem, 0, 1, 0, 512, 1000 * PAGE_SIZE - 1)
  {
    mem := map[0 := [Table(1)], 1 := FreeTable(0)[0 := Invalid(RSW_RSRV)]];
    lab := map[0 := Label(0, 0), 1 := Label(1, 0)];
    forall q | 0 <= q < 1024
      ensures Was(mem, 0, q) == Terminal(Invalid(if q < 512 then RSW_RSRV else 0), 1) && BusyAt(mem, 0, q) == (q < 512)
    {
      assert Term(mem, 0, 0, q) == Term(mem, 1, 1, q);
    }
    hide Term, PageOf, BusyAt;
    FirstHalfBusy(mem, 1, 512);
    forall q | 0 <= q < 1024 ensures EntryLvl(mem, 0, 0, 512, q) == 1 {
      if q >= 512 {
        RunStartIs(mem, 0, 0, 512, q);
      }
    }
    OneTable(mem, 1, 512, 1000 * PAGE_SIZE - 1, 1);
  }

  /**
   * A section that is one root entry, all of it mapped, before a root entry that is free: a
   * request for as many pages gets the entry after the section.
   */
  lemma OutsideExample() returns (mem: Memory, lab: map<nat, Label>)
    ensures WellFormed(mem, lab, 0, 2)
    ensures FirstFit(mem, 0, 2, 0, 262144, 262144) && !GivesUp(mem, 0, 2, 0, 262144, 262144 * PAGE_SIZE - 1)
  {
    mem, lab := map[0 := [Leaf(0, 0), Invalid(0)]], map[0 := Label(0, 0)];
    forall q | 0 <= q < Total(2)
      ensures Was(mem, 0, q) == Terminal(if q < 262144 then Leaf(0, 0) else Invalid(0), 0)
      ensures BusyAt(mem, 0, q) == (q < 262144)
    {
    }
    hide Term, PageOf, BusyAt;
    FirstHalfBusy(mem, 2, 262144);
    forall q | 0 <= q < Total(2) ensures EntryLvl(mem, 0, 0, 262144, q) == 0 {
      if q >= 262144 {
        RunStartIs(mem, 0, 0, 262144, q);
      }
    }
    OneTable(mem, 2, 262144, 262144 * PAGE_SIZE - 1, 0);
  }

  /** Half of the first 2 * n pages are busy, the others are not. */
  lemma FirstHalfBusy(mem: Memory, roots: nat, n: nat)
    requires 0 < n && 2 * n <= Total(roots)
    requires forall q :: 0 <= q < 2 * n ==> BusyAt(mem, 0, q) == (q < n)
    ensures FirstFit(mem, 0, roots, 0, n, n)
  {
    hide BusyAt;
    forall s: nat | s < n ensures BusyIn(mem, 0, roots, s, n) {
      assert BusyAt(mem, 0, s);
    }
  }

  /** While the search stays in one table it does not test the room. */
  lemma OneTable(mem: Memory, roots: nat, n: nat, end: nat, lvl: nat)
    requires lvl < 2 && 0 < n && 2 * n <= Total(roots) && 2 * n <= (if lvl == 0 then Total(roots) else 262144)
    requires FirstFit(mem, 0, roots, 0, n, n) && !Short(end, 0, n)
    requires forall q :: 0 <= q < 2 * n ==> EntryLvl(mem, 0, 0, n, q) == lvl
    ensures !GivesUp(mem, 0, roots, 0, n, end)
  {
    hide BusyIn, EntryLvl, Short;
    forall c: nat | NoRunBefore(mem, 0, roots, 0, n, c) ensures !Stop(mem, 0, roots, 0, n, end, c) {
      assert c < n + n;
      if c > 0 {
        assert EntryLvl(mem, 0, 0, n, c - 1) == EntryLvl(mem, 0, 0, n, c) == lvl;
      }
    }
  }
}
