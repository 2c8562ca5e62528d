/**
 * What mem_unmap has done to a page table part-way through, as a relation between the
 * memory it started from and the memory it has reached. AddrSpaces uses it as its invariant.
 */
module Unmapping {
  import opened Frames
  import opened PageTable

  /** The entry that decides page `q`. */
  ghost function Was(mem: Memory, root: nat, q: nat): Terminal {
    Term(mem, root, 0, q)
  }

  ghost function PageIn(mem: Memory, root: nat, q: nat): Page {
    PageOf(Was(mem, root, q), q)
  }

  /** The page with its flags replaced. */
  function Reflag(p: Page, flags: nat): Page {
    if p.Mapped? then Mapped(p.pfn, flags) else p
  }

  ghost predicate AllMapped(mem: Memory, root: nat, at: nat, top: nat) {
    forall q :: at <= q < top ==> Was(mem, root, q).pte.Leaf?
  }

  /**
   * Boundary `b` of two root entries is one the walk of mem_unmap cannot cross: it arrives
   * at level 2, steps up to level 1, and finds no table of that level at `b`.
   */
  ghost predicate Stuck(mem: Memory, root: nat, at: nat, top: nat, b: nat) {
    && at < b < top && b % 262144 == 0
    && Was(mem, root, b).lvl == 0
    && (Was(mem, root, b - 1).lvl == 2 || at + 512 > b)
  }

  /** Some root boundary inside the range stops mem_unmap. */
  ghost predicate Blocked(mem: Memory, root: nat, at: nat, top: nat) {
    exists b :: Stuck(mem, root, at, top, b)
  }

  ghost predicate FreeWay(mem: Memory, root: nat, at: nat, v: int, top: nat) {
    forall b :: at < b <= v ==> !Stuck(mem, root, at, top, b)
  }

  /** The block that decided `q` meets the range at .. top - 1. */
  ghost predicate Meets(t: Terminal, q: nat, at: nat, top: nat) {
    at < top && BlockBase(t.lvl, q) < top && at < BlockBase(t.lvl, q) + LvlPages(t.lvl)
  }

  /** Page `q` maps where it did; its flags are lost exactly if its superpage, which met the range, was split. */
  ghost predicate Kept(mem0: Memory, mem: Memory, root: nat, flags: nat, at: nat, top: nat, q: nat) {
    var before, split := Was(mem0, root, q), Was(mem0, root, q).lvl < Was(mem, root, q).lvl;
    && PageIn(mem, root, q) == (if split then Reflag(PageIn(mem0, root, q), flags) else PageIn(mem0, root, q))
    && (split ==> Meets(before, q, at, top))
  }

  ghost predicate KeptOutside(mem0: Memory, mem: Memory, root: nat, roots: nat, flags: nat, at: nat, top: nat) {
    forall q :: 0 <= q < Total(roots) && !(at <= q < top) ==> Kept(mem0, mem, root, flags, at, top, q)
  }

  /** From `mem0`, at .. v - 1 are cleared, and otherwise superpages split. */
  ghost predicate Cleared(mem0: Memory, mem: Memory, root: nat, roots: nat, flags: nat, at: nat, v: nat, top: nat) {
    && (forall q :: at <= q < v ==> Was(mem, root, q).pte == Invalid(0))
    && (forall q :: 0 <= q < Total(roots) && !(at <= q < v) ==>
          Was(mem0, root, q).lvl <= Was(mem, root, q).lvl && Kept(mem0, mem, root, flags, at, top, q))
    && (forall q :: v <= q < top && Was(mem, root, q).lvl == 2 && Was(mem0, root, q).lvl < 2 ==>
          !(at <= BlockBase(1, q) && BlockBase(1, q) + 512 <= top))
    && (forall q :: 0 <= q < Total(roots) && v / 262144 < q / 262144 ==> Was(mem, root, q) == Was(mem0, root, q))
  }

  /** Clearing the block at `v` moves the frontier past it. */
  lemma ClearBlock(mem0: Memory, mem: Memory, mem': Memory, root: nat, roots: nat, flags: nat,
                   at: nat, v: nat, top: nat, lvl: nat)
    requires lvl < LVLS && at <= v && v + LvlPages(lvl) <= top <= Total(roots) && v % LvlPages(lvl) == 0
    requires Cleared(mem0, mem, root, roots, flags, at, v, top)
    requires forall q :: 0 <= q < Total(roots) ==>
               Was(mem', root, q) == (if Block(lvl, q) == Block(lvl, v) then Terminal(Invalid(0), lvl) else Was(mem, root, q))
    ensures Cleared(mem0, mem', root, roots, flags, at, v + LvlPages(lvl), top)
  {
    hide Term;
    forall q | 0 <= q < Total(roots)
      ensures Was(mem', root, q) == (if v <= q < v + LvlPages(lvl) then Terminal(Invalid(0), lvl) else Was(mem, root, q))
    {
      BlockIsRun(lvl, v, q);
    }
  }

  /** A leaf at the frontier that reaches outside the range was cut by the range in `mem0` too. */
  lemma SplitBlock(mem0: Memory, mem: Memory, lab: map<nat, Label>, root: nat, roots: nat, flags: nat,
                   at: nat, v: nat, top: nat, lvl: nat, q: nat)
    requires WellFormed(mem, lab, root, roots) && at <= v < top <= Total(roots) && q < Total(roots)
    requires Was(mem, root, v).pte.Leaf? && Was(mem, root, v).lvl == lvl
    requires Cleared(mem0, mem, root, roots, flags, at, v, top) && Block(lvl, q) == Block(lvl, v)
    ensures Was(mem, root, q) == Was(mem, root, v) && !(at <= q < v)
    ensures Was(mem0, root, q).lvl <= lvl < LVLS && Meets(Was(mem0, root, q), q, at, top)
    ensures Reflag(PageIn(mem, root, q), flags) == Reflag(PageIn(mem0, root, q), flags)
  {
    hide Term, WellFormed, Index;
    SameTerm(mem, lab, root, roots, v, q);
    assert Was(mem, root, q).pte.Leaf?;
    assert !(at <= q < v);
    assert Was(mem0, root, q).lvl <= Was(mem, root, q).lvl;
    CoarserBlock(Was(mem0, root, q).lvl, lvl, q, v);
  }

  /** Once the range is cleared, the flags are lost exactly where a superpage met it. */
  lemma KeptExactly(mem0: Memory, mem: Memory, lab0: map<nat, Label>, lab: map<nat, Label>, root: nat, roots: nat, flags: nat,
                    at: nat, top: nat, q: nat)
    requires WellFormed(mem0, lab0, root, roots) && WellFormed(mem, lab, root, roots) && top <= Total(roots)
    requires AllMapped(mem0, root, at, top) && forall p :: at <= p < top ==> Was(mem, root, p).pte == Invalid(0)
    requires q < Total(roots) && !(at <= q < top) && Was(mem0, root, q).lvl <= Was(mem, root, q).lvl
    requires Kept(mem0, mem, root, flags, at, top, q)
    ensures PageIn(mem, root, q) == if Meets(Was(mem0, root, q), q, at, top) then Reflag(PageIn(mem0, root, q), flags)
                                    else PageIn(mem0, root, q)
  {
    hide Term, WellFormed, Index, Block, Span;
    var lvl := Was(mem0, root, q).lvl;
    SameTerm(mem0, lab0, root, roots, q, q);
    if Meets(Was(mem0, root, q), q, at, top) && Was(mem, root, q).lvl == lvl {
      BlockFits(lvl, q, roots);
      var p := if at < BlockBase(lvl, q) then BlockBase(lvl, q) else at;
      BlockIsRun(lvl, BlockBase(lvl, q), p);
      BlockIsRun(lvl, BlockBase(lvl, q), q);
      StillMapped(mem0, mem, lab0, lab, root, roots, flags, at, top, q, p);
      assert false;
    }
  }

  /** A superpage that was not split maps all of its pages. */
  lemma StillMapped(mem0: Memory, mem: Memory, lab0: map<nat, Label>, lab: map<nat, Label>, root: nat, roots: nat, flags: nat,
                    at: nat, top: nat, q: nat, p: nat)
    requires WellFormed(mem0, lab0, root, roots) && WellFormed(mem, lab, root, roots)
    requires q < Total(roots) && p < Total(roots) && Was(mem0, root, p).pte.Leaf?
    requires Was(mem0, root, q).lvl == Was(mem, root, q).lvl && Kept(mem0, mem, root, flags, at, top, q)
    requires Block(Was(mem, root, q).lvl, p) == Block(Was(mem, root, q).lvl, q)
    ensures Was(mem, root, p).pte.Leaf?
  {
    hide Term, WellFormed, Block;
    SameTerm(mem0, lab0, root, roots, q, p);
    SameTerm(mem, lab, root, roots, q, p);
  }

  /** Splitting a leaf at the frontier that reaches outside the range keeps the relation. */
  lemma SplitKeeps(mem0: Memory, mem: Memory, mem': Memory, lab: map<nat, Label>, root: nat, roots: nat, flags: nat,
                   at: nat, v: nat, top: nat, lvl: nat)
    requires WellFormed(mem, lab, root, roots) && at <= v < top <= Total(roots)
    requires Was(mem, root, v).pte.Leaf? && Was(mem, root, v).lvl == lvl < LVLS - 1
    requires v > BlockBase(lvl, v) || top < BlockBase(lvl, v) + LvlPages(lvl)
    requires Cleared(mem0, mem, root, roots, flags, at, v, top)
    requires forall q :: 0 <= q < Total(roots) && Block(lvl, q) != Block(lvl, v) ==> Was(mem', root, q) == Was(mem, root, q)
    requires forall q :: 0 <= q < Total(roots) && Block(lvl, q) == Block(lvl, v) ==>
               && Was(mem', root, q).lvl == lvl + 1
               && PageIn(mem', root, q) == Reflag(PageIn(mem, root, q), flags)
    ensures Cleared(mem0, mem', root, roots, flags, at, v, top)
  {
    hide Term, WellFormed, Index, Kept, PageIn, BlockBase;
    forall q | 0 <= q < Total(roots) && Block(lvl, q) == Block(lvl, v)
      ensures !(at <= q < v) && q / 262144 == v / 262144
      ensures Was(mem0, root, q).lvl <= lvl && Kept(mem0, mem', root, flags, at, top, q)
      ensures lvl == 1 ==> !(at <= BlockBase(1, q) && BlockBase(1, q) + 512 <= top)
    {
      SplitPage(mem0, mem, mem', lab, root, roots, flags, at, v, top, lvl, q);
    }
    forall q | 0 <= q < Total(roots) && Block(lvl, q) != Block(lvl, v)
      ensures Kept(mem0, mem', root, flags, at, top, q) == Kept(mem0, mem, root, flags, at, top, q)
    {
      KeptSame(mem0, mem, mem', root, flags, at, top, q);
    }
  }

  lemma KeptSame(mem0: Memory, mem: Memory, mem': Memory, root: nat, flags: nat, at: nat, top: nat, q: nat)
    requires Was(mem', root, q) == Was(mem, root, q)
    ensures Kept(mem0, mem', root, flags, at, top, q) == Kept(mem0, mem, root, flags, at, top, q)
  {
    hide Term, PageOf, Meets;
  }

  /** One page of the block that was split. */
  lemma SplitPage(mem0: Memory, mem: Memory, mem': Memory, lab: map<nat, Label>, root: nat, roots: nat, flags: nat,
                  at: nat, v: nat, top: nat, lvl: nat, q: nat)
    requires WellFormed(mem, lab, root, roots) && at <= v < top <= Total(roots) && q < Total(roots)
    requires Was(mem, root, v).pte.Leaf? && Was(mem, root, v).lvl == lvl < LVLS - 1
    requires v > BlockBase(lvl, v) || top < BlockBase(lvl, v) + LvlPages(lvl)
    requires Cleared(mem0, mem, root, roots, flags, at, v, top) && Block(lvl, q) == Block(lvl, v)
    requires PageIn(mem', root, q) == Reflag(PageIn(mem, root, q), flags) && Was(mem', root, q).lvl == lvl + 1
    ensures !(at <= q < v) && q / 262144 == v / 262144
    ensures Was(mem0, root, q).lvl <= lvl && Kept(mem0, mem', root, flags, at, top, q)
    ensures lvl == 1 ==> !(at <= BlockBase(1, q) && BlockBase(1, q) + 512 <= top)
  {
    hide Term, WellFormed, Index, Cleared;
    BlockFits(lvl, v, roots);
    SplitBlock(mem0, mem, lab, root, roots, flags, at, v, top, lvl, q);
    SplitBlock(mem0, mem, lab, root, roots, flags, at, v, top, lvl, BlockBase(lvl, v));
    CoarserBlock(0, lvl, q, v);
  }

  /** Where the frontier may stand after the block at `v` of level `lvl` is cleared. */
  lemma FreeWayStep(mem0: Memory, mem: Memory, root: nat, roots: nat, flags: nat, at: nat, v: nat, top: nat, lvl: nat)
    requires lvl < LVLS && at <= v && v + LvlPages(lvl) <= top <= Total(roots) && v % LvlPages(lvl) == 0
    requires Cleared(mem0, mem, root, roots, flags, at, v, top) && Was(mem, root, v).lvl == lvl
    requires Was(mem, root, v + LvlPages(lvl) - 1) == Was(mem, root, v)
    requires FreeWay(mem0, root, at, v, top)
    ensures FreeWay(mem0, root, at, v + LvlPages(lvl) - 1, top)
    ensures var b := v + LvlPages(lvl);
            b < top && Stuck(mem0, root, at, top, b) <==>
            b < top && b % 262144 == 0 && lvl == 2 && Was(mem, root, b).lvl == 0
  {
    hide Term;
    var b := v + LvlPages(lvl);
    forall c | at < c < b ensures !Stuck(mem0, root, at, top, c) {
      if v < c {
        NoBoundaryInside(lvl, v, c);
      }
    }
    if b < top && b % 262144 == 0 {
      BoundaryStep(mem0, mem, root, roots, flags, at, v, top, lvl);
    }
  }

  lemma BoundaryStep(mem0: Memory, mem: Memory, root: nat, roots: nat, flags: nat, at: nat, v: nat, top: nat, lvl: nat)
    requires lvl < LVLS && at <= v && v + LvlPages(lvl) < top <= Total(roots) && v % LvlPages(lvl) == 0
    requires Cleared(mem0, mem, root, roots, flags, at, v, top)
    requires Was(mem, root, v + LvlPages(lvl) - 1).lvl == lvl
    requires (v + LvlPages(lvl)) % 262144 == 0
    ensures var b := v + LvlPages(lvl);
            Stuck(mem0, root, at, top, b) <==> lvl == 2 && Was(mem, root, b).lvl == 0
  {
    hide Term, Kept, Block, Span;
    var b := v + LvlPages(lvl);
    BoundaryBlocks(v, b);
    assert Was(mem, root, b) == Was(mem0, root, b);
    assert Was(mem0, root, b - 1).lvl <= lvl;
  }

  lemma BoundaryBlocks(v: nat, b: nat)
    requires v < b && b % 262144 == 0
    ensures v / 262144 < b / 262144 && BlockBase(1, b - 1) == b - 512
  {
  }

  /** The frames that pages lo .. hi - 1 map to. */
  ghost function FramesOf(mem: Memory, root: nat, lo: nat, hi: nat): (r: set<nat>)
    ensures forall q :: lo <= q < hi && PageIn(mem, root, q).Mapped? ==> PageIn(mem, root, q).pfn in r
    ensures forall f :: f in r ==> exists q :: lo <= q < hi && PageIn(mem, root, q).Mapped? && PageIn(mem, root, q).pfn == f
  {
    set q: nat | lo <= q < hi && PageIn(mem, root, q).Mapped? :: PageIn(mem, root, q).pfn
  }

  /** Freeing the pages' frames frees pool frames only, none that holds a table, none twice. */
  ghost predicate OwnFrames(mem: Memory, root: nat, frames: set<nat>, at: nat, top: nat) {
    && (forall q :: at <= q < top && PageIn(mem, root, q).Mapped? ==>
          PageIn(mem, root, q).pfn in frames && PageIn(mem, root, q).pfn !in mem)
    && (forall q, q' :: at <= q < q' < top && PageIn(mem, root, q).Mapped? && PageIn(mem, root, q').Mapped? ==>
          PageIn(mem, root, q).pfn != PageIn(mem, root, q').pfn)
  }

  /** The pools part-way: the frames of at .. v - 1 given back, those of new tables taken. */
  ghost predicate Accounted(mem0: Memory, frames0: set<nat>, mem: Memory, frames: set<nat>, root: nat,
                            at: nat, v: nat, top: nat, free: bool) {
    && mem0.Keys <= mem.Keys <= frames
    && frames == (frames0 - (if free then FramesOf(mem0, root, at, v) else {})) + (mem.Keys - mem0.Keys)
    && (free ==> forall q :: v <= q < top && PageIn(mem0, root, q).Mapped? ==>
          PageIn(mem0, root, q).pfn in frames && PageIn(mem0, root, q).pfn !in mem)
  }

  lemma AccountedTable(mem0: Memory, frames0: set<nat>, mem: Memory, frames: set<nat>, mem': Memory, frames': set<nat>,
                       root: nat, at: nat, v: nat, top: nat, free: bool)
    requires Accounted(mem0, frames0, mem, frames, root, at, v, top, free)
    requires mem.Keys <= mem'.Keys && (mem'.Keys - mem.Keys) !! frames && frames' == frames + (mem'.Keys - mem.Keys)
    ensures Accounted(mem0, frames0, mem', frames', root, at, v, top, free)
  {
  }

  lemma AccountedFree(mem0: Memory, frames0: set<nat>, mem: Memory, frames: set<nat>, root: nat,
                      at: nat, v: nat, n: nat, top: nat, free: bool)
    requires at <= v && v + n <= top
    requires Accounted(mem0, frames0, mem, frames, root, at, v, top, free)
    requires AllMapped(mem0, root, at, top)
    requires free ==> OwnFrames(mem0, root, frames0, at, top)
    ensures var frames' := if free then frames - FramesOf(mem0, root, v, v + n) else frames;
            mem.Keys <= frames' && Accounted(mem0, frames0, mem, frames', root, at, v + n, top, free)
  {
    hide Term, FramesOf, PageIn, PageOf;
    assert FramesOf(mem0, root, at, v + n) == FramesOf(mem0, root, at, v) + FramesOf(mem0, root, v, v + n);
  }

  lemma AccountedSame(mem0: Memory, frames0: set<nat>, mem: Memory, mem': Memory, frames: set<nat>, root: nat,
                      at: nat, v: nat, top: nat, free: bool)
    requires Accounted(mem0, frames0, mem, frames, root, at, v, top, free) && mem'.Keys == mem.Keys
    ensures Accounted(mem0, frames0, mem', frames, root, at, v, top, free)
  {
    hide Term, FramesOf, PageIn, PageOf;
  }

  /** Consecutive pages on consecutive frames. */
  lemma FramesOfRun(mem: Memory, root: nat, v: nat, n: nat, pfn: nat)
    requires forall q :: v <= q < v + n ==> PageIn(mem, root, q).Mapped? && PageIn(mem, root, q).pfn == pfn + (q - v)
    ensures FramesOf(mem, root, v, v + n) == Run(pfn, n)
  {
    forall f | f in Run(pfn, n) ensures f in FramesOf(mem, root, v, v + n) {
      assert PageIn(mem, root, v + (f - pfn)).pfn == f;
    }
  }

  lemma FreeWayLonger(mem: Memory, root: nat, at: nat, v: nat, top: nat)
    requires FreeWay(mem, root, at, v - 1, top) && !Stuck(mem, root, at, top, v)
    ensures FreeWay(mem, root, at, v, top)
  {
  }

  lemma FreeWayShorter(mem: Memory, root: nat, at: nat, v: nat, top: nat)
    requires FreeWay(mem, root, at, v, top)
    ensures FreeWay(mem, root, at, v - 1, top)
  {
  }

  /** Two pages that straddle two root superpages: mem_unmap cannot cross from one to the other. */
  lemma BlockedExample() returns (mem: Memory, lab: map<nat, Label>)
    ensures WellFormed(mem, lab, 0, 2) && AllMapped(mem, 0, 262143, 262145)
    ensures Blocked(mem, 0, 262143, 262145)
  {
    mem, lab := map[0 := [Leaf(0, 0), Leaf(262144, 0)]], map[0 := Label(0, 0)];
    assert Stuck(mem, 0, 262143, 262145, 262144);
  }
}
