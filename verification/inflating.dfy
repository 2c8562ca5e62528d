/**
 * What mem_inflate_pt does to a page table: it steps through a range by the size of a block
 * and makes a table of every entry it lands on.
 */
module Inflating {
  import opened PageTable
  import opened Unmapping

  /** How many steps of one level-`lvl` block cover `n` pages. */
  function Steps(lvl: nat, n: nat): nat {
    if lvl == 0 then (n + 262143) / 262144 else (n + 511) / 512
  }

  /** The first `m` steps from `v` land in the block of `q`. */
  ghost predicate Visited(lvl: nat, v: nat, m: nat, q: nat) {
    Block(lvl, v) <= Block(lvl, q) < Block(lvl, v) + m
  }

  /** The last block of the range is one the steps do not land in. */
  ghost predicate Missed(lvl: nat, v: nat, n: nat)
    requires n > 0
  {
    !Visited(lvl, v, Steps(lvl, n), v + n - 1)
  }

  /**
   * When the coloured path of mem_map can map v .. v + n - 1: at both upper levels the steps
   * reach the last block of the range, or it has a table already.
   */
  ghost predicate Inflatable(mem: Memory, root: nat, v: nat, n: nat) {
    n > 0 ==>
      && (Missed(0, v, n) ==> Was(mem, root, v + n - 1).lvl > 0)
      && (Missed(1, v, n) ==> Was(mem, root, v + n - 1).lvl > 1)
  }

  /** The terminal entry of `q` before and after its level-`lvl` entry was made a table. */
  ghost predicate Split(before: Terminal, after: Terminal, flags: nat, lvl: nat, q: nat) {
    && after.lvl == lvl + 1 && after.pte.Leaf? == before.pte.Leaf?
    && (PageOf(after, q) == PageOf(before, q) || PageOf(after, q) == Reflag(PageOf(before, q), flags))
  }

  /** From `mem`, the entries of level `lvl` in the first `m` blocks from `v` are tables. */
  ghost predicate Inflated(mem: Memory, mem': Memory, root: nat, roots: nat, flags: nat, lvl: nat, v: nat, m: nat) {
    forall q :: 0 <= q < Total(roots) ==>
      if Visited(lvl, v, m, q) && Was(mem, root, q).lvl == lvl
      then Split(Was(mem, root, q), Was(mem', root, q), flags, lvl, q)
      else Was(mem', root, q) == Was(mem, root, q)
  }

  /** The block of the m-th step. */
  lemma StepBlock(lvl: nat, v: nat, m: nat)
    requires lvl < 2
    ensures Block(lvl, v + Span(lvl, m)) == Block(lvl, v) + m
  {
  }

  lemma StepCount(lvl: nat, n: nat, m: nat)
    requires lvl < 2
    ensures m < Steps(lvl, n) <==> Span(lvl, m) < n
    ensures Span(lvl, m + 1) == Span(lvl, m) + LvlPages(lvl)
  {
  }

  /** One more step. */
  lemma InflateMore(mem0: Memory, mem: Memory, mem': Memory, root: nat, roots: nat, flags: nat,
                    lvl: nat, v: nat, m: nat, page: nat)
    requires Inflated(mem0, mem, root, roots, flags, lvl, v, m)
    requires Block(lvl, page) == Block(lvl, v) + m
    requires forall q :: 0 <= q < Total(roots) ==>
               if Block(lvl, q) == Block(lvl, page) && Was(mem, root, q).lvl == lvl
               then Split(Was(mem, root, q), Was(mem', root, q), flags, lvl, q)
               else Was(mem', root, q) == Was(mem, root, q)
    ensures Inflated(mem0, mem', root, roots, flags, lvl, v, m + 1)
  {
    hide Term, Block, PageOf;
  }

  lemma InflatedLow(mem0: Memory, mem: Memory, root: nat, roots: nat, flags: nat, lvl: nat, v: nat, m: nat, q: nat)
    requires Inflated(mem0, mem, root, roots, flags, lvl, v, m) && q < Total(roots)
    ensures Was(mem, root, q).lvl < lvl ==> Was(mem0, root, q).lvl < lvl
  {
    hide Term, Block, Visited;
  }

  lemma InflateNone(mem: Memory, root: nat, roots: nat, flags: nat, lvl: nat, v: nat)
    ensures Inflated(mem, mem, root, roots, flags, lvl, v, 0)
  {
    hide Term, Block;
  }

  /** Blocks between the first and the last of a range are all reached. */
  lemma OnlyLastMissed(lvl: nat, v: nat, n: nat, q: nat)
    requires lvl < 2 && v <= q < v + n
    ensures Visited(lvl, v, Steps(lvl, n), q) || (Missed(lvl, v, n) && Block(lvl, q) == Block(lvl, v + n - 1))
    ensures !Missed(lvl, v, n) ==> Visited(lvl, v, Steps(lvl, n), q)
    ensures Missed(lvl, v, n) && Block(lvl, q) == Block(lvl, v + n - 1) ==> !Visited(lvl, v, Steps(lvl, n), q)
  {
  }

  /** After both levels every page of the range has a last-level entry, exactly when Inflatable. */
  lemma InflatedLevels(mem0: Memory, mem1: Memory, mem2: Memory, lab: map<nat, Label>, root: nat, roots: nat,
                       flags: nat, v: nat, n: nat)
    requires WellFormed(mem0, lab, root, roots) && v + n <= Total(roots)
    requires Inflated(mem0, mem1, root, roots, flags, 0, v, Steps(0, n))
    requires Inflated(mem1, mem2, root, roots, flags, 1, v, Steps(1, n))
    ensures Inflatable(mem0, root, v, n) ==> forall q :: v <= q < v + n ==> Was(mem2, root, q).lvl == 2
    ensures !Inflatable(mem0, root, v, n) ==> n > 0 && Was(mem2, root, v + n - 1).lvl < 2
  {
    hide Term, Block, PageOf, WellFormed, Visited;
    if n > 0 {
      var last := v + n - 1;
      OnlyLastMissed(0, v, n, last);
      OnlyLastMissed(1, v, n, last);
      SameTerm(mem0, lab, root, roots, last, last);
      forall q | v <= q < v + n ensures Inflatable(mem0, root, v, n) ==> Was(mem2, root, q).lvl == 2 {
        OnlyLastMissed(0, v, n, q);
        OnlyLastMissed(1, v, n, q);
        SameTerm(mem0, lab, root, roots, q, last);
        SameTerm(mem0, lab, root, roots, last, q);
        CoarserBlocks(q, last);
      }
    }
  }

  lemma CoarserBlocks(a: nat, b: nat)
    ensures Block(1, a) == Block(1, b) ==> Block(0, a) == Block(0, b)
  {
    BlockNests(a);
    BlockNests(b);
  }

  /** Every page keeps its frame and its reservation, and its flags unless a superpage was split. */
  lemma InflatedKeeps(mem0: Memory, mem1: Memory, mem2: Memory, root: nat, roots: nat, flags: nat, v: nat, n: nat, q: nat)
    requires q < Total(roots)
    requires Inflated(mem0, mem1, root, roots, flags, 0, v, Steps(0, n))
    requires Inflated(mem1, mem2, root, roots, flags, 1, v, Steps(1, n))
    ensures PageIn(mem2, root, q) == PageIn(mem0, root, q) || PageIn(mem2, root, q) == Reflag(PageIn(mem0, root, q), flags)
    ensures Was(mem0, root, q).lvl == 2 ==> PageIn(mem2, root, q) == PageIn(mem0, root, q)
  {
    hide Term, Block, Visited;
  }

  /** A walk that runs through a leaf at the second level met a block the first level missed. */
  lemma WildStep(mem0: Memory, mem1: Memory, lab: map<nat, Label>, root: nat, roots: nat, flags: nat,
                 v: nat, n: nat, page: nat)
    requires WellFormed(mem0, lab, root, roots) && v + n <= Total(roots) && v <= page < v + n
    requires Inflated(mem0, mem1, root, roots, flags, 0, v, Steps(0, n))
    requires Was(mem1, root, page).lvl == 0
    ensures !Inflatable(mem0, root, v, n)
  {
    hide Term, Block, PageOf, WellFormed, Visited;
    OnlyLastMissed(0, v, n, page);
    SameTerm(mem0, lab, root, roots, page, v + n - 1);
  }

  /** Two coloured pages on both sides of a 2 MiB boundary of an empty table cannot be mapped. */
  lemma MissedExample() returns (mem: Memory, lab: map<nat, Label>)
    ensures WellFormed(mem, lab, 0, 1) && (forall q :: 0 <= q < Total(1) ==> PageIn(mem, 0, q) == Free(0))
    ensures !Inflatable(mem, 0, 511, 2)
  {
    mem, lab := map[0 := [Invalid(0)]], map[0 := Label(0, 0)];
    assert Was(mem, 0, 512).lvl == 0 && Missed(1, 511, 2);
  }
}
