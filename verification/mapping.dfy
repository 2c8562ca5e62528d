/**
 * Which existing mappings mem_map notices. It searches for a level at one page, fills entries
 * of the table it found until that table or the request ends, and searches again at the next
 * page. Only a page at which it searches can stop it; whatever the fill meets it overwrites.
 */
module Mapping {
  import opened Arith
  import opened PageTable
  import opened Unmapping

  /** The level a search settles at for a page decided at level `lvl`: the first that fits. */
  function FillLvl(lvl: nat, vpn: nat, left: nat, pfn: nat): (r: nat)
    ensures r < LVLS && (left > 0 ==> LvlPages(r) <= left) && vpn % LvlPages(r) == 0 && pfn % LvlPages(r) == 0
    decreases LVLS - lvl
  {
    if lvl >= LVLS - 1 then LVLS - 1
    else if LvlPages(lvl) <= left && vpn % LvlPages(lvl) == 0 && pfn % LvlPages(lvl) == 0 then lvl
    else FillLvl(lvl + 1, vpn, left, pfn)
  }

  /** How many entries of its table a fill at level `lvl` writes. */
  function FillCount(lvl: nat, vpn: nat, left: nat, roots: nat): (r: nat)
    requires lvl < LVLS && vpn < Total(roots)
    ensures LvlPages(lvl) <= left ==> r > 0
    ensures Span(lvl, r) <= left
  {
    ChildBase(lvl, vpn, roots);
    var entries := TableSize(lvl, roots) - Index(lvl, vpn);
    if entries < left / LvlPages(lvl) then entries else left / LvlPages(lvl)
  }

  /** The pages from `vpn` to the next page at which mem_map searches. */
  ghost function FillPages(mem: Memory, root: nat, roots: nat, vpn: nat, left: nat, pfn: nat): (r: nat)
    requires vpn < Total(roots) && left > 0
    ensures 0 < r <= left
  {
    var lvl := FillLvl(Was(mem, root, vpn).lvl, vpn, left, pfn);
    Span(lvl, FillCount(lvl, vpn, left, roots))
  }

  /** One of the pages at which mem_map searches, on its way over the range, is mapped. */
  ghost predicate Noticed(mem: Memory, root: nat, roots: nat, vpn: nat, left: nat, pfn: nat)
    requires vpn + left <= Total(roots)
    decreases left
  {
    left > 0 &&
    (PageIn(mem, root, vpn).Mapped? ||
     var n := FillPages(mem, root, roots, vpn, left, pfn);
     Noticed(mem, root, roots, vpn + n, left - n, pfn + n))
  }

  /** Levels at which the page does not start a block do not matter. */
  lemma {:induction false} FillLvlSame(lvl: nat, lvl': nat, vpn: nat, left: nat, pfn: nat)
    requires lvl <= lvl' < LVLS
    requires forall k :: lvl <= k < lvl' ==> vpn % LvlPages(k) != 0
    ensures FillLvl(lvl, vpn, left, pfn) == FillLvl(lvl', vpn, left, pfn)
    decreases lvl' - lvl
  {
    if lvl < lvl' {
      FillLvlSame(lvl + 1, lvl', vpn, left, pfn);
    }
  }

  /** A later page of a block does not start it. */
  lemma InsideBlock(lvl: nat, p: nat, q: nat)
    requires lvl < LVLS && Block(lvl, p) == Block(lvl, q) && p < q
    ensures q % LvlPages(lvl) != 0
  {
  }

  /**
   * Where no block of 512 pages fits, the searches are at the first page and at each multiple
   * of 512: exactly these pages are noticed.
   */
  lemma {:induction false} SmallPagesNoticed(mem: Memory, root: nat, roots: nat, vpn: nat, left: nat, pfn: nat)
    requires vpn + left <= Total(roots) && (left < 512 || vpn % 512 != pfn % 512)
    ensures Noticed(mem, root, roots, vpn, left, pfn) <==>
            exists q :: vpn <= q < vpn + left && (q == vpn || q % 512 == 0) && PageIn(mem, root, q).Mapped?
    decreases left
  {
    hide PageIn, FillPages, Total;
    if left > 0 && !PageIn(mem, root, vpn).Mapped? {
      var n := SmallFill(mem, root, roots, vpn, left, pfn);
      SmallPagesNoticed(mem, root, roots, vpn + n, left - n, pfn + n);
    }
  }

  lemma SmallFill(mem: Memory, root: nat, roots: nat, vpn: nat, left: nat, pfn: nat) returns (n: nat)
    requires vpn + left <= Total(roots) && left > 0 && (left < 512 || vpn % 512 != pfn % 512)
    ensures n == FillPages(mem, root, roots, vpn, left, pfn)
    ensures n < left ==> (vpn + n) % 512 == 0 && (left - n < 512 || (vpn + n) % 512 != (pfn + n) % 512)
    ensures forall q :: vpn < q < vpn + left && q % 512 == 0 ==> vpn + n <= q
  {
    hide PageOf, Term, FillLvl;
    NoBigBlock(Was(mem, root, vpn).lvl, vpn, left, pfn);
    n := if 512 - vpn % 512 < left then 512 - vpn % 512 else left;
  }

  lemma NoBigBlock(lvl: nat, vpn: nat, left: nat, pfn: nat)
    requires left < 512 || vpn % 512 != pfn % 512
    ensures FillLvl(lvl, vpn, left, pfn) == LVLS - 1
  {
    BigAligned(vpn);
    BigAligned(pfn);
  }

  lemma BigAligned(vpn: nat)
    ensures vpn % 262144 == 0 ==> vpn % 512 == 0
  {
    if vpn % 262144 == 0 {
      DivModUnique(vpn, 512, vpn / 262144 * 512, 0);
    }
  }

  // ----- what the loops of mem_map do to the pages still ahead of them

  /** Page `q` is as in `mem0`, but for tables made of blocks that it does not start. */
  ghost predicate UntouchedAt(mem0: Memory, mem: Memory, root: nat, q: nat) {
    && Was(mem0, root, q).lvl <= Was(mem, root, q).lvl && PageIn(mem, root, q) == PageIn(mem0, root, q)
    && (forall k :: Was(mem0, root, q).lvl <= k < Was(mem, root, q).lvl ==> q % LvlPages(k) != 0)
  }

  ghost predicate Untouched(mem0: Memory, mem: Memory, root: nat, roots: nat, p: nat) {
    forall q :: p <= q < Total(roots) ==> UntouchedAt(mem0, mem, root, q)
  }

  lemma UntouchedStart(mem: Memory, root: nat, roots: nat, p: nat)
    ensures Untouched(mem, mem, root, roots, p)
  {
    hide Term, PageOf;
  }

  /** No page changed, and only blocks that hold page `p` got new tables. */
  ghost predicate Deepened(mem: Memory, mem': Memory, root: nat, roots: nat, p: nat) {
    forall q :: 0 <= q < Total(roots) ==>
      && PageIn(mem', root, q) == PageIn(mem, root, q) && Was(mem, root, q).lvl <= Was(mem', root, q).lvl
      && SamePath(Was(mem, root, q).lvl, Was(mem', root, q).lvl, q, p)
  }

  ghost predicate SamePath(lvl: nat, lvl': nat, q: nat, p: nat) {
    forall k :: lvl <= k < lvl' ==> k < LVLS && Block(k, q) == Block(k, p)
  }

  lemma DeepenedNone(mem: Memory, root: nat, roots: nat, p: nat)
    ensures Deepened(mem, mem, root, roots, p)
  {
    hide Term, PageOf;
  }

  /** One more table, of level `lvl + 1`, under the entry of page `p`. */
  lemma DeepenedMore(mem: Memory, mem1: Memory, mem2: Memory, root: nat, roots: nat, p: nat, lvl: nat)
    requires lvl < LVLS && Deepened(mem, mem1, root, roots, p)
    requires forall q :: 0 <= q < Total(roots) ==> Grown(Was(mem1, root, q), Was(mem2, root, q), lvl, q, p)
    requires forall q :: 0 <= q < Total(roots) ==> PageIn(mem2, root, q) == PageIn(mem1, root, q)
    ensures Deepened(mem, mem2, root, roots, p)
  {
    hide Term, PageOf, Block;
    forall q | 0 <= q < Total(roots)
      ensures PageIn(mem2, root, q) == PageIn(mem, root, q) && Was(mem, root, q).lvl <= Was(mem2, root, q).lvl
      ensures SamePath(Was(mem, root, q).lvl, Was(mem2, root, q).lvl, q, p)
    {
      assert PageIn(mem2, root, q) == PageIn(mem1, root, q) == PageIn(mem, root, q);
      assert Grown(Was(mem1, root, q), Was(mem2, root, q), lvl, q, p);
    }
  }

  ghost predicate Grown(t: Terminal, t': Terminal, lvl: nat, q: nat, p: nat) {
    if Block(lvl, q) == Block(lvl, p) then t.lvl == lvl && t'.lvl == lvl + 1 else t' == t
  }

  /** A search at page `p`, which was not mapped, and the fill of `n` pages after it. */
  ghost predicate Round(mem: Memory, mem': Memory, root: nat, roots: nat, p: nat, left: nat, pfn: nat, n: nat) {
    && p + left <= Total(roots) && left > 0 && !PageIn(mem, root, p).Mapped?
    && n == FillPages(mem, root, roots, p, left, pfn)
    && (forall q :: p + n <= q < Total(roots) ==>
          && PageIn(mem', root, q) == PageIn(mem, root, q) && Was(mem, root, q).lvl <= Was(mem', root, q).lvl
          && SamePath(Was(mem, root, q).lvl, Was(mem', root, q).lvl, q, p))
  }

  lemma RoundOf(mem1: Memory, mem2: Memory, mem3: Memory, root: nat, roots: nat, p: nat, left: nat, pfn: nat, lvl: nat, n: nat)
    requires p + left <= Total(roots) && left > 0 && !PageIn(mem1, root, p).Mapped?
    requires lvl == FillLvl(Was(mem1, root, p).lvl, p, left, pfn) && n == Span(lvl, FillCount(lvl, p, left, roots))
    requires Deepened(mem1, mem2, root, roots, p)
    requires forall q :: p + n <= q < Total(roots) ==> Was(mem3, root, q) == Was(mem2, root, q)
    ensures Round(mem1, mem3, root, roots, p, left, pfn, n)
  {
    hide Term, PageOf, FillLvl, FillCount, SamePath;
    forall q | p + n <= q < Total(roots)
      ensures PageIn(mem3, root, q) == PageIn(mem1, root, q) && Was(mem1, root, q).lvl <= Was(mem3, root, q).lvl
      ensures SamePath(Was(mem1, root, q).lvl, Was(mem3, root, q).lvl, q, p)
    {
      assert Was(mem3, root, q) == Was(mem2, root, q) && PageIn(mem2, root, q) == PageIn(mem1, root, q);
    }
  }

  /** A round notices its first page or nothing, and leaves the pages after it as the next round wants them. */
  lemma RoundStep(mem0: Memory, mem: Memory, mem': Memory, root: nat, roots: nat, p: nat, left: nat, pfn: nat, n: nat)
    requires Untouched(mem0, mem, root, roots, p) && Round(mem, mem', root, roots, p, left, pfn, n)
    ensures 0 < n <= left && Untouched(mem0, mem', root, roots, p + n)
    ensures Noticed(mem0, root, roots, p, left, pfn) == Noticed(mem0, root, roots, p + n, left - n, pfn + n)
  {
    hide Term, PageOf, FillPages, Block, SamePath, UntouchedAt;
    SameFill(mem0, mem, root, roots, p, left, pfn);
    forall q | p + n <= q < Total(roots) ensures UntouchedAt(mem0, mem', root, q) {
      assert UntouchedAt(mem0, mem, root, q);
      AheadStep(mem0, mem, mem', root, p, q);
    }
  }

  lemma SameFill(mem0: Memory, mem: Memory, root: nat, roots: nat, p: nat, left: nat, pfn: nat)
    requires p + left <= Total(roots) && left > 0 && UntouchedAt(mem0, mem, root, p)
    ensures FillPages(mem, root, roots, p, left, pfn) == FillPages(mem0, root, roots, p, left, pfn)
    ensures PageIn(mem, root, p) == PageIn(mem0, root, p)
  {
    hide Term, PageOf, FillLvl, FillCount;
    TermLvl(mem, root, 0, p);
    FillLvlSame(Was(mem0, root, p).lvl, Was(mem, root, p).lvl, p, left, pfn);
  }

  lemma AheadStep(mem0: Memory, mem: Memory, mem': Memory, root: nat, p: nat, q: nat)
    requires p < q && UntouchedAt(mem0, mem, root, q) && PageIn(mem', root, q) == PageIn(mem, root, q)
    requires Was(mem, root, q).lvl <= Was(mem', root, q).lvl
    requires SamePath(Was(mem, root, q).lvl, Was(mem', root, q).lvl, q, p)
    ensures UntouchedAt(mem0, mem', root, q)
  {
    hide Term, PageOf, Block;
    forall k | Was(mem0, root, q).lvl <= k < Was(mem', root, q).lvl ensures q % LvlPages(k) != 0 {
      if Was(mem, root, q).lvl <= k {
        assert k < LVLS && Block(k, q) == Block(k, p);
        InsideBlock(k, p, q);
      }
    }
  }

  lemma {:induction false} TermLvl(mem: Memory, t: nat, lvl: nat, vpn: nat)
    requires lvl < LVLS
    ensures Term(mem, t, lvl, vpn).lvl < LVLS
    decreases LVLS - lvl
  {
    if t in mem && Index(lvl, vpn) < |mem[t]| && mem[t][Index(lvl, vpn)].Table? && lvl < LVLS - 1 {
      TermLvl(mem, mem[t][Index(lvl, vpn)].pfn, lvl + 1, vpn);
    }
  }

  /** A level-2 table whose page 1 is mapped: a request for pages 0 and 1 does not notice it. */
  lemma OverwrittenExample() returns (mem: Memory, lab: map<nat, Label>)
    ensures WellFormed(mem, lab, 0, 1) && !PageIn(mem, 0, 0).Mapped? && PageIn(mem, 0, 1) == Mapped(7, 0)
    ensures !Noticed(mem, 0, 1, 0, 2, 9)
  {
    mem := map[0 := [Table(1)], 1 := FreeTable(0)[0 := Table(2)], 2 := FreeTable(0)[1 := Leaf(7, 0)]];
    lab := map[0 := Label(0, 0), 1 := Label(1, 0), 2 := Label(2, 0)];
    assert Term(mem, 1, 1, 0) == Term(mem, 2, 2, 0) && Term(mem, 1, 1, 1) == Term(mem, 2, 2, 1);
    SmallPagesNoticed(mem, 0, 1, 0, 2, 9);
  }
}
