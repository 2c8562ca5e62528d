/**
 * The Sv39 page table as a memory of table frames: geometry, the descent to one entry, and
 * the meaning of a table as a map from virtual pages to page states.
 *
 * Addresses are page numbers here; the byte addresses of the callers are cut to pages in
 * AddrSpace. Section 4.4 of the RISC-V Privileged Specification fixes the geometry.
 */
module PageTable {
  const LVLS: nat := 3
  const ENTRIES: nat := 512
  const RSW_RSRV: nat := 3
  const PAGE_SIZE: nat := 4096
  const VA_WRAP: nat := 0x1_0000_0000_0000_0000

  /** One page table entry; PteEncoding relates it to the 64-bit word. */
  datatype Pte = Invalid(rsw: nat) | Leaf(pfn: nat, flags: nat) | Table(pfn: nat)

  /** Physical memory, restricted to the frames that hold tables. */
  type Memory = map<nat, seq<Pte>>

  /** What one virtual page means: unmapped with its reservation bits, or mapped to a frame. */
  datatype Page = Free(rsw: nat) | Mapped(pfn: nat, flags: nat)

  /** A descent ends in no entry, in entry `idx` of table `tbl`, or runs through a mapped frame. */
  datatype PtePtr = Null | Ptr(tbl: nat, idx: nat) | Wild

  /** The entry that decides a page, and the level it sits at. */
  datatype Terminal = Terminal(pte: Pte, lvl: nat)

  /** Where a table stands: its level, and the first page it covers. */
  datatype Label = Label(lvl: nat, base: nat)

  // ----- geometry

  function LvlPages(lvl: nat): (r: nat)
    ensures r > 0
  {
    if lvl == 0 then 262144 else if lvl == 1 then 512 else 1
  }

  function Index(lvl: nat, vpn: nat): (r: nat)
    ensures lvl > 0 ==> r < ENTRIES
  {
    if lvl == 0 then vpn / 262144 else if lvl == 1 then vpn / 512 % 512 else vpn % 512
  }

  /** The number of the level-`lvl` block a page lies in. */
  function Block(lvl: nat, vpn: nat): nat {
    if lvl == 0 then vpn / 262144 else if lvl == 1 then vpn / 512 else vpn
  }

  /** `i` blocks of level `lvl`, in pages. */
  function Span(lvl: nat, i: nat): nat {
    if lvl == 0 then i * 262144 else if lvl == 1 then i * 512 else i
  }

  function BlockBase(lvl: nat, vpn: nat): nat {
    Span(lvl, Block(lvl, vpn))
  }

  /** The number of the block covered by the level-`lvl` table that serves a page. */
  function TableBlock(lvl: nat, vpn: nat): nat {
    if lvl == 0 then 0 else Block(lvl - 1, vpn)
  }

  function TableBase(lvl: nat, vpn: nat): nat {
    if lvl == 0 then 0 else BlockBase(lvl - 1, vpn)
  }

  function TableSize(lvl: nat, roots: nat): nat {
    if lvl == 0 then roots else ENTRIES
  }

  function Total(roots: nat): nat {
    roots * 262144
  }

  // ----- descent and meaning

  function PageOf(t: Terminal, vpn: nat): Page {
    match t.pte
    case Invalid(r) => Free(r)
    case Leaf(p, f) => Mapped(p - p % LvlPages(t.lvl) + vpn % LvlPages(t.lvl), f)
    case Table(_) => Free(0)
  }

  function Term(mem: Memory, t: nat, lvl: nat, vpn: nat): Terminal
    decreases LVLS - lvl
  {
    if lvl >= LVLS || t !in mem || Index(lvl, vpn) >= |mem[t]| then Terminal(Invalid(0), lvl)
    else
      var e := mem[t][Index(lvl, vpn)];
      if e.Table? && lvl < LVLS - 1 then Term(mem, e.pfn, lvl + 1, vpn) else Terminal(e, lvl)
  }

  /** The entry of level `dst` that serves `vpn`, descending from table `t` of level `lvl`. */
  function GetFrom(mem: Memory, t: nat, lvl: nat, dst: nat, vpn: nat): PtePtr
    requires lvl <= dst
    decreases dst - lvl
  {
    if lvl == dst then Ptr(t, Index(lvl, vpn))
    else if t !in mem || Index(lvl, vpn) >= |mem[t]| then Wild
    else match mem[t][Index(lvl, vpn)]
      case Invalid(_) => Null
      case Leaf(_, _) => Wild
      case Table(c) => GetFrom(mem, c, lvl + 1, dst, vpn)
  }

  /** One step of a descent, from the entry at `p` to entry `idx` of the table it points at. */
  function Follow(mem: Memory, p: PtePtr, idx: nat): PtePtr
    requires p.Ptr?
  {
    if p.tbl !in mem || p.idx >= |mem[p.tbl]| then Wild
    else match mem[p.tbl][p.idx]
      case Invalid(_) => Null
      case Leaf(_, _) => Wild
      case Table(c) => Ptr(c, idx)
  }

  // ----- well-formed tables

  /** Superpages are aligned, as the hardware requires. */
  predicate Aligned(e: Pte, lvl: nat) {
    e.Leaf? ==> e.pfn % LvlPages(lvl) == 0
  }

  ghost predicate EntryOk(mem: Memory, lab: map<nat, Label>, t: nat, i: nat)
    requires t in mem && t in lab && i < |mem[t]|
  {
    && Aligned(mem[t][i], lab[t].lvl)
    && (mem[t][i].Table? ==>
      && lab[t].lvl < LVLS - 1
      && mem[t][i].pfn in mem && mem[t][i].pfn in lab
      && lab[mem[t][i].pfn] == Label(lab[t].lvl + 1, lab[t].base + Span(lab[t].lvl, i)))
  }

  ghost predicate TableOk(mem: Memory, lab: map<nat, Label>, roots: nat, t: nat)
    requires t in mem && t in lab
  {
    && lab[t].lvl < LVLS
    && |mem[t]| == TableSize(lab[t].lvl, roots)
    && (forall i :: 0 <= i < |mem[t]| ==> EntryOk(mem, lab, t, i))
  }

  /** Every table sits where its label says, so no table is reached along two paths. */
  ghost predicate WellFormed(mem: Memory, lab: map<nat, Label>, root: nat, roots: nat) {
    && mem.Keys == lab.Keys
    && root in mem && lab[root] == Label(0, 0)
    && (forall t :: t in mem ==> TableOk(mem, lab, roots, t))
  }

  lemma BlockNests(a: nat)
    ensures a / 512 / 512 == a / 262144
  {
    var q, r := a / 512, a % 512;
    assert a == q / 512 * 262144 + (q % 512 * 512 + r);
  }

  /** The entry that serves a page exists, and what it points at covers the page. */
  lemma ChildBase(lvl: nat, vpn: nat, roots: nat)
    requires lvl < LVLS && vpn < Total(roots)
    ensures Index(lvl, vpn) < TableSize(lvl, roots)
    ensures TableBase(lvl, vpn) + Span(lvl, Index(lvl, vpn)) == TableBase(lvl + 1, vpn)
  {
    BlockNests(vpn);
  }

  /** Descending to an entry of level `dst` finds the table labelled with that level and base. */
  lemma {:induction false} DescentLabel(mem: Memory, lab: map<nat, Label>, root: nat, roots: nat,
                                        t: nat, lvl: nat, dst: nat, vpn: nat)
    requires WellFormed(mem, lab, root, roots) && vpn < Total(roots)
    requires lvl <= dst < LVLS && t in mem && lab[t] == Label(lvl, TableBase(lvl, vpn))
    ensures GetFrom(mem, t, lvl, dst, vpn).Ptr? ==>
              var p := GetFrom(mem, t, lvl, dst, vpn);
              && p.tbl in mem && lab[p.tbl] == Label(dst, TableBase(dst, vpn))
              && p.idx == Index(dst, vpn) < |mem[p.tbl]|
              && Term(mem, t, lvl, vpn) == Term(mem, p.tbl, dst, vpn)
    decreases dst - lvl
  {
    hide Index, TableBase, Span, Block, BlockBase, LvlPages, TableSize, Total;
    ChildBase(lvl, vpn, roots);
    assert TableOk(mem, lab, roots, t);
    assert Index(lvl, vpn) < |mem[t]|;
    if lvl < dst {
      assert EntryOk(mem, lab, t, Index(lvl, vpn));
      if mem[t][Index(lvl, vpn)].Table? {
        DescentLabel(mem, lab, root, roots, mem[t][Index(lvl, vpn)].pfn, lvl + 1, dst, vpn);
      }
    }
  }

  lemma IndexAbove(lvl: nat, dst: nat, a: nat, b: nat)
    requires lvl < dst < LVLS && TableBlock(dst, a) == TableBlock(dst, b)
    ensures Index(lvl, a) == Index(lvl, b)
  {
    if dst == 2 && lvl == 0 {
      BlockNests(a);
      BlockNests(b);
    }
  }

  /** A descent reaches exactly the levels down to the entry that decides the page. */
  lemma {:induction false} DescentTerm(mem: Memory, lab: map<nat, Label>, root: nat, roots: nat,
                                       t: nat, lvl: nat, dst: nat, vpn: nat)
    requires WellFormed(mem, lab, root, roots) && vpn < Total(roots)
    requires lvl <= dst < LVLS && t in mem && lab[t] == Label(lvl, TableBase(lvl, vpn))
    ensures var e, p := Term(mem, t, lvl, vpn), GetFrom(mem, t, lvl, dst, vpn);
            && lvl <= e.lvl < LVLS && !e.pte.Table? && Aligned(e.pte, e.lvl)
            && (p.Ptr? <==> dst <= e.lvl)
            && (p.Ptr? ==> p.tbl in mem && p.idx < |mem[p.tbl]|
                           && (dst == e.lvl ==> mem[p.tbl][p.idx] == e.pte)
                           && (dst < e.lvl ==> mem[p.tbl][p.idx].Table?))
            && (dst > e.lvl ==> p == if e.pte.Leaf? then Wild else Null)
    decreases LVLS - lvl
  {
    hide Index, TableBase, Span, Block, BlockBase, LvlPages, TableSize, Total;
    ChildBase(lvl, vpn, roots);
    assert TableOk(mem, lab, roots, t);
    assert EntryOk(mem, lab, t, Index(lvl, vpn));
    if mem[t][Index(lvl, vpn)].Table? {
      var c := mem[t][Index(lvl, vpn)].pfn;
      DescentTerm(mem, lab, root, roots, c, lvl + 1, if lvl < dst then dst else lvl + 1, vpn);
    }
  }

  /** Pages under the same table of level `dst` descend to the same table. */
  lemma {:induction false} DescentSame(mem: Memory, t: nat, lvl: nat, dst: nat, vpn: nat, vpn': nat)
    requires lvl <= dst < LVLS && TableBlock(dst, vpn) == TableBlock(dst, vpn')
    requires GetFrom(mem, t, lvl, dst, vpn).Ptr?
    ensures GetFrom(mem, t, lvl, dst, vpn') == GetFrom(mem, t, lvl, dst, vpn).(idx := Index(dst, vpn'))
    decreases dst - lvl
  {
    if lvl < dst {
      IndexAbove(lvl, dst, vpn, vpn');
      DescentSame(mem, mem[t][Index(lvl, vpn)].pfn, lvl + 1, dst, vpn, vpn');
    }
  }

  ghost predicate SameBut(mem: Memory, mem': Memory, x: nat, i: nat)
    requires x in mem && i < |mem[x]|
  {
    && (forall t :: t in mem ==> t in mem')
    && (forall t :: t in mem && t != x ==> mem'[t] == mem[t])
    && |mem'[x]| == |mem[x]|
    && (forall j :: 0 <= j < |mem[x]| && j != i ==> mem'[x][j] == mem[x][j])
  }

  /** Changing entry `i` of table `x` decides only the pages of that entry's block. */
  lemma {:induction false} TermFrame(mem: Memory, mem': Memory, lab: map<nat, Label>, root: nat, roots: nat,
                                     x: nat, i: nat, t: nat, vpn: nat)
    requires WellFormed(mem, lab, root, roots) && vpn < Total(roots)
    requires x in mem && i < |mem[x]| && SameBut(mem, mem', x, i)
    requires t in mem && lab[t].base == TableBase(lab[t].lvl, vpn)
    requires !(lab[x].base == TableBase(lab[x].lvl, vpn) && Index(lab[x].lvl, vpn) == i)
    ensures Term(mem', t, lab[t].lvl, vpn) == Term(mem, t, lab[t].lvl, vpn)
    decreases LVLS - lab[t].lvl
  {
    hide Index, TableBase, Span, Block, BlockBase, LvlPages, TableSize, Total;
    ChildBase(lab[t].lvl, vpn, roots);
    var lvl := lab[t].lvl;
    assert TableOk(mem, lab, roots, t);
    assert EntryOk(mem, lab, t, Index(lvl, vpn));
    assert mem'[t][Index(lvl, vpn)] == mem[t][Index(lvl, vpn)];
    if mem[t][Index(lvl, vpn)].Table? {
      TermFrame(mem, mem', lab, root, roots, x, i, mem[t][Index(lvl, vpn)].pfn, vpn);
    }
  }

  /** ... and no descent that stops at its own level or above. */
  lemma {:induction false} DescentFrame(mem: Memory, mem': Memory, lab: map<nat, Label>, root: nat, roots: nat,
                                        x: nat, i: nat, t: nat, dst: nat, vpn: nat)
    requires WellFormed(mem, lab, root, roots) && vpn < Total(roots)
    requires x in mem && i < |mem[x]| && SameBut(mem, mem', x, i)
    requires t in mem && lab[t].base == TableBase(lab[t].lvl, vpn)
    requires lab[t].lvl <= dst < LVLS
    requires dst <= lab[x].lvl || !(lab[x].base == TableBase(lab[x].lvl, vpn) && Index(lab[x].lvl, vpn) == i)
    ensures GetFrom(mem', t, lab[t].lvl, dst, vpn) == GetFrom(mem, t, lab[t].lvl, dst, vpn)
    decreases dst - lab[t].lvl
  {
    hide Index, TableBase, Span, Block, BlockBase, LvlPages, TableSize, Total;
    ChildBase(lab[t].lvl, vpn, roots);
    var lvl := lab[t].lvl;
    if lvl < dst {
      assert TableOk(mem, lab, roots, t);
      assert EntryOk(mem, lab, t, Index(lvl, vpn));
      assert mem'[t][Index(lvl, vpn)] == mem[t][Index(lvl, vpn)];
      if mem[t][Index(lvl, vpn)].Table? {
        DescentFrame(mem, mem', lab, root, roots, x, i, mem[t][Index(lvl, vpn)].pfn, dst, vpn);
      }
    }
  }

  lemma BlockSplits(lvl: nat, a: nat, b: nat)
    requires lvl < LVLS
    ensures Block(lvl, a) == Block(lvl, b) <==>
            TableBase(lvl, a) == TableBase(lvl, b) && Index(lvl, a) == Index(lvl, b)
  {
    if lvl == 1 {
      BlockNests(a);
      BlockNests(b);
    }
  }

  /** A non-table entry decides every page of its block. */
  lemma BlockTerm(mem: Memory, lab: map<nat, Label>, root: nat, roots: nat, lvl: nat, va: nat, vpn: nat)
    requires WellFormed(mem, lab, root, roots) && va < Total(roots) && vpn < Total(roots)
    requires lvl < LVLS && GetFrom(mem, root, 0, lvl, va).Ptr? && Block(lvl, va) == Block(lvl, vpn)
    ensures var p := GetFrom(mem, root, 0, lvl, va);
            && GetFrom(mem, root, 0, lvl, vpn) == p
            && p.tbl in mem && p.idx < |mem[p.tbl]|
            && (!mem[p.tbl][p.idx].Table? ==> Term(mem, root, 0, vpn) == Terminal(mem[p.tbl][p.idx], lvl))
  {
    BlockSplits(lvl, va, vpn);
    DescentSame(mem, root, 0, lvl, va, vpn);
    DescentLabel(mem, lab, root, roots, root, 0, lvl, va);
    DescentLabel(mem, lab, root, roots, root, 0, lvl, vpn);
  }

  /** All pages of the block of a leaf or an invalid entry are decided by that entry. */
  lemma SameTerm(mem: Memory, lab: map<nat, Label>, root: nat, roots: nat, va: nat, vpn: nat)
    requires WellFormed(mem, lab, root, roots) && va < Total(roots) && vpn < Total(roots)
    ensures var t := Term(mem, root, 0, va);
            t.lvl < LVLS && !t.pte.Table?
            && (Block(t.lvl, va) == Block(t.lvl, vpn) ==> Term(mem, root, 0, vpn) == t)
  {
    var lvl := Term(mem, root, 0, va).lvl;
    DescentTerm(mem, lab, root, roots, root, 0, 0, va);
    DescentTerm(mem, lab, root, roots, root, 0, lvl, va);
    if Block(lvl, va) == Block(lvl, vpn) {
      BlockTerm(mem, lab, root, roots, lvl, va, vpn);
    }
  }

  /** Writing a leaf or an invalid entry changes exactly the pages of its block. */
  lemma SetEntryTerm(mem: Memory, lab: map<nat, Label>, root: nat, roots: nat, lvl: nat, va: nat, e: Pte, vpn: nat)
    requires WellFormed(mem, lab, root, roots) && va < Total(roots) && vpn < Total(roots)
    requires lvl < LVLS && GetFrom(mem, root, 0, lvl, va).Ptr? && !e.Table? && Aligned(e, lvl)
    ensures var p := GetFrom(mem, root, 0, lvl, va);
            && p.tbl in mem && p.idx < |mem[p.tbl]|
            && var mem' := mem[p.tbl := mem[p.tbl][p.idx := e]];
            && Term(mem', root, 0, vpn) ==
               (if Block(lvl, vpn) == Block(lvl, va) then Terminal(e, lvl) else Term(mem, root, 0, vpn))
            && (forall k :: 0 <= k <= lvl ==> GetFrom(mem', root, 0, k, vpn) == GetFrom(mem, root, 0, k, vpn))
  {
    var p := GetFrom(mem, root, 0, lvl, va);
    DescentLabel(mem, lab, root, roots, root, 0, lvl, va);
    var mem' := mem[p.tbl := mem[p.tbl][p.idx := e]];
    BlockSplits(lvl, va, vpn);
    forall k | 0 <= k <= lvl
      ensures GetFrom(mem', root, 0, k, vpn) == GetFrom(mem, root, 0, k, vpn)
    {
      DescentFrame(mem, mem', lab, root, roots, p.tbl, p.idx, root, k, vpn);
    }
    if Block(lvl, vpn) == Block(lvl, va) {
      SetEntryWellFormed(mem, lab, root, roots, lvl, va, e);
      DescentSame(mem, root, 0, lvl, va, vpn);
      DescentLabel(mem', lab, root, roots, root, 0, lvl, vpn);
    } else {
      TermFrame(mem, mem', lab, root, roots, p.tbl, p.idx, root, vpn);
    }
  }

  lemma SetEntryWellFormed(mem: Memory, lab: map<nat, Label>, root: nat, roots: nat, lvl: nat, va: nat, e: Pte)
    requires WellFormed(mem, lab, root, roots) && va < Total(roots)
    requires lvl < LVLS && GetFrom(mem, root, 0, lvl, va).Ptr? && !e.Table? && Aligned(e, lvl)
    ensures var p := GetFrom(mem, root, 0, lvl, va);
            && p.tbl in mem && p.idx < |mem[p.tbl]|
            && WellFormed(mem[p.tbl := mem[p.tbl][p.idx := e]], lab, root, roots)
  {
    var p := GetFrom(mem, root, 0, lvl, va);
    DescentLabel(mem, lab, root, roots, root, 0, lvl, va);
    var mem' := mem[p.tbl := mem[p.tbl][p.idx := e]];
    forall t | t in mem' ensures TableOk(mem', lab, roots, t) {
      assert TableOk(mem, lab, roots, t);
      forall j | 0 <= j < |mem'[t]| ensures EntryOk(mem', lab, t, j) {
        assert EntryOk(mem, lab, t, j);
      }
    }
  }

  /** The memory after entry (x, i) is pointed at the new table `c` with contents `s`. */
  function WithTable(mem: Memory, x: nat, i: nat, c: nat, s: seq<Pte>): Memory
    requires x in mem && i < |mem[x]|
  {
    mem[x := mem[x][i := Table(c)]][c := s]
  }

  lemma AddTableWellFormed(mem: Memory, lab: map<nat, Label>, root: nat, roots: nat, lvl: nat, va: nat,
                           c: nat, s: seq<Pte>)
    requires WellFormed(mem, lab, root, roots) && va < Total(roots)
    requires lvl < LVLS - 1 && GetFrom(mem, root, 0, lvl, va).Ptr?
    requires c !in mem && |s| == ENTRIES && forall j :: 0 <= j < |s| ==> !s[j].Table? && Aligned(s[j], lvl + 1)
    ensures var p := GetFrom(mem, root, 0, lvl, va);
            && p.tbl in mem && p.idx < |mem[p.tbl]|
            && WellFormed(WithTable(mem, p.tbl, p.idx, c, s), lab[c := Label(lvl + 1, BlockBase(lvl, va))], root, roots)
  {
    var p := GetFrom(mem, root, 0, lvl, va);
    DescentLabel(mem, lab, root, roots, root, 0, lvl, va);
    var mem' := WithTable(mem, p.tbl, p.idx, c, s);
    var lab' := lab[c := Label(lvl + 1, BlockBase(lvl, va))];
    assert TableBase(lvl, va) + Span(lvl, p.idx) == BlockBase(lvl, va);
    forall t | t in mem' ensures TableOk(mem', lab', roots, t) {
      if t != c {
        assert TableOk(mem, lab, roots, t);
        forall j | 0 <= j < |mem'[t]| ensures EntryOk(mem', lab', t, j) {
          assert EntryOk(mem, lab, t, j);
        }
      }
    }
  }

  /** Pointing an entry at a new table hands its block, page by page, to the new table's entries. */
  lemma AddTableTerm(mem: Memory, lab: map<nat, Label>, root: nat, roots: nat, lvl: nat, va: nat,
                     c: nat, s: seq<Pte>, vpn: nat)
    requires WellFormed(mem, lab, root, roots) && va < Total(roots) && vpn < Total(roots)
    requires lvl < LVLS - 1 && GetFrom(mem, root, 0, lvl, va).Ptr?
    requires c !in mem && |s| == ENTRIES && forall j :: 0 <= j < |s| ==> !s[j].Table? && Aligned(s[j], lvl + 1)
    ensures var p := GetFrom(mem, root, 0, lvl, va);
            && p.tbl in mem && p.idx < |mem[p.tbl]|
            && var mem' := WithTable(mem, p.tbl, p.idx, c, s);
            && Term(mem', root, 0, vpn) ==
               (if Block(lvl, vpn) == Block(lvl, va) then Terminal(s[Index(lvl + 1, vpn)], lvl + 1)
                else Term(mem, root, 0, vpn))
            && (forall k :: 0 <= k <= lvl ==> GetFrom(mem', root, 0, k, vpn) == GetFrom(mem, root, 0, k, vpn))
            && (Block(lvl, vpn) == Block(lvl, va) ==>
                  GetFrom(mem', root, 0, lvl + 1, vpn) == Ptr(c, Index(lvl + 1, vpn)))
  {
    var p := GetFrom(mem, root, 0, lvl, va);
    DescentLabel(mem, lab, root, roots, root, 0, lvl, va);
    var mem' := WithTable(mem, p.tbl, p.idx, c, s);
    var lab' := lab[c := Label(lvl + 1, BlockBase(lvl, va))];
    BlockSplits(lvl, va, vpn);
    forall k | 0 <= k <= lvl
      ensures GetFrom(mem', root, 0, k, vpn) == GetFrom(mem, root, 0, k, vpn)
    {
      DescentFrame(mem, mem', lab, root, roots, p.tbl, p.idx, root, k, vpn);
    }
    if Block(lvl, vpn) == Block(lvl, va) {
      AddTableWellFormed(mem, lab, root, roots, lvl, va, c, s);
      DescentSame(mem, root, 0, lvl, va, vpn);
      DescentLabel(mem', lab', root, roots, root, 0, lvl, vpn);
      DescentStep(mem', root, 0, lvl, vpn);
    } else {
      TermFrame(mem, mem', lab, root, roots, p.tbl, p.idx, root, vpn);
    }
  }

  /** One more level of descent, seen from the far end. */
  lemma {:induction false} DescentStep(mem: Memory, t: nat, lvl: nat, dst: nat, vpn: nat)
    requires lvl <= dst && GetFrom(mem, t, lvl, dst, vpn).Ptr?
    ensures GetFrom(mem, t, lvl, dst + 1, vpn) ==
            Follow(mem, GetFrom(mem, t, lvl, dst, vpn), Index(dst + 1, vpn))
    decreases dst - lvl
  {
    if lvl < dst {
      DescentStep(mem, mem[t][Index(lvl, vpn)].pfn, lvl + 1, dst, vpn);
    } else {
      var p := GetFrom(mem, t, lvl, dst, vpn);
      if p.tbl in mem && p.idx < |mem[p.tbl]| && mem[p.tbl][p.idx].Table? {
        assert GetFrom(mem, mem[p.tbl][p.idx].pfn, dst + 1, dst + 1, vpn).Ptr?;
      }
    }
  }

  /** An aligned block is the run of pages from its first. */
  lemma BlockIsRun(lvl: nat, base: nat, q: nat)
    requires lvl < LVLS && base % LvlPages(lvl) == 0
    ensures Block(lvl, q) == Block(lvl, base) <==> base <= q < base + LvlPages(lvl)
    ensures base <= q < base + LvlPages(lvl) ==> q % LvlPages(lvl) == q - base
  {
  }

  /** The next entry of the same table serves the next block. */
  lemma NextEntry(lvl: nat, vpn: nat, roots: nat)
    requires lvl < LVLS && vpn < Total(roots) && Index(lvl, vpn) + 1 < TableSize(lvl, roots)
    ensures vpn + LvlPages(lvl) < Total(roots)
    ensures TableBlock(lvl, vpn + LvlPages(lvl)) == TableBlock(lvl, vpn)
    ensures Index(lvl, vpn + LvlPages(lvl)) == Index(lvl, vpn) + 1
  {
    if lvl == 1 {
      BlockNests(vpn);
      BlockNests(vpn + 512);
    }
  }

  /** The leaf that stands for entry `idx` of a split superpage maps its pages where the superpage did. */
  lemma SplitLeaf(pfn: nat, flags: nat, flags': nat, lvl: nat, q: nat)
    requires lvl < LVLS - 1 && pfn % LvlPages(lvl) == 0
    ensures Aligned(Leaf(pfn + Span(lvl + 1, Index(lvl + 1, q)), flags'), lvl + 1)
    ensures PageOf(Terminal(Leaf(pfn + Span(lvl + 1, Index(lvl + 1, q)), flags'), lvl + 1), q)
            == Mapped(PageOf(Terminal(Leaf(pfn, flags), lvl), q).pfn, flags')
  {
    if lvl == 0 {
      BlockNests(q);
    }
  }

  /** A block is found by its parent block and its index there. */
  lemma BlockInBlock(lvl: nat, a: nat, b: nat)
    requires 0 < lvl < LVLS
    ensures Block(lvl, a) == Block(lvl, b) <==>
            Block(lvl - 1, a) == Block(lvl - 1, b) && Index(lvl, a) == Index(lvl, b)
  {
    if lvl == 1 {
      BlockNests(a);
      BlockNests(b);
    }
  }

  lemma FirstInBlock(lvl: nat, vpn: nat)
    requires 0 < lvl < LVLS
    ensures var first := BlockBase(lvl - 1, vpn);
            first <= vpn && Block(lvl - 1, first) == Block(lvl - 1, vpn) && Index(lvl, first) == 0
            && first % LvlPages(lvl) == 0
  {
  }

  lemma NextInBlock(lvl: nat, page: nat, roots: nat)
    requires 0 < lvl < LVLS && page < Total(roots) && Index(lvl, page) + 1 < ENTRIES
    requires page % LvlPages(lvl) == 0
    ensures var next := page + LvlPages(lvl);
            next < Total(roots) && Block(lvl - 1, next) == Block(lvl - 1, page) && next % LvlPages(lvl) == 0
  {
    if lvl == 1 {
      BlockNests(page);
      BlockNests(page + 512);
    }
  }

  /** A page lies in a block of an address space only if the block ends in it too. */
  lemma BlockFits(lvl: nat, vpn: nat, roots: nat)
    requires lvl < LVLS && vpn < Total(roots)
    ensures BlockBase(lvl, vpn) <= vpn < BlockBase(lvl, vpn) + LvlPages(lvl) <= Total(roots)
    ensures BlockBase(lvl, vpn) % LvlPages(lvl) == 0
  {
  }

  /** Pages of one block share every block above it. */
  lemma CoarserBlock(above: nat, lvl: nat, a: nat, b: nat)
    requires above <= lvl < LVLS && Block(lvl, a) == Block(lvl, b)
    ensures Block(above, a) == Block(above, b)
    ensures BlockBase(above, a) <= b < BlockBase(above, a) + LvlPages(above)
  {
    BlockNests(a);
    BlockNests(b);
  }

  /** No root boundary lies strictly inside an aligned block. */
  lemma NoBoundaryInside(lvl: nat, v: nat, b: nat)
    requires lvl < LVLS && v % LvlPages(lvl) == 0 && v < b < v + LvlPages(lvl)
    ensures b % 262144 != 0
  {
  }

  function FreeTable(rsw: nat): seq<Pte> {
    seq(ENTRIES, _ => Invalid(rsw))
  }

  /** A new table of invalid entries: only the levels of the pages under it change. */
  lemma AddFreeTable(mem: Memory, lab: map<nat, Label>, root: nat, roots: nat, lvl: nat, va: nat, c: nat, rsw: nat)
    requires WellFormed(mem, lab, root, roots) && va < Total(roots)
    requires lvl < LVLS - 1 && GetFrom(mem, root, 0, lvl, va).Ptr? && c !in mem
    ensures var p := GetFrom(mem, root, 0, lvl, va);
            && p.tbl in mem && p.idx < |mem[p.tbl]|
            && var mem', e := WithTable(mem, p.tbl, p.idx, c, FreeTable(rsw)), mem[p.tbl][p.idx];
            && WellFormed(mem', lab[c := Label(lvl + 1, BlockBase(lvl, va))], root, roots)
            && mem'.Keys == mem.Keys + {c}
            && GetFrom(mem', root, 0, lvl + 1, va) == Ptr(c, Index(lvl + 1, va))
            && (forall q :: 0 <= q < Total(roots) ==>
                  Term(mem', root, 0, q) ==
                  (if Block(lvl, q) == Block(lvl, va) then Terminal(Invalid(rsw), lvl + 1) else Term(mem, root, 0, q)))
            && (!e.Table? ==> forall q :: 0 <= q < Total(roots) && Block(lvl, q) == Block(lvl, va) ==>
                  Term(mem, root, 0, q) == Terminal(e, lvl))
            && (forall q, k :: 0 <= q < Total(roots) && 0 <= k <= lvl ==>
                  GetFrom(mem', root, 0, k, q) == GetFrom(mem, root, 0, k, q))
  {
    hide Term, GetFrom, WellFormed;
    var s := FreeTable(rsw);
    AddTableWellFormed(mem, lab, root, roots, lvl, va, c, s);
    AddTableTerm(mem, lab, root, roots, lvl, va, c, s, va);
    var p := GetFrom(mem, root, 0, lvl, va);
    var mem' := WithTable(mem, p.tbl, p.idx, c, s);
    forall q | 0 <= q < Total(roots)
      ensures Term(mem', root, 0, q) ==
              (if Block(lvl, q) == Block(lvl, va) then Terminal(Invalid(rsw), lvl + 1) else Term(mem, root, 0, q))
    {
      AddTableTerm(mem, lab, root, roots, lvl, va, c, s, q);
    }
    forall q | 0 <= q < Total(roots) && Block(lvl, q) == Block(lvl, va)
      ensures !mem[p.tbl][p.idx].Table? ==> Term(mem, root, 0, q) == Terminal(mem[p.tbl][p.idx], lvl)
    {
      BlockTerm(mem, lab, root, roots, lvl, va, q);
    }
    forall q, k | 0 <= q < Total(roots) && 0 <= k <= lvl
      ensures GetFrom(mem', root, 0, k, q) == GetFrom(mem, root, 0, k, q)
    {
      AddTableTerm(mem, lab, root, roots, lvl, va, c, s, q);
    }
  }

  /** After the last entry of a table comes a new block of the level above. */
  lemma EndOfTable(lvl: nat, v: nat, roots: nat)
    requires lvl < LVLS && v % LvlPages(lvl) == 0 && Index(lvl, v) + 1 >= TableSize(lvl, roots)
    requires v + LvlPages(lvl) < Total(roots)
    ensures lvl > 0 && (lvl == 1 ==> (v + LvlPages(lvl)) % 262144 == 0)
    ensures (v + LvlPages(lvl)) % 262144 != 0 ==> Block(0, v + LvlPages(lvl)) == Block(0, v)
  {
    BlockNests(v);
  }

  /** Only the last entry of a level-2 table ends at a root boundary. */
  lemma MidTable(lvl: nat, v: nat, roots: nat)
    requires lvl < LVLS && Index(lvl, v) + 1 < TableSize(lvl, roots)
    ensures lvl == 2 ==> (v + LvlPages(lvl)) % 262144 != 0
  {
  }

  /** A page starts its block unless the page before is in it. */
  lemma BlockEdge(lvl: nat, v: nat)
    requires lvl < LVLS && v > 0
    ensures v % LvlPages(lvl) == 0 <==> Block(lvl, v - 1) != Block(lvl, v)
  {
  }
}
