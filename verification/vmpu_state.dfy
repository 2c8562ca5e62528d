/**
 * The virtual MPU of an address space as values: its slots, its ordered list, and the
 * physical entries that mirror it.
 */
module VmpuState {
  import opened Arith
  import opened Options
  import opened PhysMpu

  const VMPU_NUM_ENTRIES: nat := 64
  const PAGE_SIZE: nat := 4096
  const SEC_HYP_ANY: int := 4
  const SEC_UNKNOWN: int := -1

  datatype State = MpeFree | MpeInvalid | MpeValid

  datatype Mpe = Mpe(state: State, lock: bool, region: Region, mpid: nat)

  /** What an address maps to: its flags, its section, and whether its region is locked. */
  datatype Attr = Attr(flags: Flags, sec: int, lock: bool)

  predicate IsValid(ns: seq<Mpe>, i: nat) {
    i < |ns| && ns[i].state.MpeValid?
  }

  function End(r: Region): nat {
    r.base + r.size
  }

  /** range_in_range, the test mem_regions_overlap makes: the range lies inside the region. */
  predicate Within(base: nat, size: nat, r: Region) {
    r.base <= base && base + size <= End(r)
  }

  predicate Overlaps(base: nat, size: nat, r: Region) {
    base < End(r) && r.base < base + size
  }

  predicate Apart(a: Region, b: Region) {
    End(a) <= b.base || End(b) <= a.base
  }

  ghost predicate Disjoint(ns: seq<Mpe>) {
    forall i: nat, j: nat :: IsValid(ns, i) && IsValid(ns, j) && i != j ==>
      Apart(ns[i].region, ns[j].region)
  }

  ghost predicate DistinctBases(ns: seq<Mpe>) {
    forall i: nat, j: nat :: IsValid(ns, i) && IsValid(ns, j) && i != j ==> ns[i].region.base != ns[j].region.base
  }

  /** mem_check_forced_locked, for the sections of the hypervisor image, of a CPU and of a VM. */
  predicate Forced(sec: int) {
    1 <= sec <= 3
  }

  predicate SlotOk(m: Mpe, i: nat, kind: AsType) {
    m.state.MpeValid? ==>
      && m.mpid == i && m.region.size > 0
      && m.region.base % PAGE_SIZE == 0 && m.region.size % PAGE_SIZE == 0
      && 0 <= m.region.sec < SEC_HYP_ANY && (m.lock || m.region.sec == 0) && (Forced(m.region.sec) ==> m.lock)
      && m.region.flags.en == !kind.AsVm?
  }

  ghost predicate SlotsOk(ns: seq<Mpe>, kind: AsType) {
    |ns| == VMPU_NUM_ENTRIES && forall i :: 0 <= i < |ns| ==> SlotOk(ns[i], i, kind)
  }

  ghost predicate Listed(ns: seq<Mpe>, ord: seq<nat>) {
    && (forall a :: 0 <= a < |ord| ==> IsValid(ns, ord[a]))
    && (forall i: nat :: IsValid(ns, i) ==> i in ord)
  }

  ghost predicate Ascending(ns: seq<Mpe>, ord: seq<nat>)
    requires forall a :: 0 <= a < |ord| ==> ord[a] < |ns|
  {
    forall a, b :: 0 <= a < b < |ord| ==> ord[a] != ord[b] && ns[ord[a]].region.base <= ns[ord[b]].region.base
  }

  /** The list holds each VALID slot once, in the order of the bases. */
  ghost predicate Ordered(ns: seq<Mpe>, ord: seq<nat>) {
    Listed(ns, ord) && Ascending(ns, ord)
  }

  /**
   * `phys` pairs each VALID slot with a physical entry of this address space with the same
   * base, and `slotOf` is its inverse.
   */
  ghost predicate Mirror(ns: seq<Mpe>, es: seq<Entry>, id: nat, phys: map<nat, nat>, slotOf: map<nat, nat>) {
    && (forall i: nat :: i in phys <==> IsValid(ns, i))
    && (forall e: nat :: e in slotOf <==> Holds(es, e, id))
    && (forall i: nat :: i in phys ==> phys[i] in slotOf && slotOf[phys[i]] == i)
    && (forall e: nat :: e in slotOf ==> slotOf[e] in phys && phys[slotOf[e]] == e)
    && (forall i: nat :: i in phys ==> es[phys[i]].base == ns[i].region.base)
  }

  /** The entry covers exactly the region, with its flags and its lock. */
  predicate Covering(e: Entry, m: Mpe) {
    e.base == m.region.base && e.limit + 64 == End(m.region) && e.flags == m.region.flags && e.locked == m.lock
  }

  ghost predicate Agree(ns: seq<Mpe>, es: seq<Entry>, id: nat, phys: map<nat, nat>, slotOf: map<nat, nat>) {
    Mirror(ns, es, id, phys, slotOf) && forall i: nat :: i in phys ==> Covering(es[phys[i]], ns[i])
  }

  predicate Covers(ns: seq<Mpe>, i: nat, a: nat) {
    IsValid(ns, i) && ns[i].region.base <= a < End(ns[i].region)
  }

  /** The lookup: what address `a` maps to. */
  ghost function At(ns: seq<Mpe>, a: nat): Option<Attr> {
    if exists i: nat :: Covers(ns, i, a) then
      var i: nat :| Covers(ns, i, a);
      Some(Attr(ns[i].region.flags, ns[i].region.sec, ns[i].lock))
    else None
  }

  /** The lookup is the old one with a range of addresses overridden. */
  ghost predicate Overlaid(ns: seq<Mpe>, ns': seq<Mpe>, base: nat, size: nat, attr: Option<Attr>) {
    forall a: nat :: At(ns', a) == if base <= a < base + size then attr else At(ns, a)
  }

  /** Some VALID region meets the range without containing it. */
  ghost predicate CutsAcross(ns: seq<Mpe>, base: nat, size: nat) {
    exists i: nat :: IsValid(ns, i) && Overlaps(base, size, ns[i].region) && !Within(base, size, ns[i].region)
  }

  ghost predicate InOne(ns: seq<Mpe>, base: nat, size: nat) {
    exists i: nat :: IsValid(ns, i) && Within(base, size, ns[i].region)
  }

  /** What mem_vmpu_free_entry leaves of a slot. */
  function Freed(m: Mpe): Mpe {
    Mpe(MpeFree, false, Region(0, 0, Flags(0, 0, false), SEC_UNKNOWN), m.mpid)
  }

  // ----- lookups

  lemma AtSlot(ns: seq<Mpe>, i: nat, a: nat)
    requires Disjoint(ns) && Covers(ns, i, a)
    ensures At(ns, a) == Some(Attr(ns[i].region.flags, ns[i].region.sec, ns[i].lock))
  {
  }

  lemma DisjointDistinct(ns: seq<Mpe>, kind: AsType)
    requires Disjoint(ns) && SlotsOk(ns, kind)
    ensures DistinctBases(ns)
  {
  }

  /** Adding a region that no other contains keeps the regions disjoint unless one cuts across it. */
  lemma AddDisjoint(ns: seq<Mpe>, i: nat, m: Mpe)
    requires i < |ns| && !IsValid(ns, i) && m.state.MpeValid?
    requires Disjoint(ns) && !InOne(ns, m.region.base, m.region.size)
    ensures Disjoint(ns[i := m]) <==> !CutsAcross(ns, m.region.base, m.region.size)
  {
    var ns' := ns[i := m];
    if CutsAcross(ns, m.region.base, m.region.size) {
      var j: nat :| IsValid(ns, j) && Overlaps(m.region.base, m.region.size, ns[j].region);
      assert IsValid(ns', j) && IsValid(ns', i);
    } else {
      forall j: nat | IsValid(ns', j) && j != i
        ensures !Overlaps(m.region.base, m.region.size, ns'[j].region)
      {
        assert IsValid(ns, j) && !Within(m.region.base, m.region.size, ns[j].region);
      }
      forall j: nat, k: nat | IsValid(ns', j) && IsValid(ns', k) && j != k
        ensures Apart(ns'[j].region, ns'[k].region)
      {
        if j != i && k != i {
          assert IsValid(ns, j) && IsValid(ns, k);
        }
      }
    }
  }

  lemma AddAt(ns: seq<Mpe>, i: nat, m: Mpe, a: nat)
    requires i < |ns| && !IsValid(ns, i) && m.state.MpeValid? && Disjoint(ns[i := m])
    ensures At(ns[i := m], a) ==
            if m.region.base <= a < End(m.region) then Some(Attr(m.region.flags, m.region.sec, m.lock)) else At(ns, a)
  {
    var ns' := ns[i := m];
    SubDisjoint(ns, ns');
    if Covers(ns', i, a) {
      AtSlot(ns', i, a);
    } else if j: nat :| Covers(ns, j, a) {
      assert Covers(ns', j, a);
      AtSlot(ns', j, a);
      AtSlot(ns, j, a);
    } else {
      assert forall j: nat :: Covers(ns', j, a) ==> Covers(ns, j, a);
    }
  }

  lemma SubDisjoint(ns: seq<Mpe>, ns': seq<Mpe>)
    requires Disjoint(ns')
    requires forall i: nat :: IsValid(ns, i) ==> IsValid(ns', i) && ns'[i] == ns[i]
    ensures Disjoint(ns)
  {
    forall i: nat, j: nat | IsValid(ns, i) && IsValid(ns, j) && i != j
      ensures Apart(ns[i].region, ns[j].region)
    {
      assert IsValid(ns', i) && IsValid(ns', j);
    }
  }

  lemma DropAt(ns: seq<Mpe>, i: nat, a: nat)
    requires IsValid(ns, i) && Disjoint(ns)
    ensures var ns' := ns[i := Freed(ns[i])];
            Disjoint(ns') && At(ns', a) == if Covers(ns, i, a) then None else At(ns, a)
  {
    var ns' := ns[i := Freed(ns[i])];
    SubDisjoint(ns', ns);
    if j: nat :| Covers(ns', j, a) {
      assert Covers(ns, j, a);
      AtSlot(ns, j, a);
      AtSlot(ns', j, a);
    } else if j: nat :| Covers(ns, j, a) && j != i {
      assert Covers(ns', j, a);
    } else if !Covers(ns, i, a) {
      assert forall j: nat :: Covers(ns, j, a) ==> Covers(ns', j, a);
    }
  }

  // ----- one step of each kind

  lemma ListMore(ns: seq<Mpe>, ord: seq<nat>, i: nat, m: Mpe, k: nat)
    requires i < |ns| && !IsValid(ns, i) && m.state.MpeValid? && Ordered(ns, ord) && k <= |ord|
    requires forall a :: 0 <= a < k ==> ns[ord[a]].region.base <= m.region.base
    requires k < |ord| ==> m.region.base < ns[ord[k]].region.base
    ensures Ordered(ns[i := m], ord[..k] + [i] + ord[k..])
  {
    hide Ascending;
    var ns', ord' := ns[i := m], ord[..k] + [i] + ord[k..];
    forall j: nat | IsValid(ns', j) ensures j in ord' {
      if j != i {
        assert IsValid(ns, j);
        var x :| 0 <= x < |ord| && ord[x] == j;
        assert ord'[if x < k then x else x + 1] == j;
      }
    }
    assert Listed(ns', ord');
    AscendingMore(ns, ord, i, m, k);
  }

  lemma AscendingMore(ns: seq<Mpe>, ord: seq<nat>, i: nat, m: Mpe, k: nat)
    requires i < |ns| && (forall a :: 0 <= a < |ord| ==> ord[a] < |ns| && ord[a] != i) && Ascending(ns, ord) && k <= |ord|
    requires forall a :: 0 <= a < k ==> ns[ord[a]].region.base <= m.region.base
    requires k < |ord| ==> m.region.base < ns[ord[k]].region.base
    ensures forall a :: 0 <= a < |ord| + 1 ==> (ord[..k] + [i] + ord[k..])[a] < |ns|
    ensures Ascending(ns[i := m], ord[..k] + [i] + ord[k..])
  {
    var ns', ord' := ns[i := m], ord[..k] + [i] + ord[k..];
    assert forall a :: 0 <= a < |ord'| ==> ord'[a] == if a < k then ord[a] else if a == k then i else ord[a - 1];
  }

  lemma ListLess(ns: seq<Mpe>, ord: seq<nat>, k: nat)
    requires Ordered(ns, ord) && k < |ord|
    ensures Ordered(ns[ord[k] := Freed(ns[ord[k]])], ord[..k] + ord[k + 1..])
  {
    var i := ord[k];
    var ns', ord' := ns[i := Freed(ns[i])], ord[..k] + ord[k + 1..];
    forall j: nat | IsValid(ns', j) ensures j in ord' {
      assert IsValid(ns, j);
      var x :| 0 <= x < |ord| && ord[x] == j;
      assert ord'[if x < k then x else x - 1] == j;
    }
  }

  lemma MirrorMore(ns: seq<Mpe>, es: seq<Entry>, id: nat, phys: map<nat, nat>, slotOf: map<nat, nat>,
                   i: nat, m: Mpe, e: nat, entry: Entry)
    requires Mirror(ns, es, id, phys, slotOf) && i < |ns| && !IsValid(ns, i) && m.state.MpeValid?
    requires e < |es| && !es[e].taken && entry.taken && entry.asid == Some(id) && entry.base == m.region.base
    ensures Mirror(ns[i := m], es[e := entry], id, phys[i := e], slotOf[e := i])
    ensures Agree(ns, es, id, phys, slotOf) && Covering(entry, m) ==>
              Agree(ns[i := m], es[e := entry], id, phys[i := e], slotOf[e := i])
  {
  }

  lemma MirrorNext(ns: seq<Mpe>, es: seq<Entry>, id: nat, phys: map<nat, nat>, slotOf: map<nat, nat>,
                   i: nat, m: Mpe, e: nat, entry: Entry)
    requires Mirror(ns, es, id, phys, slotOf) && IsValid(ns, i) && m.state.MpeValid? && m.region.base == ns[i].region.base
    requires Holds(es, e, id) && es[e].base == m.region.base
    requires entry.taken && entry.asid == Some(id) && entry.base == m.region.base
    ensures Mirror(ns[i := m], es[e := entry], id, phys, slotOf)
    ensures DistinctBases(ns) && Agree(ns, es, id, phys, slotOf) ==>
              e == phys[i] && (Covering(entry, m) ==> Agree(ns[i := m], es[e := entry], id, phys, slotOf))
  {
    var j := slotOf[e];
  }

  /** Freeing entry `e` when slot `i` goes: if `e` mirrors another slot, that slot takes over. */
  ghost function PhysLess(phys: map<nat, nat>, slotOf: map<nat, nat>, i: nat, e: nat): map<nat, nat>
    requires i in phys && e in slotOf
  {
    if slotOf[e] == i then phys - {i} else phys[slotOf[e] := phys[i]] - {i}
  }

  ghost function SlotLess(phys: map<nat, nat>, slotOf: map<nat, nat>, i: nat, e: nat): map<nat, nat>
    requires i in phys && e in slotOf
  {
    if slotOf[e] == i then slotOf - {e} else slotOf[phys[i] := slotOf[e]] - {e}
  }

  lemma MirrorLess(ns: seq<Mpe>, es: seq<Entry>, id: nat, phys: map<nat, nat>, slotOf: map<nat, nat>, i: nat, e: nat)
    requires Mirror(ns, es, id, phys, slotOf) && IsValid(ns, i)
    requires Holds(es, e, id) && es[e].base == ns[i].region.base
    ensures Mirror(ns[i := Freed(ns[i])], es[e := EmptyEntry()], id, PhysLess(phys, slotOf, i, e), SlotLess(phys, slotOf, i, e))
    ensures DistinctBases(ns) && Agree(ns, es, id, phys, slotOf) ==>
              Agree(ns[i := Freed(ns[i])], es[e := EmptyEntry()], id, PhysLess(phys, slotOf, i, e), SlotLess(phys, slotOf, i, e))
  {
    var j := slotOf[e];
  }

  // ----- merging two neighbours

  predicate Mergeable(p: Mpe, c: Mpe) {
    End(p.region) == c.region.base && p.region.flags == c.region.flags && !p.lock && !c.lock
  }

  /** Regions that touch differ in their flags, or one of them is locked. */
  ghost predicate NoneToMerge(ns: seq<Mpe>) {
    forall i: nat, j: nat :: IsValid(ns, i) && IsValid(ns, j) && End(ns[i].region) == ns[j].region.base ==>
      ns[i].region.flags != ns[j].region.flags || ns[i].lock || ns[j].lock
  }

  lemma Ascends(ns: seq<Mpe>, kind: AsType, ord: seq<nat>, a: nat, b: nat)
    requires SlotsOk(ns, kind) && Ordered(ns, ord) && Disjoint(ns) && a < b < |ord|
    ensures ns[ord[a]].region.base < End(ns[ord[a]].region) <= ns[ord[b]].region.base < End(ns[ord[b]].region)
  {
    var i, j := ord[a], ord[b];
    assert SlotOk(ns[i], i, kind) && SlotOk(ns[j], j, kind) && i != j;
    assert Apart(ns[i].region, ns[j].region);
  }

  /** Of disjoint regions only neighbours in the list touch. */
  lemma TouchNext(ns: seq<Mpe>, kind: AsType, ord: seq<nat>, a: nat, b: nat)
    requires SlotsOk(ns, kind) && Ordered(ns, ord) && Disjoint(ns) && a < |ord| && b < |ord|
    requires End(ns[ord[a]].region) == ns[ord[b]].region.base
    ensures b == a + 1
  {
    assert SlotOk(ns[ord[a]], ord[a], kind);
    if b < a {
      Ascends(ns, kind, ord, b, a);
    } else if a + 1 < b {
      Ascends(ns, kind, ord, a, a + 1);
      Ascends(ns, kind, ord, a + 1, b);
    }
  }

  lemma AllMerged(ns: seq<Mpe>, kind: AsType, ord: seq<nat>)
    requires SlotsOk(ns, kind) && Ordered(ns, ord) && Disjoint(ns)
    requires forall b :: 0 < b < |ord| ==> !Mergeable(ns[ord[b - 1]], ns[ord[b]])
    ensures NoneToMerge(ns)
  {
    hide SlotsOk, Disjoint;
    forall i: nat, j: nat | IsValid(ns, i) && IsValid(ns, j) && End(ns[i].region) == ns[j].region.base
      ensures ns[i].region.flags != ns[j].region.flags || ns[i].lock || ns[j].lock
    {
      var a :| 0 <= a < |ord| && ord[a] == i;
      var b :| 0 <= b < |ord| && ord[b] == j;
      TouchNext(ns, kind, ord, a, b);
      assert !Mergeable(ns[ord[b - 1]], ns[ord[b]]);
    }
  }

  /** merged_reg of mem_vmpu_coalesce_contiguous, whose section is left out and so is 0. */
  function Merged(p: Region, c: Region): Region {
    Region(p.base, p.size + c.size, c.flags, 0)
  }

  ghost function MergedSlots(ns: seq<Mpe>, p: nat, c: nat): seq<Mpe>
    requires p < |ns| && c < |ns|
  {
    ns[p := ns[p].(region := Merged(ns[p].region, ns[c].region))][c := Freed(ns[c])]
  }

  lemma MergedApart(p: Region, c: Region, r: Region)
    requires p.size > 0 && c.size > 0 && r.size > 0 && End(p) == c.base
    ensures Apart(Merged(p, c), r) <==> Apart(p, r) && Apart(c, r)
    ensures Apart(r, Merged(p, c)) <==> Apart(r, p) && Apart(r, c)
    ensures Apart(p, c) && Apart(c, p)
  {
  }

  lemma MergeDisjoint(ns: seq<Mpe>, p: nat, c: nat, kind: AsType)
    requires SlotsOk(ns, kind) && IsValid(ns, p) && IsValid(ns, c) && p != c && Mergeable(ns[p], ns[c])
    ensures SlotsOk(MergedSlots(ns, p, c), kind)
    ensures Disjoint(ns) <==> Disjoint(MergedSlots(ns, p, c))
  {
    hide Apart;
    var ns' := MergedSlots(ns, p, c);
    forall i: nat | IsValid(ns, i)
      ensures Apart(ns'[p].region, ns[i].region) <==> Apart(ns[p].region, ns[i].region) && Apart(ns[c].region, ns[i].region)
      ensures Apart(ns[i].region, ns'[p].region) <==> Apart(ns[i].region, ns[p].region) && Apart(ns[i].region, ns[c].region)
      ensures Apart(ns[p].region, ns[c].region) && Apart(ns[c].region, ns[p].region)
    {
      assert SlotOk(ns[i], i, kind) && SlotOk(ns[p], p, kind) && SlotOk(ns[c], c, kind);
      MergedApart(ns[p].region, ns[c].region, ns[i].region);
    }
    assert forall i: nat :: IsValid(ns', i) <==> IsValid(ns, i) && i != c;
    assert forall i: nat :: i < |ns| && i != p && i != c ==> ns'[i] == ns[i];
  }

  lemma MergeAt(ns: seq<Mpe>, p: nat, c: nat, kind: AsType, a: nat)
    requires SlotsOk(ns, kind) && IsValid(ns, p) && IsValid(ns, c) && p != c && Mergeable(ns[p], ns[c])
    requires Disjoint(ns)
    ensures At(MergedSlots(ns, p, c), a) == At(ns, a)
  {
    var ns' := MergedSlots(ns, p, c);
    MergeDisjoint(ns, p, c, kind);
    if i: nat :| Covers(ns, i, a) {
      var i' := if i == c then p else i;
      assert Covers(ns', i', a);
      AtSlot(ns, i, a);
      AtSlot(ns', i', a);
    } else {
      assert forall i: nat :: Covers(ns', i, a) ==> Covers(ns, i, a) || Covers(ns, c, a);
    }
  }

  /** A claimed slot is not VALID yet, and nothing else looks at it. */
  lemma ClaimKeeps(ns: seq<Mpe>, i: nat, kind: AsType, ord: seq<nat>, es: seq<Entry>, id: nat,
                   phys: map<nat, nat>, slotOf: map<nat, nat>)
    requires i < |ns| && ns[i].state.MpeFree? && SlotsOk(ns, kind) && Ordered(ns, ord) && Mirror(ns, es, id, phys, slotOf)
    ensures var ns' := ns[i := ns[i].(state := MpeInvalid)];
            && SlotsOk(ns', kind) && Ordered(ns', ord) && Mirror(ns', es, id, phys, slotOf)
            && (Agree(ns, es, id, phys, slotOf) ==> Agree(ns', es, id, phys, slotOf))
            && (Disjoint(ns') <==> Disjoint(ns))
            && (Disjoint(ns) ==> forall a :: At(ns', a) == At(ns, a))
  {
    hide At, Apart, Covering;
    var ns' := ns[i := ns[i].(state := MpeInvalid)];
    assert forall j: nat :: IsValid(ns, j) <==> IsValid(ns', j);
    assert forall j: nat :: IsValid(ns, j) ==> ns'[j] == ns[j];
    if Disjoint(ns) {
      forall a ensures At(ns', a) == At(ns, a) {
        SameAt(ns, ns', a);
      }
    }
  }

  lemma SameAt(ns: seq<Mpe>, ns': seq<Mpe>, a: nat)
    requires Disjoint(ns) && |ns| == |ns'|
    requires forall i: nat :: IsValid(ns, i) || IsValid(ns', i) ==> ns'[i] == ns[i]
    ensures At(ns', a) == At(ns, a)
  {
    if i: nat :| Covers(ns, i, a) {
      SubDisjoint(ns', ns);
      AtSlot(ns, i, a);
      assert Covers(ns', i, a);
      AtSlot(ns', i, a);
    } else {
      assert forall i: nat :: Covers(ns', i, a) ==> Covers(ns, i, a);
    }
  }

  lemma PhysOf(ns: seq<Mpe>, es: seq<Entry>, id: nat, phys: map<nat, nat>, slotOf: map<nat, nat>, i: nat)
    requires Mirror(ns, es, id, phys, slotOf) && IsValid(ns, i)
    ensures i in phys && Holds(es, phys[i], id) && es[phys[i]].base == ns[i].region.base
  {
  }

  lemma InMaps(ns: seq<Mpe>, es: seq<Entry>, id: nat, phys: map<nat, nat>, slotOf: map<nat, nat>, i: nat, e: nat)
    requires Mirror(ns, es, id, phys, slotOf) && IsValid(ns, i) && Holds(es, e, id)
    ensures i in phys && e in slotOf
  {
  }

  lemma AgreeAt(ns: seq<Mpe>, es: seq<Entry>, id: nat, phys: map<nat, nat>, slotOf: map<nat, nat>, i: nat)
    requires Agree(ns, es, id, phys, slotOf) && IsValid(ns, i)
    ensures i in phys && Holds(es, phys[i], id) && Covering(es[phys[i]], ns[i])
  {
  }

  lemma SameBase(ns: seq<Mpe>, i: nat, m: Mpe, ord: seq<nat>)
    requires IsValid(ns, i) && m.state.MpeValid? && m.region.base == ns[i].region.base
    ensures Ordered(ns, ord) ==> Ordered(ns[i := m], ord)
    ensures DistinctBases(ns) ==> DistinctBases(ns[i := m])
  {
  }

  /** Page-aligned bounds survive the registers. */
  lemma LimitCovers(mpr: Region)
    requires mpr.size > 0 && mpr.base % PAGE_SIZE == 0 && mpr.size % PAGE_SIZE == 0
    ensures Granule(mpr.base) == mpr.base && Granule(End(mpr) - 1) + 64 == End(mpr)
  {
    var b, n := mpr.base / 4096, mpr.size / 4096;
    PageGranule(b);
    PageGranule(b + n);
  }

  lemma PageGranule(k: nat)
    ensures Granule(k * 4096) == k * 4096 && (k > 0 ==> Granule(k * 4096 - 1) + 64 == k * 4096)
  {
    DivModUnique(k * 4096, 64, k * 64, 0);
    if k > 0 {
      DivModUnique(k * 4096 - 1, 64, k * 64 - 1, 63);
    }
  }

  lemma PageSum(a: nat, b: nat)
    requires a % 4096 == 0 && b % 4096 == 0
    ensures (a + b) % 4096 == 0 && (b <= a ==> (a - b) % 4096 == 0)
  {
    var x, y := a / 4096, b / 4096;
    DivModUnique(a + b, 4096, x + y, 0);
    if b <= a {
      DivModUnique(a - b, 4096, x - y, 0);
    }
  }

  lemma EntryCovers(id: nat, mpr: Region, locked: bool, mpid: nat)
    requires mpr.size > 0 && mpr.base % PAGE_SIZE == 0 && mpr.size % PAGE_SIZE == 0
    ensures Covering(EntryFor(id, mpr, locked), Mpe(MpeValid, locked, mpr, mpid))
  {
    LimitCovers(mpr);
  }

  /** A claimed slot filled with a region that no other contains. */
  lemma NewRegion(ns: seq<Mpe>, ns1: seq<Mpe>, i: nat, m: Mpe)
    requires i < |ns| && ns[i].state.MpeFree? && ns1 == ns[i := ns[i].(state := MpeInvalid)]
    requires m.state.MpeValid? && Disjoint(ns) && !InOne(ns, m.region.base, m.region.size)
    ensures Disjoint(ns1[i := m]) <==> !CutsAcross(ns, m.region.base, m.region.size)
    ensures !CutsAcross(ns, m.region.base, m.region.size) ==>
              Overlaid(ns, ns1[i := m], m.region.base, m.region.size, Some(Attr(m.region.flags, m.region.sec, m.lock)))
  {
    hide At, Apart;
    var ns2 := ns1[i := m];
    assert ns2 == ns[i := m];
    AddDisjoint(ns, i, m);
    if !CutsAcross(ns, m.region.base, m.region.size) {
      forall a: nat
        ensures At(ns2, a) == if m.region.base <= a < m.region.base + m.region.size then Some(Attr(m.region.flags, m.region.sec, m.lock)) else At(ns, a)
      {
        AddAt(ns, i, m, a);
      }
    }
  }

  lemma SlotsMore(ns: seq<Mpe>, i: nat, m: Mpe, kind: AsType)
    requires SlotsOk(ns, kind) && i < |ns| && m.state.MpeValid? && m.mpid == i && m.region.size > 0
    requires m.region.base % PAGE_SIZE == 0 && m.region.size % PAGE_SIZE == 0 && 0 <= m.region.sec < SEC_HYP_ANY
    requires m.region.flags.en == !kind.AsVm? && (Forced(m.region.sec) ==> m.lock)
    ensures SlotsOk(ns[i := m], kind)
  {
  }

  // ----- unmapping

  /** A piece of a removed region fits back among the others. */
  lemma PieceDisjoint(ns0: seq<Mpe>, i: nat, ns: seq<Mpe>, j: nat, m: Mpe)
    requires IsValid(ns0, i) && Disjoint(ns0) && Disjoint(ns) && j < |ns| && !IsValid(ns, j) && m.state.MpeValid?
    requires ns0[i].region.base <= m.region.base && End(m.region) <= End(ns0[i].region)
    requires forall k: nat :: IsValid(ns, k) ==>
               Apart(ns[k].region, m.region) || (IsValid(ns0, k) && k != i && ns[k] == ns0[k])
    ensures Disjoint(ns[j := m])
  {
    var ns' := ns[j := m];
    forall k: nat | IsValid(ns', k) && k != j ensures Apart(ns'[k].region, m.region) && Apart(m.region, ns'[k].region) {
      assert IsValid(ns, k);
      assert IsValid(ns0, k) && k != i ==> Apart(ns0[k].region, ns0[i].region);
    }
    forall k: nat, l: nat | IsValid(ns', k) && IsValid(ns', l) && k != l ensures Apart(ns'[k].region, ns'[l].region) {
      if k != j && l != j {
        assert IsValid(ns, k) && IsValid(ns, l);
      }
    }
  }

  /** What is left of slot `i` when a range inside it goes: the part above and the part below. */
  function Above(r: Region, limit: nat): Region
    requires limit <= End(r)
  {
    r.(base := limit, size := End(r) - limit)
  }

  function Below(r: Region, base: nat): Region
    requires r.base <= base
  {
    r.(size := base - r.base)
  }

  lemma CutAligned(r: Region, base: nat, size: nat)
    requires Within(base, size, r) && r.base % PAGE_SIZE == 0 && r.size % PAGE_SIZE == 0
    requires base % PAGE_SIZE == 0 && size % PAGE_SIZE == 0
    ensures Above(r, base + size).base % PAGE_SIZE == 0 && Above(r, base + size).size % PAGE_SIZE == 0
    ensures Below(r, base).size % PAGE_SIZE == 0
  {
    PageSum(base, size);
    PageSum(r.base, r.size);
    PageSum(End(r), base + size);
    PageSum(base, r.base);
  }

  /** Slot `i` with its region replaced by a piece of it, in slot `at`. */
  function Piece(m: Mpe, r: Region, at: nat): Mpe {
    Mpe(MpeValid, m.lock, r, at)
  }

  ghost function CutTop(ns: seq<Mpe>, i: nat, limit: nat, t: nat): seq<Mpe>
    requires i < |ns| && t < |ns|
  {
    var ns1 := ns[i := Freed(ns[i])];
    if limit < End(ns[i].region) then ns1[t := Piece(ns[i], Above(ns[i].region, limit), t)] else ns1
  }

  ghost function Cut(ns: seq<Mpe>, i: nat, base: nat, limit: nat, t: nat, b: nat): seq<Mpe>
    requires i < |ns| && t < |ns| && b < |ns|
  {
    var ns2 := CutTop(ns, i, limit, t);
    if ns[i].region.base < base then ns2[b := Piece(ns[i], Below(ns[i].region, base), b)] else ns2
  }

  lemma CutLookup(ns: seq<Mpe>, i: nat, base: nat, size: nat, t: nat, b: nat)
    requires IsValid(ns, i) && Disjoint(ns) && Within(base, size, ns[i].region) && size > 0 && t < |ns| && b < |ns|
    requires t == i || !IsValid(ns, t)
    requires ns[i].region.base < base ==> !IsValid(CutTop(ns, i, base + size, t), b)
    ensures Disjoint(Cut(ns, i, base, base + size, t, b))
    ensures Overlaid(ns, Cut(ns, i, base, base + size, t, b), base, size, None)
  {
    hide Apart, Disjoint, At;
    var r := ns[i].region;
    var ns1, ns2 := ns[i := Freed(ns[i])], CutTop(ns, i, base + size, t);
    var ns3 := Cut(ns, i, base, base + size, t, b);
    DropAt(ns, i, base);
    CutDisjoint(ns, i, base, size, t, b);
    forall a: nat ensures At(ns3, a) == if base <= a < base + size then None else At(ns, a) {
      DropAt(ns, i, a);
      if base + size < End(r) {
        AddAt(ns1, t, Piece(ns[i], Above(r, base + size), t), a);
      }
      if r.base < base {
        AddAt(ns2, b, Piece(ns[i], Below(r, base), b), a);
      }
      if Covers(ns, i, a) {
        AtSlot(ns, i, a);
      }
    }
  }

  lemma CutDisjoint(ns: seq<Mpe>, i: nat, base: nat, size: nat, t: nat, b: nat)
    requires IsValid(ns, i) && Disjoint(ns) && Within(base, size, ns[i].region) && size > 0 && t < |ns| && b < |ns|
    requires t == i || !IsValid(ns, t)
    requires ns[i].region.base < base ==> !IsValid(CutTop(ns, i, base + size, t), b)
    ensures Disjoint(ns[i := Freed(ns[i])]) && Disjoint(CutTop(ns, i, base + size, t))
    ensures Disjoint(Cut(ns, i, base, base + size, t, b))
  {
    hide At, Disjoint;
    var r := ns[i].region;
    var ns1, ns2 := ns[i := Freed(ns[i])], CutTop(ns, i, base + size, t);
    DropAt(ns, i, base);
    if base + size < End(r) {
      PieceDisjoint(ns, i, ns1, t, Piece(ns[i], Above(r, base + size), t));
    }
    if r.base < base {
      PieceDisjoint(ns, i, ns2, b, Piece(ns[i], Below(r, base), b));
    }
  }

  // ----- where the source's range test differs from overlap

  function Slots(a: Region, b: Region): seq<Mpe> {
    seq(VMPU_NUM_ENTRIES, i requires 0 <= i < VMPU_NUM_ENTRIES =>
      if i == 0 then Mpe(MpeValid, false, a, i)
      else if i == 1 && b.size > 0 then Mpe(MpeValid, false, b, i)
      else Mpe(MpeFree, false, Region(0, 0, Flags(0, 0, false), SEC_UNKNOWN), i))
  }

  /** Every address of a range is mapped, but by two regions: mem_unmap_range leaves it alone. */
  lemma SpanningExample() returns (ns: seq<Mpe>)
    ensures SlotsOk(ns, AsHyp) && Disjoint(ns)
    ensures (forall a: nat :: a < 8192 ==> At(ns, a).Some?) && !InOne(ns, 0, 8192)
  {
    ns := Slots(Region(0, 4096, Flags(1, 0, true), 0), Region(4096, 4096, Flags(2, 0, true), 0));
    forall a: nat | a < 8192 ensures At(ns, a).Some? {
      assert Covers(ns, if a < 4096 then 0 else 1, a);
    }
  }

  /** A region that starts inside another and ends outside it is accepted, and they overlap. */
  lemma OverlapExample() returns (ns: seq<Mpe>, m: Mpe)
    ensures SlotsOk(ns, AsHyp) && Disjoint(ns) && ns[1].state.MpeFree? && SlotOk(m, 1, AsHyp) && m.state.MpeValid?
    ensures !InOne(ns, m.region.base, m.region.size) && !Disjoint(ns[1 := m])
  {
    ns := Slots(Region(0, 8192, Flags(1, 0, true), 0), Region(0, 0, Flags(1, 0, true), 0));
    m := Mpe(MpeValid, false, Region(4096, 8192, Flags(1, 0, true), 0), 1);
    assert IsValid(ns[1 := m], 0) && IsValid(ns[1 := m], 1);
  }

  lemma SlotCount(ns: seq<Mpe>, kind: AsType)
    requires SlotsOk(ns, kind)
    ensures |ns| == VMPU_NUM_ENTRIES
  {
  }
}
