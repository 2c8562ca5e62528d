/**
 * The address space of the MPU build: src/core/mpu/mem.c on one core, over the physical
 * entries of PhysMpu. Broadcasts to other cores are messages and are not modelled.
 */
module Vmpus {
  import opened Options
  import opened PhysMpu
  import opened VmpuState

  class Vmpu {
    const id: nat
    const kind: AsType
    const mpu: Mpu
    const node: array<Mpe>
    var ordered: seq<nat>
    ghost var phys: map<nat, nat>
    ghost var slotOf: map<nat, nat>

    /** What every call keeps, even when it lets regions overlap. */
    ghost predicate Shape()
      reads this, node, mpu, mpu.entries
    {
      && mpu.Valid() && id in mpu.mask
      && SlotsOk(node[..], kind) && Ordered(node[..], ordered)
      && Mirror(node[..], mpu.entries[..], id, phys, slotOf)
    }

    /** Disjoint regions, each mirrored by one physical entry. */
    ghost predicate Valid()
      reads this, node, mpu, mpu.entries
    {
      Shape() && Disjoint(node[..]) && Agree(node[..], mpu.entries[..], id, phys, slotOf)
    }

    /** as_init, for an address space whose identifier owns no entry yet. */
    constructor (id: nat, kind: AsType, mpu: Mpu)
      requires mpu.Valid() && id in mpu.mask && mpu.mask[id] == {}
      ensures Valid() && this.mpu == mpu && this.id == id && this.kind == kind && fresh(node)
      ensures forall a :: At(node[..], a) == None
    {
      this.id, this.kind, this.mpu := id, kind, mpu;
      node := new Mpe[VMPU_NUM_ENTRIES](_ => Freed(Mpe(MpeFree, false, Region(0, 0, Flags(0, 0, false), 0), 0)));
      ordered, phys, slotOf := [], map[], map[];
    }

    // ----- slots and list

    method MemVmpuSetEntry(mpid: nat, mpr: Region, locked: bool)
      requires node.Length == VMPU_NUM_ENTRIES && mpid < node.Length
      requires Ordered(node[..], ordered) && !IsValid(node[..], mpid)
      modifies this`ordered, node
      ensures Ordered(node[..], ordered)
      ensures node[..] == old(node[..])[mpid := Mpe(MpeValid, locked, mpr, mpid)]
    {
      hide Ordered;
      node[mpid] := Mpe(MpeValid, locked, mpr, mpid);
      ListInsertOrdered(old(node[..]), mpid);
    }

    /** list_insert_ordered with vmpu_node_cmp: behind the last node whose base is not greater. */
    method ListInsertOrdered(ghost ns: seq<Mpe>, mpid: nat)
      requires mpid < |ns| == node.Length && node[..] == ns[mpid := node[mpid]] && node[mpid].state.MpeValid?
      requires Ordered(ns, ordered) && !IsValid(ns, mpid)
      modifies this`ordered
      ensures Ordered(node[..], ordered)
    {
      assert forall a :: 0 <= a < |ordered| ==> ordered[a] != mpid && node[ordered[a]] == ns[ordered[a]];
      var k := 0;
      while k < |ordered| && node[ordered[k]].region.base <= node[mpid].region.base
        invariant k <= |ordered| && ordered == old(ordered)
        invariant forall a :: 0 <= a < k ==> ns[ordered[a]].region.base <= node[mpid].region.base
      {
        k := k + 1;
      }
      ListMore(ns, ordered, mpid, node[mpid], k);
      ordered := ordered[..k] + [mpid] + ordered[k..];
    }

    method MemVmpuFreeEntry(mpid: nat)
      requires node.Length == VMPU_NUM_ENTRIES && mpid < node.Length && Ordered(node[..], ordered)
      modifies this`ordered, node
      ensures Ordered(node[..], ordered)
      ensures node[..] == old(node[..])[mpid := Freed(old(node[mpid]))]
      ensures old(IsValid(node[..], mpid)) ==> |ordered| == |old(ordered)| - 1
    {
      node[mpid] := Freed(node[mpid]);
      ghost var ns := old(node[..]);
      var k := 0;
      while k < |ordered| && ordered[k] != mpid
        invariant k <= |ordered| && ordered == old(ordered)
        invariant forall a :: 0 <= a < k ==> ordered[a] != mpid
      {
        k := k + 1;
      }
      if k < |ordered| {
        ListLess(ns, ordered, k);
        ordered := ordered[..k] + ordered[k + 1..];
      } else {
        assert forall i: nat :: IsValid(node[..], i) <==> IsValid(ns, i);
      }
    }

    /** The first free slot; without one the source ends in ERROR. */
    method MemVmpuAllocateEntry() returns (r: Option<nat>)
      requires Shape()
      modifies node
      ensures Shape() && (Disjoint(node[..]) <==> old(Disjoint(node[..])))
      ensures old(Agreed()) ==> Agreed()
      ensures r.Some? ==> r.value < node.Length && old(node[r.value]).state.MpeFree?
                          && node[..] == old(node[..])[r.value := old(node[r.value]).(state := MpeInvalid)]
                          && forall i :: 0 <= i < r.value ==> !old(node[i]).state.MpeFree?
      ensures r.None? ==> node[..] == old(node[..]) && forall i :: 0 <= i < node.Length ==> !node[i].state.MpeFree?
      ensures old(Disjoint(node[..])) ==> forall a :: At(node[..], a) == old(At(node[..], a))
    {
      hide Ordered, Mirror, SlotOk, Disjoint, Agree, At;
      r := None;
      for i := 0 to node.Length
        invariant forall j :: 0 <= j < i ==> !node[j].state.MpeFree?
        invariant node[..] == old(node[..])
      {
        if node[i].state.MpeFree? {
          node[i] := node[i].(state := MpeInvalid);
          ClaimKeeps(old(node[..]), i, kind, ordered, mpu.entries[..], id, phys, slotOf);
          return Some(i);
        }
      }
    }

    /** The first VALID slot whose region contains the range. */
    method MemVmpuFindOverlappingRegion(base: nat, size: nat) returns (r: Option<nat>)
      requires node.Length == VMPU_NUM_ENTRIES
      ensures r.Some? ==> IsValid(node[..], r.value) && Within(base, size, node[r.value].region)
      ensures r.None? <==> !InOne(node[..], base, size)
    {
      for i := 0 to node.Length
        invariant forall j: nat :: j < i && IsValid(node[..], j) ==> !Within(base, size, node[j].region)
      {
        if node[i].state.MpeValid? && Within(base, size, node[i].region) {
          return Some(i);
        }
      }
      return None;
    }

    /** mem_vmpu_get_entry_by_addr */
    method MemVmpuGetEntryByAddr(a: nat) returns (r: Option<nat>)
      requires Valid()
      ensures r.Some? ==> Covers(node[..], r.value, a)
      ensures r.Some? <==> At(node[..], a).Some?
    {
      for i := 0 to node.Length
        invariant forall j: nat :: j < i ==> !Covers(node[..], j, a)
      {
        if node[i].state.MpeValid? && node[i].region.base <= a < node[i].region.base + node[i].region.size {
          assert Covers(node[..], i, a);
          return Some(i);
        }
      }
      return None;
    }

    // ----- regions

    ghost predicate Mappable(mpr: Region) {
      mpr.size > 0 && mpr.base % PAGE_SIZE == 0 && mpr.size % PAGE_SIZE == 0 && 0 <= mpr.sec < SEC_HYP_ANY
    }

    /** The slot MemVmpuInsertRegion fills in. */
    ghost function Slot(mpid: nat, mpr: Region, locked: bool): Mpe {
      Mpe(MpeValid, Forced(mpr.sec) || locked, mpr.(flags := Enabled(kind, mpr.flags)), mpid)
    }

    ghost predicate Agreed()
      reads this, node, mpu, mpu.entries
    {
      Agree(node[..], mpu.entries[..], id, phys, slotOf)
    }

    method MemVmpuInsertRegion(mpid: nat, mpr: Region, locked: bool) returns (r: Outcome)
      requires Shape() && mpid < node.Length && node[mpid].state.MpeInvalid? && Mappable(mpr)
      modifies this`ordered, this`phys, this`slotOf, node, mpu`mask, mpu.entries
      ensures Shape() && OthersKept(old(mpu.entries[..]), mpu.entries[..], id)
      ensures r == Returned(true) || (r.Overrun? && !old(OneFree(mpu.entries[..])))
      ensures old(TwoFree(mpu.entries[..])) ==> OneFree(mpu.entries[..])
      ensures node[..] == if r.Overrun? then old(node[..]) else old(node[..])[mpid := Slot(mpid, mpr, locked)]
      ensures old(Agreed()) ==> Agreed()
    {
      hide Ordered, Mirror, Agree, OneFree, TwoFree, SlotsOk, SlotOk, Holds, Covering, EntryFor, Enabled, Forced, OthersKept;
      var lock := Forced(mpr.sec) || locked;
      ghost var ns, es := node[..], mpu.entries[..];
      SlotCount(ns, kind);
      var reg;
      ghost var at;
      r, reg, at := mpu.MpuMap(id, kind, mpr, lock);
      if r == Returned(true) {
        InsertKeeps(ns, es, id, kind, phys, slotOf, mpid, mpr, lock, at);
        MemVmpuSetEntry(mpid, reg, lock);
        phys, slotOf := phys[mpid := at], slotOf[at := mpid];
      } else {
        NoneFree(es);
        KeptSame(es, id);
      }
    }

    /** What filling in slot `mpid` and entry `at` keeps. */
    lemma InsertKeeps(ns: seq<Mpe>, es: seq<Entry>, id: nat, kind: AsType, phys: map<nat, nat>, slotOf: map<nat, nat>,
                      mpid: nat, mpr: Region, lock: bool, at: nat)
      requires SlotsOk(ns, kind) && Mirror(ns, es, id, phys, slotOf) && mpid < |ns| && ns[mpid].state.MpeInvalid?
      requires Mappable(mpr) && (Forced(mpr.sec) ==> lock) && at < |es| && !es[at].taken
      ensures var reg := mpr.(flags := Enabled(kind, mpr.flags));
              var m, entry := Mpe(MpeValid, lock, reg, mpid), EntryFor(id, reg, lock);
              && SlotsOk(ns[mpid := m], kind)
              && Mirror(ns[mpid := m], es[at := entry], id, phys[mpid := at], slotOf[at := mpid])
              && (Agree(ns, es, id, phys, slotOf) ==>
                    Agree(ns[mpid := m], es[at := entry], id, phys[mpid := at], slotOf[at := mpid]))
              && OthersKept(es, es[at := entry], id)
              && (TwoFree(es) ==> OneFree(es[at := entry]))
    {
      hide Mirror, Agree, SlotOk, Covering;
      var reg := mpr.(flags := Enabled(kind, mpr.flags));
      EntryCovers(id, reg, lock, mpid);
      SlotsMore(ns, mpid, Mpe(MpeValid, lock, reg, mpid), kind);
      FreeLess(es, at, EntryFor(id, reg, lock));
      LimitCovers(reg);
      MirrorMore(ns, es, id, phys, slotOf, mpid, Mpe(MpeValid, lock, reg, mpid), at, EntryFor(id, reg, lock));
    }

    method MemVmpuUpdateRegion(mpid: nat, merged: Region) returns (r: bool)
      requires Shape() && IsValid(node[..], mpid) && Mappable(merged)
      requires merged.base == node[mpid].region.base && merged.flags == node[mpid].region.flags
      requires merged.sec == 0 && !node[mpid].lock
      modifies node, mpu.entries
      ensures r && Shape() && OthersKept(old(mpu.entries[..]), mpu.entries[..], id)
      ensures node[..] == old(node[..])[mpid := old(node[mpid]).(region := merged)]
      ensures old(Agreed() && DistinctBases(node[..])) ==> Agreed() && DistinctBases(node[..])
    {
      hide Ordered, Mirror, Agree, DistinctBases;
      ghost var es, ns := mpu.entries[..], node[..];
      ghost var at;
      r, at := mpu.MpuUpdate(id, merged);
      PhysOf(ns, es, id, phys, slotOf, mpid);
      node[mpid] := node[mpid].(region := merged);
      SameBase(ns, mpid, node[mpid], ordered);
      MirrorNext(ns, es, id, phys, slotOf, mpid, node[mpid], at, mpu.entries[at]);
      if old(Agreed() && DistinctBases(node[..])) {
        AgreeAt(ns, es, id, phys, slotOf, mpid);
        LimitCovers(merged);
      }
    }

    method MemVmpuRemoveRegion(mpid: nat) returns (r: bool)
      requires Shape() && IsValid(node[..], mpid)
      modifies this`ordered, this`phys, this`slotOf, node, mpu`mask, mpu.entries
      ensures r && Shape() && OthersKept(old(mpu.entries[..]), mpu.entries[..], id)
      ensures node[..] == old(node[..])[mpid := Freed(old(node[mpid]))]
      ensures |ordered| == |old(ordered)| - 1
      ensures OneFree(mpu.entries[..]) && (old(OneFree(mpu.entries[..])) ==> TwoFree(mpu.entries[..]))
      ensures old(Agreed() && DistinctBases(node[..])) ==> Agreed()
    {
      hide Ordered, Mirror, Agree, DistinctBases;
      r := false;
      if node[mpid].state.MpeValid? {
        ghost var es, ns := mpu.entries[..], node[..];
        PhysOf(ns, es, id, phys, slotOf, mpid);
        ghost var at := mpu.MpuUnmap(id, node[mpid].region.base);
        MirrorLess(ns, es, id, phys, slotOf, mpid, at.value);
        FreeMore(es, at.value);
        MemVmpuFreeEntry(mpid);
        InMaps(ns, es, id, phys, slotOf, mpid, at.value);
        phys, slotOf := PhysLess(phys, slotOf, mpid, at.value), SlotLess(phys, slotOf, mpid, at.value);
        r := true;
      }
    }

    // ----- merging

    /** One pass over the list: the first node that can be merged into the one before it. */
    method FindMergeable() returns (k: nat)
      requires Shape()
      ensures k == 0 || (k < |ordered| && Mergeable(node[ordered[k - 1]], node[ordered[k]]))
      ensures k == 0 ==> NothingToMerge()
    {
      hide Mirror, Agree, SlotOk;
      var i := 1;
      while i < |ordered|
        invariant 1 <= i
        invariant forall j :: 0 < j < i && j < |ordered| ==> !Mergeable(node[ordered[j - 1]], node[ordered[j]])
      {
        if Mergeable(node[ordered[i - 1]], node[ordered[i]]) {
          return i;
        }
        i := i + 1;
      }
      return 0;
    }

    ghost predicate NothingToMerge()
      requires Shape()
      reads this, node, mpu, mpu.entries
    {
      forall j :: 0 < j < |ordered| ==> !Mergeable(node[ordered[j - 1]], node[ordered[j]])
    }

    /** One merge: mem_vmpu_update_region, then mem_vmpu_remove_region. */
    method Merge(p: nat, c: nat) returns (r: bool)
      requires Shape() && IsValid(node[..], p) && IsValid(node[..], c) && p != c && Mergeable(node[p], node[c])
      modifies this`ordered, this`phys, this`slotOf, node, mpu`mask, mpu.entries
      ensures r && Shape() && OthersKept(old(mpu.entries[..]), mpu.entries[..], id)
      ensures |ordered| == |old(ordered)| - 1
      ensures node[..] == MergedSlots(old(node[..]), p, c)
      ensures Disjoint(node[..]) <==> old(Disjoint(node[..]))
      ensures old(Valid()) ==> Valid()
      ensures old(Valid()) ==> forall a :: At(node[..], a) == old(At(node[..], a))
    {
      hide Ordered, Mirror, Agree, Disjoint, DistinctBases, At;
      ghost var ns := node[..];
      MergeDisjoint(ns, p, c, kind);
      if Disjoint(ns) {
        DisjointDistinct(ns, kind);
        forall a ensures At(MergedSlots(ns, p, c), a) == At(ns, a) {
          MergeAt(ns, p, c, kind, a);
        }
      }
      assert SlotOk(node[p], p, kind) && SlotOk(node[c], c, kind);
      r := MemVmpuUpdateRegion(p, Merged(node[p].region, node[c].region));
      if r {
        var removed := MemVmpuRemoveRegion(c);
      }
    }

    method MemVmpuCoalesceContiguous()
      requires Shape()
      modifies this`ordered, this`phys, this`slotOf, node, mpu`mask, mpu.entries
      ensures Shape() && OthersKept(old(mpu.entries[..]), mpu.entries[..], id) && NothingToMerge()
      ensures Disjoint(node[..]) <==> old(Disjoint(node[..]))
      ensures old(Valid()) ==> Valid()
      ensures old(Valid()) ==> forall a :: At(node[..], a) == old(At(node[..], a))
      ensures old(Valid()) ==> NoneToMerge(node[..])
    {
      hide Mirror, Agree, Disjoint, DistinctBases, At, SlotsOk, OthersKept, NoneToMerge, Mergeable;
      KeptSame(mpu.entries[..], id);
      while true
        invariant Shape() && OthersKept(old(mpu.entries[..]), mpu.entries[..], id)
        invariant Disjoint(node[..]) <==> old(Disjoint(node[..]))
        invariant old(Valid()) ==> Valid() && forall a :: At(node[..], a) == old(At(node[..], a))
        decreases |ordered|
      {
        var k := FindMergeable();
        if k == 0 {
          if Disjoint(node[..]) {
            AllMerged(node[..], kind, ordered);
          }
          break;
        }
        ghost var es := mpu.entries[..];
        var merged := Merge(ordered[k - 1], ordered[k]);
        KeptMore(old(mpu.entries[..]), es, mpu.entries[..], id);
      }
    }

    // ----- mapping

    /** mem_map. A region that contains the new one refuses it; one that cuts across it does not. */
    method MemMap(mpr: Region, locked: bool) returns (r: Outcome)
      requires Shape() && mpr.base % PAGE_SIZE == 0 && 0 <= mpr.sec < SEC_HYP_ANY
      modifies this`ordered, this`phys, this`slotOf, node, mpu`mask, mpu.entries
      ensures Shape() && OthersKept(old(mpu.entries[..]), mpu.entries[..], id)
      ensures r.Halted? ==> mpr.size % PAGE_SIZE != 0 || forall i :: 0 <= i < node.Length ==> !old(node[i]).state.MpeFree?
      ensures r.Overrun? ==> !old(OneFree(mpu.entries[..]))
      ensures r == Returned(false) ==> mpr.size > 0 && old(InOne(node[..], mpr.base, mpr.size))
      ensures mpr.size == 0 ==> r == Returned(true)
      ensures mpr.size == 0 || r == Returned(false) ==> node[..] == old(node[..]) && mpu.entries[..] == old(mpu.entries[..])
      ensures r == Returned(true) && mpr.size > 0 ==> !old(InOne(node[..], mpr.base, mpr.size))
      ensures r == Returned(true) && mpr.size > 0 && old(Valid()) ==>
                (Valid() <==> !old(CutsAcross(node[..], mpr.base, mpr.size)))
      ensures r == Returned(true) && mpr.size > 0 && old(Valid()) && !old(CutsAcross(node[..], mpr.base, mpr.size)) ==>
                Overlaid(old(node[..]), node[..], mpr.base, mpr.size,
                         Some(Attr(Enabled(kind, mpr.flags), mpr.sec, Forced(mpr.sec) || locked)))
                && (!locked ==> NoneToMerge(node[..]))
    {
      hide Ordered, Mirror, Agree, Disjoint, DistinctBases, OthersKept, InOne, CutsAcross, SlotOk, OneFree, TwoFree,
           NoneToMerge;
      KeptSame(mpu.entries[..], id);
      if mpr.size == 0 {
        return Returned(true);
      }
      if mpr.size % PAGE_SIZE != 0 {
        return Halted;
      }
      ghost var ns := node[..];
      var overlapping := MemVmpuFindOverlappingRegion(mpr.base, mpr.size);
      if overlapping.Some? {
        return Returned(false);
      }
      var mpid := MemVmpuAllocateEntry();
      if mpid.None? {
        return Halted;
      }
      ghost var ns1 := node[..];
      r := MemVmpuInsertRegion(mpid.value, mpr, locked);
      if r.Overrun? {
        return;
      }
      ghost var es := mpu.entries[..];
      if old(Valid()) {
        NewRegion(ns, ns1, mpid.value, Slot(mpid.value, mpr, locked));
      }
      if !locked {
        MemVmpuCoalesceContiguous();
        KeptMore(old(mpu.entries[..]), es, mpu.entries[..], id);
      }
    }

    // ----- unmapping

    /** mem_unmap_range puts one remaining piece of a region back, in a slot of its own. */
    method PutBack(reg: Region, locked: bool) returns (r: Outcome, ghost at: nat)
      requires Shape() && Mappable(reg)
      modifies this`ordered, this`phys, this`slotOf, node, mpu`mask, mpu.entries
      ensures Shape() && OthersKept(old(mpu.entries[..]), mpu.entries[..], id)
      ensures r.Halted? ==> forall i :: 0 <= i < node.Length ==> !old(node[i]).state.MpeFree?
      ensures r.Overrun? ==> !old(OneFree(mpu.entries[..]))
      ensures r == Returned(true) || r.Halted? || r.Overrun?
      ensures r == Returned(true) ==>
                && at < node.Length && old(node[at]).state.MpeFree?
                && node[..] == old(node[..])[at := Slot(at, reg, locked)]
                && (old(Agreed()) ==> Agreed())
      ensures r == Returned(true) && old(TwoFree(mpu.entries[..])) ==> OneFree(mpu.entries[..])
    {
      hide Ordered, Mirror, Agree, OneFree, TwoFree, SlotOk, OthersKept, Disjoint, At;
      KeptSame(mpu.entries[..], id);
      at := 0;
      var mpid := MemVmpuAllocateEntry();
      if mpid.None? {
        return Halted, at;
      }
      r := MemVmpuInsertRegion(mpid.value, reg, locked);
      at := mpid.value;
    }

    /** One round of mem_unmap_range: cuts a range out of the region of slot `i`. */
    method UnmapFrom(i: nat, vaddr: nat, size: nat) returns (r: Outcome, sizeLeft: nat)
      requires Valid() && vaddr % PAGE_SIZE == 0 && size % PAGE_SIZE == 0 && size > 0
      requires IsValid(node[..], i) && Within(vaddr, size, node[i].region)
      modifies this`ordered, this`phys, this`slotOf, node, mpu`mask, mpu.entries
      ensures Shape() && OthersKept(old(mpu.entries[..]), mpu.entries[..], id)
      ensures r.Halted? ==> forall i :: 0 <= i < node.Length ==> !old(node[i]).state.MpeFree?
      ensures r.Overrun? ==> !old(OneFree(mpu.entries[..]))
      ensures r.Returned? ==> Valid() && sizeLeft == 0 && Overlaid(old(node[..]), node[..], vaddr, size, None)
    {
      hide Ordered, Mirror, Agree, OneFree, TwoFree, OthersKept, Disjoint, DistinctBases, Apart, Overlaid;
      ghost var ns0, es0 := node[..], mpu.entries[..];
      var reg, locked := node[i].region, node[i].lock;
      assert SlotOk(node[i], i, kind);
      CutAligned(reg, vaddr, size);
      DisjointDistinct(ns0, kind);
      var limit, rLimit := vaddr + size, reg.base + reg.size;
      var topSize := if limit >= rLimit then 0 else rLimit - limit;
      var bottomSize := if vaddr <= reg.base then 0 else vaddr - reg.base;
      var removed := MemVmpuRemoveRegion(i);
      assert node[i].state.MpeFree?;
      ghost var t, b := i, i;
      sizeLeft := size;
      r := Returned(true);
      if topSize > 0 {
        ghost var es := mpu.entries[..];
        r, t := PutBack(Region(limit, topSize, reg.flags, reg.sec), locked);
        KeptMore(es0, es, mpu.entries[..], id);
        if !r.Returned? {
          return;
        }
      }
      if bottomSize > 0 {
        ghost var es := mpu.entries[..];
        ghost var ns2 := node[..];
        assert ns2 == CutTop(ns0, i, limit, t);
        r, b := PutBack(Region(reg.base, bottomSize, reg.flags, reg.sec), locked);
        KeptMore(es0, es, mpu.entries[..], id);
        if !r.Returned? {
          assert r.Halted? ==> !ns2[i].state.MpeFree? && forall j :: 0 <= j < |ns0| && j != i ==> ns2[j] == ns0[j];
          return;
        }
      }
      CutLookup(ns0, i, vaddr, size, t, b);
      sizeLeft := sizeLeft - (reg.size - topSize - bottomSize);
    }

    /**
     * mem_unmap_range. It acts only on a range that lies inside one region; then it removes
     * exactly that range from the lookup.
     */
    method MemUnmapRange(vaddr: nat, size: nat) returns (r: Outcome)
      requires Valid() && vaddr % PAGE_SIZE == 0 && size % PAGE_SIZE == 0
      modifies this`ordered, this`phys, this`slotOf, node, mpu`mask, mpu.entries
      ensures Shape() && OthersKept(old(mpu.entries[..]), mpu.entries[..], id)
      ensures r.Halted? ==> forall i :: 0 <= i < node.Length ==> !old(node[i]).state.MpeFree?
      ensures r.Overrun? ==> !old(OneFree(mpu.entries[..]))
      ensures r.Returned? ==> Valid() && (r.value <==> size == 0 || old(InOne(node[..], vaddr, size)))
      ensures r == Returned(false) ==> node[..] == old(node[..]) && mpu.entries[..] == old(mpu.entries[..])
      ensures r == Returned(true) ==> Overlaid(old(node[..]), node[..], vaddr, size, None)
    {
      hide Ordered, Mirror, Agree, OneFree, TwoFree, SlotOk, OthersKept, Disjoint, DistinctBases, Within, Apart;
      KeptSame(mpu.entries[..], id);
      var sizeLeft := size;
      ghost var done := false;
      while sizeLeft > 0
        invariant if done then sizeLeft == 0 else sizeLeft == size
        invariant !done ==> node[..] == old(node[..]) && mpu.entries[..] == old(mpu.entries[..])
        invariant Valid() && OthersKept(old(mpu.entries[..]), mpu.entries[..], id)
        invariant done ==> old(InOne(node[..], vaddr, size)) && Overlaid(old(node[..]), node[..], vaddr, size, None)
        decreases sizeLeft
      {
        var mpid := MemVmpuFindOverlappingRegion(vaddr, size);
        if mpid.None? {
          break;
        }
        r, sizeLeft := UnmapFrom(mpid.value, vaddr, size);
        if !r.Returned? {
          return r;
        }
        done := true;
      }
      r := Returned(sizeLeft == 0);
    }

    /** mem_translate: mappings are one to one, so only whether there is one matters. */
    method MemTranslate(va: nat) returns (pa: Option<nat>)
      requires Valid()
      ensures pa == if At(node[..], va).Some? then Some(va) else None
    {
      var mpid := MemVmpuGetEntryByAddr(va);
      pa := if mpid.Some? then Some(va) else None;
    }
  }
}
