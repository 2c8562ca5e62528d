/**
 * The MPU entries of one Armv8-R core, as src/arch/armv8/armv8-r/mpu.c manages them. They
 * are shared by the address spaces that run on the core; an entry belongs to one of them.
 */
module PhysMpu {
  import opened Options

  const MPU_ENTRIES: nat := 64

  /** The attribute bits of the base and limit registers; `en` is PRLAR.EN. */
  datatype Flags = Flags(prbar: nat, attr: nat, en: bool)

  datatype Region = Region(base: nat, size: nat, flags: Flags, sec: int)

  datatype AsType = AsHyp | AsHypCpy | AsVm

  /** One entry: its bits in the two bitmaps, its owner, and its two registers. */
  datatype Entry = Entry(taken: bool, locked: bool, asid: Option<nat>, base: nat, limit: nat, flags: Flags)

  /** A call returns, ends in ERROR, or writes past the last MPU entry. */
  datatype Outcome = Returned(value: bool) | Halted | Overrun

  /** The registers drop the low six bits of an address. */
  function Granule(addr: nat): nat {
    addr - addr % 64
  }

  function EmptyEntry(): Entry {
    Entry(false, false, None, 0, 0, Flags(0, 0, false))
  }

  predicate Holds(es: seq<Entry>, e: nat, id: nat) {
    e < |es| && es[e].taken && es[e].asid == Some(id)
  }

  /** mpu_map enables the entries of the hypervisor only. */
  function Enabled(kind: AsType, flags: Flags): Flags {
    flags.(en := !kind.AsVm?)
  }

  /** What mpu_entry_set leaves in an entry taken for `id`. */
  function EntryFor(id: nat, mpr: Region, locked: bool): Entry
    requires mpr.size > 0
  {
    Entry(true, locked, Some(id), Granule(mpr.base), Granule(mpr.base + mpr.size - 1), mpr.flags)
  }

  /** The entries of every other address space are as they were. */
  ghost predicate OthersKept(es: seq<Entry>, es': seq<Entry>, id: nat) {
    && |es'| == |es|
    && forall e :: 0 <= e < |es| && (Others(es[e], id) || Others(es'[e], id)) ==> es'[e] == es[e]
  }

  predicate Others(entry: Entry, id: nat) {
    entry.taken && entry.asid != Some(id)
  }

  ghost predicate OneFree(es: seq<Entry>) {
    exists e :: 0 <= e < |es| && !es[e].taken
  }

  ghost predicate TwoFree(es: seq<Entry>) {
    exists e, f :: 0 <= e < f < |es| && !es[e].taken && !es[f].taken
  }

  class Mpu {
    const entries: array<Entry>
    /** mpu_entry_mask of the address spaces find_mpu_mask_by_asid knows. */
    var mask: map<nat, set<nat>>

    ghost predicate Valid()
      reads this, entries
    {
      && entries.Length == MPU_ENTRIES
      && (forall e :: 0 <= e < entries.Length && !entries[e].taken ==> !entries[e].locked)
      && (forall id :: id in mask ==> forall e: nat :: e in mask[id] <==> Holds(entries[..], e, id))
    }

    /** mpu_init */
    constructor (ids: set<nat>)
      ensures Valid() && fresh(entries) && mask.Keys == ids
      ensures forall e :: 0 <= e < MPU_ENTRIES ==> !entries[e].taken
    {
      entries := new Entry[MPU_ENTRIES](_ => EmptyEntry());
      mask := map id | id in ids :: {};
    }

    /** The first entry of `id` with this base. */
    method MpuFindRegion(base: nat, id: nat) returns (r: Option<nat>)
      requires Valid()
      ensures r.Some? ==> Holds(entries[..], r.value, id) && entries[r.value].base == base
      ensures r.None? ==> forall e: nat :: Holds(entries[..], e, id) ==> entries[e].base != base
    {
      for i := 0 to entries.Length
        invariant forall e: nat :: e < i && Holds(entries[..], e, id) ==> entries[e].base != base
      {
        if entries[i].taken && entries[i].base == base && entries[i].asid == Some(id) {
          return Some(i);
        }
      }
      return None;
    }

    /** bitmap_find_nth for the first clear bit; mpu_entry_allocate does not look for -1. */
    method FirstFree() returns (r: Option<nat>)
      requires Valid()
      ensures r.Some? ==> r.value < entries.Length && !entries[r.value].taken && forall e :: 0 <= e < r.value ==> entries[e].taken
      ensures r.None? ==> forall e :: 0 <= e < entries.Length ==> entries[e].taken
    {
      for i := 0 to entries.Length
        invariant forall e :: 0 <= e < i ==> entries[e].taken
      {
        if !entries[i].taken {
          return Some(i);
        }
      }
      return None;
    }

    /** mpu_map takes a free entry and writes the region, whose enable bit it first sets in place. */
    method MpuMap(id: nat, kind: AsType, mpr: Region, locked: bool)
      returns (r: Outcome, reg: Region, ghost at: nat)
      requires Valid() && id in mask
      modifies this`mask, entries
      ensures Valid() && mask.Keys == old(mask.Keys) && !r.Halted?
      ensures r == Returned(false) <==> mpr.size == 0
      ensures r.Overrun? ==> forall e :: 0 <= e < entries.Length ==> old(entries[e]).taken
      ensures r == Returned(true) ==>
                && reg == mpr.(flags := Enabled(kind, mpr.flags))
                && at < entries.Length && !old(entries[at]).taken
                && entries[..] == old(entries[..])[at := EntryFor(id, reg, locked)]
      ensures r != Returned(true) ==> entries[..] == old(entries[..])
    {
      reg, at := mpr, 0;
      if mpr.size == 0 {
        return Returned(false), reg, at;
      }
      var e := FirstFree();
      if e.None? {
        return Overrun, reg, at;
      }
      var lockBit := locked || entries[e.value].locked;
      reg := mpr.(flags := Enabled(kind, mpr.flags));
      mask := mask[id := mask[id] + {e.value}];
      entries[e.value] := EntryFor(id, reg, lockBit);
      r, at := Returned(true), e.value;
    }

    /** mpu_unmap */
    method MpuUnmap(id: nat, base: nat) returns (ghost at: Option<nat>)
      requires Valid() && id in mask
      modifies this`mask, entries
      ensures Valid() && mask.Keys == old(mask.Keys)
      ensures at.Some? ==>
                && Holds(old(entries[..]), at.value, id) && old(entries[at.value]).base == base
                && entries[..] == old(entries[..])[at.value := EmptyEntry()]
      ensures at.None? ==> entries[..] == old(entries[..])
                           && forall e: nat :: Holds(entries[..], e, id) ==> entries[e].base != base
    {
      var e := MpuFindRegion(base, id);
      if e.Some? {
        entries[e.value] := EmptyEntry();
        mask := mask[id := mask[id] - {e.value}];
      }
      at := e;
    }

    /** mpu_update rewrites the limit register only. */
    method MpuUpdate(id: nat, mpr: Region) returns (r: bool, ghost at: nat)
      requires Valid() && mpr.size > 0
      modifies entries
      ensures Valid() && mask == old(mask)
      ensures r ==>
                && Holds(old(entries[..]), at, id) && old(entries[at]).base == mpr.base
                && entries[..] == old(entries[..])[at :=
                     old(entries[at]).(limit := Granule(mpr.base + mpr.size - 1),
                                       flags := Flags(old(entries[at]).flags.prbar, mpr.flags.attr, mpr.flags.en))]
      ensures !r ==> entries[..] == old(entries[..])
                     && forall e: nat :: Holds(entries[..], e, id) ==> entries[e].base != mpr.base
    {
      var e := MpuFindRegion(mpr.base, id);
      r, at := e.Some?, 0;
      if e.Some? {
        at := e.value;
        entries[e.value] := entries[e.value].(limit := Granule(mpr.base + mpr.size - 1),
            flags := Flags(entries[e.value].flags.prbar, mpr.flags.attr, mpr.flags.en));
      }
    }
  }

  lemma FreeMore(es: seq<Entry>, e: nat)
    requires e < |es| && es[e].taken
    ensures OneFree(es[e := EmptyEntry()]) && (OneFree(es) ==> TwoFree(es[e := EmptyEntry()]))
  {
    var es' := es[e := EmptyEntry()];
    assert !es'[e].taken;
    if f :| 0 <= f < |es| && !es[f].taken {
      assert !es'[f].taken;
    }
  }

  lemma KeptSame(es: seq<Entry>, id: nat)
    ensures OthersKept(es, es, id)
  {
  }

  lemma KeptMore(es: seq<Entry>, es': seq<Entry>, es'': seq<Entry>, id: nat)
    requires OthersKept(es, es', id) && OthersKept(es', es'', id)
    ensures OthersKept(es, es'', id)
  {
  }

  lemma FreeLess(es: seq<Entry>, e: nat, entry: Entry)
    requires e < |es|
    ensures TwoFree(es) ==> OneFree(es[e := entry])
  {
    if f, g :| 0 <= f < g < |es| && !es[f].taken && !es[g].taken {
      assert !es[e := entry][if f == e then g else f].taken;
    }
  }

  lemma NoneFree(es: seq<Entry>)
    ensures (forall e :: 0 <= e < |es| ==> es[e].taken) ==> !OneFree(es)
    ensures TwoFree(es) ==> OneFree(es)
  {
  }
}
