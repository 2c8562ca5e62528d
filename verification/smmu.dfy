/**
 * Stream match entries of the SMMUv2 driver: src/arch/armv8/armv8-a/smmuv2.c, and the call
 * in iommu.c that puts its operations together. An entry matches the streams that agree
 * with its id outside its mask, and sends them to its translation context.
 */
module Smmu {
  import opened Options

  /** Stream ids and masks have SMMU_SMR_ID_LEN bits. */
  type Stream = bv15

  datatype Sme = Sme(used: bool, group: bool, mask: Stream, id: Stream, ctx: nat)

  datatype Outcome = Returned(value: bool) | Halted

  predicate Match(mask: Stream, id: Stream, s: Stream) {
    (s ^ id) & !mask == 0
  }

  /** The test on diff_id: the two entries have a stream in common. */
  predicate Meet(m1: Stream, i1: Stream, m2: Stream, i2: Stream) {
    (i1 ^ i2) & !(m1 | m2) == 0
  }

  /** Every bit of `a` is one of `b`. */
  predicate Inside(a: Stream, b: Stream) {
    a & b == a
  }

  lemma MeetExact(m1: Stream, i1: Stream, m2: Stream, i2: Stream)
    ensures Meet(m1, i1, m2, i2) <==> exists s :: Match(m1, i1, s) && Match(m2, i2, s)
  {
    if Meet(m1, i1, m2, i2) {
      MeetAt(m1, i1, m2, i2);
    } else if s :| Match(m1, i1, s) && Match(m2, i2, s) {
      MeetNone(m1, i1, m2, i2, s);
    }
  }

  lemma MeetAt(m1: Stream, i1: Stream, m2: Stream, i2: Stream)
    requires Meet(m1, i1, m2, i2)
    ensures exists s :: Match(m1, i1, s) && Match(m2, i2, s)
  {
    var s := (i1 & !m1) | (i2 & m1);
    assert Match(m1, i1, s) && Match(m2, i2, s);
  }

  lemma MeetNone(m1: Stream, i1: Stream, m2: Stream, i2: Stream, s: Stream)
    requires Match(m1, i1, s) && Match(m2, i2, s)
    ensures Meet(m1, i1, m2, i2) && Meet(m2, i2, m1, i1)
  {
  }

  /** Entries that meet, one with the smaller mask: all its streams are the other's too. */
  lemma Contained(m1: Stream, i1: Stream, m2: Stream, i2: Stream, s: Stream)
    requires Meet(m1, i1, m2, i2) && Inside(m1, m2) && Match(m1, i1, s)
    ensures Match(m2, i2, s)
  {
  }

  predicate Greater(a: Stream, b: Stream) {
    a > b
  }

  /** Of two nested masks the numerically greater one is the outer. */
  lemma MaskOrder(a: Stream, b: Stream)
    requires Inside(a, b) || Inside(b, a)
    ensures if Greater(a, b) then Inside(b, a) && !Inside(a, b) else Inside(a, b)
  {
    hide Inside, Greater;
    if Inside(a, b) {
      InsideOrder(a, b);
    } else {
      InsideOrder(b, a);
    }
  }

  lemma InsideOrder(a: Stream, b: Stream)
    requires Inside(a, b)
    ensures !Greater(a, b) && (Greater(b, a) || a == b)
  {
  }

  // ----- the entries

  predicate Serves(e: Sme, ctx: nat, s: Stream) {
    e.used && e.ctx == ctx && Match(e.mask, e.id, s)
  }

  ghost predicate Owns(es: seq<Sme>, ctx: nat, s: Stream) {
    exists i :: 0 <= i < |es| && Serves(es[i], ctx, s)
  }

  /** No stream matches two entries. */
  ghost predicate Disjoint(es: seq<Sme>) {
    forall i, j :: 0 <= i < |es| && 0 <= j < |es| && i != j && es[i].used && es[j].used ==>
      !Meet(es[i].mask, es[i].id, es[j].mask, es[j].id)
  }

  /** What smmu_compatible_sme_exists asks of two entries that meet. */
  predicate Mergeable(e: Sme, mask: Stream, ctx: nat, group: bool) {
    (group || e.group) && (Inside(mask, e.mask) || Inside(e.mask, mask)) && e.ctx == ctx
  }

  predicate Clash(e: Sme, mask: Stream, id: Stream, ctx: nat, group: bool) {
    e.used && Meet(mask, id, e.mask, e.id) && !Mergeable(e, mask, ctx, group)
  }

  ghost predicate SomeClash(es: seq<Sme>, mask: Stream, id: Stream, ctx: nat, group: bool) {
    exists i :: 0 <= i < |es| && Clash(es[i], mask, id, ctx, group)
  }

  /** All streams of the first pair are streams of the second. */
  ghost predicate Within(m1: Stream, i1: Stream, m2: Stream, i2: Stream) {
    forall s :: Match(m1, i1, s) ==> Match(m2, i2, s)
  }

  /**
   * A used entry that shares a stream with the new one and must not be merged with it: they
   * are two devices, or of different contexts, or neither has all streams of the other.
   */
  ghost predicate Conflict(e: Sme, mask: Stream, id: Stream, ctx: nat, group: bool) {
    && e.used && (exists s :: Match(mask, id, s) && Match(e.mask, e.id, s))
    && ((!group && !e.group) || e.ctx != ctx || (!Within(mask, id, e.mask, e.id) && !Within(e.mask, e.id, mask, id)))
  }

  ghost predicate SomeConflict(es: seq<Sme>, mask: Stream, id: Stream, ctx: nat, group: bool) {
    exists i :: 0 <= i < |es| && Conflict(es[i], mask, id, ctx, group)
  }

  /** The comparison of masks decides whether the streams of entries that meet are nested. */
  lemma InsideExact(m1: Stream, i1: Stream, m2: Stream, i2: Stream)
    requires Meet(m1, i1, m2, i2)
    ensures Inside(m1, m2) <==> Within(m1, i1, m2, i2)
  {
    hide Match, Inside, Meet;
    if Inside(m1, m2) {
      forall s | Match(m1, i1, s) ensures Match(m2, i2, s) {
        Contained(m1, i1, m2, i2, s);
      }
    } else {
      OwnStreams(m1, i1);
      if Within(m1, i1, m2, i2) {
        InsideBoth(m1, i1, m2, i2);
      }
    }
  }

  lemma OwnStreams(m: Stream, i: Stream)
    ensures Match(m, i, i) && Match(m, i, i ^ m)
  {
  }

  lemma InsideBoth(m1: Stream, i1: Stream, m2: Stream, i2: Stream)
    requires Match(m2, i2, i1) && Match(m2, i2, i1 ^ m1)
    ensures Inside(m1, m2)
  {
  }

  /** The tests of smmu_compatible_sme_exists find exactly the conflicts. */
  lemma ClashExact(e: Sme, mask: Stream, id: Stream, ctx: nat, group: bool)
    ensures Clash(e, mask, id, ctx, group) <==> Conflict(e, mask, id, ctx, group)
  {
    hide Match, Inside, Meet;
    MeetExact(mask, id, e.mask, e.id);
    if Meet(mask, id, e.mask, e.id) {
      MeetSwap(mask, id, e.mask, e.id);
      InsideExact(mask, id, e.mask, e.id);
      InsideExact(e.mask, e.id, mask, id);
    }
  }

  lemma SomeClashExact(es: seq<Sme>, mask: Stream, id: Stream, ctx: nat, group: bool)
    ensures SomeClash(es, mask, id, ctx, group) <==> SomeConflict(es, mask, id, ctx, group)
  {
    hide Clash, Conflict;
    forall i | 0 <= i < |es| ensures Clash(es[i], mask, id, ctx, group) <==> Conflict(es[i], mask, id, ctx, group) {
      ClashExact(es[i], mask, id, ctx, group);
    }
  }

  /** The entry after the pass: dropped if the new one takes its streams over. */
  function Passed(e: Sme, mask: Stream, id: Stream): Sme {
    if e.used && Meet(mask, id, e.mask, e.id) then e.(used := false) else e
  }

  /** What smmu_write_sme makes of a free entry: it sets the group flag but never clears it. */
  function Written(e: Sme, mask: Stream, id: Stream, ctx: nat, group: bool): Sme {
    Sme(true, group || e.group, mask, id, ctx)
  }

  /**
   * When a device passes for a group: a second device of the same context is merged with it,
   * instead of being refused as in conflict, exactly if its entry was marked as a group before.
   */
  lemma StaleGroup(e: Sme, mask: Stream, id: Stream, ctx: nat, mask': Stream, ctx': nat)
    requires Inside(mask', mask) || Inside(mask, mask')
    ensures Mergeable(Written(e, mask, id, ctx, false), mask', ctx', false) <==> e.group && ctx' == ctx
  {
  }

  /** Some entry serves all streams of the new one already. */
  ghost predicate Included(es: seq<Sme>, mask: Stream, id: Stream) {
    exists i :: 0 <= i < |es| && Includes(es[i], mask, id)
  }

  predicate Includes(e: Sme, mask: Stream, id: Stream) {
    e.used && Meet(mask, id, e.mask, e.id) && Inside(mask, e.mask)
  }

  /** The new entry is written to the first one free after the pass, whose group flag it inherits. */
  ghost predicate AddedAt(es: seq<Sme>, es': seq<Sme>, at: nat, mask: Stream, id: Stream, ctx: nat, group: bool) {
    && |es'| == |es| && at < |es| && !Passed(es[at], mask, id).used
    && (forall i :: 0 <= i < at ==> Passed(es[i], mask, id).used)
    && es'[at].used && es'[at].mask == mask && es'[at].id == id && es'[at].ctx == ctx
    && (es'[at].group <==> group || es[at].group)
    && (forall i :: 0 <= i < |es| && i != at ==> es'[i] == Passed(es[i], mask, id))
  }

  /** An entry that contains the new one is the only one the new one meets. */
  lemma OnlyOne(es: seq<Sme>, i: nat, j: nat, mask: Stream, id: Stream)
    requires Disjoint(es) && i < |es| && j < |es| && i != j && es[i].used && es[j].used
    requires Meet(mask, id, es[i].mask, es[i].id) && Inside(mask, es[i].mask)
    ensures !Meet(mask, id, es[j].mask, es[j].id)
  {
    hide Match, Meet, Inside;
    if Meet(mask, id, es[j].mask, es[j].id) {
      MeetAt(mask, id, es[j].mask, es[j].id);
      var s :| Match(mask, id, s) && Match(es[j].mask, es[j].id, s);
      Contained(mask, id, es[i].mask, es[i].id, s);
      MeetNone(es[i].mask, es[i].id, es[j].mask, es[j].id, s);
    }
  }

  lemma OnlyThis(es: seq<Sme>, es': seq<Sme>, i: nat, mask: Stream, id: Stream, ctx: nat, group: bool)
    requires Disjoint(es) && |es'| == |es| && i < |es| && es[i].used
    requires Meet(mask, id, es[i].mask, es[i].id) && Inside(mask, es[i].mask) && !Clash(es[i], mask, id, ctx, group)
    requires forall j :: i <= j < |es| ==> es'[j] == es[j]
    requires forall j :: 0 <= j < i ==> es'[j] == Passed(es[j], mask, id)
    ensures es' == es && !SomeClash(es, mask, id, ctx, group)
  {
    hide Meet, Inside;
    forall j | 0 <= j < |es| && j != i && es[j].used ensures !Meet(mask, id, es[j].mask, es[j].id) {
      OnlyOne(es, i, j, mask, id);
    }
  }

  /** The new entry, in place of the ones it took over, serves the union of the streams. */
  lemma AddedStreams(es: seq<Sme>, es': seq<Sme>, at: nat, mask: Stream, id: Stream, ctx: nat, group: bool, c: nat, s: Stream)
    requires |es'| == |es| && at < |es| && !SomeClash(es, mask, id, ctx, group)
    requires !Passed(es[at], mask, id).used
    requires es'[at].used && es'[at].mask == mask && es'[at].id == id && es'[at].ctx == ctx
    requires forall i :: 0 <= i < |es| && i != at ==> es'[i] == Passed(es[i], mask, id)
    requires forall i :: 0 <= i < |es| && es[i].used && Meet(mask, id, es[i].mask, es[i].id) ==> Inside(es[i].mask, mask)
    ensures Owns(es', c, s) <==> Owns(es, c, s) || (c == ctx && Match(mask, id, s))
  {
    hide Match, Inside, Meet, Passed, SomeClash, Serves;
    if i :| 0 <= i < |es| && Serves(es[i], c, s) {
      NoClash(es, i, mask, id, ctx, group);
      StillServed(es[i], es'[i], es'[at], i == at, mask, id, ctx, group, c, s);
    }
    if c == ctx && Match(mask, id, s) {
      NewServes(es'[at], c, s);
    }
    if i :| 0 <= i < |es| && Serves(es'[i], c, s) {
      if i == at {
        NewServes(es'[at], c, s);
      } else {
        WasServed(es[i], mask, id, c, s);
      }
    }
  }

  lemma NoClash(es: seq<Sme>, i: nat, mask: Stream, id: Stream, ctx: nat, group: bool)
    requires i < |es| && !SomeClash(es, mask, id, ctx, group)
    ensures !Clash(es[i], mask, id, ctx, group)
  {
  }

  lemma NewServes(e: Sme, c: nat, s: Stream)
    ensures Serves(e, c, s) <==> e.used && e.ctx == c && Match(e.mask, e.id, s)
  {
  }

  lemma WasServed(e: Sme, mask: Stream, id: Stream, c: nat, s: Stream)
    requires Serves(Passed(e, mask, id), c, s)
    ensures Serves(e, c, s)
  {
    hide Match, Meet;
  }

  lemma StillServed(e: Sme, e': Sme, at: Sme, isNew: bool, mask: Stream, id: Stream, ctx: nat, group: bool, c: nat, s: Stream)
    requires Serves(e, c, s) && !Clash(e, mask, id, ctx, group) && (isNew ==> !Passed(e, mask, id).used)
    requires isNew || e' == Passed(e, mask, id)
    requires e.used && Meet(mask, id, e.mask, e.id) ==> Inside(e.mask, mask)
    requires at.used && at.mask == mask && at.id == id && at.ctx == ctx
    ensures Serves(e', c, s) || Serves(at, c, s)
  {
    hide Match, Inside, Meet;
    if Meet(mask, id, e.mask, e.id) {
      MeetSwap(mask, id, e.mask, e.id);
      Contained(e.mask, e.id, mask, id, s);
    }
  }

  lemma MeetSwap(m1: Stream, i1: Stream, m2: Stream, i2: Stream)
    ensures Meet(m1, i1, m2, i2) == Meet(m2, i2, m1, i1)
  {
    assert i1 ^ i2 == i2 ^ i1 && m1 | m2 == m2 | m1;
  }

  class SmmuV2 {
    const smes: array<Sme>

    constructor (num: nat)
      ensures fresh(smes) && smes.Length == num && Disjoint(smes[..])
      ensures forall i :: 0 <= i < num ==> smes[i] == Sme(false, false, 0, 0, 0)
      ensures forall c, s :: !Owns(smes[..], c, s)
    {
      smes := new Sme[num](_ => Sme(false, false, 0, 0, 0));
    }

    /** smmu_alloc_sme */
    method AllocSme() returns (r: Option<nat>)
      modifies smes
      ensures r.Some? ==> r.value < smes.Length && !old(smes[r.value]).used
                          && smes[..] == old(smes[..])[r.value := old(smes[r.value]).(used := true)]
                          && forall i :: 0 <= i < r.value ==> old(smes[i]).used
      ensures r.None? ==> smes[..] == old(smes[..]) && forall i :: 0 <= i < smes.Length ==> smes[i].used
    {
      r := None;
      for i := 0 to smes.Length
        invariant forall j :: 0 <= j < i ==> smes[j].used
        invariant smes[..] == old(smes[..])
      {
        if !smes[i].used {
          smes[i] := smes[i].(used := true);
          return Some(i);
        }
      }
    }

    /**
     * smmu_compatible_sme_exists: whether some entry already contains the new one. The
     * entries the new one contains are dropped; any other overlap is an ERROR.
     */
    method CompatibleSmeExists(mask: Stream, id: Stream, ctx: nat, group: bool) returns (r: Outcome)
      requires Disjoint(smes[..])
      modifies smes
      ensures r.Halted? <==> SomeConflict(old(smes[..]), mask, id, ctx, group)
      ensures !r.Halted? ==> (r.value <==> Included(old(smes[..]), mask, id))
      ensures r == Returned(true) ==>
                && smes[..] == old(smes[..])
                && exists i :: 0 <= i < smes.Length && Includes(smes[i], mask, id) && smes[i].ctx == ctx
      ensures r == Returned(false) ==> forall i :: 0 <= i < smes.Length ==>
                && smes[i] == Passed(old(smes[i]), mask, id)
                && (old(smes[i]).used && !smes[i].used ==> Inside(old(smes[i]).mask, mask) && old(smes[i]).ctx == ctx)
    {
      hide Meet, Inside, Match, Disjoint, Greater, SomeConflict;
      ghost var es := smes[..];
      SomeClashExact(es, mask, id, ctx, group);
      assert |es| == smes.Length;
      for i := 0 to smes.Length
        invariant forall j :: i <= j < smes.Length ==> smes[j] == es[j]
        invariant forall j :: 0 <= j < i ==>
                    && smes[j] == Passed(es[j], mask, id) && !Clash(es[j], mask, id, ctx, group)
                    && !Includes(es[j], mask, id)
                    && (es[j].used && !smes[j].used ==> Inside(es[j].mask, mask) && es[j].ctx == ctx)
      {
        if smes[i].used && Meet(mask, id, smes[i].mask, smes[i].id) {
          if !Mergeable(smes[i], mask, ctx, group) {
            assert Clash(es[i], mask, id, ctx, group);
            return Halted;
          }
          MaskOrder(mask, smes[i].mask);
          if Greater(mask, smes[i].mask) {
            smes[i] := smes[i].(used := false);
          } else {
            OnlyThis(es, smes[..], i, mask, id, ctx, group);
            assert Includes(es[i], mask, id);
            return Returned(true);
          }
        }
      }
      r := Returned(false);
    }

    /** iommu_vm_arch_add once the context of the VM is known. */
    method Add(ctx: nat, mask: Stream, id: Stream, group: bool) returns (r: Outcome)
      requires Disjoint(smes[..])
      modifies smes
      ensures r.Halted? <==> SomeConflict(old(smes[..]), mask, id, ctx, group)
      ensures r == Returned(false) ==>
                smes[..] == old(smes[..]) && forall i :: 0 <= i < smes.Length ==> Passed(smes[i], mask, id).used
      ensures r == Returned(true) ==>
                if Included(old(smes[..]), mask, id) then smes[..] == old(smes[..])
                else exists at :: AddedAt(old(smes[..]), smes[..], at, mask, id, ctx, group)
      ensures r == Returned(true) ==> Disjoint(smes[..])
      ensures r == Returned(true) ==> forall c, s ::
                Owns(smes[..], c, s) <==> Owns(old(smes[..]), c, s) || (c == ctx && Match(mask, id, s))
    {
      hide Meet, Inside, Match, Owns, SomeClash, SomeConflict, Included;
      ghost var es := smes[..];
      SomeClashExact(es, mask, id, ctx, group);
      var included := CompatibleSmeExists(mask, id, ctx, group);
      if included.Halted? {
        return Halted;
      }
      if included.value {
        forall s | Match(mask, id, s) ensures Owns(es, ctx, s) {
          IncludedStreams(es, mask, id, ctx, s);
        }
        return Returned(true);
      }
      ghost var es1 := smes[..];
      var sme := AllocSme();
      if sme.None? {
        return Returned(false);
      }
      var at := sme.value;
      smes[at] := Written(smes[at], mask, id, ctx, group);
      assert AddedAt(es, smes[..], at, mask, id, ctx, group);
      AddedDisjoint(es, smes[..], at, mask, id);
      forall c, s ensures Owns(smes[..], c, s) <==> Owns(es, c, s) || (c == ctx && Match(mask, id, s)) {
        AddedStreams(es, smes[..], at, mask, id, ctx, group, c, s);
      }
      r := Returned(true);
    }
  }

  lemma IncludedStreams(es: seq<Sme>, mask: Stream, id: Stream, ctx: nat, s: Stream)
    requires exists i :: 0 <= i < |es| && Includes(es[i], mask, id) && es[i].ctx == ctx
    requires Match(mask, id, s)
    ensures Owns(es, ctx, s)
  {
    hide Meet, Inside, Match;
    var i :| 0 <= i < |es| && Includes(es[i], mask, id) && es[i].ctx == ctx;
    Contained(mask, id, es[i].mask, es[i].id, s);
    assert Serves(es[i], ctx, s);
  }

  lemma AddedDisjoint(es: seq<Sme>, es': seq<Sme>, at: nat, mask: Stream, id: Stream)
    requires |es'| == |es| && at < |es| && Disjoint(es)
    requires es'[at].used && es'[at].mask == mask && es'[at].id == id
    requires forall i :: 0 <= i < |es| && i != at ==> es'[i] == Passed(es[i], mask, id)
    ensures Disjoint(es')
  {
    hide Meet;
    forall i, j | 0 <= i < |es'| && 0 <= j < |es'| && i != j && es'[i].used && es'[j].used
      ensures !Meet(es'[i].mask, es'[i].id, es'[j].mask, es'[j].id)
    {
      MeetSwap(es'[i].mask, es'[i].id, es'[j].mask, es'[j].id);
    }
  }

  /**
   * The stale flag as calls, on two entries: groups {2, 3} and {0, 1}, then the group {0 .. 3}
   * that takes both over and leaves entry 1 free, then device 8, which goes to entry 1. Device 8
   * once more should be a conflict, and is merged with the first.
   */
  method StaleGroupCalls() returns (smmu: SmmuV2, device: Sme, r: Outcome)
    ensures device == Sme(true, true, 0, 8, 0) && r == Returned(true)
  {
    hide Disjoint, SomeClash, SomeConflict, Included, Owns;
    smmu := new SmmuV2(2);
    var free, first, second := Sme(false, false, 0, 0, 0), Sme(true, true, 1, 2, 0), Sme(true, true, 1, 0, 0);
    AddPair(smmu, free, free, 1, 2, true);
    AddPair(smmu, first, free, 1, 0, true);
    AddPair(smmu, first, second, 3, 0, true);
    AddPair(smmu, Sme(true, true, 3, 0, 0), Sme(false, true, 1, 0, 0), 0, 8, false);
    device := smmu.smes[1];
    assert smmu.smes[..] == [Sme(true, true, 3, 0, 0), device];
    TwoMerge(Sme(true, true, 3, 0, 0), device, 0, 8, false);
    SomeClashExact([Sme(true, true, 3, 0, 0), device], 0, 8, 0, false);
    r := smmu.Add(0, 0, 8, false);
    assert smmu.smes[..][1] == smmu.smes[1];
  }

  /** A call of Add on two entries that meets no conflict and finds a free one. */
  method AddPair(smmu: SmmuV2, a: Sme, b: Sme, mask: Stream, id: Stream, group: bool)
    requires smmu.smes[..] == [a, b] && Disjoint(smmu.smes[..])
    requires !Clash(a, mask, id, 0, group) && !Clash(b, mask, id, 0, group)
    requires !Includes(a, mask, id) && !Includes(b, mask, id)
    requires !Passed(a, mask, id).used || !Passed(b, mask, id).used
    modifies smmu.smes
    ensures Disjoint(smmu.smes[..])
    ensures smmu.smes[..] == if !Passed(a, mask, id).used then [Sme(true, group || a.group, mask, id, 0), Passed(b, mask, id)]
                             else [Passed(a, mask, id), Sme(true, group || b.group, mask, id, 0)]
  {
    hide Disjoint, SomeClash, SomeConflict, Included, Owns, Clash, Includes, Passed, AddedAt;
    TwoEntries(a, b, mask, id, group);
    SomeClashExact([a, b], mask, id, 0, group);
    var r := smmu.Add(0, mask, id, group);
    assert smmu.smes[0] == smmu.smes[..][0] && smmu.smes[1] == smmu.smes[..][1];
    if !Passed(a, mask, id).used {
      AddedFirst(a, b, smmu.smes[..], mask, id, group);
    } else {
      AddedSecond(a, b, smmu.smes[..], mask, id, group);
    }
  }

  /** Of two entries one is free after the pass, and neither clashes or includes the new one. */
  lemma TwoEntries(a: Sme, b: Sme, mask: Stream, id: Stream, group: bool)
    requires !Clash(a, mask, id, 0, group) && !Clash(b, mask, id, 0, group)
    requires !Includes(a, mask, id) && !Includes(b, mask, id)
    ensures !SomeClash([a, b], mask, id, 0, group) && !Included([a, b], mask, id)
  {
    hide Clash, Includes;
  }

  lemma TwoMerge(a: Sme, b: Sme, mask: Stream, id: Stream, group: bool)
    requires !Clash(a, mask, id, 0, group) && !Clash(b, mask, id, 0, group) && Includes(b, mask, id)
    ensures !SomeClash([a, b], mask, id, 0, group) && Included([a, b], mask, id)
  {
    hide Clash, Includes;
    assert Includes([a, b][1], mask, id);
  }

  lemma AddedFirst(a: Sme, b: Sme, es: seq<Sme>, mask: Stream, id: Stream, group: bool)
    requires !Passed(a, mask, id).used && exists at :: AddedAt([a, b], es, at, mask, id, 0, group)
    ensures es == [Sme(true, group || a.group, mask, id, 0), Passed(b, mask, id)]
  {
    hide Passed;
    var at :| AddedAt([a, b], es, at, mask, id, 0, group);
    assert [a, b][0] == a && [a, b][1] == b;
    assert at == 0;
  }

  lemma AddedSecond(a: Sme, b: Sme, es: seq<Sme>, mask: Stream, id: Stream, group: bool)
    requires Passed(a, mask, id).used && exists at :: AddedAt([a, b], es, at, mask, id, 0, group)
    ensures es == [Passed(a, mask, id), Sme(true, group || b.group, mask, id, 0)]
  {
    hide Passed;
  }
}
