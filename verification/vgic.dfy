/**
 * The list-register cache of src/arch/armv8/vgic.c for the GICv3, over all vCPUs of one VM.
 * A method is one lock-protected section, run on the vCPU `c`; the steps of the guest and
 * of the hardware stand at the end.
 */
module Vgics {
  import opened Options
  import opened VgicState

  /** What a write to a distributor register asks of one interrupt; Reroute changes nothing here. */
  datatype Update = Enable | Disable | SetPend | ClearPend | SetAct | ClearAct | SetPrio(prio: nat) | Reroute

  function Updated(u: Update, x: Int): Int {
    match u
    case Enable => x.(enabled := true)
    case Disable => x.(enabled := false)
    case SetPrio(p) => x.(prio := p % 256)
    case _ => x.(state := UpdatedState(u, x.state))
  }

  function UpdatedState(u: Update, s: St): St {
    match u
    case SetPend => s.(pend := true)
    case ClearPend => s.(pend := false)
    case SetAct => s.(act := true)
    case ClearAct => s.(act := false)
    case _ => s
  }

  /** What the two functions of an update make of the settings and of the two bits. */
  lemma UpdatedIs(u: Update, x: Int, s: St)
    ensures var x' := Updated(u, x);
            && x'.enabled == (u.Enable? || (x.enabled && !u.Disable?))
            && x'.prio == (if u.SetPrio? then u.prio % 256 else x.prio) && x'.hw == x.hw
    ensures Updated(u, x.(state := s)).state == UpdatedState(u, s) && Updated(u, x.(state := s)).enabled == Updated(u, x).enabled
    ensures UpdatedState(u, s) == St(u.SetPend? || (s.pend && !u.ClearPend?), u.SetAct? || (s.act && !u.ClearAct?))
  {
  }

  /** The register vgic_write_lr makes for an interrupt that is in none. */
  function LrFor(k: Key, x: Int): Lr {
    if IsHw(k, x) then Lr(k.id, x.prio, if x.state.act then St(false, true) else x.state, true, false)
    else Lr(k.id, x.prio, if x.enabled then x.state else x.state.(pend := false), false, k.Spi?)
  }

  /** `k` is less urgent than an interrupt with this priority and number. */
  predicate LessUrgent(prio: nat, id: nat, thanPrio: nat, thanId: nat) {
    prio > thanPrio || (prio == thanPrio && id > thanId)
  }

  function AllKeys(z: Sizes): (r: set<Key>)
    ensures forall k :: k in r <==> KeyOk(z, k)
  {
    (set c: nat, id: nat | c < z.cpus && id < GIC_CPU_PRIV && KeyOk(z, Priv(c, id)) :: Priv(c, id))
    + (set id: nat | id < z.ints && KeyOk(z, Spi(id)) :: Spi(id))
  }

  function AllSlots(z: Sizes): (r: set<Slot>)
    ensures forall s :: s in r <==> SlotOk(z, s)
  {
    set c: nat, i: nat | c < z.cpus && i < z.lrs && SlotOk(z, Slot(c, i)) :: Slot(c, i)
  }

  function AllLists(z: Sizes): (r: set<ListId>)
    ensures forall l :: l in r <==> ListIdOk(z, l)
  {
    assert forall l: ListId :: l.CpuList? ==> l == CpuList(l.cpu);
    (set c: nat | c < z.cpus && ListIdOk(z, CpuList(c)) :: CpuList(c)) + {VmList}
  }

  /** The interrupt's state has one of the flags asked for. */
  predicate Eligible(x: Int, flags: St) {
    (x.state.pend && flags.pend) || (x.state.act && flags.act)
  }

  predicate OfClass(lr: Lr, act: bool) {
    Live(lr) && lr.state.act == act
  }

  /** A greater number is a lower priority, and of equal ones the greater interrupt number is less urgent. */
  lemma LessUrgentIs(prio: nat, id: nat, thanPrio: nat, thanId: nat)
    ensures LessUrgent(prio, id, thanPrio, thanId) <==> prio > thanPrio || (prio == thanPrio && id > thanId)
  {
  }

  lemma UrgencyOrder(prio: nat, id: nat)
    ensures !LessUrgent(prio, id, prio, id)
  {
  }

  lemma UrgencyChain(p: nat, i: nat, p': nat, i': nat)
    requires LessUrgent(p, i, p', i')
    ensures forall q, j :: !LessUrgent(q, j, p', i') ==> !LessUrgent(q, j, p, i)
    ensures forall q, j :: LessUrgent(p', i', q, j) ==> LessUrgent(p, i, q, j)
  {
  }

  ghost function WaitingIn(lrs: Lrs, c: nat, n: nat): set<nat> {
    set i: nat | i < n && Slot(c, i) in lrs && EoiPending(lrs[Slot(c, i)])
  }

  class Vgic {
    const z: Sizes
    var ints: Ints
    var lrs: Lrs
    var lists: Lists
    /** curr_lrs: the interrupt last written to each register. */
    var curr: map<Slot, nat>

    ghost predicate Valid()
      reads this
    {
      Core(z, ints, lrs, lists) && (forall s :: s in lrs ==> s in curr)
    }

    ghost predicate EoiOk()
      reads this
    {
      EoiBack(z, ints, lrs)
    }

    /** vgic_init and vgic_cpu_init */
    constructor (z: Sizes, hw: set<nat>)
      requires z.ints <= GIC_MAX_VALID_INTERRUPTS
      ensures Valid() && EoiOk() && this.z == z && forall s :: s in lrs ==> lrs[s] == Lr(0, 0, INV, false, false)
      ensures forall k :: k in ints ==> Combined(ints, lrs, k) == INV
    {
      this.z := z;
      ints := map k | k in AllKeys(z) :: Int(if k.Priv? then Some(k.cpu) else None, INV, GIC_LOWEST_PRIO, 0,
                                             k.id in hw, false, false, false);
      lrs := map s | s in AllSlots(z) :: EmptyLr();
      curr := map s | s in AllSlots(z) :: 0;
      lists := map l | l in AllLists(z) :: [];
    }

    // ----- ownership

    method GetOwnership(c: nat, k: Key) returns (r: bool)
      requires Valid() && k in ints
      modifies this`ints
      ensures Valid() && Conserved(old(ints), lrs, ints, lrs) && (old(EoiOk()) ==> EoiOk())
      ensures r <==> old(ints[k]).owner == None || old(ints[k]).owner == Some(c)
      ensures ints == if r then old(ints)[k := old(ints[k]).(owner := Some(c))] else old(ints)
      ensures Combined(ints, lrs, k) == old(Combined(ints, lrs, k))
    {
      hide IsHw, Combined;
      assert IntOk(k, ints[k]);
      if ints[k].owner == Some(c) {
        return true;
      } else if ints[k].owner.None? {
        NotHeldIf(z, ints, lrs, k);
        if EoiOk() {
          NoEoiIf(z, ints, lrs, k);
        }
        CoreInt(z, ints, lrs, lists, k, ints[k].(owner := Some(c)));
        SameState(ints, lrs, k, ints[k].(owner := Some(c)));
        ints := ints[k := ints[k].(owner := Some(c))];
        return true;
      }
      return false;
    }

    /** vgic_yield_ownership */
    method YieldOwnership(c: nat, k: Key)
      requires Valid() && k in ints
      modifies this`ints
      ensures Valid() && Conserved(old(ints), lrs, ints, lrs) && (old(EoiOk()) ==> EoiOk())
      ensures ints == if k.Priv? || old(ints[k]).owner != Some(c) || old(ints[k]).inLr || old(ints[k]).state.act
                      then old(ints) else old(ints)[k := old(ints[k]).(owner := None)]
    {
      hide IsHw, Combined;
      if k.Priv? || ints[k].owner != Some(c) || ints[k].inLr || ints[k].state.act {
        return;
      }
      assert IntOk(k, ints[k]);
      NotHeldIf(z, ints, lrs, k);
      if EoiOk() {
        NoEoiIf(z, ints, lrs, k);
      }
      CoreInt(z, ints, lrs, lists, k, ints[k].(owner := None));
      SameState(ints, lrs, k, ints[k].(owner := None));
      ints := ints[k := ints[k].(owner := None)];
    }

    // ----- list registers and spilled lists

    /** gich_get_lr, on the vCPU that runs `c` */
    method GichGetLr(c: nat, k: Key) returns (r: Option<nat>)
      requires Valid() && k in ints
      ensures r == if Held(ints, lrs, k) && ints[k].owner == Some(c) then Some(ints[k].lr) else None
    {
      if !ints[k].inLr || ints[k].owner != Some(c) {
        return None;
      }
      assert IntOk(k, ints[k]);
      var s := Slot(c, ints[k].lr);
      if s in lrs && lrs[s].vid == k.id && lrs[s].state != INV {
        return Some(ints[k].lr);
      }
      return None;
    }

    /** vgic_remove_lr: the two halves of the state meet again in the interrupt. */
    method RemoveLr(c: nat, k: Key) returns (r: bool)
      requires Valid() && k in ints
      modifies this`ints, this`lrs
      ensures Valid() && OthersSame(old(ints), old(lrs), ints, lrs, k)
      ensures r == (old(Held(ints, lrs, k)) && old(ints[k]).owner == Some(c))
      ensures ints == if old(ints[k]).owner == Some(c) && old(ints[k]).inLr
                      then old(ints)[k := old(ints[k]).(inLr := false, state := old(Combined(ints, lrs, k)))]
                      else old(ints)
      ensures lrs == if r then old(lrs)[old(HeldIn(ints, k)) := EmptyLr()] else old(lrs)
      ensures old(EoiOk() && NoEoi(z, lrs, k)) ==> EoiOk() && NoEoi(z, lrs, k)
    {
      hide IsHw, EoiBack, NotHeld, NoEoi, ListsOk, LrsBack, OthersSame;
      OthersNone(ints, lrs, k);
      if ints[k].owner != Some(c) || !ints[k].inLr {
        return false;
      }
      assert IntOk(k, ints[k]);
      var ind := GichGetLr(c, k);
      var x := ints[k].(inLr := false);
      if ind.Some? {
        var s := Slot(c, ind.value);
        var lr := lrs[s];
        x := x.(state := Join(lr.state, St(ints[k].state.pend, false)));
        KeyOfSlot(z, c, k);
        CoreClear(z, ints, lrs, lists, s, EmptyLr());
        OthersFrame(z, ints, lrs, k, x, s, EmptyLr());
        RemovedNot(z, ints, lrs, lists, s, k);
        lrs := lrs[s := EmptyLr()];
        r := true;
      } else {
        NotHeldIf(z, ints, lrs, k);
        r := false;
      }
      CoreInt(z, ints, lrs, lists, k, x);
      ints := ints[k := x];
    }

    /** vgic_add_spilled */
    method AddSpilled(c: nat, k: Key)
      requires Valid() && k in ints && (k.Priv? ==> k.cpu == c)
      modifies this`ints, this`lists
      ensures Valid() && Conserved(old(ints), lrs, ints, lrs) && (old(EoiOk()) ==> EoiOk())
      ensures ints == if old(ints[k]).inLr then old(ints) else old(ints)[k := old(ints[k]).(inSpilled := true)]
    {
      hide IsHw, Combined, LrsBack, EoiBack, Conserved;
      if !ints[k].inLr && !ints[k].inSpilled {
        CorePush(z, ints, lrs, lists, k);
        var l := if k.Priv? then CpuList(c) else VmList;
        lists := lists[l := lists[l] + [k]];
        ints := ints[k := ints[k].(inSpilled := true)];
      } else {
        ConservedSame(ints, lrs);
      }
    }

    /** vgic_remove_spilled, which walks the list to the interrupt */
    method RemoveSpilled(c: nat, k: Key)
      requires Valid() && k in ints && ints[k].inSpilled && (k.Priv? ==> k.cpu == c)
      modifies this`ints, this`lists
      ensures Valid() && Conserved(old(ints), lrs, ints, lrs) && (old(EoiOk()) ==> EoiOk())
      ensures ints == old(ints)[k := old(ints[k]).(inSpilled := false)]
      ensures lists.Keys == old(lists.Keys) && ListOf(k) in lists && |lists[ListOf(k)]| + 1 == |old(lists)[ListOf(k)]|
      ensures forall l :: l in lists && l != ListOf(k) ==> lists[l] == old(lists)[l]
    {
      hide IsHw, Combined, LrsBack, EoiBack, Conserved;
      var l := if k.Priv? then CpuList(c) else VmList;
      assert IntOk(k, ints[k]) && l == ListOf(k) && l in lists;
      var i := 0;
      while lists[l][i] != k
        invariant i < |lists[l]| && k in lists[l][i..] && ints == old(ints) && lists == old(lists)
        decreases |lists[l]| - i
      {
        assert lists[l][i..] == [lists[l][i]] + lists[l][i + 1..];
        i := i + 1;
      }
      CorePull(z, ints, lrs, lists, k, i);
      lists := lists[l := lists[l][..i] + lists[l][i + 1..]];
      ints := ints[k := ints[k].(inSpilled := false)];
    }

    /** vgic_spill_lr: the interrupt of a live register moves to its spilled list. */
    method SpillLr(c: nat, ind: nat) returns (ghost k: Key)
      requires Valid() && Slot(c, ind) in lrs && Live(lrs[Slot(c, ind)])
      modifies this`ints, this`lrs, this`lists
      ensures Valid() && Conserved(old(ints), old(lrs), ints, lrs) && (old(EoiOk()) ==> EoiOk())
      ensures Some(k) == GetInt(z, c, old(lrs[Slot(c, ind)]).vid) && k in ints && old(ints[k]).inLr
      ensures !ints[k].inLr && ints[k].inSpilled
      ensures lrs == old(lrs)[Slot(c, ind) := EmptyLr()] && ints.Keys == old(ints.Keys)
      ensures forall j :: j in ints && j != k ==> ints[j] == old(ints[j])
    {
      hide IsHw, Combined;
      var s := Slot(c, ind);
      var key := GetInt(z, c, lrs[s].vid);
      assert Back(z, ints, s, lrs[s].vid);
      k := key.value;
      if EoiOk() {
        NoEoiHeld(z, ints, lrs, k);
      }
      ghost var ints0, lrs0 := ints, lrs;
      var removed := RemoveLr(c, key.value);
      ConservedRemove(ints0, lrs0, k);
      ghost var ints1 := ints;
      AddSpilled(c, key.value);
      ConservedMore(ints0, lrs0, ints1, lrs, ints, lrs);
      ghost var ints2 := ints;
      YieldOwnership(c, key.value);
      ConservedMore(ints0, lrs0, ints2, lrs, ints, lrs);
    }

    lemma ConservedRemove(ints0: Ints, lrs0: Lrs, k: Key)
      requires k in ints0 && ints == ints0[k := ints0[k].(inLr := false, state := Combined(ints0, lrs0, k))]
      requires OthersSame(ints0, lrs0, ints, lrs, k)
      ensures Conserved(ints0, lrs0, ints, lrs)
    {
      hide IsHw;
      assert SameAt(ints0, lrs0, ints, lrs, k);
    }

    /** The shared interrupt last written to the register. */
    ghost function Last(c: nat, ind: nat): Key
      requires Slot(c, ind) in curr
      reads this`curr
    {
      Spi(curr[Slot(c, ind)])
    }

    /** It still says that the register is its own, and a different interrupt is to be written there. */
    ghost predicate Stale(c: nat, ind: nat, id: nat)
      requires Slot(c, ind) in curr
      reads this
    {
      && Last(c, ind) in ints && Last(c, ind).id != id && ints[Last(c, ind)].inLr && ints[Last(c, ind)].lr == ind
      && ints[Last(c, ind)].owner == Some(c)
    }

    /** The first half of vgic_write_lr: the shared interrupt last written there lets go of the register. */
    method DropPrevious(c: nat, ind: nat, id: nat)
      requires Valid() && Slot(c, ind) in lrs && Usable(lrs[Slot(c, ind)])
      modifies this`ints
      ensures Valid() && Conserved(old(ints), lrs, ints, lrs) && (old(EoiOk()) ==> EoiOk())
      ensures ints == if old(Stale(c, ind, id)) then old(ints)[old(Last(c, ind)) := old(ints[Last(c, ind)]).(inLr := false, owner := None)]
                      else old(ints)
    {
      hide IsHw, Conserved, ListsOk, IntsOk;
      ConservedSame(ints, lrs);
      var previous := curr[Slot(c, ind)];
      if previous != id && previous >= GIC_CPU_PRIV {
        var key := GetInt(z, c, previous);
        if key.Some? {
          var k := key.value;
          assert KeyOk(z, k);
          if ints[k].owner == Some(c) && ints[k].inLr && ints[k].lr == ind {
            assert IntOk(k, ints[k]) by { IntAt(ints, k); }
            ghost var ints0 := ints;
            NotHeldIf(z, ints, lrs, k);
            if EoiOk() {
              NoEoiUsable(z, ints, lrs, k);
            }
            CoreInt(z, ints, lrs, lists, k, ints[k].(inLr := false));
            DroppedSame(ints, lrs, k);
            ints := ints[k := ints[k].(inLr := false)];
            ghost var ints1 := ints;
            YieldOwnership(c, k);
            ConservedMore(ints0, lrs, ints1, lrs, ints, lrs);
          }
        }
      }
    }

    /** vgic_write_lr, for an interrupt of `c` that is in no register and on no list. */
    method WriteLr(c: nat, k: Key, ind: nat)
      requires Valid() && k in ints && Slot(c, ind) in lrs && Usable(lrs[Slot(c, ind)])
      requires !ints[k].inLr && !ints[k].inSpilled && ints[k].owner == Some(c)
      modifies this`ints, this`lrs, this`curr
      ensures Valid() && Conserved(old(ints), old(lrs), ints, lrs) && (old(EoiOk()) ==> EoiOk())
      ensures lrs == old(lrs)[Slot(c, ind) := LrFor(k, old(ints[k]))] && curr == old(curr)[Slot(c, ind) := k.id]
      ensures ints == (if old(Stale(c, ind, k.id)) then old(ints)[old(Last(c, ind)) := old(ints[Last(c, ind)]).(inLr := false, owner := None)]
                       else old(ints))
                      [k := old(ints[k]).(inLr := true, lr := ind,
                            state := if old(ints[k]).enabled then INV else St(old(ints[k]).state.pend, false))]
      ensures var lr, x := lrs[Slot(c, ind)], old(ints[k]);
              && lr.vid == k.id && lr.prio == x.prio && lr.hw == (k.id >= GIC_MAX_SGIS && x.hw) && lr.eoi == (!lr.hw && k.Spi?)
              && lr.state.act == x.state.act
              && lr.state.pend == (x.state.pend && if lr.hw then !x.state.act else x.enabled)
    {
      hide IsHw, Conserved, OthersSame, Core, EoiBack, Combined, LrFor, Usable;
      ghost var ints0 := ints;
      DropPrevious(c, ind, k.id);
      ghost var ints1, lrs1 := ints, lrs;
      var s := Slot(c, ind);
      var state := ints[k].state;
      var lr;
      if IsHw(k, ints[k]) {
        lr := Lr(k.id, ints[k].prio, if state == St(true, true) then St(false, true) else state, true, false);
      } else {
        lr := Lr(k.id, ints[k].prio, if !ints[k].enabled then state.(pend := false) else state, false, !k.Priv?);
      }
      var x := ints[k].(inLr := true, lr := ind, state := if !ints[k].enabled then St(state.pend, false) else INV);
      LrForIs(k, ints[k], lr);
      LrForHas(k, ints[k]);
      WrittenKeeps(c, k, s, x);
      ints, lrs, curr := ints[k := x], lrs[s := lr], curr[s := k.id];
      ConservedMore(ints0, lrs1, ints1, lrs1, ints, lrs);
    }

    /** The register's fields, and its half of the state. */
    lemma LrForHas(k: Key, x: Int)
      ensures var lr := LrFor(k, x);
              && lr.vid == k.id && lr.prio == x.prio && lr.hw == (k.id >= GIC_MAX_SGIS && x.hw) && lr.eoi == (!lr.hw && k.Spi?)
              && lr.state.act == x.state.act
              && lr.state.pend == (x.state.pend && if lr.hw then !x.state.act else x.enabled)
    {
    }

    lemma LrForIs(k: Key, x: Int, lr: Lr)
      requires lr == if IsHw(k, x)
                     then Lr(k.id, x.prio, if x.state == St(true, true) then St(false, true) else x.state, true, false)
                     else Lr(k.id, x.prio, if !x.enabled then x.state.(pend := false) else x.state, false, !k.Priv?)
      ensures lr == LrFor(k, x)
    {
    }

    /** What vgic_write_lr has changed in the end. */
    lemma WrittenKeeps(c: nat, k: Key, s: Slot, x: Int)
      requires Valid() && k in ints && s in lrs && s.cpu == c && Usable(lrs[s])
      requires !ints[k].inLr && !ints[k].inSpilled && ints[k].owner == Some(c)
      requires x == ints[k].(inLr := true, lr := s.ind, state := if ints[k].enabled then INV else St(ints[k].state.pend, false))
      ensures Core(z, ints[k := x], lrs[s := LrFor(k, ints[k])], lists)
      ensures Conserved(ints, lrs, ints[k := x], lrs[s := LrFor(k, ints[k])])
      ensures EoiOk() ==> EoiBack(z, ints[k := x], lrs[s := LrFor(k, ints[k])])
    {
      hide IsHw, Conserved, OthersSame, ListsOk, IntsOk, LrsBack, NotHeld, NoEoi, EoiBack, Combined;
      IntAt(ints, k);
      NotHeldIf(z, ints, lrs, k) by { NotInLr(ints, lrs, k); }
      if EoiOk() {
        NoEoiIf(z, ints, lrs, k);
      }
      var lr := LrFor(k, ints[k]);
      HwBits(k, ints[k], x);
      CoreWrite(z, ints, lrs, lists, k, x, s, lr);
      OthersFrame(z, ints, lrs, k, x, s, lr);
      WrittenSame(ints, lrs, k, x, s);
    }

    // ----- eviction

    /** Register `i` of `c`. */
    ghost function LrAt(c: nat, i: nat): Lr
      requires Slot(c, i) in lrs
      reads this`lrs
    {
      lrs[Slot(c, i)]
    }

    /** At least two of the first `n` registers hold interrupts that are pending and not active. */
    ghost predicate TwoPending(c: nat, n: nat)
      requires forall i :: 0 <= i < n ==> Slot(c, i) in lrs
      reads this`lrs
    {
      exists i, j :: 0 <= i < j < n && OfClass(LrAt(c, i), false) && OfClass(LrAt(c, j), false)
    }

    /** What vgic_add_lr may evict: an active interrupt, or one of several pending ones, less urgent than `k`. */
    ghost predicate Evictable(c: nat, k: Key, i: nat)
      requires k in ints && i < z.lrs && forall i :: 0 <= i < z.lrs ==> Slot(c, i) in lrs
      reads this
    {
      && Live(LrAt(c, i)) && (LrAt(c, i).state.act || TwoPending(c, z.lrs))
      && LessUrgent(LrAt(c, i).prio, LrAt(c, i).vid, ints[k].prio, k.id)
    }

    /** `ind` is the least urgent of its class among the first `n` registers, if less urgent than (prio0, id0). */
    ghost predicate Least(c: nat, n: nat, act: bool, prio0: nat, id0: nat, ind: Option<nat>, prio: nat, id: nat)
      requires forall i :: 0 <= i < n ==> Slot(c, i) in lrs
      reads this`lrs
    {
      && (forall i :: 0 <= i < n && OfClass(LrAt(c, i), act) ==> !LessUrgent(LrAt(c, i).prio, LrAt(c, i).vid, prio, id))
      && (ind.None? ==> prio == prio0 && id == id0)
      && (ind.Some? ==>
            && ind.value < n && OfClass(LrAt(c, ind.value), act) && LessUrgent(prio, id, prio0, id0)
            && LrAt(c, ind.value).prio == prio && LrAt(c, ind.value).vid == id)
    }

    /** Pending victims come first, and within a class the least urgent. */
    ghost predicate IsVictim(c: nat, k: Key, i: nat)
      requires k in ints && forall i :: 0 <= i < z.lrs ==> Slot(c, i) in lrs
      reads this
    {
      && i < z.lrs && Evictable(c, k, i)
      && forall j :: 0 <= j < z.lrs && Evictable(c, k, j) ==>
           && (!LrAt(c, j).state.act ==> !LrAt(c, i).state.act)
           && (LrAt(c, j).state.act == LrAt(c, i).state.act ==>
                 !LessUrgent(LrAt(c, j).prio, LrAt(c, j).vid, LrAt(c, i).prio, LrAt(c, i).vid))
    }

    /**
     * The choice of vgic_add_lr when no register is free: of the pending interrupts when there
     * are two or more, otherwise of the active ones, the least urgent.
     */
    method VictimLr(c: nat, k: Key) returns (r: Option<nat>)
      requires Valid() && k in ints && forall i :: 0 <= i < z.lrs ==> Slot(c, i) in lrs
      ensures r.None? ==> NoVictim(c, k)
      ensures r.Some? ==> IsVictim(c, k, r.value)
      ensures r.Some? ==> var lr := lrs[Slot(c, r.value)]; lr.prio > ints[k].prio || (lr.prio == ints[k].prio && lr.vid > k.id)
    {
      hide Core, LessUrgent;
      var minPrioPend, minPrioAct := ints[k].prio, ints[k].prio;
      var minIdPend, minIdAct := k.id, k.id;
      var pendFound := 0;
      var pendInd: Option<nat>, actInd: Option<nat> := None, None;
      for i := 0 to z.lrs
        invariant Least(c, i, false, ints[k].prio, k.id, pendInd, minPrioPend, minIdPend)
        invariant Least(c, i, true, ints[k].prio, k.id, actInd, minPrioAct, minIdAct)
        invariant pendFound > 0 <==> exists j :: 0 <= j < i && OfClass(LrAt(c, j), false)
        invariant pendFound > 1 <==> TwoPending(c, i)
      {
        var lr := lrs[Slot(c, i)];
        UrgencyOrder(lr.prio, lr.vid);
        if lr.state.act {
          if LessUrgent(lr.prio, lr.vid, minPrioAct, minIdAct) {
            UrgencyChain(lr.prio, lr.vid, minPrioAct, minIdAct);
            minIdAct, minPrioAct, actInd := lr.vid, lr.prio, Some(i);
          }
        } else if lr.state.pend {
          assert OfClass(LrAt(c, i), false);
          if LessUrgent(lr.prio, lr.vid, minPrioPend, minIdPend) {
            UrgencyChain(lr.prio, lr.vid, minPrioPend, minIdPend);
            minIdPend, minPrioPend, pendInd := lr.vid, lr.prio, Some(i);
          }
          pendFound := pendFound + 1;
        }
      }
      r := if pendFound > 1 && pendInd.Some? then pendInd else actInd;
      if r.Some? {
        LessUrgentIs(lrs[Slot(c, r.value)].prio, lrs[Slot(c, r.value)].vid, ints[k].prio, k.id);
      }
    }

    ghost predicate NoneUsable(c: nat)
      requires forall i :: 0 <= i < z.lrs ==> Slot(c, i) in lrs
      reads this`lrs
    {
      forall i :: 0 <= i < z.lrs ==> !Usable(LrAt(c, i))
    }

    ghost predicate NoVictim(c: nat, k: Key)
      requires k in ints && forall i :: 0 <= i < z.lrs ==> Slot(c, i) in lrs
      reads this
    {
      forall i :: 0 <= i < z.lrs ==> !Evictable(c, k, i)
    }

    /** The lowest bit of ELRSR. */
    method FirstUsable(c: nat) returns (r: Option<nat>)
      requires forall i :: 0 <= i < z.lrs ==> Slot(c, i) in lrs
      ensures r.Some? ==> r.value < z.lrs && Usable(LrAt(c, r.value)) && forall i :: 0 <= i < r.value ==> !Usable(LrAt(c, i))
      ensures r.None? ==> NoneUsable(c)
      ensures r.None? ==> forall i :: 0 <= i < z.lrs ==> Live(LrAt(c, i)) || EoiPending(LrAt(c, i))
    {
      for i := 0 to z.lrs
        invariant forall j :: 0 <= j < i ==> !Usable(LrAt(c, j))
      {
        if Usable(lrs[Slot(c, i)]) {
          return Some(i);
        }
      }
      return None;
    }

    /** Interrupts vgic_add_lr will place: pending or not, but enabled, or active. */
    ghost predicate Placeable(k: Key)
      requires k in ints
      reads this`ints
    {
      !ints[k].inLr && (ints[k].enabled || ints[k].state.act)
    }

    /** Completed registers stay as they are, and `k` is in none of them. */
    ghost predicate CompletedKept(lrs0: Lrs, c: nat, k: Key)
      requires k in ints
      reads this`ints, this`lrs
    {
      Kept(ints, lrs, lrs0, c, k)
    }

    /** The first half of vgic_add_lr: a free register, if need be by eviction. */
    method MakeRoom(c: nat, k: Key) returns (ind: Option<nat>)
      requires Valid() && k in ints && !ints[k].inLr && forall i :: 0 <= i < z.lrs ==> Slot(c, i) in lrs
      modifies this`ints, this`lrs, this`lists
      ensures Valid() && Conserved(old(ints), old(lrs), ints, lrs) && (old(EoiOk()) ==> EoiOk())
      ensures ints.Keys == old(ints.Keys) && ints[k] == old(ints[k])
      ensures ind.None? ==> ints == old(ints) && lrs == old(lrs) && old(NoneUsable(c) && NoVictim(c, k))
      ensures ind.Some? ==>
                && ind.value < z.lrs && Slot(c, ind.value) in lrs && Usable(lrs[Slot(c, ind.value)])
                && !EoiPending(old(lrs[Slot(c, ind.value)]))
                && (lrs == old(lrs) || lrs == old(lrs)[Slot(c, ind.value) := EmptyLr()])
                && (old(Usable(LrAt(c, ind.value))) || old(NoneUsable(c) && IsVictim(c, k, ind.value)))
    {
      hide Core, EoiBack, IsHw, Conserved, Combined, Evictable, NoVictim, NoneUsable;
      ConservedSame(ints, lrs);
      ind := FirstUsable(c);
      if ind.None? {
        ind := VictimLr(c, k);
        if ind.Some? {
          LiveAt(c, k, ind.value);
          ghost var victim := SpillLr(c, ind.value);
        }
      }
    }

    /** The second half, if there is one: `k` leaves its spilled list for the register. */
    method Place(c: nat, k: Key, ind: nat)
      requires Valid() && k in ints && !ints[k].inLr && ints[k].owner == Some(c)
      requires Slot(c, ind) in lrs && Usable(lrs[Slot(c, ind)])
      modifies this`ints, this`lrs, this`lists, this`curr
      ensures Valid() && Conserved(old(ints), old(lrs), ints, lrs) && (old(EoiOk()) ==> EoiOk())
      ensures ints.Keys == old(ints.Keys) && lrs == old(lrs)[Slot(c, ind) := LrFor(k, old(ints[k]))]
      ensures ints[k].inLr && ints[k].lr == ind && ints[k].owner == Some(c)
    {
      hide Core, EoiBack, IsHw, Conserved, Combined, LrFor, Usable;
      ghost var ints0, lrs0 := ints, lrs;
      ConservedSame(ints, lrs);
      PrivOwner(c, k);
      if ints[k].inSpilled {
        RemoveSpilled(c, k);
      }
      ghost var ints1, lrs1 := ints, lrs;
      LrForSpilled(k, ints0[k], ints[k]);
      WriteLr(c, k, ind);
      ConservedMore(ints0, lrs0, ints1, lrs1, ints, lrs);
    }

    /** vgic_add_lr: `k` gets a register, its own or its victim's, or goes on a spilled list. */
    method AddLr(c: nat, k: Key) returns (r: bool, ghost at: nat)
      requires Valid() && k in ints && c < z.cpus && ints[k].owner == Some(c)
      requires forall i :: 0 <= i < z.lrs ==> Slot(c, i) in lrs
      modifies this`ints, this`lrs, this`lists, this`curr
      ensures Valid() && Conserved(old(ints), old(lrs), ints, lrs) && (old(EoiOk()) ==> EoiOk())
      ensures ints.Keys == old(ints.Keys) && ints[k].owner == Some(c)
      ensures !old(Placeable(k)) ==> !r && ints == old(ints) && lrs == old(lrs)
      ensures !old(ints[k]).inLr ==> CompletedKept(old(lrs), c, k)
      ensures !old(ints[k]).inLr ==> (ints[k].inLr <==> r)
      ensures r ==>
                && at < z.lrs && ints[k].inLr && ints[k].lr == at && lrs == old(lrs)[Slot(c, at) := LrFor(k, old(ints[k]))]
                && (old(Usable(LrAt(c, at))) || old(NoneUsable(c) && IsVictim(c, k, at)))
      ensures !r ==> ints[k].state == old(ints[k]).state && lrs == old(lrs)
      ensures old(Placeable(k)) && !r ==> ints[k].inSpilled && old(NoneUsable(c) && NoVictim(c, k))
    {
      hide Core, EoiBack, IsHw, Conserved, Combined, LrFor, Usable, EoiPending, IsVictim, NoVictim, NoneUsable;
      r, at := false, 0;
      ConservedSame(ints, lrs);
      if (!ints[k].enabled && !ints[k].state.act) || ints[k].inLr {
        return;
      }
      ghost var ints0, lrs0 := ints, lrs;
      var ind := MakeRoom(c, k);
      PrivOwner(c, k);
      if ind.Some? {
        ghost var ints1, lrs1 := ints, lrs;
        Place(c, k, ind.value);
        ConservedMore(ints0, lrs0, ints1, lrs1, ints, lrs);
        r, at := true, ind.value;
      } else {
        AddSpilled(c, k);
      }
    }

    lemma LiveAt(c: nat, k: Key, i: nat)
      requires k in ints && (forall i :: 0 <= i < z.lrs ==> Slot(c, i) in lrs) && IsVictim(c, k, i)
      ensures i < z.lrs && Live(lrs[Slot(c, i)])
    {
    }

    lemma PrivOwner(c: nat, k: Key)
      requires Valid() && k in ints && ints[k].owner == Some(c)
      ensures k.Priv? ==> k.cpu == c
    {
      IntAt(ints, k);
    }

    // ----- routing and register writes

    /**
     * vgic_route. `target` and `other` are what the route says of this vCPU and of others, and
     * `sent` is whether a message goes out to one of them.
     */
    method Route(c: nat, k: Key, target: bool, other: bool, sent: bool) returns (forwarded: bool)
      requires Valid() && k in ints && c < z.cpus && ints[k].owner == Some(c) && !ints[k].inLr
      requires forall i :: 0 <= i < z.lrs ==> Slot(c, i) in lrs
      modifies this`ints, this`lrs, this`lists, this`curr
      ensures Valid() && Conserved(old(ints), old(lrs), ints, lrs) && (old(EoiOk()) ==> EoiOk())
      ensures k in ints && CompletedKept(old(lrs), c, k)
      ensures ints[k].inLr ==>
                && ints[k].lr < z.lrs && lrs[Slot(c, ints[k].lr)] == LrFor(k, old(ints[k])) && ints[k].owner == Some(c)
      ensures var x := old(ints[k]);
              if x.state.act || (x.state.pend && x.enabled) then
                (ints[k].inLr || ints[k].inSpilled || forwarded) && (target && !old(NoneUsable(c)) ==> ints[k].inLr)
              else ints == old(ints) && lrs == old(lrs)
      ensures forwarded ==> !old(ints[k]).state.act && other && sent
    {
      hide Core, EoiBack, IsHw, Conserved, Combined, NoVictim, NoneUsable, IsVictim, LrFor;
      forwarded := false;
      ConservedSame(ints, lrs);
      if ints[k].state == INV {
        return;
      }
      if !ints[k].enabled && !ints[k].state.act {
        return;
      }
      PrivOwner(c, k);
      ghost var ints0, lrs0 := ints, lrs;
      if target {
        ghost var at;
        var placed;
        placed, at := AddLr(c, k);
      }
      if !ints[k].inLr && !ints[k].state.act && other {
        ghost var ints1 := ints;
        YieldOwnership(c, k);
        ConservedMore(ints0, lrs0, ints1, lrs, ints, lrs);
        forwarded := sent;
      }
      if !ints[k].inLr && !forwarded {
        ghost var ints1 := ints;
        AddSpilled(c, k);
        ConservedMore(ints0, lrs0, ints1, lrs, ints, lrs);
      }
    }

    lemma SlotsIn(c: nat)
      requires Valid() && c < z.cpus
      ensures forall i :: 0 <= i < z.lrs ==> Slot(c, i) in lrs
    {
      assert forall i :: 0 <= i < z.lrs ==> SlotOk(z, Slot(c, i));
    }

    /** Who may act on `k`: its owner, or anyone when it has none. */
    ghost predicate MayOwn(c: nat, k: Key)
      requires k in ints
      reads this`ints
    {
      ints[k].owner.None? || ints[k].owner == Some(c)
    }

    /** A register that holds `k` shows its priority, and shows it pending only if it is enabled or the hardware's. */
    ghost predicate Presented(k: Key)
      requires k in ints
      reads this
    {
      forall s :: s in lrs && Live(lrs[s]) && GetInt(z, s.cpu, lrs[s].vid) == Some(k) ==>
        && lrs[s].prio == ints[k].prio
        && (lrs[s].state.pend && !IsHw(k, ints[k]) ==> ints[k].enabled)
    }

    /** The register that holds an interrupt is the one it was written to. */
    lemma PresentedIs(c: nat, k: Key, x: Int)
      requires Valid() && k in ints && SameSettings(x, ints[k])
      requires ints[k].inLr ==> ints[k].owner == Some(c) && Slot(c, ints[k].lr) in lrs && lrs[Slot(c, ints[k].lr)] == LrFor(k, x)
      ensures Presented(k)
    {
      hide IntsOk, ListsOk;
      forall s | s in lrs && Live(lrs[s]) && GetInt(z, s.cpu, lrs[s].vid) == Some(k)
        ensures lrs[s].prio == ints[k].prio && (lrs[s].state.pend && !IsHw(k, ints[k]) ==> ints[k].enabled)
      {
        assert Back(z, ints, s, lrs[s].vid);
      }
    }

    /**
     * vgic_int_set_field, and vgic_int_reroute as its update Reroute. A vCPU that may not own
     * the interrupt only sends a message to the owner. The interrupt leaves its register,
     * changes, and is routed again. Completed interrupts keep their registers exactly if `k`
     * is not one of them.
     */
    method SetField(c: nat, k: Key, u: Update, target: bool, other: bool, sent: bool)
      requires Valid() && k in ints && c < z.cpus
      modifies this`ints, this`lrs, this`lists, this`curr
      ensures Valid() && OthersSame(old(ints), old(lrs), ints, lrs, k) && k in ints
      ensures !old(MayOwn(c, k)) ==> ints == old(ints) && lrs == old(lrs)
      ensures old(MayOwn(c, k)) ==>
                var x, x' := old(ints[k]), ints[k];
                && x'.enabled == (u.Enable? || (x.enabled && !u.Disable?))
                && x'.prio == (if u.SetPrio? then u.prio % 256 else x.prio) && x'.hw == x.hw
      ensures old(MayOwn(c, k)) && !IsHw(k, ints[k]) ==>
                var s, s' := old(Combined(ints, lrs, k)), Combined(ints, lrs, k);
                && s'.pend == (u.SetPend? || (s.pend && !u.ClearPend?))
                && s'.act == (u.SetAct? || (s.act && !u.ClearAct?))
      ensures old(MayOwn(c, k)) ==> Presented(k)
      ensures old(EoiOk()) ==> (EoiOk() <==> !old(MayOwn(c, k)) || old(NoEoi(z, lrs, k)))
      ensures old(MayOwn(c, k)) ==>
                var s := old(Combined(ints, lrs, k));
                var pend, act := u.SetPend? || (s.pend && !u.ClearPend?), u.SetAct? || (s.act && !u.ClearAct?);
                act || (pend && ints[k].enabled) ==> ints[k].inLr || ints[k].inSpilled || (other && sent)
    {
      hide Core, EoiBack, IsHw, Conserved, OthersSame, Combined, NoEoi, Held, Updated, UpdatedState, CompletedKept, Valid;
      OthersNone(ints, lrs, k);
      ghost var ints0, lrs0 := ints, lrs;
      var owned := GetOwnership(c, k);
      if owned {
        SetOwnField(ints0, c, k, u, target, other, sent);
        UpdatedIs(u, ints0[k], old(Combined(ints, lrs, k)));
      }
    }

    method SetOwnField(ghost ints0: Ints, c: nat, k: Key, u: Update, target: bool, other: bool, sent: bool)
      requires Valid() && k in ints && c < z.cpus && ints[k].owner == Some(c)
      requires k in ints0 && ints == ints0[k := ints0[k].(owner := Some(c))] && Conserved(ints0, lrs, ints, lrs)
      requires ints0[k].owner.None? || ints0[k].owner == Some(c)
      modifies this`ints, this`lrs, this`lists, this`curr
      ensures Valid() && OthersSame(ints0, old(lrs), ints, lrs, k) && k in ints
      ensures SameSettings(Updated(u, ints0[k]), ints[k])
      ensures !IsHw(k, ints[k]) ==> Combined(ints, lrs, k) == UpdatedState(u, Combined(ints0, old(lrs), k))
      ensures EoiBack(z, ints0, old(lrs)) && old(EoiOk()) ==> (EoiOk() <==> old(NoEoi(z, lrs, k)))
      ensures Presented(k)
      ensures var x := Updated(u, ints0[k].(state := old(Combined(ints, lrs, k))));
              x.state.act || (x.state.pend && x.enabled) ==> ints[k].inLr || ints[k].inSpilled || (other && sent)
    {
      hide Core, EoiBack, IsHw, Conserved, OthersSame, Combined, NoEoi, Held, Updated, UpdatedState, Kept;
      ghost var ints1, lrs0 := ints, lrs;
      var removed := RemoveLr(c, k);
      RemovedState(ints1, lrs0, k, removed);
      ghost var ints2, lrs2 := ints, lrs;
      UpdateStep(k, Updated(u, ints[k]), u);
      ints := ints[k := Updated(u, ints[k])];
      ghost var ints3 := ints;
      SlotsIn(c);
      UpdatedSame(ints0[k], ints2[k], u);
      var forwarded := Route(c, k, target, other, sent);
      ghost var ints4, lrs4 := ints, lrs;
      YieldOwnership(c, k);
      ConservedMore(ints3, lrs2, ints4, lrs4, ints, lrs);
      FieldSame(ints0, ints1, lrs0, ints2, lrs2, ints3, ints, lrs, k, u);
      KeptYield(lrs2, ints4, c, k);
      KeptSettings(ints3, lrs2, ints, lrs, k);
      SlotsIn(c);
      PresentedIs(c, k, ints3[k]);
      if EoiBack(z, ints0, lrs0) && !NoEoi(z, lrs0, k) {
        if removed {
          HeldLive(ints1, lrs0, k);
        }
        Unanswered(ints0, lrs0, lrs2, c, k);
      }
    }

    lemma KeptYield(lrs0: Lrs, before: Ints, c: nat, k: Key)
      requires k in ints && k in before && ints[k].inLr == before[k].inLr && ints[k].lr == before[k].lr
      ensures Kept(before, lrs, lrs0, c, k) ==> CompletedKept(lrs0, c, k)
    {
    }

    /** After the interrupt left its register, its whole state is in it. */
    lemma RemovedState(ints1: Ints, lrs0: Lrs, k: Key, removed: bool)
      requires k in ints1 && ints == if ints1[k].inLr
                                     then ints1[k := ints1[k].(inLr := false, state := Combined(ints1, lrs0, k))]
                                     else ints1
      ensures !ints[k].inLr && ints[k].state == Combined(ints1, lrs0, k) && SameSettings(ints1[k], ints[k])
    {
    }

    lemma UpdateStep(k: Key, x: Int, u: Update)
      requires Valid() && k in ints && !ints[k].inLr && x == Updated(u, ints[k])
      ensures Core(z, ints[k := x], lrs, lists) && OthersSame(ints, lrs, ints[k := x], lrs, k)
      ensures EoiOk() ==> EoiBack(z, ints[k := x], lrs)
      ensures x.owner == ints[k].owner && !x.inLr && x.hw == ints[k].hw
    {
      hide EoiBack, OthersSame;
      IntAt(ints, k);
      NotInLr(ints, lrs, k);
      NotHeldIf(z, ints, lrs, k);
      if EoiOk() {
        NoEoiIf(z, ints, lrs, k);
      }
      CoreInt(z, ints, lrs, lists, k, x);
    }

    /** A completed copy that `k` has let go of is left unanswered. */
    lemma Unanswered(ints0: Ints, lrs0: Lrs, lrs2: Lrs, c: nat, k: Key)
      requires EoiBack(z, ints0, lrs0) && !NoEoi(z, lrs0, k) && k in ints0 && k in ints && CompletedKept(lrs2, c, k)
      requires ints0[k].owner.None? || ints0[k].owner == Some(c)
      requires lrs2 == lrs0 || exists s :: s in lrs0 && Live(lrs0[s]) && lrs2 == lrs0[s := EmptyLr()]
      ensures !EoiOk()
    {
      hide IsHw;
      var s :| s in lrs0 && EoiPending(lrs0[s]) && GetInt(z, s.cpu, lrs0[s].vid) == Some(k);
      assert Back(z, ints0, s, lrs0[s].vid);
      assert s in lrs2 && lrs2[s] == lrs0[s];
      assert !Back(z, ints, s, lrs[s].vid);
    }

    /** The VGIC_ROUTE message: the receiver takes the interrupt if nobody owns it. */
    method RouteMsg(c: nat, k: Key, target: bool)
      requires Valid() && k in ints && c < z.cpus
      modifies this`ints, this`lrs, this`lists, this`curr
      ensures Valid() && Conserved(old(ints), old(lrs), ints, lrs) && (old(EoiOk()) ==> EoiOk())
      ensures k in ints
      ensures !old(MayOwn(c, k)) ==> ints == old(ints) && lrs == old(lrs)
      ensures old(MayOwn(c, k) && Placeable(k)) && target ==> ints[k].inLr || ints[k].inSpilled
    {
      hide Core, EoiBack, IsHw, Conserved, Combined, IsVictim, NoneUsable, NoVictim, LrFor, CompletedKept;
      SlotsIn(c);
      ghost var ints0, lrs0 := ints, lrs;
      var owned := GetOwnership(c, k);
      if owned {
        ghost var ints1 := ints;
        if target {
          ghost var at;
          var placed;
          placed, at := AddLr(c, k);
          ConservedMore(ints0, lrs0, ints1, lrs0, ints, lrs);
        }
        ghost var ints2, lrs2 := ints, lrs;
        YieldOwnership(c, k);
        ConservedMore(ints0, lrs0, ints2, lrs2, ints, lrs);
      }
    }

    /**
     * vgic_inject_hw. The hardware signals an interrupt again only after it has been
     * deactivated, so no list register can still hold it.
     */
    method InjectHw(c: nat, k: Key)
      requires Valid() && k in ints && c < z.cpus && GetInt(z, c, k.id) == Some(k)
      requires IsHw(k, ints[k]) && !Held(ints, lrs, k)
      modifies this`ints, this`lrs, this`lists, this`curr
      ensures Valid() && OthersSame(old(ints), old(lrs), ints, lrs, k) && (old(EoiOk()) ==> EoiOk())
      ensures k in ints && ints[k].owner == Some(c) && ints[k].enabled == old(ints[k]).enabled
      ensures !ints[k].enabled ==> lrs == old(lrs) && ints[k].state == St(true, false) && !ints[k].inLr
      ensures ints[k].enabled ==> (ints[k].inLr && lrs == old(lrs)[Slot(c, ints[k].lr) := Lr(k.id, ints[k].prio, St(true, false), true, false)])
                                  || (ints[k].inSpilled && ints[k].state == St(true, false) && lrs == old(lrs))
    {
      hide Core, EoiBack, Conserved, OthersSame, Combined, IsVictim, NoneUsable, NoVictim, CompletedKept, Held;
      SlotsIn(c);
      ghost var ints0, lrs0 := ints, lrs;
      var x := ints[k].(owner := Some(c), state := St(true, false), inLr := false);
      InjectStep(c, k, x);
      ints := ints[k := x];
      ghost var ints1 := ints;
      ghost var at;
      var placed;
      placed, at := AddLr(c, k);
      SameOthers(ints1, lrs0, ints, lrs, k);
      OthersMore(ints0, lrs0, ints1, lrs0, ints, lrs, k);
      KeptSettings(ints1, lrs0, ints, lrs, k);
    }

    lemma InjectStep(c: nat, k: Key, x: Int)
      requires Valid() && k in ints && GetInt(z, c, k.id) == Some(k) && IsHw(k, ints[k]) && !Held(ints, lrs, k)
      requires x == ints[k].(owner := Some(c), state := St(true, false), inLr := false)
      ensures Core(z, ints[k := x], lrs, lists) && OthersSame(ints, lrs, ints[k := x], lrs, k)
      ensures EoiOk() ==> EoiBack(z, ints[k := x], lrs)
    {
      hide EoiBack, OthersSame, Held;
      IntAt(ints, k);
      NotHeldIf(z, ints, lrs, k);
      if EoiOk() {
        HwNoEoi(z, ints, lrs, k);
      }
      CoreInt(z, ints, lrs, lists, k, x);
    }

    // ----- refilling

    /** The spilled interrupts vgic_highest_prio_spilled looks at, in its order. */
    ghost function Candidates(c: nat): seq<Key>
      requires Valid() && c < z.cpus
      reads this
    {
      assert ListIdOk(z, CpuList(c)) && ListIdOk(z, VmList);
      lists[CpuList(c)] + lists[VmList]
    }

    ghost predicate Best(q: seq<Key>, flags: St, best: Option<Key>)
      reads this`ints
    {
      && (best.None? ==> forall i :: 0 <= i < |q| ==> q[i] in ints && !Eligible(ints[q[i]], flags))
      && (best.Some? ==>
            && best.value in q && best.value in ints && Eligible(ints[best.value], flags)
            && forall i :: 0 <= i < |q| && q[i] != best.value && q[i] in ints && Eligible(ints[q[i]], flags) ==>
                 LessUrgent(ints[q[i]].prio, q[i].id, ints[best.value].prio, best.value.id))
    }

    /** Distinct interrupts of this VM, as the spilled lists hold them. */
    ghost predicate Distinct(q: seq<Key>)
      reads this`ints
    {
      && (forall i :: 0 <= i < |q| ==>
            q[i] in ints && ints[q[i]].prio <= GIC_LOWEST_PRIO && q[i].id < GIC_MAX_VALID_INTERRUPTS)
      && (forall i, j :: 0 <= i < j < |q| ==> q[i].id != q[j].id)
    }

    /** One list of vgic_highest_prio_spilled, after the lists `before`. */
    method ScanSpilled(ghost before: seq<Key>, q: seq<Key>, flags: St, best: Option<Key>) returns (r: Option<Key>)
      requires Distinct(before + q) && Distinct(before) && Best(before, flags, best)
      ensures Best(before + q, flags, r)
    {
      hide Best, Distinct, Eligible;
      r := best;
      assert before + q[..0] == before;
      for i := 0 to |q|
        invariant Distinct(before + q[..i]) && Best(before + q[..i], flags, r)
      {
        var k := q[i];
        assert before + q[..i + 1] == (before + q[..i]) + [k];
        DistinctSome(before + q, |before| + i + 1);
        assert (before + q)[..|before| + i + 1] == before + q[..i + 1];
        ghost var r0 := r;
        BestIn(before + q[..i], k, flags, r);
        if Eligible(ints[k], flags) {
          var prio := if r.None? then GIC_LOWEST_PRIO else ints[r.value].prio;
          var id := if r.None? then GIC_MAX_VALID_INTERRUPTS else r.value.id;
          if ints[k].prio < prio || (ints[k].prio == prio && k.id < id) {
            r := Some(k);
          }
        }
        BestMore(before + q[..i], k, flags, r0, r);
      }
      assert q[..|q|] == q;
    }

    lemma DistinctSome(q: seq<Key>, n: nat)
      requires Distinct(q) && n <= |q|
      ensures Distinct(q[..n])
    {
    }

    lemma BestIn(q: seq<Key>, k: Key, flags: St, r: Option<Key>)
      requires Distinct(q + [k]) && Distinct(q) && Best(q, flags, r)
      ensures k in ints && (r.Some? ==> r.value in ints)
      ensures ints[k].prio <= GIC_LOWEST_PRIO && k.id < GIC_MAX_VALID_INTERRUPTS
    {
      assert (q + [k])[|q|] == k;
    }

    lemma BestMore(q: seq<Key>, k: Key, flags: St, r: Option<Key>, r': Option<Key>)
      requires Distinct(q + [k]) && Distinct(q) && Best(q, flags, r) && k in ints && (r.Some? ==> r.value in ints)
      requires r' == if Eligible(ints[k], flags) && (r.None? || LessUrgent(ints[r.value].prio, r.value.id, ints[k].prio, k.id))
                     then Some(k) else r
      ensures Best(q + [k], flags, r')
    {
      var q' := q + [k];
      assert q'[|q|] == k && forall i :: 0 <= i < |q| ==> q'[i] == q[i];
      if r.Some? {
        var j :| 0 <= j < |q| && q[j] == r.value;
        assert q'[j].id != q'[|q|].id;
      }
    }

    /** vgic_highest_prio_spilled: the most urgent spilled interrupt with one of the flags. */
    method HighestPrioSpilled(c: nat, flags: St) returns (r: Option<Key>)
      requires Valid() && c < z.cpus
      ensures forall i :: 0 <= i < |Candidates(c)| ==> Candidates(c)[i] in ints
      ensures Best(Candidates(c), flags, r)
      ensures r.Some? ==>
                && r.value in ints && ints[r.value].inSpilled && (r.value.Priv? ==> r.value.cpu == c) && !ints[r.value].inLr
                && ((flags.pend && ints[r.value].state.pend) || (flags.act && ints[r.value].state.act))
      ensures r.None? ==> forall k :: k in Candidates(c) && k in ints ==>
                            !(flags.pend && ints[k].state.pend) && !(flags.act && ints[k].state.act)
    {
      hide Core, LessUrgent;
      CandidatesOk(c);
      r := ScanSpilled([], lists[CpuList(c)], flags, None);
      assert [] + lists[CpuList(c)] == lists[CpuList(c)];
      r := ScanSpilled(lists[CpuList(c)], lists[VmList], flags, r);
    }

    lemma CandidatesOk(c: nat)
      requires Valid() && c < z.cpus
      ensures CpuList(c) in lists && VmList in lists
      ensures Distinct(Candidates(c)) && Distinct(lists[CpuList(c)]) && Distinct([])
      ensures forall i :: 0 <= i < |Candidates(c)| ==> var k := Candidates(c)[i];
                k in ints && ints[k].inSpilled && (k.Priv? ==> k.cpu == c) && !ints[k].inLr
    {
      forall i | 0 <= i < |Candidates(c)|
        ensures var k := Candidates(c)[i];
                k in ints && ints[k].inSpilled && (k.Priv? ==> k.cpu == c) && KeyOk(z, k) && IntOk(k, ints[k])
                && (i < |lists[CpuList(c)]| <==> k.Priv?)
      {
      }
    }

    /** How many interrupts wait on the lists of a vCPU. */
    ghost function Backlog(c: nat): nat
      requires Valid() && c < z.cpus
      reads this
    {
      |Candidates(c)|
    }

    lemma BacklogLess(c: nat, lists0: Lists, k: Key)
      requires Valid() && c < z.cpus && (k.Priv? ==> k.cpu == c) && ListOf(k) in lists && lists.Keys == lists0.Keys
      requires |lists[ListOf(k)]| + 1 == |lists0[ListOf(k)]|
      requires forall l :: l in lists && l != ListOf(k) ==> lists[l] == lists0[l]
      ensures CpuList(c) in lists0 && VmList in lists0 && Backlog(c) + 1 == |lists0[CpuList(c)]| + |lists0[VmList]|
    {
      hide ListsOk, LrsBack, IntsOk;
      assert ListIdOk(z, CpuList(c)) && ListIdOk(z, VmList);
    }

    /**
     * One round of vgic_refill_lrs: the most urgent spilled interrupt moves to the first
     * usable register. With `npie` only pending ones are wanted.
     */
    method RefillOne(c: nat, npie: bool) returns (r: Option<Key>, seen: Option<Key>)
      requires Valid() && c < z.cpus && forall i :: 0 <= i < z.lrs ==> Slot(c, i) in lrs
      modifies this`ints, this`lrs, this`lists, this`curr
      ensures Valid() && Conserved(old(ints), old(lrs), ints, lrs) && (old(EoiOk()) ==> EoiOk())
      ensures old(NoneUsable(c)) ==> r.None? && seen.None?
      ensures !old(NoneUsable(c)) ==>
                && (seen.None? ==> old(Best(Candidates(c), St(true, !npie), None)))
                && (seen.Some? ==> seen.value in old(ints) && old(Best(Candidates(c), St(true, !npie), seen)))
                && (r == if seen.Some? && (old(ints)[seen.value].owner.None? || old(ints)[seen.value].owner == Some(c)) then seen else None)
      ensures r.Some? ==> r.value in ints && ints[r.value].inLr && ints[r.value].owner == Some(c)
      ensures r.None? ==> ints == old(ints) && lrs == old(lrs) && lists == old(lists)
      ensures r.Some? ==> Backlog(c) < old(Backlog(c))
      ensures lrs.Keys == old(lrs.Keys)
    {
      hide Core, EoiBack, IsHw, Conserved, Combined, Best, Usable, Eligible, LrFor;
      ConservedSame(ints, lrs);
      ghost var ints0, lrs0 := ints, lrs;
      r, seen := None, None;
      var ind := FirstUsable(c);
      if ind.Some? {
        var k := HighestPrioSpilled(c, St(true, !npie));
        seen := k;
        if k.Some? {
          var owned := GetOwnership(c, k.value);
          if owned {
            ghost var ints1, lists1 := ints, lists;
            RemoveSpilled(c, k.value);
            BacklogLess(c, lists1, k.value);
            ConservedMore(ints0, lrs0, ints1, lrs, ints, lrs);
            ghost var ints2 := ints;
            WriteLr(c, k.value, ind.value);
            ConservedMore(ints0, lrs0, ints2, lrs0, ints, lrs);
            r := k;
          }
        }
      }
    }

    /** The best candidate belongs to another vCPU. */
    ghost predicate OwnedElsewhere(c: nat, flags: St)
      requires Valid() && c < z.cpus
      reads this
    {
      exists k :: k in ints && Best(Candidates(c), flags, Some(k)) && ints[k].owner.Some? && ints[k].owner != Some(c)
    }

    /**
     * vgic_refill_lrs: rounds until no register is usable or nobody eligible is left. Where
     * another vCPU owns the best candidate the source tries again until that changes; here the
     * loop ends, with `contended`. `want` is what the last round asked for.
     */
    method RefillLrs(c: nat, npie: bool) returns (contended: bool, ghost want: St)
      requires Valid() && c < z.cpus && forall i :: 0 <= i < z.lrs ==> Slot(c, i) in lrs
      modifies this`ints, this`lrs, this`lists, this`curr
      ensures Valid() && Conserved(old(ints), old(lrs), ints, lrs) && (old(EoiOk()) ==> EoiOk())
      ensures forall i :: 0 <= i < z.lrs ==> Slot(c, i) in lrs
      ensures want == St(true, true) || (want == St(true, !npie) && ints == old(ints) && lrs == old(lrs))
      ensures if contended then OwnedElsewhere(c, want) else NoneUsable(c) || Best(Candidates(c), want, None)
    {
      hide Core, EoiBack, IsHw, Conserved, Combined, Best, Eligible, Usable;
      ConservedSame(ints, lrs);
      ghost var ints0, lrs0 := ints, lrs;
      var pendOnly := npie;
      while true
        invariant Valid() && Conserved(ints0, lrs0, ints, lrs) && (old(EoiOk()) ==> EoiOk())
        invariant lrs.Keys == lrs0.Keys && (!pendOnly || (pendOnly == npie && ints == ints0 && lrs == lrs0))
        decreases Backlog(c)
      {
        want := St(true, !pendOnly);
        ghost var ints1, lrs1 := ints, lrs;
        var r, seen := RefillOne(c, pendOnly);
        ConservedMore(ints0, lrs0, ints1, lrs1, ints, lrs);
        if r.None? {
          contended := seen.Some?;
          assert contended ==> Best(Candidates(c), want, Some(seen.value));
          return;
        }
        pendOnly := false;
      }
    }

    // ----- end of interrupt

    /**
     * vgic_eoir_highest_spilled_active: the guest completed an interrupt that is in no
     * register, which is taken to be the most urgent active one on the spilled lists.
     */
    method EoirHighestSpilledActive(c: nat) returns (r: Option<Key>, seen: Option<Key>)
      requires Valid() && c < z.cpus
      modifies this`ints, this`lrs, this`lists, this`curr
      ensures Valid() && (old(EoiOk()) ==> EoiOk())
      ensures r.None? ==> ints == old(ints) && lrs == old(lrs)
      ensures seen.None? ==> r.None? && old(Best(Candidates(c), St(false, true), None))
      ensures seen.Some? ==>
                && seen.value in old(ints) && old(Best(Candidates(c), St(false, true), seen))
                && r == (if old(ints)[seen.value].owner.None? || old(ints)[seen.value].owner == Some(c) then seen else None)
      ensures r.Some? ==> r.value in old(ints) && r.value in ints && OthersSame(old(ints), old(lrs), ints, lrs, r.value)
      ensures r.Some? && !IsHw(r.value, ints[r.value]) ==>
                Combined(ints, lrs, r.value) == old(Combined(ints, lrs, r.value)).(act := false)
    {
      hide Core, EoiBack, IsHw, Conserved, OthersSame, Combined, Best, Eligible, LrFor, IsVictim, NoVictim, NoneUsable, CompletedKept;
      SlotsIn(c);
      ghost var ints0, lrs0 := ints, lrs;
      r := HighestPrioSpilled(c, St(false, true));
      seen := r;
      if r.Some? {
        var k := r.value;
        var owned := GetOwnership(c, k);
        if !owned {
          return None, seen;
        }
        ghost var ints1 := ints;
        RemoveSpilled(c, k);
        ConservedMore(ints0, lrs0, ints1, lrs, ints, lrs);
        ghost var ints2 := ints;
        UpdateStep(k, Updated(ClearAct, ints[k]), ClearAct);
        ints := ints[k := Updated(ClearAct, ints[k])];
        ghost var ints3 := ints;
        ConservedSame(ints, lrs);
        if !IsHw(k, ints[k]) && ints[k].state.pend {
          ghost var at;
          var placed;
          placed, at := AddLr(c, k);
        }
        FreeSame(ints0, ints2, lrs0, k);
        FieldSame(ints0, ints2, lrs0, ints2, lrs0, ints3, ints, lrs, k, ClearAct);
      }
    }

    /** The registers of `c` whose completion waits for vgic_handle_trapped_eoir. */
    ghost function Waiting(c: nat): set<nat>
      reads this`lrs
    {
      WaitingIn(lrs, c, z.lrs)
    }

    /** The lowest bit of EISR. */
    method FirstCompleted(c: nat) returns (r: Option<nat>)
      requires forall i :: 0 <= i < z.lrs ==> Slot(c, i) in lrs
      ensures r.Some? ==> r.value in Waiting(c)
      ensures r.None? ==> Waiting(c) == {}
    {
      for i := 0 to z.lrs
        invariant forall j :: 0 <= j < i ==> !EoiPending(lrs[Slot(c, j)])
      {
        if EoiPending(lrs[Slot(c, i)]) {
          return Some(i);
        }
      }
      return None;
    }

    /** vgic_handle_trapped_eoir. Only shared interrupts ask for it, so none is an SGI. */
    method HandleTrappedEoir(c: nat)
      requires Valid() && EoiOk() && c < z.cpus
      modifies this`ints, this`lrs
      ensures Valid() && EoiOk() && Conserved(old(ints), old(lrs), ints, lrs)
      ensures Waiting(c) == {}
      ensures forall s :: s in lrs ==> lrs[s] == if s.cpu == c && old(s in lrs && EoiPending(lrs[s])) then EmptyLr() else old(lrs)[s]
    {
      hide EoiBack, IsHw, Conserved, Combined, Core, EoiPending, WaitingIn;
      ConservedSame(ints, lrs);
      SlotsIn(c);
      ghost var ints0, lrs0 := ints, lrs;
      var ind := FirstCompleted(c);
      while ind.Some?
        invariant Valid() && EoiOk() && Conserved(ints0, lrs0, ints, lrs) && lrs.Keys == lrs0.Keys
        invariant ind.Some? ==> ind.value in Waiting(c)
        invariant ind.None? ==> Waiting(c) == {}
        invariant forall s :: s in lrs ==> lrs[s] == lrs0[s] || (s.cpu == c && EoiPending(lrs0[s]) && lrs[s] == EmptyLr())
        decreases |Waiting(c)|
      {
        ghost var ints1, lrs1 := ints, lrs;
        WaitingAt(c, ind.value);
        var s := Slot(c, ind.value);
        var key := GetInt(z, c, lrs[s].vid);
        EoirStep(s);
        lrs := lrs[s := EmptyLr()];
        var k := key.value;
        ints := ints[k := ints[k].(inLr := false)];
        ConservedMore(ints0, lrs0, ints1, lrs1, ints, lrs);
        ghost var ints2 := ints;
        YieldOwnership(c, k);
        ConservedMore(ints0, lrs0, ints2, lrs, ints, lrs);
        WaitingLess(c, ind.value, lrs1);
        ind := FirstCompleted(c);
      }
      NoneWaiting(c);
    }

    lemma WaitingLess(c: nat, i: nat, lrs0: Lrs)
      requires Slot(c, i) in lrs0 && EoiPending(lrs0[Slot(c, i)]) && i < z.lrs && lrs == lrs0[Slot(c, i) := EmptyLr()]
      ensures Waiting(c) == WaitingIn(lrs0, c, z.lrs) - {i} && |Waiting(c)| < |WaitingIn(lrs0, c, z.lrs)|
    {
      assert i in WaitingIn(lrs0, c, z.lrs);
    }

    lemma WaitingAt(c: nat, i: nat)
      requires i in Waiting(c)
      ensures i < z.lrs && Slot(c, i) in lrs && EoiPending(lrs[Slot(c, i)])
    {
    }

    lemma NoneWaiting(c: nat)
      requires Valid() && Waiting(c) == {}
      ensures forall s :: s in lrs && s.cpu == c ==> !EoiPending(lrs[s])
    {
      forall s | s in lrs && s.cpu == c ensures !EoiPending(lrs[s]) {
        assert SlotOk(z, s) && s == Slot(c, s.ind) && s.ind !in Waiting(c);
      }
    }

    lemma EoirStep(s: Slot)
      requires Valid() && EoiOk() && s in lrs && EoiPending(lrs[s])
      ensures GetInt(z, s.cpu, lrs[s].vid).Some?
      ensures var k := GetInt(z, s.cpu, lrs[s].vid).value;
              && k in ints && k.Spi?
              && Core(z, ints[k := ints[k].(inLr := false)], lrs[s := EmptyLr()], lists)
              && EoiBack(z, ints[k := ints[k].(inLr := false)], lrs[s := EmptyLr()])
              && Conserved(ints, lrs, ints[k := ints[k].(inLr := false)], lrs[s := EmptyLr()])
    {
      hide IsHw, ListsOk, Conserved, OthersSame;
      var k := GetInt(z, s.cpu, lrs[s].vid).value;
      assert Back(z, ints, s, lrs[s].vid);
      var lrs' := lrs[s := EmptyLr()];
      var x := ints[k].(inLr := false);
      IntAt(ints, k);
      CoreClear(z, ints, lrs, lists, s, EmptyLr());
      NotHeldIf(z, ints, lrs', k);
      NoEoiUsable(z, ints, lrs', k);
      CoreInt(z, ints, lrs', lists, k, x);
      OthersFrame(z, ints, lrs, k, x, s, EmptyLr());
      ReleasedSame(ints, lrs, lrs', k, x);
    }

    // ----- the guest

    /** The guest acknowledges a pending interrupt: it becomes active. */
    method GuestAck(c: nat, i: nat)
      requires Valid() && Slot(c, i) in lrs && lrs[Slot(c, i)].state == St(true, false)
      modifies this`lrs
      ensures Valid() && (old(EoiOk()) ==> EoiOk())
      ensures lrs == old(lrs)[Slot(c, i) := old(lrs[Slot(c, i)]).(state := St(false, true))]
    {
      hide EoiBack, ListsOk, IntsOk, LrsBack;
      CoreClear(z, ints, lrs, lists, Slot(c, i), lrs[Slot(c, i)].(state := St(false, true)));
      lrs := lrs[Slot(c, i) := lrs[Slot(c, i)].(state := St(false, true))];
    }

    /** The guest completes an active interrupt; it may be pending again. */
    method GuestEoi(c: nat, i: nat)
      requires Valid() && Slot(c, i) in lrs && lrs[Slot(c, i)].state.act
      modifies this`lrs
      ensures Valid() && (old(EoiOk()) ==> EoiOk())
      ensures lrs == old(lrs)[Slot(c, i) := old(lrs[Slot(c, i)]).(state := old(lrs[Slot(c, i)]).state.(act := false))]
    {
      hide EoiBack, ListsOk, IntsOk, LrsBack;
      var lr := lrs[Slot(c, i)].(state := lrs[Slot(c, i)].state.(act := false));
      CoreClear(z, ints, lrs, lists, Slot(c, i), lr);
      lrs := lrs[Slot(c, i) := lr];
    }
  }

  /** Outside the list registers the owner does not matter for the state. */
  lemma SameState(ints: Ints, lrs: Lrs, k: Key, x: Int)
    requires k in ints && !ints[k].inLr && !x.inLr && x.state == ints[k].state && SameSettings(ints[k], x)
    ensures OthersSame(ints, lrs, ints[k := x], lrs, k) ==> Conserved(ints, lrs, ints[k := x], lrs)
    ensures SameAt(ints, lrs, ints[k := x], lrs, k) && Combined(ints[k := x], lrs, k) == Combined(ints, lrs, k)
  {
    hide IsHw;
  }

  lemma ConservedSame(ints: Ints, lrs: Lrs)
    ensures Conserved(ints, lrs, ints, lrs)
  {
  }

  /** Clearing the one live register of an interrupt leaves it in none. */
  lemma RemovedNot(z: Sizes, ints: Ints, lrs: Lrs, lists: Lists, s: Slot, k: Key)
    requires Core(z, ints, lrs, lists) && s in lrs && Live(lrs[s]) && GetInt(z, s.cpu, lrs[s].vid) == Some(k)
    ensures NotHeld(z, lrs[s := EmptyLr()], k)
    ensures NoEoi(z, lrs, k) ==> NoEoi(z, lrs[s := EmptyLr()], k)
  {
    forall t | t in lrs && t != s && Live(lrs[t]) ensures GetInt(z, t.cpu, lrs[t].vid) != Some(k) {
      if GetInt(z, t.cpu, lrs[t].vid) == Some(k) {
        LiveOnce(z, ints, lrs, lists, s, t);
      }
    }
  }

  lemma OthersNone(ints: Ints, lrs: Lrs, k: Key)
    ensures OthersSame(ints, lrs, ints, lrs, k)
  {
  }

  lemma IntAt(ints: Ints, k: Key)
    requires IntsOk(ints) && k in ints
    ensures IntOk(k, ints[k])
  {
  }

  lemma NotInLr(ints: Ints, lrs: Lrs, k: Key)
    requires k in ints && !ints[k].inLr
    ensures !Held(ints, lrs, k)
  {
  }

  lemma HwBits(k: Key, x: Int, x': Int)
    requires x'.hw == x.hw
    ensures IsHw(k, x') == IsHw(k, x) && (LrFor(k, x).eoi ==> k.Spi? && !IsHw(k, x))
  {
  }

  /** An interrupt whose register is usable has no completed copy waiting. */
  lemma NoEoiUsable(z: Sizes, ints: Ints, lrs: Lrs, k: Key)
    requires EoiBack(z, ints, lrs) && k in ints && ints[k].owner.Some?
    requires HeldIn(ints, k) in lrs && Usable(lrs[HeldIn(ints, k)])
    ensures NoEoi(z, lrs, k)
  {
  }

  lemma DroppedSame(ints: Ints, lrs: Lrs, k: Key)
    requires k in ints && !Held(ints, lrs, k)
    requires OthersSame(ints, lrs, ints[k := ints[k].(inLr := false)], lrs, k)
    ensures Conserved(ints, lrs, ints[k := ints[k].(inLr := false)], lrs)
  {
    hide IsHw;
    assert SameAt(ints, lrs, ints[k := ints[k].(inLr := false)], lrs, k);
  }

  /** The two halves vgic_write_lr makes of the state join to it. */
  lemma WrittenSame(ints: Ints, lrs: Lrs, k: Key, x: Int, s: Slot)
    requires k in ints && s in lrs && !ints[k].inLr && ints[k].owner == Some(s.cpu)
    requires x == ints[k].(inLr := true, lr := s.ind, state := if ints[k].enabled then INV else St(ints[k].state.pend, false))
    requires OthersSame(ints, lrs, ints[k := x], lrs[s := LrFor(k, ints[k])], k)
    ensures Conserved(ints, lrs, ints[k := x], lrs[s := LrFor(k, ints[k])])
  {
    assert SameAt(ints, lrs, ints[k := x], lrs[s := LrFor(k, ints[k])], k);
  }

  lemma LrForSpilled(k: Key, x: Int, x': Int)
    requires x' == x || x' == x.(inSpilled := false)
    ensures LrFor(k, x') == LrFor(k, x)
  {
  }

  ghost predicate Kept(ints: Ints, lrs: Lrs, lrs0: Lrs, c: nat, k: Key)
    requires k in ints
  {
    && (forall s :: s in lrs0 && EoiPending(lrs0[s]) ==> s in lrs && lrs[s] == lrs0[s])
    && (ints[k].inLr ==> !(Slot(c, ints[k].lr) in lrs0 && EoiPending(lrs0[Slot(c, ints[k].lr)])))
  }

  /** What a register write does to the combined states, along its five steps. */
  lemma FieldSame(ints0: Ints, ints1: Ints, lrs0: Lrs, ints2: Ints, lrs2: Lrs, ints3: Ints, ints5: Ints, lrs5: Lrs,
                  k: Key, u: Update)
    requires k in ints0 && k in ints2 && !ints2[k].inLr && ints3 == ints2[k := Updated(u, ints2[k])]
    requires Conserved(ints0, lrs0, ints1, lrs0) && OthersSame(ints1, lrs0, ints2, lrs2, k)
    requires SameSettings(ints1[k], ints2[k]) && ints2[k].state == Combined(ints1, lrs0, k)
    requires OthersSame(ints2, lrs2, ints3, lrs2, k) && Conserved(ints3, lrs2, ints5, lrs5)
    ensures OthersSame(ints0, lrs0, ints5, lrs5, k) && k in ints5
    ensures SameSettings(Updated(u, ints0[k]), ints5[k])
    ensures !IsHw(k, ints5[k]) ==> Combined(ints5, lrs5, k) == UpdatedState(u, Combined(ints0, lrs0, k))
  {
    hide Combined;
    OthersMore(ints0, lrs0, ints1, lrs0, ints2, lrs2, k);
    OthersMore(ints0, lrs0, ints2, lrs2, ints3, lrs2, k);
    OthersMore(ints0, lrs0, ints3, lrs2, ints5, lrs5, k);
    assert SameAt(ints0, lrs0, ints1, lrs0, k) && SameAt(ints3, lrs2, ints5, lrs5, k);
    FreeState(ints3, lrs2, k);
  }

  lemma FreeState(ints: Ints, lrs: Lrs, k: Key)
    requires k in ints && !ints[k].inLr
    ensures Combined(ints, lrs, k) == ints[k].state
  {
  }

  lemma HeldLive(ints: Ints, lrs: Lrs, k: Key)
    requires k in ints && Held(ints, lrs, k)
    ensures ints[k].owner.Some? && HeldIn(ints, k) in lrs && Live(lrs[HeldIn(ints, k)])
  {
  }

  lemma HwNoEoi(z: Sizes, ints: Ints, lrs: Lrs, k: Key)
    requires EoiBack(z, ints, lrs) && k in ints && IsHw(k, ints[k])
    ensures NoEoi(z, lrs, k)
  {
  }

  lemma SameOthers(ints: Ints, lrs: Lrs, ints': Ints, lrs': Lrs, k: Key)
    requires Conserved(ints, lrs, ints', lrs')
    ensures OthersSame(ints, lrs, ints', lrs', k)
  {
  }

  lemma KeptSettings(ints: Ints, lrs: Lrs, ints': Ints, lrs': Lrs, k: Key)
    requires Conserved(ints, lrs, ints', lrs') && k in ints
    ensures k in ints' && SameSettings(ints[k], ints'[k])
  {
    assert SameAt(ints, lrs, ints', lrs', k);
  }

  /** A spilled interrupt is in no register, and moving it off its list changes nothing else. */
  lemma FreeSame(ints: Ints, ints': Ints, lrs: Lrs, k: Key)
    requires Conserved(ints, lrs, ints', lrs) && k in ints' && !ints'[k].inLr
    ensures ints'[k].state == Combined(ints', lrs, k) && OthersSame(ints', lrs, ints', lrs, k)
  {
    FreeState(ints', lrs, k);
  }

  lemma ReleasedSame(ints: Ints, lrs: Lrs, lrs': Lrs, k: Key, x: Int)
    requires k in ints && !Held(ints, lrs, k) && x == ints[k].(inLr := false)
    requires OthersSame(ints, lrs, ints[k := x], lrs', k)
    ensures Conserved(ints, lrs, ints[k := x], lrs')
  {
    hide IsHw;
    assert SameAt(ints, lrs, ints[k := x], lrs', k);
  }

  /**
   * The step of vgic_handle_trapped_eoir on one completed register, from any state of the cache:
   * the invariants survive exactly if no other register holds the interrupt live.
   */
  lemma AnsweredExactly(z: Sizes, ints: Ints, lrs: Lrs, lists: Lists, k: Key, s: Slot)
    requires Core(z, ints, lrs, lists) && s in lrs && EoiPending(lrs[s]) && GetInt(z, s.cpu, lrs[s].vid) == Some(k) && k in ints
    ensures Core(z, ints[k := ints[k].(inLr := false)], lrs[s := EmptyLr()], lists) <==> NotHeld(z, lrs, k)
  {
    var x := ints[k].(inLr := false);
    if NotHeld(z, lrs, k) {
      CoreInt(z, ints, lrs, lists, k, x);
      CoreClear(z, ints[k := x], lrs, lists, s, EmptyLr());
    } else {
      var t :| t in lrs && Live(lrs[t]) && GetInt(z, t.cpu, lrs[t].vid) == Some(k);
      UnansweredHazard(z, ints, lrs, k, s, t);
    }
  }

  /**
   * What goes wrong when a completed copy is left unanswered: handling it then makes the
   * interrupt's live register one that nothing points back to.
   */
  lemma UnansweredHazard(z: Sizes, ints: Ints, lrs: Lrs, k: Key, s: Slot, t: Slot)
    requires s in lrs && t in lrs && k in ints && EoiPending(lrs[s]) && Live(lrs[t])
    requires GetInt(z, s.cpu, lrs[s].vid) == GetInt(z, t.cpu, lrs[t].vid) == Some(k)
    ensures !LrsBack(z, ints[k := ints[k].(inLr := false)], lrs[s := EmptyLr()])
  {
    var lrs' := lrs[s := EmptyLr()];
    assert t in lrs' && Live(lrs'[t]) && !Back(z, ints[k := ints[k].(inLr := false)], t, lrs'[t].vid);
  }

  /** A shared interrupt the guest has just completed: a register write for it now leaves it unanswered. */
  lemma CompletedExample() returns (z: Sizes, ints: Ints, lrs: Lrs, lists: Lists)
    ensures Core(z, ints, lrs, lists) && EoiBack(z, ints, lrs)
    ensures Spi(32) in ints && ints[Spi(32)].owner == Some(0) && !NoEoi(z, lrs, Spi(32))
  {
    z := Sizes(1, 2, 33);
    ints := map k | k in AllKeys(z) ::
      if k == Spi(32) then Int(Some(0), INV, 0, 0, false, true, false, true)
      else Int(if k.Priv? then Some(k.cpu) else None, INV, 0, 0, false, false, false, false);
    lrs := map s | s in AllSlots(z) :: if s == Slot(0, 0) then Lr(32, 0, INV, false, true) else EmptyLr();
    lists := map l | l in AllLists(z) :: [];
    assert KeyOk(z, Spi(32)) && SlotOk(z, Slot(0, 0));
    assert Slot(0, 0) in lrs && EoiPending(lrs[Slot(0, 0)]);
  }

  lemma UpdatedSame(x: Int, x': Int, u: Update)
    requires x'.enabled == x.enabled
    ensures var y, y' := Updated(u, x.(state := x'.state)), Updated(u, x'); y'.state == y.state && y'.enabled == y.enabled
  {
  }
}
