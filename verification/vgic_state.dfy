/**
 * The state of the virtual GICv3 of one VM (section 6.3 of the Arm GIC Architecture
 * Specification, IHI 0069) as values: interrupts, list registers and spilled lists, with
 * the invariants that tie them together.
 */
module VgicState {
  import opened Options

  const GIC_MAX_SGIS: nat := 16
  const GIC_CPU_PRIV: nat := 32
  const GIC_MAX_VALID_INTERRUPTS: nat := 1020
  const GIC_LOWEST_PRIO: nat := 0xff

  /** An interrupt of the VM: private to one vCPU, or shared. */
  datatype Key = Priv(cpu: nat, id: nat) | Spi(id: nat)

  /** The pending and the active bit. */
  datatype St = St(pend: bool, act: bool)

  const INV: St := St(false, false)

  datatype Int = Int(owner: Option<nat>, state: St, prio: nat, lr: nat, hw: bool, inLr: bool, inSpilled: bool, enabled: bool)

  /** A list register of a vCPU. */
  datatype Slot = Slot(cpu: nat, ind: nat)

  datatype Lr = Lr(vid: nat, prio: nat, state: St, hw: bool, eoi: bool)

  datatype ListId = CpuList(cpu: nat) | VmList

  datatype Sizes = Sizes(cpus: nat, lrs: nat, ints: nat)

  type Ints = map<Key, Int>
  type Lrs = map<Slot, Lr>
  type Lists = map<ListId, seq<Key>>

  function EmptyLr(): Lr {
    Lr(0, 0, INV, false, false)
  }

  predicate KeyOk(z: Sizes, k: Key) {
    match k
    case Priv(c, id) => c < z.cpus && id < GIC_CPU_PRIV
    case Spi(id) => GIC_CPU_PRIV <= id < z.ints
  }

  predicate SlotOk(z: Sizes, s: Slot) {
    s.cpu < z.cpus && s.ind < z.lrs
  }

  predicate ListIdOk(z: Sizes, l: ListId) {
    l.CpuList? ==> l.cpu < z.cpus
  }

  /** vgic_get_int */
  function GetInt(z: Sizes, cpu: nat, id: nat): Option<Key> {
    if id < GIC_CPU_PRIV then Some(Priv(cpu, id)) else if id < z.ints then Some(Spi(id)) else None
  }

  function ListOf(k: Key): ListId {
    if k.Priv? then CpuList(k.cpu) else VmList
  }

  predicate IsHw(k: Key, x: Int) {
    k.id >= GIC_MAX_SGIS && x.hw
  }

  predicate Live(lr: Lr) {
    lr.state != INV
  }

  /** The bit of EISR: the guest has completed the interrupt and a maintenance interrupt is due. */
  predicate EoiPending(lr: Lr) {
    !Live(lr) && !lr.hw && lr.eoi
  }

  /** The bit of ELRSR: usable for another interrupt. */
  predicate Usable(lr: Lr) {
    !Live(lr) && (lr.hw || !lr.eoi)
  }

  function Join(a: St, b: St): St {
    St(a.pend || b.pend, a.act || b.act)
  }

  /** The interrupt says that slot `s` is its own. */
  predicate Back(z: Sizes, ints: Ints, s: Slot, vid: nat) {
    var k := GetInt(z, s.cpu, vid);
    k.Some? && k.value in ints && ints[k.value].inLr && ints[k.value].lr == s.ind && ints[k.value].owner == Some(s.cpu)
  }

  predicate IntOk(k: Key, x: Int) {
    && !(x.inLr && x.inSpilled)
    && (x.inLr ==> x.owner.Some? && !x.state.act)
    && (k.Priv? ==> x.owner == Some(k.cpu))
    && x.prio <= GIC_LOWEST_PRIO
  }

  ghost predicate Domains(z: Sizes, ints: Ints, lrs: Lrs, lists: Lists) {
    && z.ints <= GIC_MAX_VALID_INTERRUPTS
    && (forall k :: k in ints <==> KeyOk(z, k))
    && (forall s :: s in lrs <==> SlotOk(z, s))
    && (forall l :: l in lists <==> ListIdOk(z, l))
  }

  /** Each list holds exactly the spilled interrupts that belong in it, once. */
  ghost predicate ListsOk(ints: Ints, lists: Lists) {
    && (forall k :: k in ints && ints[k].inSpilled ==> ListOf(k) in lists && k in lists[ListOf(k)])
    && (forall l, i :: l in lists && 0 <= i < |lists[l]| ==>
          lists[l][i] in ints && ints[lists[l][i]].inSpilled && ListOf(lists[l][i]) == l)
    && (forall l, i, j :: l in lists && 0 <= i < j < |lists[l]| ==> lists[l][i] != lists[l][j])
  }

  ghost predicate IntsOk(ints: Ints) {
    forall k :: k in ints ==> IntOk(k, ints[k])
  }

  ghost predicate LrsBack(z: Sizes, ints: Ints, lrs: Lrs) {
    forall s :: s in lrs && Live(lrs[s]) ==> Back(z, ints, s, lrs[s].vid)
  }

  /**
   * Only shared software interrupts ask for a maintenance interrupt, and a completed one
   * still has its register when that is taken.
   */
  ghost predicate EoiBack(z: Sizes, ints: Ints, lrs: Lrs) {
    forall s :: s in lrs && lrs[s].eoi ==>
      && GIC_CPU_PRIV <= lrs[s].vid && Spi(lrs[s].vid) in ints && !IsHw(Spi(lrs[s].vid), ints[Spi(lrs[s].vid)])
      && (EoiPending(lrs[s]) ==> Back(z, ints, s, lrs[s].vid))
  }

  /** No completed copy of the interrupt waits for its maintenance interrupt. */
  ghost predicate NoEoi(z: Sizes, lrs: Lrs, k: Key) {
    forall s :: s in lrs && EoiPending(lrs[s]) ==> GetInt(z, s.cpu, lrs[s].vid) != Some(k)
  }

  ghost predicate Core(z: Sizes, ints: Ints, lrs: Lrs, lists: Lists) {
    Domains(z, ints, lrs, lists) && IntsOk(ints) && ListsOk(ints, lists) && LrsBack(z, ints, lrs)
  }

  /** The register that holds the interrupt, which gich_get_lr looks up. */
  predicate Held(ints: Ints, lrs: Lrs, k: Key)
    requires k in ints
  {
    var x := ints[k];
    x.inLr && x.owner.Some? && Slot(x.owner.value, x.lr) in lrs
    && Live(lrs[Slot(x.owner.value, x.lr)]) && lrs[Slot(x.owner.value, x.lr)].vid == k.id
  }

  function HeldIn(ints: Ints, k: Key): Slot
    requires k in ints && ints[k].owner.Some?
  {
    Slot(ints[k].owner.value, ints[k].lr)
  }

  /** The state of an interrupt, wherever its two halves are kept. */
  function Combined(ints: Ints, lrs: Lrs, k: Key): St
    requires k in ints
  {
    if Held(ints, lrs, k) then Join(ints[k].state, lrs[HeldIn(ints, k)].state) else ints[k].state
  }

  /** No list register holds the interrupt. */
  ghost predicate NotHeld(z: Sizes, lrs: Lrs, k: Key) {
    forall s :: s in lrs && Live(lrs[s]) ==> GetInt(z, s.cpu, lrs[s].vid) != Some(k)
  }

  predicate SameAt(ints: Ints, lrs: Lrs, ints': Ints, lrs': Lrs, j: Key)
    requires j in ints && j in ints'
  {
    SameSettings(ints[j], ints'[j]) && (!IsHw(j, ints[j]) ==> Combined(ints', lrs', j) == Combined(ints, lrs, j))
  }

  /** Every interrupt but `k` keeps its settings and, in software, its pending and active state. */
  ghost predicate OthersSame(ints: Ints, lrs: Lrs, ints': Ints, lrs': Lrs, k: Key) {
    ints'.Keys == ints.Keys && forall j :: j in ints && j != k ==> SameAt(ints, lrs, ints', lrs', j)
  }

  ghost predicate Conserved(ints: Ints, lrs: Lrs, ints': Ints, lrs': Lrs) {
    ints'.Keys == ints.Keys && forall j :: j in ints ==> SameAt(ints, lrs, ints', lrs', j)
  }

  predicate SameSettings(x: Int, x': Int) {
    x'.prio == x.prio && x'.hw == x.hw && x'.enabled == x.enabled
  }

  // ----- what follows from the invariants

  lemma KeyOfSlot(z: Sizes, cpu: nat, k: Key)
    requires KeyOk(z, k) && (k.Priv? ==> k.cpu == cpu)
    ensures GetInt(z, cpu, k.id) == Some(k)
  {
  }

  lemma NotHeldIf(z: Sizes, ints: Ints, lrs: Lrs, k: Key)
    requires LrsBack(z, ints, lrs) && k in ints && !Held(ints, lrs, k)
    ensures NotHeld(z, lrs, k)
  {
    forall s | s in lrs && Live(lrs[s]) ensures GetInt(z, s.cpu, lrs[s].vid) != Some(k) {
      assert Back(z, ints, s, lrs[s].vid);
    }
  }

  /** No interrupt is live in two list registers. */
  lemma LiveOnce(z: Sizes, ints: Ints, lrs: Lrs, lists: Lists, s: Slot, t: Slot)
    requires Core(z, ints, lrs, lists) && s in lrs && t in lrs && Live(lrs[s]) && Live(lrs[t])
    requires GetInt(z, s.cpu, lrs[s].vid) == GetInt(z, t.cpu, lrs[t].vid)
    ensures s == t
  {
    assert Back(z, ints, s, lrs[s].vid) && Back(z, ints, t, lrs[t].vid);
  }

  lemma NoEoiIf(z: Sizes, ints: Ints, lrs: Lrs, k: Key)
    requires EoiBack(z, ints, lrs) && k in ints && !ints[k].inLr
    ensures NoEoi(z, lrs, k)
  {
  }

  /** A live register of the interrupt rules out a completed one. */
  lemma NoEoiHeld(z: Sizes, ints: Ints, lrs: Lrs, k: Key)
    requires EoiBack(z, ints, lrs) && k in ints && Held(ints, lrs, k)
    ensures NoEoi(z, lrs, k)
  {
  }

  lemma ConservedMore(ints: Ints, lrs: Lrs, ints1: Ints, lrs1: Lrs, ints2: Ints, lrs2: Lrs)
    requires Conserved(ints, lrs, ints1, lrs1) && Conserved(ints1, lrs1, ints2, lrs2)
    ensures Conserved(ints, lrs, ints2, lrs2)
  {
    hide Combined;
    forall j | j in ints ensures SameAt(ints, lrs, ints2, lrs2, j) {
      assert SameAt(ints, lrs, ints1, lrs1, j) && SameAt(ints1, lrs1, ints2, lrs2, j);
    }
  }

  lemma OthersMore(ints: Ints, lrs: Lrs, ints1: Ints, lrs1: Lrs, ints2: Ints, lrs2: Lrs, k: Key)
    requires OthersSame(ints, lrs, ints1, lrs1, k) && OthersSame(ints1, lrs1, ints2, lrs2, k)
    ensures OthersSame(ints, lrs, ints2, lrs2, k)
  {
    hide Combined;
    forall j | j in ints && j != k ensures SameAt(ints, lrs, ints2, lrs2, j) {
      assert SameAt(ints, lrs, ints1, lrs1, j) && SameAt(ints1, lrs1, ints2, lrs2, j);
    }
  }

  // ----- one change of each kind

  /** An interrupt that no register holds may change, within its own bounds. */
  lemma CoreInt(z: Sizes, ints: Ints, lrs: Lrs, lists: Lists, k: Key, x: Int)
    requires Core(z, ints, lrs, lists) && k in ints && IntOk(k, x) && x.inSpilled == ints[k].inSpilled
    requires NotHeld(z, lrs, k) || (x.inLr == ints[k].inLr && x.lr == ints[k].lr && x.owner == ints[k].owner)
    ensures Core(z, ints[k := x], lrs, lists)
    ensures OthersSame(ints, lrs, ints[k := x], lrs, k)
    ensures EoiBack(z, ints, lrs) && x.hw == ints[k].hw
            && (NoEoi(z, lrs, k) || (x.inLr == ints[k].inLr && x.lr == ints[k].lr && x.owner == ints[k].owner)) ==>
              EoiBack(z, ints[k := x], lrs)
  {
    var ints' := ints[k := x];
    forall s | s in lrs && Live(lrs[s]) ensures Back(z, ints', s, lrs[s].vid) {
      assert Back(z, ints, s, lrs[s].vid);
    }
  }

  lemma CoreClear(z: Sizes, ints: Ints, lrs: Lrs, lists: Lists, s: Slot, lr: Lr)
    requires Core(z, ints, lrs, lists) && s in lrs && (Live(lr) ==> Live(lrs[s]) && lr.vid == lrs[s].vid)
    ensures Core(z, ints, lrs[s := lr], lists)
    ensures EoiBack(z, ints, lrs) && (lr.eoi ==> lrs[s].eoi && lr.vid == lrs[s].vid && (EoiPending(lr) ==> Live(lrs[s]))) ==>
              EoiBack(z, ints, lrs[s := lr])
  {
    var lrs' := lrs[s := lr];
    forall t | t in lrs' && Live(lrs'[t]) ensures Back(z, ints, t, lrs'[t].vid) {
      assert Live(lrs[t]) && Back(z, ints, t, lrs[t].vid);
    }
  }

  lemma CoreWrite(z: Sizes, ints: Ints, lrs: Lrs, lists: Lists, k: Key, x: Int, s: Slot, lr: Lr)
    requires Core(z, ints, lrs, lists) && k in ints && s in lrs && NotHeld(z, lrs, k) && !ints[k].inSpilled
    requires !Live(lrs[s]) && lr.vid == k.id && (k.Priv? ==> k.cpu == s.cpu)
    requires x.inLr && !x.inSpilled && x.lr == s.ind && x.owner == Some(s.cpu) && !x.state.act && x.prio == ints[k].prio
    ensures Core(z, ints[k := x], lrs[s := lr], lists)
    ensures EoiBack(z, ints, lrs) && x.hw == ints[k].hw && NoEoi(z, lrs, k) && (lr.eoi ==> k.Spi? && !IsHw(k, x)) ==>
              EoiBack(z, ints[k := x], lrs[s := lr])
  {
    CoreInt(z, ints, lrs, lists, k, x);
    KeyOfSlot(z, s.cpu, k);
    var ints', lrs' := ints[k := x], lrs[s := lr];
    assert Back(z, ints', s, k.id);
    forall t | t in lrs' && Live(lrs'[t]) ensures Back(z, ints', t, lrs'[t].vid) {
      assert t != s ==> Back(z, ints', t, lrs[t].vid);
    }
  }

  lemma ListsPush(ints: Ints, lists: Lists, k: Key)
    requires ListsOk(ints, lists) && k in ints && !ints[k].inSpilled && ListOf(k) in lists
    ensures ListsOk(ints[k := ints[k].(inSpilled := true)], lists[ListOf(k) := lists[ListOf(k)] + [k]])
  {
    var ints' := ints[k := ints[k].(inSpilled := true)];
    var lists' := lists[ListOf(k) := lists[ListOf(k)] + [k]];
    forall j | j in ints' && ints'[j].inSpilled ensures ListOf(j) in lists' && j in lists'[ListOf(j)] {
      if j == k {
        assert lists'[ListOf(k)][|lists[ListOf(k)]|] == k;
      } else {
        var i :| 0 <= i < |lists[ListOf(j)]| && lists[ListOf(j)][i] == j;
        assert lists'[ListOf(j)][i] == j;
      }
    }
  }

  lemma ListsPull(ints: Ints, lists: Lists, k: Key, i: nat)
    requires ListsOk(ints, lists) && k in ints && ListOf(k) in lists
    requires i < |lists[ListOf(k)]| && lists[ListOf(k)][i] == k
    ensures ListsOk(ints[k := ints[k].(inSpilled := false)],
                    lists[ListOf(k) := lists[ListOf(k)][..i] + lists[ListOf(k)][i + 1..]])
  {
    var l, q := ListOf(k), lists[ListOf(k)];
    var q' := q[..i] + q[i + 1..];
    var ints', lists' := ints[k := ints[k].(inSpilled := false)], lists[l := q'];
    assert forall m :: 0 <= m < |q'| ==> q'[m] == q[if m < i then m else m + 1];
    forall j | j in ints' && ints'[j].inSpilled ensures ListOf(j) in lists' && j in lists'[ListOf(j)] {
      var m :| 0 <= m < |lists[ListOf(j)]| && lists[ListOf(j)][m] == j;
      if ListOf(j) == l {
        assert q'[if m < i then m else m - 1] == j;
      }
    }
  }

  /** Moving an interrupt on or off a spilled list: only ListsOk looks at that. */
  lemma CoreSpilled(z: Sizes, ints: Ints, lrs: Lrs, lists: Lists, k: Key, q: seq<Key>, spilled: bool)
    requires Core(z, ints, lrs, lists) && k in ints && !ints[k].inLr && ListOf(k) in lists
    requires ListsOk(ints[k := ints[k].(inSpilled := spilled)], lists[ListOf(k) := q])
    ensures Core(z, ints[k := ints[k].(inSpilled := spilled)], lrs, lists[ListOf(k) := q])
    ensures Conserved(ints, lrs, ints[k := ints[k].(inSpilled := spilled)], lrs)
    ensures EoiBack(z, ints, lrs) ==> EoiBack(z, ints[k := ints[k].(inSpilled := spilled)], lrs)
  {
    hide ListsOk;
    var ints' := ints[k := ints[k].(inSpilled := spilled)];
    forall s | s in lrs && Live(lrs[s]) ensures Back(z, ints', s, lrs[s].vid) {
      assert Back(z, ints, s, lrs[s].vid);
    }
  }

  lemma CorePush(z: Sizes, ints: Ints, lrs: Lrs, lists: Lists, k: Key)
    requires Core(z, ints, lrs, lists) && k in ints && !ints[k].inLr && !ints[k].inSpilled
    ensures ListOf(k) in lists
    ensures Core(z, ints[k := ints[k].(inSpilled := true)], lrs, lists[ListOf(k) := lists[ListOf(k)] + [k]])
    ensures Conserved(ints, lrs, ints[k := ints[k].(inSpilled := true)], lrs)
    ensures EoiBack(z, ints, lrs) ==> EoiBack(z, ints[k := ints[k].(inSpilled := true)], lrs)
  {
    hide LrsBack, IntsOk, Conserved, EoiBack;
    assert KeyOk(z, k);
    ListsPush(ints, lists, k);
    CoreSpilled(z, ints, lrs, lists, k, lists[ListOf(k)] + [k], true);
  }

  lemma CorePull(z: Sizes, ints: Ints, lrs: Lrs, lists: Lists, k: Key, i: nat)
    requires Core(z, ints, lrs, lists) && k in ints && !ints[k].inLr && ListOf(k) in lists
    requires i < |lists[ListOf(k)]| && lists[ListOf(k)][i] == k
    ensures Core(z, ints[k := ints[k].(inSpilled := false)], lrs,
                 lists[ListOf(k) := lists[ListOf(k)][..i] + lists[ListOf(k)][i + 1..]])
    ensures Conserved(ints, lrs, ints[k := ints[k].(inSpilled := false)], lrs)
    ensures EoiBack(z, ints, lrs) ==> EoiBack(z, ints[k := ints[k].(inSpilled := false)], lrs)
  {
    hide LrsBack, IntsOk, Conserved, EoiBack;
    ListsPull(ints, lists, k, i);
    CoreSpilled(z, ints, lrs, lists, k, lists[ListOf(k)][..i] + lists[ListOf(k)][i + 1..], false);
  }

  /** Writing a register that is free, or holds `k`, for `k` or for nobody, does not touch the others. */
  lemma OthersFrame(z: Sizes, ints: Ints, lrs: Lrs, k: Key, x: Int, s: Slot, lr: Lr)
    requires IntsOk(ints) && (forall j :: j in ints <==> KeyOk(z, j)) && k in ints && s in lrs
    requires !Live(lrs[s]) || GetInt(z, s.cpu, lrs[s].vid) == Some(k)
    requires !Live(lr) || (lr.vid == k.id && (k.Priv? ==> k.cpu == s.cpu))
    ensures OthersSame(ints, lrs, ints[k := x], lrs[s := lr], k)
  {
    forall j | j in ints && j != k ensures SameAt(ints, lrs, ints[k := x], lrs[s := lr], j) {
      assert IntOk(j, ints[j]) && KeyOk(z, j) && KeyOk(z, k);
    }
  }
}
