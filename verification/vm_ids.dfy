/**
 * Virtual and physical CPU numbers: src/core/vm.c and src/core/inc/vm.h. A CPU map is the
 * set of its one bits.
 */
module VmIds {
  import opened Counting
  import opened Options

  /** popcount of the bits of `cpus` below `p` */
  function Rank(cpus: set<nat>, p: nat): nat {
    if p == 0 then 0 else Rank(cpus, p - 1) + if p - 1 in cpus then 1 else 0
  }

  function Below(cpus: set<nat>, p: nat): set<nat> {
    set c | c in cpus && c < p
  }

  /** bit_count of a masked map is the number of its one bits. */
  lemma {:induction false} RankCounts(cpus: set<nat>, p: nat)
    ensures Rank(cpus, p) == |Below(cpus, p)|
  {
    if p == 0 {
      assert Below(cpus, 0) == {};
    } else {
      RankCounts(cpus, p - 1);
      if p - 1 in cpus {
        assert Below(cpus, p) == Below(cpus, p - 1) + {p - 1};
      } else {
        assert Below(cpus, p) == Below(cpus, p - 1);
      }
    }
  }

  lemma {:induction false} RankGrows(cpus: set<nat>, p: nat, q: nat)
    requires p <= q
    ensures Rank(cpus, p) <= Rank(cpus, q)
    ensures p in cpus && p < q ==> Rank(cpus, p) < Rank(cpus, q)
    decreases q
  {
    if p < q {
      RankGrows(cpus, p, q - 1);
    }
  }

  lemma RankBound(cpus: set<nat>, p: nat)
    requires p in cpus
    ensures Rank(cpus, p) < |cpus|
  {
    hide Rank;
    RankCounts(cpus, p);
    var others := cpus - {p};
    assert |others| == |cpus| - 1;
    assert Below(cpus, p) <= others;
    SubsetCount(Below(cpus, p), others);
  }

  /** Every number below the population is the rank of some CPU. */
  lemma {:induction false} Select(cpus: set<nat>, v: nat, top: nat) returns (p: nat)
    requires v < Rank(cpus, top)
    ensures p in cpus && p < top && Rank(cpus, p) == v
    decreases top
  {
    if v < Rank(cpus, top - 1) {
      p := Select(cpus, v, top - 1);
    } else {
      p := top - 1;
    }
  }

  lemma SelectAny(cpus: set<nat>, v: nat) returns (p: nat)
    requires v < |cpus|
    ensures p in cpus && Rank(cpus, p) == v
  {
    var top := Max(cpus) + 1;
    RankCounts(cpus, top);
    assert Below(cpus, top) == cpus;
    p := Select(cpus, v, top);
  }

  ghost function Max(s: set<nat>): (m: nat)
    ensures forall c :: c in s ==> c <= m
  {
    if s == {} then 0
    else
      var x :| x in s;
      var m := Max(s - {x});
      assert forall c :: c in s ==> c == x || c in s - {x};
      if x > m then x else m
  }

  class Vm {
    const cpuNum: nat
    var cpus: set<nat>
    /** phys_id of each vCPU */
    const physIds: array<nat>
    /** The CPUs that have run vm_vcpu_init. */
    ghost var ready: set<nat>

    /** What holds while the CPUs of the VM run vm_vcpu_init, in any order. */
    ghost predicate Valid()
      reads this, physIds
    {
      && physIds.Length == cpuNum == |cpus| && ready <= cpus
      && forall c :: c in ready ==> Rank(cpus, c) < cpuNum && physIds[Rank(cpus, c)] == c
    }

    /** Every CPU of the VM has been through vm_vcpu_init. */
    ghost predicate Ready()
      reads this, physIds
    {
      Valid() && ready == cpus
    }

    /** The state after every CPU of the VM has run vm_cpu_init and passed the barrier. */
    constructor (cpus: set<nat>)
      ensures Valid() && this.cpus == cpus && ready == {} && fresh(physIds)
    {
      this.cpus, cpuNum, ready := cpus, |cpus|, {};
      physIds := new nat[|cpus|];
    }

    method VmCalcVcpuId(me: nat) returns (id: nat)
      ensures id == Rank(cpus, me)
    {
      id := 0;
      for i := 0 to me
        invariant id == Rank(cpus, i)
      {
        if i in cpus {
          id := id + 1;
        }
      }
    }

    /** vm_vcpu_init takes the vCPU whose number is the rank of this CPU, which no other has. */
    method VmVcpuInit(me: nat) returns (id: nat)
      requires Valid() && me in cpus
      modifies this`ready, physIds
      ensures Valid() && ready == old(ready) + {me}
      ensures id == Rank(cpus, me) < cpuNum && physIds[..] == old(physIds[..])[id := me]
    {
      id := VmCalcVcpuId(me);
      RankBound(cpus, me);
      forall c | c in ready && c != me ensures Rank(cpus, c) != id {
        RankGrows(cpus, if c < me then c else me, if c < me then me else c);
      }
      physIds[id] := me;
      ready := ready + {me};
    }

    function ToPcpu(v: nat): Option<nat>
      requires physIds.Length == cpuNum
      reads physIds
    {
      if v < cpuNum then Some(physIds[v]) else None
    }

    function ToVcpu(p: nat): Option<nat>
      reads this
    {
      if p in cpus then Some(|Below(cpus, p)|) else None
    }

    /** The loop of vm_calc_vcpu_id and the popcount of vm_translate_to_vcpuid agree. */
    lemma RankAgrees(p: nat)
      requires p in cpus
      ensures ToVcpu(p) == Some(Rank(cpus, p))
    {
      RankCounts(cpus, p);
    }

    /** The translations invert each other on the CPUs of the VM, and fail on all others. */
    lemma IdsInverse(v: nat, p: nat)
      requires Ready()
      ensures ToPcpu(v).Some? <==> v < cpuNum
      ensures ToVcpu(p).Some? <==> p in cpus
      ensures v < cpuNum ==> ToPcpu(v).value in cpus && ToVcpu(ToPcpu(v).value) == Some(v)
      ensures p in cpus ==> ToVcpu(p).value < cpuNum && ToPcpu(ToVcpu(p).value) == Some(p)
    {
      if v < cpuNum {
        var q := SelectAny(cpus, v);
        RankAgrees(q);
      }
      if p in cpus {
        RankAgrees(p);
        RankBound(cpus, p);
      }
    }

    /** The physical CPUs of the vCPUs in a mask of `len` bits. */
    ghost function Image(mask: set<nat>, len: nat): set<nat>
      requires physIds.Length == cpuNum
      reads physIds
    {
      set v | v in mask && v < len && v < cpuNum :: physIds[v]
    }

    ghost function Preimage(mask: set<nat>, len: nat): set<nat>
      reads this
    {
      set p | p in mask && p < len && p in cpus :: |Below(cpus, p)|
    }

    method VmTranslateToPcpuMask(mask: set<nat>, len: nat) returns (pmask: set<nat>)
      requires Valid()
      ensures pmask == Image(mask, len)
    {
      pmask := {};
      for i := 0 to len
        invariant pmask == Image(mask, i)
      {
        if i in mask && ToPcpu(i).Some? {
          pmask := pmask + {ToPcpu(i).value};
        }
      }
    }

    method VmTranslateToVcpuMask(mask: set<nat>, len: nat) returns (vmask: set<nat>)
      ensures vmask == Preimage(mask, len)
    {
      vmask := {};
      for i := 0 to len
        invariant vmask == Preimage(mask, i)
      {
        if i in mask && ToVcpu(i).Some? {
          vmask := vmask + {ToVcpu(i).value};
        }
      }
    }

    /** A mask of the VM's vCPUs survives both translations, and so does one of its CPUs. */
    lemma MasksInverse(vmask: set<nat>, pmask: set<nat>, vlen: nat, plen: nat)
      requires Ready() && cpuNum <= vlen && (forall p :: p in cpus ==> p < plen)
      requires (forall v :: v in vmask ==> v < cpuNum) && pmask <= cpus
      ensures Preimage(Image(vmask, vlen), plen) == vmask
      ensures Image(Preimage(pmask, plen), vlen) == pmask
    {
      forall v: nat | v < cpuNum ensures physIds[v] in cpus && |Below(cpus, physIds[v])| == v {
        IdsInverse(v, 0);
      }
      forall p | p in cpus ensures |Below(cpus, p)| < cpuNum && physIds[|Below(cpus, p)|] == p {
        IdsInverse(0, p);
      }
      var image, preimage := Image(vmask, vlen), Preimage(pmask, plen);
      forall v | v in vmask ensures v in Preimage(image, plen) {
        assert physIds[v] in image;
      }
      forall p | p in pmask ensures p in Image(preimage, vlen) {
        assert |Below(cpus, p)| in preimage;
      }
    }
  }
}
