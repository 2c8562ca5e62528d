/**
 * How CPUs are given to VMs: vmm_assign_vcpu of src/core/vmm.c, in every interleaving of the
 * sections that hold the lock of one VM.
 */
module Vmm {
  import opened Counting
  import opened Options

  /** vmlist of the configuration: the affinity and the number of CPUs of each VM. */
  datatype VmConfig = VmConfig(affinity: set<nat>, cpuNum: nat)

  /** One vm_assign; `lead` is the CPU that was told it is the master. */
  datatype Vm = Vm(master: bool, ncpus: nat, cpus: set<nat>, lead: Option<nat>)

  /** A CPU is at VM `i` of the first or the second loop, at the barrier between them, or through. */
  datatype Pc = First(i: nat) | AtBarrier | Second(i: nat) | Through

  datatype Cpu = Cpu(pc: Pc, vm: Option<nat>, master: bool)

  datatype State = State(cpus: seq<Cpu>, vms: seq<Vm>)

  predicate Init(s: State, config: seq<VmConfig>) {
    && |s.vms| == |config|
    && (forall c :: 0 <= c < |s.cpus| ==> s.cpus[c] == Cpu(First(0), None, false))
    && (forall i :: 0 <= i < |s.vms| ==> s.vms[i] == Vm(false, 0, {}, None))
  }

  predicate Enabled(s: State, c: nat) {
    && c < |s.cpus|
    && match s.cpus[c].pc
       case First(_) => true
       case AtBarrier => forall d :: 0 <= d < |s.cpus| ==> !s.cpus[d].pc.First?
       case Second(_) => true
       case Through => false
  }

  /** CPU `c` joins VM `i`, as its master if it has none. */
  function Join(s: State, c: nat, i: nat): State
    requires c < |s.cpus| && i < |s.vms|
  {
    var v := s.vms[i];
    State(s.cpus[c := s.cpus[c].(vm := Some(i), master := !v.master)],
          s.vms[i := Vm(true, v.ncpus + 1, v.cpus + {c}, if v.master then v.lead else Some(c))])
  }

  function Goto(s: State, c: nat, pc: Pc): State
    requires c < |s.cpus|
  {
    s.(cpus := s.cpus[c := s.cpus[c].(pc := pc)])
  }

  /** The next step of CPU `c`: one round of a loop, or the barrier. */
  function Step(s: State, c: nat, config: seq<VmConfig>): State
    requires Enabled(s, c) && |s.vms| == |config|
  {
    match s.cpus[c].pc
    case First(i) =>
      if i >= |config| || s.cpus[c].vm.Some? then Goto(s, c, AtBarrier)
      else if c in config[i].affinity && (!s.vms[i].master || s.vms[i].ncpus < config[i].cpuNum) then
        Goto(Join(s, c, i), c, First(i + 1))
      else Goto(s, c, First(i + 1))
    case AtBarrier => Goto(s, c, if s.cpus[c].vm.Some? then Through else Second(0))
    case Second(i) =>
      if i >= |config| || s.cpus[c].vm.Some? then Goto(s, c, Through)
      else if s.vms[i].ncpus < config[i].cpuNum then Goto(Join(s, c, i), c, Second(i + 1))
      else Goto(s, c, Second(i + 1))
    case Through => s
  }

  ghost predicate Runs(s: State, steps: seq<nat>, s': State, config: seq<VmConfig>)
    decreases |steps|
  {
    if steps == [] then s' == s
    else |s.vms| == |config| && Enabled(s, steps[0]) && Runs(Step(s, steps[0], config), steps[1..], s', config)
  }

  // ----- what every step keeps

  predicate Full(s: State, config: seq<VmConfig>, i: nat)
    requires i < |s.vms| == |config|
  {
    s.vms[i].ncpus == config[i].cpuNum
  }

  ghost predicate VmOk(s: State, config: seq<VmConfig>, i: nat)
    requires i < |s.vms| == |config|
  {
    var v := s.vms[i];
    && (forall c: nat :: c in v.cpus <==> c < |s.cpus| && s.cpus[c].vm == Some(i))
    && v.ncpus == |v.cpus| <= config[i].cpuNum
    && v.master == (v.ncpus > 0) == v.lead.Some?
    && (v.lead.Some? ==> v.lead.value in v.cpus)
  }

  /** An unassigned CPU has found every VM it passed in the second loop full. */
  ghost predicate CpuOk(s: State, config: seq<VmConfig>, c: nat)
    requires c < |s.cpus| && |s.vms| == |config|
  {
    var p := s.cpus[c];
    && (p.vm.Some? ==> p.vm.value < |s.vms|)
    && p.master == (p.vm.Some? && p.vm.value < |s.vms| && s.vms[p.vm.value].lead == Some(c))
    && (p.vm.None? && p.pc.Second? ==> forall i :: 0 <= i < p.pc.i && i < |s.vms| ==> Full(s, config, i))
    && (p.vm.None? && p.pc.Through? ==> forall i :: 0 <= i < |s.vms| ==> Full(s, config, i))
  }

  ghost predicate Inv(s: State, config: seq<VmConfig>) {
    && |s.vms| == |config|
    && (forall i :: 0 <= i < |s.vms| ==> VmOk(s, config, i))
    && (forall c :: 0 <= c < |s.cpus| ==> CpuOk(s, config, c))
  }

  ghost predicate GoodConfig(config: seq<VmConfig>) {
    forall i :: 0 <= i < |config| ==> config[i].cpuNum >= 1
  }

  lemma JoinKeeps(s: State, config: seq<VmConfig>, c: nat, i: nat, pc: Pc)
    requires Inv(s, config) && c < |s.cpus| && i < |s.vms| && s.cpus[c].vm.None? && s.vms[i].ncpus < config[i].cpuNum
    ensures Inv(Goto(Join(s, c, i), c, pc), config)
  {
    var s' := Goto(Join(s, c, i), c, pc);
    assert VmOk(s, config, i) && CpuOk(s, config, c);
    assert c !in s.vms[i].cpus;
    assert forall k: nat :: k < |s.vms| && Full(s, config, k) ==> Full(s', config, k);
    forall j | 0 <= j < |s'.vms| ensures VmOk(s', config, j) {
      assert VmOk(s, config, j);
    }
    forall d | 0 <= d < |s'.cpus| ensures CpuOk(s', config, d) {
      assert CpuOk(s, config, d);
    }
  }

  lemma GotoKeeps(s: State, config: seq<VmConfig>, c: nat, pc: Pc)
    requires Inv(s, config) && c < |s.cpus|
    requires s.cpus[c].vm.None? && pc.Second? ==> forall i :: 0 <= i < pc.i && i < |s.vms| ==> Full(s, config, i)
    requires s.cpus[c].vm.None? && pc.Through? ==> forall i :: 0 <= i < |s.vms| ==> Full(s, config, i)
    ensures Inv(Goto(s, c, pc), config)
  {
    var s' := Goto(s, c, pc);
    assert forall k: nat :: k < |s.vms| && Full(s, config, k) ==> Full(s', config, k);
    forall j | 0 <= j < |s'.vms| ensures VmOk(s', config, j) {
      assert VmOk(s, config, j);
    }
    forall d | 0 <= d < |s'.cpus| ensures CpuOk(s', config, d) {
      assert CpuOk(s, config, d);
    }
  }

  lemma StepKeeps(s: State, c: nat, config: seq<VmConfig>)
    requires Inv(s, config) && GoodConfig(config) && Enabled(s, c)
    ensures Inv(Step(s, c, config), config)
  {
    hide Inv, Goto, Join;
    var p := s.cpus[c].pc;
    InvAt(s, config, c, if p.First? || p.Second? then p.i else 0);
    if (p.First? || p.Second?) && p.i < |config| && s.cpus[c].vm.None? {
      if s.vms[p.i].ncpus < config[p.i].cpuNum {
        JoinKeeps(s, config, c, p.i, if p.First? then First(p.i + 1) else Second(p.i + 1));
      }
    }
    GotoKeeps(s, config, c, First(if p.First? then p.i + 1 else 0));
    GotoKeeps(s, config, c, AtBarrier);
    if p.Second? && s.cpus[c].vm.None? {
      if p.i < |config| && s.vms[p.i].ncpus == config[p.i].cpuNum {
        GotoKeeps(s, config, c, Second(p.i + 1));
      } else if p.i >= |config| {
        GotoKeeps(s, config, c, Through);
      }
    } else {
      GotoKeeps(s, config, c, if s.cpus[c].vm.Some? then Through else Second(0));
    }
  }

  lemma InvAt(s: State, config: seq<VmConfig>, c: nat, i: nat)
    requires Inv(s, config) && c < |s.cpus|
    ensures |s.vms| == |config| && CpuOk(s, config, c) && (i < |s.vms| ==> VmOk(s, config, i))
  {
  }

  lemma {:induction false} RunKeeps(s: State, steps: seq<nat>, s': State, config: seq<VmConfig>)
    requires Inv(s, config) && GoodConfig(config) && Runs(s, steps, s', config)
    ensures Inv(s', config) && |s'.cpus| == |s.cpus|
    decreases |steps|
  {
    hide Inv, GoodConfig;
    if steps != [] {
      StepKeeps(s, steps[0], config);
      RunKeeps(Step(s, steps[0], config), steps[1..], s', config);
    }
  }

  /**
   * At every moment of every run: no CPU serves two VMs, no VM has more CPUs than configured,
   * its count is right, and a VM with CPUs has exactly one master.
   */
  lemma Assignment(s: State, steps: seq<nat>, s': State, config: seq<VmConfig>, i: nat, j: nat)
    requires Init(s, config) && GoodConfig(config) && Runs(s, steps, s', config)
    requires i < |config| && j < |config|
    ensures |s'.vms| == |config| && (i != j ==> s'.vms[i].cpus !! s'.vms[j].cpus)
    ensures s'.vms[i].ncpus == |s'.vms[i].cpus| <= config[i].cpuNum
    ensures s'.vms[i].cpus != {} ==>
              exists m :: m in s'.vms[i].cpus && m < |s'.cpus| && s'.cpus[m].master
                          && forall c :: c in s'.vms[i].cpus && c < |s'.cpus| && s'.cpus[c].master ==> c == m
  {
    hide Runs, GoodConfig;
    RunKeeps(s, steps, s', config);
    InvAt2(s', config, i, j);
    if s'.vms[i].cpus != {} {
      var m := s'.vms[i].lead.value;
      assert CpuOk(s', config, m);
      forall c | c in s'.vms[i].cpus && s'.cpus[c].master ensures c == m {
        assert CpuOk(s', config, c);
      }
    }
  }

  lemma InvAt2(s: State, config: seq<VmConfig>, i: nat, j: nat)
    requires Inv(s, config) && i < |config| && j < |config|
    ensures |s.vms| == |config| && VmOk(s, config, i) && VmOk(s, config, j)
  {
  }

  // ----- counting

  function Wanted(config: seq<VmConfig>): nat {
    if config == [] then 0 else Wanted(config[..|config| - 1]) + config[|config| - 1].cpuNum
  }

  function Taken(vms: seq<Vm>): nat {
    if vms == [] then 0 else Taken(vms[..|vms| - 1]) + vms[|vms| - 1].ncpus
  }

  function Everyone(vms: seq<Vm>): set<nat> {
    if vms == [] then {} else Everyone(vms[..|vms| - 1]) + vms[|vms| - 1].cpus
  }

  lemma {:induction false} EveryoneCount(vms: seq<Vm>)
    requires forall i :: 0 <= i < |vms| ==> vms[i].ncpus == |vms[i].cpus|
    requires forall i, j :: 0 <= i < j < |vms| ==> vms[i].cpus !! vms[j].cpus
    ensures |Everyone(vms)| == Taken(vms)
    ensures forall c :: c in Everyone(vms) <==> exists i :: 0 <= i < |vms| && c in vms[i].cpus
  {
    if vms != [] {
      var init, last := vms[..|vms| - 1], vms[|vms| - 1];
      EveryoneCount(init);
      assert forall c :: c in Everyone(init) ==> c !in last.cpus;
      assert Everyone(init) !! last.cpus;
      forall c | exists i :: 0 <= i < |vms| && c in vms[i].cpus ensures c in Everyone(vms) {
        var i :| 0 <= i < |vms| && c in vms[i].cpus;
        assert i < |init| ==> init[i] == vms[i];
      }
    }
  }

  lemma {:induction false} TakenLess(vms: seq<Vm>, config: seq<VmConfig>, i: nat)
    requires |vms| == |config| && forall j :: 0 <= j < |vms| ==> vms[j].ncpus <= config[j].cpuNum
    ensures Taken(vms) <= Wanted(config)
    ensures i < |vms| && vms[i].ncpus < config[i].cpuNum ==> Taken(vms) < Wanted(config)
  {
    if vms != [] {
      TakenLess(vms[..|vms| - 1], config[..|config| - 1], i);
    }
  }

  /** Every CPU that is through either serves a VM or has found all of them full. */
  lemma AllServe(s: State, config: seq<VmConfig>, i: nat)
    requires Inv(s, config) && i < |config| && !Full(s, config, i)
    requires forall c :: 0 <= c < |s.cpus| ==> s.cpus[c].pc.Through?
    ensures forall c :: c in UpTo(|s.cpus|) ==> exists j :: 0 <= j < |s.vms| && c in s.vms[j].cpus
  {
    forall c | c in UpTo(|s.cpus|) ensures exists j :: 0 <= j < |s.vms| && c in s.vms[j].cpus {
      assert CpuOk(s, config, c);
      var j := s.cpus[c].vm.value;
      assert VmOk(s, config, j) && c in s.vms[j].cpus;
    }
  }

  lemma VmsDisjoint(s: State, config: seq<VmConfig>)
    requires Inv(s, config)
    ensures forall i :: 0 <= i < |s.vms| ==> s.vms[i].ncpus == |s.vms[i].cpus| && s.vms[i].ncpus <= config[i].cpuNum
    ensures forall i, j :: 0 <= i < j < |s.vms| ==> s.vms[i].cpus !! s.vms[j].cpus
  {
    forall i | 0 <= i < |s.vms|
      ensures s.vms[i].ncpus == |s.vms[i].cpus| && s.vms[i].ncpus <= config[i].cpuNum
    {
      assert VmOk(s, config, i);
    }
    forall i, j | 0 <= i < j < |s.vms| ensures s.vms[i].cpus !! s.vms[j].cpus {
      assert VmOk(s, config, i) && VmOk(s, config, j);
    }
  }

  /** If the VMs want no more CPUs than there are, every VM gets all it wants. */
  lemma FullyPopulated(s: State, steps: seq<nat>, s': State, config: seq<VmConfig>, i: nat)
    requires Init(s, config) && GoodConfig(config) && Runs(s, steps, s', config) && i < |config|
    requires Wanted(config) <= |s.cpus| && forall c :: 0 <= c < |s'.cpus| ==> s'.cpus[c].pc.Through?
    ensures |s'.vms| == |config| && s'.vms[i].ncpus == config[i].cpuNum
  {
    hide Runs, GoodConfig, VmOk, CpuOk, Wanted, Taken, Everyone;
    InitInv(s, config);
    RunKeeps(s, steps, s', config);
    if !Full(s', config, i) {
      VmsDisjoint(s', config);
      EveryoneCount(s'.vms);
      TakenLess(s'.vms, config, i);
      AllServe(s', config, i);
      SubsetCount(UpTo(|s'.cpus|), Everyone(s'.vms));
      assert false;
    }
  }

  lemma InitInv(s: State, config: seq<VmConfig>)
    requires Init(s, config)
    ensures Inv(s, config)
  {
  }

  // ----- affinity

  /** Every VM before `n` that lists CPU `c` is full. */
  ghost predicate Passed(s: State, config: seq<VmConfig>, c: nat, n: nat) {
    && |s.vms| == |config|
    && forall j :: 0 <= j < n && j < |config| && c in config[j].affinity ==> Full(s, config, j)
  }

  /** Every VM before `n` is full. */
  ghost predicate AllFull(s: State, config: seq<VmConfig>, n: nat) {
    |s.vms| == |config| && forall j :: 0 <= j < n && j < |config| ==> Full(s, config, j)
  }

  /** CPU `c` has not seen the end of the barrier. */
  predicate Early(s: State, c: nat)
    requires c < |s.cpus|
  {
    s.cpus[c].pc.First? || s.cpus[c].pc.AtBarrier?
  }

  /**
   * A CPU gets the first VM that lists it and is not full. Only a CPU that finds all VMs full
   * that list it gets another, the first that is not full, and only behind the barrier.
   */
  ghost predicate AffinityOk(s: State, config: seq<VmConfig>, c: nat)
    requires c < |s.cpus|
  {
    var p := s.cpus[c];
    match p.vm
    case None =>
      && Passed(s, config, c, if p.pc.First? then p.pc.i else |config|)
      && (p.pc.Through? ==> AllFull(s, config, |config|))
      && (p.pc.Second? ==> AllFull(s, config, p.pc.i))
    case Some(i) =>
      && i < |config| && Passed(s, config, c, i)
      && (c !in config[i].affinity ==> Passed(s, config, c, |config|) && AllFull(s, config, i) && !Early(s, c))
  }

  ghost predicate AffinityInv(s: State, config: seq<VmConfig>) {
    && |s.vms| == |config|
    && (forall c :: 0 <= c < |s.cpus| ==> AffinityOk(s, config, c))
    && (forall c, d :: 0 <= c < |s.cpus| && 0 <= d < |s.cpus| && s.cpus[c].pc.First? ==> Early(s, d))
  }

  /** A step leaves a full VM full and the other CPUs as they are. */
  lemma StepFrame(s: State, c: nat, config: seq<VmConfig>)
    requires Enabled(s, c) && |s.vms| == |config|
    requires s.cpus[c].vm.None? && s.cpus[c].pc.First? && s.cpus[c].pc.i < |config| ==> VmOk(s, config, s.cpus[c].pc.i)
    requires GoodConfig(config)
    ensures var s' := Step(s, c, config);
            && |s'.vms| == |config| && |s'.cpus| == |s.cpus|
            && (forall d :: 0 <= d < |s.cpus| && d != c ==> s'.cpus[d] == s.cpus[d])
            && (forall j :: 0 <= j < |config| && Full(s, config, j) ==> s'.vms[j] == s.vms[j])
  {
  }

  lemma OthersKeep(s: State, s': State, config: seq<VmConfig>, d: nat)
    requires |s.vms| == |s'.vms| == |config| && d < |s.cpus| == |s'.cpus| && s'.cpus[d] == s.cpus[d]
    requires forall j :: 0 <= j < |config| && Full(s, config, j) ==> s'.vms[j] == s.vms[j]
    requires AffinityOk(s, config, d)
    ensures AffinityOk(s', config, d)
  {
    assert forall j :: 0 <= j < |config| && Full(s, config, j) ==> Full(s', config, j);
  }

  lemma OwnKeeps(s: State, c: nat, config: seq<VmConfig>)
    requires AffinityInv(s, config) && Inv(s, config) && GoodConfig(config) && Enabled(s, c)
    ensures AffinityOk(Step(s, c, config), config, c)
  {
    var s', p := Step(s, c, config), s.cpus[c];
    assert AffinityOk(s, config, c);
    if (p.pc.First? || p.pc.Second?) && p.pc.i < |config| {
      assert VmOk(s, config, p.pc.i);
    }
    StepFrame(s, c, config);
    assert forall j :: 0 <= j < |config| && Full(s, config, j) ==> Full(s', config, j);
  }

  lemma AffinityStep(s: State, c: nat, config: seq<VmConfig>)
    requires AffinityInv(s, config) && Inv(s, config) && GoodConfig(config) && Enabled(s, c)
    ensures AffinityInv(Step(s, c, config), config)
  {
    hide AffinityOk, VmOk, CpuOk, GoodConfig;
    var s', p := Step(s, c, config), s.cpus[c].pc;
    InvAt(s, config, c, if p.First? then p.i else 0);
    StepFrame(s, c, config);
    OwnKeeps(s, c, config);
    forall d | 0 <= d < |s'.cpus| ensures AffinityOk(s', config, d) {
      if d != c {
        OthersKeep(s, s', config, d);
      }
    }
    forall e, d | 0 <= e < |s'.cpus| && 0 <= d < |s'.cpus| && s'.cpus[e].pc.First? ensures Early(s', d) {
      assert s.cpus[e].pc.First? && Early(s, d);
    }
  }

  lemma {:induction false} AffinityRun(s: State, steps: seq<nat>, s': State, config: seq<VmConfig>)
    requires AffinityInv(s, config) && Inv(s, config) && GoodConfig(config) && Runs(s, steps, s', config)
    ensures AffinityInv(s', config)
    decreases |steps|
  {
    hide AffinityInv, Inv, GoodConfig, Step;
    if steps != [] {
      AffinityStep(s, steps[0], config);
      StepKeeps(s, steps[0], config);
      AffinityRun(Step(s, steps[0], config), steps[1..], s', config);
    }
  }

  /** At every moment of every run CPUs are given out by affinity first, and in the order of the VMs. */
  lemma FirstFit(s: State, steps: seq<nat>, s': State, config: seq<VmConfig>, c: nat)
    requires Init(s, config) && GoodConfig(config) && Runs(s, steps, s', config) && c < |s'.cpus|
    ensures |s'.vms| == |config|
    ensures s'.cpus[c].vm.None? && s'.cpus[c].pc.Through? ==> forall j :: 0 <= j < |config| ==> Full(s', config, j)
    ensures s'.cpus[c].vm.Some? ==>
              var i := s'.cpus[c].vm.value;
              && i < |config| && c in s'.vms[i].cpus
              && (forall j :: 0 <= j < i && c in config[j].affinity ==> Full(s', config, j))
              && (c in config[i].affinity
                  || (&& (forall j :: 0 <= j < i ==> Full(s', config, j))
                      && (forall j :: 0 <= j < |config| && c in config[j].affinity ==> Full(s', config, j))
                      && (forall d :: 0 <= d < |s'.cpus| ==> !s'.cpus[d].pc.First?)))
  {
    hide Runs, GoodConfig;
    InitInv(s, config);
    RunKeeps(s, steps, s', config);
    AffinityRun(s, steps, s', config);
    assert AffinityOk(s', config, c) && CpuOk(s', config, c);
    if s'.cpus[c].vm.Some? {
      assert VmOk(s', config, s'.cpus[c].vm.value);
    }
  }

  // ----- a VM with CPUs of its own

  /** No other VM lists a CPU that VM `i` lists. */
  ghost predicate Exclusive(config: seq<VmConfig>, i: nat)
    requires i < |config|
  {
    forall c, j :: c in config[i].affinity && 0 <= j < |config| && c in config[j].affinity ==> j == i
  }

  ghost predicate Served(s: State, config: seq<VmConfig>, i: nat)
    requires i < |s.vms| == |config|
  {
    var a := config[i].affinity;
    && (|a| >= config[i].cpuNum ==> s.vms[i].cpus <= a)
    && (|a| <= config[i].cpuNum ==>
          forall c :: c in a && c < |s.cpus| && (s.cpus[c].pc.First? ==> s.cpus[c].pc.i > i) ==> s.cpus[c].vm == Some(i))
  }

  /** While some CPU is before the barrier, a VM has CPUs of its affinity only. */
  lemma EarlyMembers(s: State, config: seq<VmConfig>, c: nat, i: nat)
    requires AffinityInv(s, config) && Inv(s, config) && c < |s.cpus| && s.cpus[c].pc.First? && i < |config|
    ensures s.vms[i].cpus <= config[i].affinity
  {
    forall d | d in s.vms[i].cpus ensures d in config[i].affinity {
      assert VmOk(s, config, i) && AffinityOk(s, config, d);
    }
  }

  /** A listed CPU that comes to its VM finds room if the VM wants as many as it lists. */
  lemma FindsRoom(s: State, config: seq<VmConfig>, c: nat, i: nat)
    requires AffinityInv(s, config) && Inv(s, config) && c < |s.cpus| && s.cpus[c].pc.First? && s.cpus[c].vm.None?
    requires i < |config| && c in config[i].affinity && |config[i].affinity| <= config[i].cpuNum
    ensures s.vms[i].ncpus < config[i].cpuNum
  {
    EarlyMembers(s, config, c, i);
    assert VmOk(s, config, i);
    SubsetCount(s.vms[i].cpus, config[i].affinity - {c});
  }

  /** Behind the barrier the VM is full if it lists as many CPUs as it wants. */
  lemma FoundFull(s: State, config: seq<VmConfig>, d: nat, i: nat)
    requires AffinityInv(s, config) && Inv(s, config) && d < |s.cpus| && s.cpus[d].pc.Second?
    requires i < |config| && Exclusive(config, i) && |config[i].affinity| >= config[i].cpuNum
    requires config[i].affinity <= UpTo(|s.cpus|)
    ensures Full(s, config, i)
  {
    assert VmOk(s, config, i);
    if !Full(s, config, i) {
      forall c | c in config[i].affinity ensures c in s.vms[i].cpus {
        assert AffinityOk(s, config, c) && !Early(s, d);
        assert s.cpus[c].vm == Some(i);
      }
      SubsetCount(config[i].affinity, s.vms[i].cpus);
    }
  }

  lemma ServedStep(s: State, c: nat, config: seq<VmConfig>, i: nat)
    requires AffinityInv(s, config) && Inv(s, config) && GoodConfig(config) && Enabled(s, c)
    requires i < |config| && Exclusive(config, i) && config[i].affinity <= UpTo(|s.cpus|) && Served(s, config, i)
    ensures Served(Step(s, c, config), config, i)
  {
    hide Full;
    var p := s.cpus[c].pc;
    assert AffinityOk(s, config, c);
    if p.First? && s.cpus[c].vm.None? && c in config[i].affinity && |config[i].affinity| <= config[i].cpuNum {
      FindsRoom(s, config, c, i);
    }
    if p.Second? && |config[i].affinity| >= config[i].cpuNum {
      FoundFull(s, config, c, i);
    }
  }

  lemma {:induction false} ServedRun(s: State, steps: seq<nat>, s': State, config: seq<VmConfig>, i: nat)
    requires AffinityInv(s, config) && Inv(s, config) && GoodConfig(config) && Runs(s, steps, s', config)
    requires i < |config| && Exclusive(config, i) && config[i].affinity <= UpTo(|s.cpus|) && Served(s, config, i)
    ensures |s'.vms| == |config| && Served(s', config, i)
    decreases |steps|
  {
    hide AffinityOk, Inv, GoodConfig, Step, Served, Exclusive;
    if steps != [] {
      ServedStep(s, steps[0], config, i);
      AffinityStep(s, steps[0], config);
      StepKeeps(s, steps[0], config);
      SameSize(s, steps[0], config);
      ServedRun(Step(s, steps[0], config), steps[1..], s', config, i);
    }
  }

  lemma SameSize(s: State, c: nat, config: seq<VmConfig>)
    requires Enabled(s, c) && |s.vms| == |config|
    ensures |Step(s, c, config).cpus| == |s.cpus|
  {
  }

  /**
   * A VM whose CPUs no other VM lists takes no other CPU while it lists as many as it wants,
   * and gets all of them if it wants as many as it lists. If the numbers agree it gets
   * exactly its affinity, in every interleaving.
   */
  lemma AffinityServed(s: State, steps: seq<nat>, s': State, config: seq<VmConfig>, i: nat)
    requires Init(s, config) && GoodConfig(config) && Runs(s, steps, s', config)
    requires i < |config| && Exclusive(config, i) && config[i].affinity <= UpTo(|s.cpus|)
    ensures |s'.vms| == |config|
    ensures |config[i].affinity| >= config[i].cpuNum ==> s'.vms[i].cpus <= config[i].affinity
    ensures |config[i].affinity| <= config[i].cpuNum && (forall c :: 0 <= c < |s'.cpus| ==> s'.cpus[c].pc.Through?) ==>
              config[i].affinity <= s'.vms[i].cpus
  {
    hide Runs, GoodConfig, Exclusive, AffinityInv;
    InitInv(s, config);
    InitAffinity(s, config);
    RunKeeps(s, steps, s', config);
    ServedRun(s, steps, s', config, i);
    assert VmOk(s', config, i);
  }

  lemma InitAffinity(s: State, config: seq<VmConfig>)
    requires Init(s, config)
    ensures AffinityInv(s, config)
  {
  }

  // ----- every run ends, with everyone through

  /** A bound on the steps CPU `p` still takes. */
  function Ahead(p: Pc, n: nat): nat {
    match p
    case First(i) => n + 4 + if i <= n then n - i else 0
    case AtBarrier => n + 3
    case Second(i) => 2 + if i <= n then n - i else 0
    case Through => 0
  }

  function AllAhead(cpus: seq<Cpu>, n: nat): nat {
    if cpus == [] then 0 else AllAhead(cpus[..|cpus| - 1], n) + Ahead(cpus[|cpus| - 1].pc, n)
  }

  lemma {:induction false} AheadUpdate(cpus: seq<Cpu>, c: nat, p: Cpu, n: nat)
    requires c < |cpus|
    ensures AllAhead(cpus[c := p], n) == AllAhead(cpus, n) - Ahead(cpus[c].pc, n) + Ahead(p.pc, n)
  {
    hide Ahead;
    var m := |cpus| - 1;
    if c == m {
      assert cpus[c := p][..m] == cpus[..m];
    } else {
      assert cpus[c := p][..m] == cpus[..m][c := p];
      AheadUpdate(cpus[..m], c, p, n);
    }
  }

  lemma {:induction false} AheadFirst(cpus: seq<Cpu>, n: nat)
    requires forall c :: 0 <= c < |cpus| ==> cpus[c].pc == First(0)
    ensures AllAhead(cpus, n) == |cpus| * (2 * n + 4)
  {
    if cpus != [] {
      AheadFirst(cpus[..|cpus| - 1], n);
      assert |cpus| * (2 * n + 4) == (|cpus| - 1) * (2 * n + 4) + (2 * n + 4);
    }
  }

  lemma AheadStep(s: State, c: nat, config: seq<VmConfig>)
    requires Enabled(s, c) && |s.vms| == |config|
    ensures AllAhead(Step(s, c, config).cpus, |config|) < AllAhead(s.cpus, |config|)
  {
    hide AllAhead;
    var s' := Step(s, c, config);
    assert s'.cpus == s.cpus[c := s'.cpus[c]];
    AheadUpdate(s.cpus, c, s'.cpus[c], |config|);
  }

  lemma {:induction false} AheadRun(s: State, steps: seq<nat>, s': State, config: seq<VmConfig>)
    requires Runs(s, steps, s', config)
    ensures AllAhead(s'.cpus, |config|) + |steps| <= AllAhead(s.cpus, |config|)
    decreases |steps|
  {
    hide AllAhead, Step, Enabled;
    if steps != [] {
      AheadStep(s, steps[0], config);
      AheadRun(Step(s, steps[0], config), steps[1..], s', config);
    }
  }

  /** A run has a bounded number of steps, and until everyone is through some CPU has one to take. */
  lemma EveryRunEnds(s: State, steps: seq<nat>, s': State, config: seq<VmConfig>)
    requires Init(s, config) && Runs(s, steps, s', config)
    ensures |steps| <= |s.cpus| * (2 * |config| + 4)
    ensures (forall c :: 0 <= c < |s'.cpus| ==> s'.cpus[c].pc.Through?) || exists c: nat :: Enabled(s', c)
  {
    hide Runs, AllAhead;
    AheadRun(s, steps, s', config);
    AheadFirst(s.cpus, |config|);
    if c :| 0 <= c < |s'.cpus| && !s'.cpus[c].pc.Through? {
      if d :| 0 <= d < |s'.cpus| && s'.cpus[d].pc.First? {
        assert Enabled(s', d);
      } else {
        assert Enabled(s', c);
      }
    }
  }
}
