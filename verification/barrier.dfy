/**
 * The counting barrier of src/core/inc/cpu.h and the message queues of src/core/cpu.c, as
 * the interleaved steps of the participating CPUs. A step is one lock-protected section or
 * one volatile read; memory is sequentially consistent.
 */
module Barriers {
  import opened Arith
  import opened CircularQueues

  type Msg(==)

  /** ALIGN of util.h */
  function Align(v: nat, unit: nat): nat
    requires unit > 0
  {
    (v + unit - 1) / unit * unit
  }

  /**
   * What the k-th barrier of the program all participants run is for: a cpu_sync_barrier of
   * its own, or the first or the second barrier of a cpu_sync_and_clear_msgs.
   */
  datatype Role = Plain | First | Second

  /** Clearing and Cleared lie between the two barriers of cpu_sync_and_clear_msgs. */
  datatype Pc = Running | Waiting(target: nat) | Clearing | Cleared

  /** Where a CPU is in cpu_msg_handler. */
  datatype Drain = NotDraining | Polling | Handling(msg: Msg)

  datatype Cpu = Cpu(pc: Pc, drain: Drain, entered: nat, left: nat)

  /**
   * The token, the CPUs and their queues. The last three are history: the messages queued
   * for each CPU and handled by it so far, and how many had been queued for each CPU when
   * a CPU entered its k-th barrier, if that was a First.
   */
  datatype State = State(
    ready: bool,
    count: nat,
    cpus: seq<Cpu>,
    queue: seq<seq<Msg>>,
    capacity: nat,
    sent: seq<seq<Msg>>,
    handled: seq<seq<Msg>>,
    entry: map<(nat, nat), seq<nat>>)

  datatype Action =
    | SyncInit
    | Enter(i: nat)
    | Leave(i: nat)
    | StartDrain(i: nat)
    | Pop(i: nat)
    | Finish(i: nat)
    | EndDrain(i: nat)
    | Send(i: nat, target: nat, msg: Msg)

  type Program = nat -> Role

  ghost predicate GoodProgram(role: Program) {
    !role(0).Second? && forall k: nat :: role(k).First? <==> role(k + 1).Second?
  }

  predicate Init(s: State) {
    && |s.cpus| > 0 && !s.ready && s.capacity > 0
    && |s.queue| == |s.sent| == |s.handled| == |s.cpus|
    && (forall i :: 0 <= i < |s.cpus| ==> s.cpus[i] == Cpu(Running, NotDraining, 0, 0))
    && (forall i :: 0 <= i < |s.cpus| ==> s.queue[i] == s.sent[i] == s.handled[i] == [])
    && s.entry == map[]
  }

  function Lengths(sent: seq<seq<Msg>>): seq<nat> {
    seq(|sent|, i requires 0 <= i < |sent| => |sent[i]|)
  }

  /** cpu_msg_handler runs when an interrupt asks for it, and inside cpu_sync_and_clear_msgs. */
  ghost predicate MayDrain(s: State, c: Cpu, role: Program) {
    match c.pc
    case Running => true
    case Waiting(target) => role(c.left).First? && s.count < target
    case Clearing => true
    case Cleared => false
  }

  ghost predicate Enabled(s: State, a: Action, role: Program) {
    match a
    case SyncInit => !s.ready
    case Enter(i) =>
      && i < |s.cpus| && s.ready && s.cpus[i].drain.NotDraining?
      && s.cpus[i].pc == if role(s.cpus[i].entered).Second? then Cleared else Running
    case Leave(i) =>
      && i < |s.cpus| && s.cpus[i].pc.Waiting? && s.cpus[i].drain.NotDraining? && s.count >= s.cpus[i].pc.target
    case StartDrain(i) => i < |s.cpus| && s.cpus[i].drain.NotDraining? && MayDrain(s, s.cpus[i], role)
    case Pop(i) => i < |s.cpus| && s.cpus[i].drain.Polling? && i < |s.queue| && s.queue[i] != []
    case Finish(i) => i < |s.cpus| && s.cpus[i].drain.Handling?
    case EndDrain(i) => i < |s.cpus| && s.cpus[i].drain.Polling? && i < |s.queue| && s.queue[i] == []
    case Send(i, target, msg) =>
      && i < |s.cpus| && target < |s.cpus|
      && (s.cpus[i].drain.Handling? || (s.cpus[i].pc.Running? && s.cpus[i].drain.NotDraining?))
  }

  ghost function Do(s: State, a: Action, role: Program): State
    requires |s.queue| == |s.sent| == |s.handled| == |s.cpus| > 0 && Enabled(s, a, role)
  {
    match a
    case SyncInit => s.(ready := true, count := 0)
    case Enter(i) =>
      var c := s.cpus[i];
      s.(count := s.count + 1,
         cpus := s.cpus[i := c.(pc := Waiting(Align(s.count + 1, |s.cpus|)), entered := c.entered + 1)],
         entry := if role(c.entered).First? then s.entry[(i, c.entered) := Lengths(s.sent)] else s.entry)
    case Leave(i) =>
      var c := s.cpus[i];
      s.(cpus := s.cpus[i := c.(pc := if role(c.left).First? then Clearing else Running, left := c.left + 1)])
    case StartDrain(i) => s.(cpus := s.cpus[i := s.cpus[i].(drain := Polling)])
    case Pop(i) =>
      s.(cpus := s.cpus[i := s.cpus[i].(drain := Handling(s.queue[i][0]))], queue := s.queue[i := s.queue[i][1..]])
    case Finish(i) =>
      s.(cpus := s.cpus[i := s.cpus[i].(drain := Polling)],
         handled := s.handled[i := s.handled[i] + [s.cpus[i].drain.msg]])
    case EndDrain(i) =>
      var c := s.cpus[i];
      s.(cpus := s.cpus[i := c.(drain := NotDraining, pc := if c.pc.Clearing? then Cleared else c.pc)])
    case Send(i, t, msg) =>
      s.(queue := s.queue[t := Pushed(s.queue[t], s.capacity, msg)],
         sent := if |s.queue[t]| < s.capacity then s.sent[t := s.sent[t] + [msg]] else s.sent)
  }

  /** A run of the system from `s` to `s'`. */
  ghost predicate Runs(s: State, acts: seq<Action>, s': State, role: Program)
    decreases |acts|
  {
    if acts == [] then s' == s
    else
      && |s.queue| == |s.sent| == |s.handled| == |s.cpus| > 0 && Enabled(s, acts[0], role)
      && Runs(Do(s, acts[0], role), acts[1..], s', role)
  }

  // ----- counting

  function Sum(cpus: seq<Cpu>): nat {
    if cpus == [] then 0 else Sum(cpus[..|cpus| - 1]) + cpus[|cpus| - 1].entered
  }

  lemma {:induction false} SumUpdate(cpus: seq<Cpu>, i: nat, c: Cpu)
    requires i < |cpus|
    ensures Sum(cpus[i := c]) == Sum(cpus) - cpus[i].entered + c.entered
  {
    var m := |cpus| - 1;
    if i == m {
      assert cpus[i := c][..m] == cpus[..m];
    } else {
      assert cpus[i := c][..m] == cpus[..m][i := c];
      SumUpdate(cpus[..m], i, c);
    }
  }

  lemma {:induction false} SumAtMost(cpus: seq<Cpu>, k: nat)
    requires forall i :: 0 <= i < |cpus| ==> cpus[i].entered <= k
    ensures Sum(cpus) <= |cpus| * k
    ensures Sum(cpus) == |cpus| * k ==> forall i :: 0 <= i < |cpus| ==> cpus[i].entered == k
  {
    if cpus != [] {
      SumAtMost(cpus[..|cpus| - 1], k);
      assert |cpus| * k == (|cpus| - 1) * k + k;
    }
  }

  lemma {:induction false} SumAtLeast(cpus: seq<Cpu>, k: nat)
    requires forall i :: 0 <= i < |cpus| ==> cpus[i].entered >= k
    ensures Sum(cpus) >= |cpus| * k
  {
    if cpus != [] {
      SumAtLeast(cpus[..|cpus| - 1], k);
      assert |cpus| * k == (|cpus| - 1) * k + k;
    }
  }

  lemma {:induction false} SumZero(cpus: seq<Cpu>)
    requires forall i :: 0 <= i < |cpus| ==> cpus[i].entered == 0
    ensures Sum(cpus) == 0
  {
    if cpus != [] {
      SumZero(cpus[..|cpus| - 1]);
    }
  }

  /** The count of a barrier that all have reached once more than `k` times, at most, rounds up to it. */
  lemma AlignRound(v: nat, n: nat, k: nat)
    requires n > 0 && n * k < v <= n * (k + 1)
    ensures Align(v, n) == n * (k + 1)
  {
    DivModUnique(v + n - 1, n, k + 1, v + n - 1 - n * (k + 1));
  }

  // ----- what every step keeps

  ghost predicate Sized(s: State) {
    |s.queue| == |s.sent| == |s.handled| == |s.cpus| > 0
  }

  /** The target of a waiting CPU is the count at which everyone has reached its barrier. */
  ghost predicate PcOk(c: Cpu, n: nat, role: Program) {
    match c.pc
    case Running => c.entered == c.left && !role(c.left).Second?
    case Waiting(target) =>
      c.entered == c.left + 1 && target == n * c.entered && (role(c.left).First? || c.drain.NotDraining?)
    case Clearing => c.entered == c.left && role(c.left).Second?
    case Cleared => c.entered == c.left && role(c.left).Second? && c.drain.NotDraining?
  }

  /** No CPU has left a barrier that another has not entered. */
  ghost predicate Safe(s: State) {
    forall i, j :: 0 <= i < |s.cpus| && 0 <= j < |s.cpus| ==> s.cpus[i].left <= s.cpus[j].entered
  }

  ghost predicate BarrierInv(s: State, role: Program) {
    && Sized(s) && Safe(s)
    && (if s.ready then s.count == Sum(s.cpus) else forall i :: 0 <= i < |s.cpus| ==> s.cpus[i].entered == 0)
    && (forall i :: 0 <= i < |s.cpus| ==> PcOk(s.cpus[i], |s.cpus|, role))
  }

  function Current(c: Cpu): seq<Msg> {
    if c.drain.Handling? then [c.drain.msg] else []
  }

  /** The messages queued for a CPU are those handled, the one in hand, and those waiting, in order. */
  ghost predicate FifoAt(s: State, t: nat)
    requires Sized(s) && t < |s.cpus|
  {
    s.sent[t] == s.handled[t] + Current(s.cpus[t]) + s.queue[t] && |s.queue[t]| <= s.capacity
  }

  ghost predicate Fifo(s: State) {
    Sized(s) && forall t :: 0 <= t < |s.cpus| ==> FifoAt(s, t)
  }

  /** CPU `t` has finished the drain of the cpu_sync_and_clear_msgs that begins with barrier `k`. */
  ghost predicate Drained(c: Cpu, k: nat) {
    c.entered > k + 1 || (c.pc.Cleared? && c.left == k + 1)
  }

  ghost predicate EntryOk(s: State, j: nat, k: nat, role: Program)
    requires Sized(s) && (j, k) in s.entry
  {
    && j < |s.cpus| && k < s.cpus[j].entered && role(k).First? && |s.entry[(j, k)]| == |s.cpus|
    && (forall t :: 0 <= t < |s.cpus| ==> s.entry[(j, k)][t] <= |s.sent[t]|)
    && (forall t :: 0 <= t < |s.cpus| && Drained(s.cpus[t], k) ==> s.entry[(j, k)][t] <= |s.handled[t]|)
  }

  ghost predicate EntryInv(s: State, role: Program) {
    && Sized(s)
    && (forall j: nat, k: nat :: j < |s.cpus| && k < s.cpus[j].entered && role(k).First? ==> (j, k) in s.entry)
    && (forall j: nat, k: nat :: (j, k) in s.entry ==> EntryOk(s, j, k, role))
  }

  lemma EnterTarget(s: State, i: nat, role: Program)
    requires BarrierInv(s, role) && s.ready && i < |s.cpus| && !s.cpus[i].pc.Waiting?
    ensures Align(s.count + 1, |s.cpus|) == |s.cpus| * (s.cpus[i].entered + 1)
  {
    hide Align;
    var e, c := s.cpus[i].entered, s.cpus[i];
    forall j | 0 <= j < |s.cpus| ensures e <= s.cpus[j].entered <= e + 1 {
      assert PcOk(s.cpus[i], |s.cpus|, role) && PcOk(s.cpus[j], |s.cpus|, role);
      assert s.cpus[i].left <= s.cpus[j].entered && s.cpus[j].left <= s.cpus[i].entered;
    }
    var cpus := s.cpus[i := c.(entered := e + 1)];
    SumUpdate(s.cpus, i, c.(entered := e + 1));
    SumAtMost(cpus, e + 1);
    SumAtLeast(s.cpus, e);
    AlignRound(s.count + 1, |s.cpus|, e);
  }

  /** A CPU may leave only once every CPU has entered. */
  lemma LeaveReached(s: State, i: nat, role: Program)
    requires BarrierInv(s, role) && s.ready && i < |s.cpus| && s.cpus[i].pc.Waiting? && s.count >= s.cpus[i].pc.target
    ensures forall j :: 0 <= j < |s.cpus| ==> s.cpus[i].left < s.cpus[j].entered
  {
    var k := s.cpus[i].entered;
    assert PcOk(s.cpus[i], |s.cpus|, role);
    if j :| 0 <= j < |s.cpus| && s.cpus[j].left >= k {
      assert forall l :: 0 <= l < |s.cpus| ==> s.cpus[j].left <= s.cpus[l].entered;
    } else {
      forall j | 0 <= j < |s.cpus| ensures s.cpus[j].entered <= k {
        assert PcOk(s.cpus[j], |s.cpus|, role);
      }
      SumAtMost(s.cpus, k);
    }
  }

  /** A step that changes CPU `i` to `c` keeps the invariant if the counters still fit. */
  lemma CpuStep(s: State, s': State, i: nat, c: Cpu, role: Program)
    requires BarrierInv(s, role) && i < |s.cpus| && Sized(s') && s'.cpus == s.cpus[i := c] && s'.ready == s.ready
    requires PcOk(c, |s.cpus|, role) && s.cpus[i].left <= c.left && s.cpus[i].entered <= c.entered
    requires forall j :: 0 <= j < |s.cpus| ==> c.left <= s'.cpus[j].entered
    requires s'.count == s.count + c.entered - s.cpus[i].entered && (c.entered == s.cpus[i].entered || s.ready)
    ensures BarrierInv(s', role)
  {
    hide PcOk;
    SumUpdate(s.cpus, i, c);
  }

  lemma EnterStep(s: State, i: nat, role: Program)
    requires Sized(s) && BarrierInv(s, role) && Enabled(s, Enter(i), role) && GoodProgram(role)
    ensures BarrierInv(Do(s, Enter(i), role), role)
  {
    hide Align, Sum, BarrierInv;
    CpuOk(s, i, role);
    EnterTarget(s, i, role);
    CpuStep(s, Do(s, Enter(i), role), i, Do(s, Enter(i), role).cpus[i], role);
  }

  lemma LeaveStep(s: State, i: nat, role: Program)
    requires Sized(s) && BarrierInv(s, role) && Enabled(s, Leave(i), role) && GoodProgram(role)
    ensures BarrierInv(Do(s, Leave(i), role), role)
  {
    hide Align, Sum, BarrierInv;
    CpuOk(s, i, role);
    LeaveReached(s, i, role);
    CpuStep(s, Do(s, Leave(i), role), i, Do(s, Leave(i), role).cpus[i], role);
  }

  lemma BarrierStep(s: State, a: Action, role: Program)
    requires Sized(s) && BarrierInv(s, role) && Enabled(s, a, role) && GoodProgram(role)
    ensures BarrierInv(Do(s, a, role), role)
  {
    hide Align, Sum, BarrierInv;
    var s' := Do(s, a, role);
    match a
    case SyncInit => InitStep(s, role);
    case Enter(i) => EnterStep(s, i, role);
    case Leave(i) => LeaveStep(s, i, role);
    case Send(i, t, msg) =>
      CpuOk(s, i, role);
      CpuStep(s, s', i, s.cpus[i], role);
    case _ =>
      CpuOk(s, a.i, role);
      CpuStep(s, s', a.i, s'.cpus[a.i], role);
  }

  lemma CpuOk(s: State, i: nat, role: Program)
    requires BarrierInv(s, role) && i < |s.cpus|
    ensures Sized(s) && PcOk(s.cpus[i], |s.cpus|, role) && (s.cpus[i].pc.Waiting? ==> s.ready)
    ensures forall j :: 0 <= j < |s.cpus| ==> s.cpus[i].left <= s.cpus[j].entered
  {
  }

  lemma InitStep(s: State, role: Program)
    requires BarrierInv(s, role) && !s.ready
    ensures BarrierInv(Do(s, SyncInit, role), role)
  {
    SumZero(s.cpus);
  }

  lemma FifoAtStep(s: State, a: Action, role: Program, t: nat)
    requires Sized(s) && t < |s.cpus| && FifoAt(s, t) && Enabled(s, a, role)
    ensures FifoAt(Do(s, a, role), t)
  {
    hide Align, MayDrain, Lengths;
    if a == Pop(t) {
      assert s.queue[t] == [s.queue[t][0]] + s.queue[t][1..];
    }
  }

  lemma FifoStep(s: State, a: Action, role: Program)
    requires Sized(s) && Fifo(s) && Enabled(s, a, role)
    ensures Fifo(Do(s, a, role))
  {
    hide FifoAt, Align;
    forall t | 0 <= t < |s.cpus| ensures FifoAt(Do(s, a, role), t) {
      FifoAtStep(s, a, role, t);
    }
  }

  /** When CPU `i` enters a First, no CPU has drained for it yet. */
  lemma NoneDrained(s: State, i: nat, role: Program, t: nat)
    requires Sized(s) && BarrierInv(s, role) && Enabled(s, Enter(i), role) && t < |s.cpus|
    requires role(s.cpus[i].entered).First?
    ensures !Drained(Do(s, Enter(i), role).cpus[t], s.cpus[i].entered)
  {
    hide Align, Sum;
    CpuOk(s, t, role);
    CpuOk(s, i, role);
  }

  lemma EntryStep(s: State, a: Action, role: Program)
    requires Sized(s) && BarrierInv(s, role) && Fifo(s) && EntryInv(s, role) && Enabled(s, a, role) && GoodProgram(role)
    ensures EntryInv(Do(s, a, role), role)
  {
    hide Align, Sum, BarrierInv, Fifo, GoodProgram, Drained;
    var s' := Do(s, a, role);
    forall j: nat, k: nat | (j, k) in s'.entry ensures EntryOk(s', j, k, role) {
      if (j, k) in s.entry && !(a.Enter? && (j, k) == (a.i, s.cpus[a.i].entered)) {
        assert EntryOk(s, j, k, role);
        forall t | 0 <= t < |s.cpus| && Drained(s'.cpus[t], k) ensures s.entry[(j, k)][t] <= |s'.handled[t]| {
          DrainedStep(s, a, role, j, k, t);
        }
      } else {
        forall t | 0 <= t < |s.cpus| ensures !Drained(s'.cpus[t], k) {
          NoneDrained(s, a.i, role, t);
        }
      }
    }
  }

  lemma DrainedStep(s: State, a: Action, role: Program, j: nat, k: nat, t: nat)
    requires Sized(s) && BarrierInv(s, role) && Fifo(s) && EntryInv(s, role) && Enabled(s, a, role) && GoodProgram(role)
    requires (j, k) in s.entry && t < |s.cpus| && Drained(Do(s, a, role).cpus[t], k)
    ensures s.entry[(j, k)][t] <= |Do(s, a, role).handled[t]|
  {
    hide Align, Sum;
    assert EntryOk(s, j, k, role) && PcOk(s.cpus[t], |s.cpus|, role);
    if !Drained(s.cpus[t], k) && a.EndDrain? && a.i == t {
      assert FifoAt(s, t);
    }
  }

  // ----- whole runs

  ghost predicate Inv(s: State, role: Program) {
    BarrierInv(s, role) && Fifo(s) && EntryInv(s, role)
  }

  lemma InvInit(s: State, role: Program)
    requires Init(s) && GoodProgram(role)
    ensures Inv(s, role)
  {
  }

  lemma {:induction false} InvRun(s: State, acts: seq<Action>, s': State, role: Program)
    requires Inv(s, role) && GoodProgram(role) && Runs(s, acts, s', role)
    ensures Inv(s', role) && |s'.cpus| == |s.cpus|
    decreases |acts|
  {
    hide BarrierInv, Fifo, EntryInv, GoodProgram, Enabled, Do;
    if acts != [] {
      BarrierStep(s, acts[0], role);
      FifoStep(s, acts[0], role);
      EntryStep(s, acts[0], role);
      SameCpus(s, acts[0], role);
      InvRun(Do(s, acts[0], role), acts[1..], s', role);
    }
  }

  lemma SameCpus(s: State, a: Action, role: Program)
    requires Sized(s) && Enabled(s, a, role)
    ensures |Do(s, a, role).cpus| == |s.cpus|
  {
    hide Align;
  }

  /** No CPU leaves its k-th barrier before every participant has entered its own k-th. */
  lemma BarrierSafety(s: State, acts: seq<Action>, s': State, role: Program, k: nat, i: nat, j: nat)
    requires Init(s) && GoodProgram(role) && Runs(s, acts, s', role)
    requires i < |s'.cpus| && j < |s'.cpus| && s'.cpus[i].left >= k
    ensures s'.cpus[j].entered >= k
  {
    InvInit(s, role);
    InvRun(s, acts, s', role);
  }

  /** A waiting CPU that is not handling messages may leave exactly when everyone has entered its barrier. */
  lemma LeaveExactly(s: State, i: nat, role: Program)
    requires BarrierInv(s, role) && s.ready && i < |s.cpus| && s.cpus[i].pc.Waiting?
    ensures s.count >= s.cpus[i].pc.target <==> forall j :: 0 <= j < |s.cpus| ==> s.cpus[i].entered <= s.cpus[j].entered
    ensures Enabled(s, Leave(i), role) <==>
              s.cpus[i].drain.NotDraining? && forall j :: 0 <= j < |s.cpus| ==> s.cpus[i].entered <= s.cpus[j].entered
  {
    assert PcOk(s.cpus[i], |s.cpus|, role);
    if s.count >= s.cpus[i].pc.target {
      LeaveReached(s, i, role);
    } else if forall j :: 0 <= j < |s.cpus| ==> s.cpus[i].entered <= s.cpus[j].entered {
      SumAtLeast(s.cpus, s.cpus[i].entered);
    }
  }

  lemma {:induction false} RunsJoin(s: State, a: seq<Action>, m: State, b: seq<Action>, s': State, role: Program)
    requires Runs(s, a, m, role) && Runs(m, b, s', role)
    ensures Runs(s, a + b, s', role)
    decreases |a|
  {
    hide Enabled, Do;
    if a == [] {
      assert a + b == b;
    } else {
      RunsJoin(Do(s, a[0], role), a[1..], m, b, s', role);
      assert (a + b)[0] == a[0] && (a + b)[1..] == a[1..] + b;
    }
  }

  lemma {:induction false} RunsSplit(s: State, a: seq<Action>, b: seq<Action>, s': State, role: Program) returns (m: State)
    requires Runs(s, a + b, s', role)
    ensures Runs(s, a, m, role) && Runs(m, b, s', role)
    decreases |a|
  {
    hide Enabled, Do;
    if a == [] {
      assert a + b == b;
      m := s;
    } else {
      assert (a + b)[0] == a[0] && (a + b)[1..] == a[1..] + b;
      m := RunsSplit(Do(s, a[0], role), a[1..], b, s', role);
    }
  }

  // ----- the messages of a run, read off its actions

  /** A bounded queue of CPU `t` after an action. */
  function After(q: seq<Msg>, a: Action, capacity: nat, t: nat): seq<Msg> {
    match a
    case Send(_, target, msg) => if target == t && |q| < capacity then q + [msg] else q
    case Pop(i) => if i == t && q != [] then q[1..] else q
    case _ => q
  }

  /** What waits for `t` after `acts`, if `q` waited before. */
  function Backlog(q: seq<Msg>, acts: seq<Action>, capacity: nat, t: nat): seq<Msg>
    decreases |acts|
  {
    if acts == [] then q else Backlog(After(q, acts[0], capacity, t), acts[1..], capacity, t)
  }

  /** The messages sent to `t` by `acts` that find room, in order. */
  function Accepted(q: seq<Msg>, acts: seq<Action>, capacity: nat, t: nat): seq<Msg>
    decreases |acts|
  {
    if acts == [] then []
    else
      (if acts[0].Send? && acts[0].target == t && |q| < capacity then [acts[0].msg] else [])
      + Accepted(After(q, acts[0], capacity, t), acts[1..], capacity, t)
  }

  lemma AcceptedNone(q: seq<Msg>, capacity: nat, t: nat)
    ensures Accepted(q, [], capacity, t) == [] && Backlog(q, [], capacity, t) == q
  {
  }

  lemma AcceptedFirst(q: seq<Msg>, a: Action, rest: seq<Action>, capacity: nat, t: nat)
    ensures Accepted(q, [a] + rest, capacity, t)
         == Accepted(q, [a], capacity, t) + Accepted(After(q, a, capacity, t), rest, capacity, t)
    ensures Backlog(q, [a] + rest, capacity, t) == Backlog(After(q, a, capacity, t), rest, capacity, t)
  {
    hide After;
    var acts := [a] + rest;
    assert acts[0] == a && acts[1..] == rest && [a][1..] == [];
  }

  lemma {:induction false} AcceptedJoin(q: seq<Msg>, a: seq<Action>, b: seq<Action>, capacity: nat, t: nat)
    ensures Accepted(q, a + b, capacity, t)
         == Accepted(q, a, capacity, t) + Accepted(Backlog(q, a, capacity, t), b, capacity, t)
    decreases |a|
  {
    hide After;
    if a == [] {
      assert a + b == b;
    } else {
      var q' := After(q, a[0], capacity, t);
      AcceptedJoin(q', a[1..], b, capacity, t);
      AcceptedFirst(q, a[0], a[1..] + b, capacity, t);
      AcceptedFirst(q, a[0], a[1..], capacity, t);
      assert [a[0]] + a[1..] == a && [a[0]] + (a[1..] + b) == a + b;
    }
  }

  /** What one action does to the counters and the messages of CPU `t`. */
  lemma TrafficStep(s: State, a: Action, role: Program, t: nat)
    requires Sized(s) && t < |s.cpus| && Enabled(s, a, role)
    ensures var s', c, n := Do(s, a, role), s.capacity, (x: Action) => if a == x then 1 else 0;
            && Sized(s') && |s'.cpus| == |s.cpus| && s'.capacity == c
            && s'.queue[t] == After(s.queue[t], a, c, t)
            && s'.sent[t] == s.sent[t] + Accepted(s.queue[t], [a], c, t)
            && |s'.handled[t]| == |s.handled[t]| + n(Finish(t))
            && s'.cpus[t].entered == s.cpus[t].entered + n(Enter(t))
            && s'.cpus[t].left == s.cpus[t].left + n(Leave(t))
  {
    hide Align, MayDrain, Lengths;
    assert Accepted(s.queue[t], [a], s.capacity, t) ==
      (if a.Send? && a.target == t && |s.queue[t]| < s.capacity then [a.msg] else []);
  }

  /** The queue, the counters and the messages taken in are what the actions of the run say. */
  lemma {:induction false} Traffic(s: State, acts: seq<Action>, s': State, role: Program, t: nat)
    requires Sized(s) && t < |s.cpus| && Runs(s, acts, s', role)
    ensures Sized(s') && |s'.cpus| == |s.cpus| && s'.capacity == s.capacity
    ensures s'.queue[t] == Backlog(s.queue[t], acts, s.capacity, t)
    ensures s'.sent[t] == s.sent[t] + Accepted(s.queue[t], acts, s.capacity, t)
    ensures |s'.handled[t]| == |s.handled[t]| + multiset(acts)[Finish(t)]
    ensures s'.cpus[t].entered == s.cpus[t].entered + multiset(acts)[Enter(t)]
    ensures s'.cpus[t].left == s.cpus[t].left + multiset(acts)[Leave(t)]
    decreases |acts|
  {
    hide Enabled, Do, After, Accepted, Backlog;
    if acts == [] {
      AcceptedNone(s.queue[t], s.capacity, t);
    } else {
      var m := Do(s, acts[0], role);
      TrafficStep(s, acts[0], role, t);
      Traffic(m, acts[1..], s', role, t);
      assert acts == [acts[0]] + acts[1..];
      AcceptedFirst(s.queue[t], acts[0], acts[1..], s.capacity, t);
    }
  }

  /** CPU `t` handles the messages that found room in its queue, each once and in the order they were sent. */
  lemma HandledInOrder(s: State, acts: seq<Action>, s': State, role: Program, t: nat)
    requires Init(s) && GoodProgram(role) && Runs(s, acts, s', role) && t < |s.cpus|
    ensures |s'.handled| == |s.cpus| && multiset(acts)[Finish(t)] <= |Accepted([], acts, s.capacity, t)|
    ensures s'.handled[t] == Accepted([], acts, s.capacity, t)[..multiset(acts)[Finish(t)]]
  {
    hide Runs, GoodProgram, BarrierInv, EntryInv;
    InvInit(s, role);
    InvRun(s, acts, s', role);
    Traffic(s, acts, s', role, t);
    assert FifoAt(s', t);
    assert s.sent[t] + Accepted([], acts, s.capacity, t) == Accepted([], acts, s.capacity, t);
  }

  /** Messages queued before CPU `j` enters barrier `k` are among those its entry counts. */
  ghost predicate CountedFor(s: State, j: nat, k: nat, t: nat, n: nat) {
    && t < |s.sent| && n <= |s.sent[t]|
    && ((j, k) in s.entry ==> t < |s.entry[(j, k)]| && n <= s.entry[(j, k)][t])
  }

  lemma {:induction false} CountedRun(s: State, acts: seq<Action>, s': State, role: Program, j: nat, k: nat, t: nat, n: nat)
    requires Sized(s) && Runs(s, acts, s', role) && CountedFor(s, j, k, t, n)
    ensures CountedFor(s', j, k, t, n)
    decreases |acts|
  {
    if acts != [] {
      CountedStep(s, acts[0], role, j, k, t, n);
      TrafficStep(s, acts[0], role, t);
      CountedRun(Do(s, acts[0], role), acts[1..], s', role, j, k, t, n);
    }
  }

  lemma CountedStep(s: State, a: Action, role: Program, j: nat, k: nat, t: nat, n: nat)
    requires Sized(s) && Enabled(s, a, role) && CountedFor(s, j, k, t, n)
    ensures CountedFor(Do(s, a, role), j, k, t, n)
  {
    hide Align, MayDrain;
  }

  /**
   * A message that finds room in the queue of `t` before its sender `j` enters the
   * cpu_sync_and_clear_msgs that begins with barrier `k` has been handled by `t` when any
   * CPU has left that call, in its place among the messages sent to `t`.
   */
  lemma MessagesCleared(s: State, pre: seq<Action>, j: nat, t: nat, msg: Msg, post: seq<Action>, s': State,
                        role: Program, k: nat, x: nat)
    requires Init(s) && GoodProgram(role) && role(k).First?
    requires Runs(s, pre + [Send(j, t, msg)] + post, s', role)
    requires |Backlog([], pre, s.capacity, t)| < s.capacity
    requires multiset(pre)[Enter(j)] <= k && multiset(pre + [Send(j, t, msg)] + post)[Leave(x)] >= k + 2
    ensures var place := |Accepted([], pre, s.capacity, t)|;
            && place < multiset(pre + [Send(j, t, msg)] + post)[Finish(t)]
            && t < |s'.handled| && place < |s'.handled[t]| && s'.handled[t][place] == msg
  {
    hide Runs, GoodProgram, BarrierInv, Fifo, EntryInv, Enabled;
    var send, place := [Send(j, t, msg)], |Accepted([], pre, s.capacity, t)|;
    InvInit(s, role);
    var m := RunsSplit(s, pre + send, post, s', role);
    SendHappens(s, pre, j, t, msg, m, role, k);
    AcceptedJoin([], pre + send, post, s.capacity, t);
    AcceptedJoin([], pre, send, s.capacity, t);
    HandledInOrder(s, pre + send + post, s', role, t);
    LeavesOwn(s, pre + send + post, s', role, x);
    CountedRun(m, post, s', role, j, k, t, place + 1);
    CallCleared(s, pre + send + post, s', role, k, x, j, t);
    Traffic(s, pre + send + post, s', role, t);
  }

  /** The state after a message has found room, before its sender enters barrier `k`. */
  lemma SendHappens(s: State, pre: seq<Action>, j: nat, t: nat, msg: Msg, m: State, role: Program, k: nat)
    requires Init(s) && GoodProgram(role) && Runs(s, pre + [Send(j, t, msg)], m, role)
    requires |Backlog([], pre, s.capacity, t)| < s.capacity && multiset(pre)[Enter(j)] <= k
    ensures Sized(m) && j < |s.cpus| && t < |s.cpus| && CountedFor(m, j, k, t, |Accepted([], pre, s.capacity, t)| + 1)
  {
    hide GoodProgram, BarrierInv, Fifo, EntryInv, Accepted, Backlog, Enabled, Do, CountedFor;
    var send := Send(j, t, msg);
    var before := RunsSplit(s, pre, [send], m, role);
    LastStep(before, send, m, role);
    SendInRange(before, j, t, msg, role);
    InvInit(s, role);
    InvRun(s, pre, before, role);
    Traffic(s, pre, before, role, t);
    Traffic(s, pre, before, role, j);
    assert s.sent[t] + Accepted([], pre, s.capacity, t) == Accepted([], pre, s.capacity, t);
    SendCounted(before, j, t, msg, role, k);
    TrafficStep(before, send, role, t);
  }

  lemma LastStep(s: State, a: Action, s': State, role: Program)
    requires Runs(s, [a], s', role)
    ensures Sized(s) && Enabled(s, a, role) && s' == Do(s, a, role)
  {
    hide Enabled, Do;
    assert [a][1..] == [];
  }

  lemma SendInRange(s: State, j: nat, t: nat, msg: Msg, role: Program)
    requires Enabled(s, Send(j, t, msg), role)
    ensures j < |s.cpus| && t < |s.cpus|
  {
  }

  lemma SendCounted(s: State, j: nat, t: nat, msg: Msg, role: Program, k: nat)
    requires Sized(s) && EntryInv(s, role) && Enabled(s, Send(j, t, msg), role) && s.cpus[j].entered <= k
    requires |s.queue[t]| < s.capacity
    ensures CountedFor(Do(s, Send(j, t, msg), role), j, k, t, |s.sent[t]| + 1)
  {
    assert (j, k) in s.entry ==> EntryOk(s, j, k, role);
  }

  lemma LeavesOwn(s: State, acts: seq<Action>, s': State, role: Program, x: nat)
    requires Init(s) && Runs(s, acts, s', role) && multiset(acts)[Leave(x)] > 0
    ensures x < |s.cpus| && |s'.cpus| == |s.cpus| && s'.cpus[x].left == multiset(acts)[Leave(x)]
  {
    hide Enabled, Do;
    LeavesSomeone(s, acts, s', role, x);
    Traffic(s, acts, s', role, x);
  }

  lemma {:induction false} LeavesSomeone(s: State, acts: seq<Action>, s': State, role: Program, x: nat)
    requires Sized(s) && Runs(s, acts, s', role) && multiset(acts)[Leave(x)] > 0
    ensures x < |s.cpus|
    decreases |acts|
  {
    hide Do;
    assert acts == [acts[0]] + acts[1..];
    if acts[0] != Leave(x) {
      TrafficStep(s, acts[0], role, 0);
      LeavesSomeone(Do(s, acts[0], role), acts[1..], s', role, x);
    }
  }

  /** When some CPU has left the call that begins with barrier `k`, all that any CPU's entry counted is handled. */
  lemma CallCleared(s: State, acts: seq<Action>, s': State, role: Program, k: nat, i: nat, j: nat, t: nat)
    requires Init(s) && GoodProgram(role) && Runs(s, acts, s', role) && role(k).First?
    requires i < |s'.cpus| && j < |s'.cpus| && t < |s'.cpus| && s'.cpus[i].left >= k + 2
    ensures (j, k) in s'.entry && |s'.entry[(j, k)]| == |s'.cpus|
    ensures |s'.handled| == |s'.cpus| && s'.entry[(j, k)][t] <= |s'.handled[t]|
  {
    hide Runs, Init, GoodProgram;
    InvInit(s, role);
    InvRun(s, acts, s', role);
    assert s'.cpus[i].left <= s'.cpus[j].entered && s'.cpus[i].left <= s'.cpus[t].entered;
    assert EntryOk(s', j, k, role) && Drained(s'.cpus[t], k);
  }

  // ----- nobody is stuck

  /** What CPU `i` has handled when it has handled all it was sent. */
  function Taken(s: State, i: nat): seq<Msg>
    requires Sized(s) && i < |s.cpus|
  {
    s.handled[i] + Current(s.cpus[i]) + s.queue[i]
  }

  lemma DrainStep(s: State, i: nat, a: Action, role: Program)
    requires Sized(s) && i < |s.cpus| && Enabled(s, a, role) && (a == Pop(i) || a == Finish(i) || a == EndDrain(i))
    ensures var s' := Do(s, a, role);
            && Sized(s') && |s'.cpus| == |s.cpus| && Taken(s', i) == Taken(s, i)
            && s'.ready == s.ready && s'.count == s.count && s'.cpus == s.cpus[i := s'.cpus[i]]
            && s'.handled == s.handled[i := s'.handled[i]] && s'.queue == s.queue[i := s'.queue[i]]
            && s'.cpus[i] == s.cpus[i].(drain := s'.cpus[i].drain, pc := s'.cpus[i].pc)
            && (s'.cpus[i].drain.NotDraining? <==> a == EndDrain(i))
            && s'.cpus[i].pc == (if a == EndDrain(i) && s.cpus[i].pc.Clearing? then Cleared else s.cpus[i].pc)
            && (a == Finish(i) ==> s'.cpus[i].drain.Polling? && |s'.queue[i]| == |s.queue[i]|)
            && (a == Pop(i) ==> |s'.queue[i]| < |s.queue[i]|)
            && (a == EndDrain(i) ==> s'.queue[i] == [] && s'.handled[i] == Taken(s, i))
  {
    hide Align;
    if a == Pop(i) {
      assert s.queue[i] == [s.queue[i][0]] + s.queue[i][1..];
    }
  }

  /** A run of CPU `i` alone that ends its drain, if it is in one. */
  lemma {:induction false} Stop(s: State, i: nat, role: Program) returns (acts: seq<Action>, s': State)
    requires Sized(s) && i < |s.cpus|
    ensures Runs(s, acts, s', role) && Sized(s') && s'.ready == s.ready && s'.count == s.count
    ensures |s'.cpus| == |s.cpus| && s'.cpus == s.cpus[i := s'.cpus[i]]
    ensures s.cpus[i].drain.NotDraining? ==> s' == s
    ensures !s.cpus[i].drain.NotDraining? ==>
              s'.queue == s.queue[i := []] && s'.handled == s.handled[i := Taken(s, i)]
    ensures var c := s.cpus[i];
            s'.cpus[i] == if c.drain.NotDraining? then c
                          else c.(drain := NotDraining, pc := if c.pc.Clearing? then Cleared else c.pc)
    decreases |s.queue[i]|, s.cpus[i].drain.Handling?, s.cpus[i].drain.Polling?
  {
    hide Align, MayDrain, Lengths;
    if s.cpus[i].drain.NotDraining? {
      acts, s' := [], s;
      return;
    }
    var a := if s.cpus[i].drain.Handling? then Finish(i) else if s.queue[i] == [] then EndDrain(i) else Pop(i);
    var rest;
    DrainStep(s, i, a, role);
    var m := Do(s, a, role);
    hide Do, Enabled, Runs;
    rest, s' := Stop(m, i, role);
    acts := [a] + rest;
    FirstStep(s, a, rest, s', role);
    if a == EndDrain(i) {
      hide *;
      assert m.queue == s.queue[i := []] && m.handled == s.handled[i := Taken(s, i)];
    } else {
      assert s'.queue == s.queue[i := []] && s'.handled == s.handled[i := Taken(s, i)];
    }
  }

  lemma OneStep(s: State, acts: seq<Action>, m: State, a: Action, role: Program) returns (acts': seq<Action>, s': State)
    requires Runs(s, acts, m, role) && Sized(m) && Enabled(m, a, role)
    ensures s' == Do(m, a, role) && acts' == acts + [a] && Runs(s, acts', s', role)
  {
    hide Enabled, Do;
    acts', s' := acts + [a], Do(m, a, role);
    assert [a][1..] == [];
    RunsJoin(s, acts, m, [a], s', role);
  }

  /** A CPU that no other is behind can get out of its barrier, if it waits in one, and between barriers. */
  lemma Free(s: State, i: nat, role: Program) returns (acts: seq<Action>, s': State)
    requires BarrierInv(s, role) && s.ready && i < |s.cpus| && GoodProgram(role)
    requires forall j :: 0 <= j < |s.cpus| ==> s.cpus[i].entered <= s.cpus[j].entered
    ensures Runs(s, acts, s', role) && Sized(s') && s'.ready && |s'.cpus| == |s.cpus| && s'.cpus == s.cpus[i := s'.cpus[i]]
    ensures s'.cpus[i].entered == s.cpus[i].entered && Enabled(s', Enter(i), role)
  {
    hide Align, Sum, BarrierInv, Runs;
    CpuOk(s, i, role);
    acts, s' := Stop(s, i, role);
    if s'.cpus[i].pc.Waiting? {
      LeaveExactly(s, i, role);
      acts, s' := OneStep(s, acts, s', Leave(i), role);
    }
    if s'.cpus[i].pc.Clearing? {
      var m, more := s', [];
      more, s' := Clear(m, i, role);
      RunsJoin(s, acts, m, more, s', role);
      acts := acts + more;
    }
  }

  /**
   * A CPU that runs between barriers, or waits for the others in the first barrier of a
   * cpu_sync_and_clear_msgs, can handle all its messages without any other CPU taking a step.
   */
  lemma HandlesAll(s: State, i: nat, role: Program) returns (acts: seq<Action>, s': State)
    requires BarrierInv(s, role) && i < |s.cpus| && s.cpus[i].drain.NotDraining?
    requires s.cpus[i].pc.Running?
             || (s.cpus[i].pc.Waiting? && role(s.cpus[i].left).First?
                 && exists j :: 0 <= j < |s.cpus| && s.cpus[j].entered < s.cpus[i].entered)
    ensures Runs(s, acts, s', role) && Sized(s') && s'.cpus == s.cpus
    ensures s'.queue == s.queue[i := []] && s'.handled == s.handled[i := s.handled[i] + s.queue[i]]
  {
    hide Align, Runs, Sum, BarrierInv;
    CpuOk(s, i, role);
    if s.cpus[i].pc.Waiting? {
      LeaveExactly(s, i, role);
    }
    var m := Do(s, StartDrain(i), role);
    var rest;
    rest, s' := Stop(m, i, role);
    acts := [StartDrain(i)] + rest;
    FirstStep(s, StartDrain(i), rest, s', role);
    assert Taken(m, i) == s.handled[i] + s.queue[i];
  }

  /** The drain between the two barriers of cpu_sync_and_clear_msgs. */
  lemma Clear(s: State, i: nat, role: Program) returns (acts: seq<Action>, s': State)
    requires Sized(s) && i < |s.cpus| && s.cpus[i].pc.Clearing? && s.cpus[i].drain.NotDraining?
    ensures Runs(s, acts, s', role) && Sized(s') && |s'.cpus| == |s.cpus| && s'.ready == s.ready
    ensures s'.cpus == s.cpus[i := s.cpus[i].(pc := Cleared)]
  {
    hide Align, Runs;
    var m := Do(s, StartDrain(i), role);
    var rest;
    rest, s' := Stop(m, i, role);
    acts := [StartDrain(i)] + rest;
    FirstStep(s, StartDrain(i), rest, s', role);
  }

  lemma FirstStep(s: State, a: Action, rest: seq<Action>, s': State, role: Program)
    requires Sized(s) && Enabled(s, a, role) && Runs(Do(s, a, role), rest, s', role)
    ensures Runs(s, [a] + rest, s', role)
  {
    hide Do, Enabled;
    var acts := [a] + rest;
    assert acts[0] == a && acts[1..] == rest;
  }

  /** A CPU that no other is behind. */
  lemma {:induction false} Hindmost(cpus: seq<Cpu>) returns (i: nat)
    requires cpus != []
    ensures i < |cpus| && forall j :: 0 <= j < |cpus| ==> cpus[i].entered <= cpus[j].entered
    decreases |cpus|
  {
    var m := |cpus| - 1;
    i := m;
    if m > 0 {
      var i' := Hindmost(cpus[..m]);
      assert forall j :: 0 <= j < m ==> cpus[..m][j] == cpus[j];
      if cpus[i'].entered <= cpus[m].entered {
        i := i';
      }
    }
  }

  /** While the hindmost CPU has not entered barrier `k` the counts are below those of all CPUs in it. */
  lemma CatchesUp(s: State, i: nat, c: Cpu, role: Program, k: nat)
    requires BarrierInv(s, role) && i < |s.cpus| && c.entered == s.cpus[i].entered + 1 <= k + 1
    requires forall j :: 0 <= j < |s.cpus| ==> s.cpus[i].entered <= s.cpus[j].entered
    ensures Sum(s.cpus[i := c]) == Sum(s.cpus) + 1 <= |s.cpus| * (k + 2)
  {
    SumUpdate(s.cpus, i, c);
    forall j | 0 <= j < |s.cpus| ensures s.cpus[j].entered <= k + 1 {
      assert PcOk(s.cpus[j], |s.cpus|, role) && s.cpus[j].left <= s.cpus[i].entered;
    }
    SumAtMost(s.cpus, k + 1);
    assert |s.cpus| * (k + 2) == |s.cpus| * (k + 1) + |s.cpus|;
  }

  /** A run in which the hindmost CPU enters its next barrier. */
  lemma NextEnters(s: State, i: nat, role: Program) returns (acts: seq<Action>, s': State, c: Cpu)
    requires Inv(s, role) && s.ready && GoodProgram(role) && i < |s.cpus|
    requires forall j :: 0 <= j < |s.cpus| ==> s.cpus[i].entered <= s.cpus[j].entered
    ensures Runs(s, acts, s', role) && Inv(s', role) && s'.ready
    ensures s'.cpus == s.cpus[i := c] && c.entered == s.cpus[i].entered + 1
  {
    hide Align, Sum, Runs, BarrierInv, EntryInv, Fifo, GoodProgram;
    acts, s' := Free(s, i, role);
    acts, s' := OneStep(s, acts, s', Enter(i), role);
    c := s'.cpus[i];
    InvRun(s, acts, s', role);
  }

  /** The CPUs can go on until all of them have entered barrier `k`. */
  lemma {:induction false} AllEnter(s: State, role: Program, k: nat) returns (acts: seq<Action>, s': State)
    requires Inv(s, role) && s.ready && GoodProgram(role)
    ensures Runs(s, acts, s', role) && Inv(s', role) && |s'.cpus| == |s.cpus|
    ensures forall i :: 0 <= i < |s'.cpus| ==> s'.cpus[i].entered > k
    decreases |s.cpus| * (k + 2) - Sum(s.cpus)
  {
    hide Align, Sum, EntryInv, Fifo, Enabled, Do, GoodProgram;
    var i := Hindmost(s.cpus);
    if s.cpus[i].entered > k {
      return [], s;
    }
    var m, c;
    acts, m, c := NextEnters(s, i, role);
    CatchesUp(s, i, c, role, k);
    var rest;
    rest, s' := AllEnter(m, role, k);
    RunsJoin(s, acts, m, rest, s', role);
    acts := acts + rest;
  }

  /** Nothing is ever stuck: every run can be continued until all CPUs have left their first `k` barriers. */
  lemma NeverStuck(s: State, acts: seq<Action>, s1: State, role: Program, k: nat) returns (more: seq<Action>, s': State)
    requires Init(s) && GoodProgram(role) && Runs(s, acts, s1, role)
    ensures Runs(s, acts + more, s', role) && |s'.cpus| == |s.cpus|
    ensures forall i :: 0 <= i < |s'.cpus| ==> s'.cpus[i].left >= k
  {
    hide Align, Sum, EntryInv, Fifo, GoodProgram, Runs;
    InvInit(s, role);
    InvRun(s, acts, s1, role);
    var start := s1;
    more := [];
    assert acts + [] == acts;
    if !s1.ready {
      more := [SyncInit];
      var all;
      all, start := OneStep(s, acts, s1, SyncInit, role);
      InvRun(s, acts + more, start, role);
    }
    var rest;
    rest, s' := AllEnter(start, role, k);
    RunsJoin(s, acts + more, start, rest, s', role);
    assert acts + more + rest == acts + (more + rest);
    more := more + rest;
    forall i | 0 <= i < |s'.cpus| ensures s'.cpus[i].left >= k {
      assert PcOk(s'.cpus[i], |s'.cpus|, role);
    }
  }

  /**
   * Between barriers, and from a handler, a CPU can send to any other, and what it sends to a
   * queue with room is handled in some continuation of the run.
   */
  lemma Delivered(s: State, pre: seq<Action>, m: State, role: Program, j: nat, t: nat, msg: Msg, k: nat)
      returns (post: seq<Action>, s': State)
    requires Init(s) && GoodProgram(role) && Runs(s, pre, m, role) && role(k).First?
    requires j < |m.cpus| && t < |m.cpus|
    requires m.cpus[j].drain.Handling? || (m.cpus[j].drain.NotDraining? && m.cpus[j].pc.Running?)
    requires m.cpus[j].entered <= k && |Backlog([], pre, s.capacity, t)| < s.capacity
    ensures Runs(s, pre + [Send(j, t, msg)] + post, s', role)
    ensures var place := |Accepted([], pre, s.capacity, t)|;
            t < |s'.handled| && place < |s'.handled[t]| && s'.handled[t][place] == msg
  {
    hide Runs, GoodProgram;
    InvInit(s, role);
    InvRun(s, pre, m, role);
    var acts, sent := OneStep(s, pre, m, Send(j, t, msg), role);
    post, s' := NeverStuck(s, acts, sent, role, k + 2);
    Traffic(s, pre, m, role, j);
    Traffic(s, acts + post, s', role, j);
    MessagesCleared(s, pre, j, t, msg, post, s', role, k, j);
  }
}
