/**
 * Remote I/O requests: src/core/remio.c over the slot pool of src/core/objpool.c. A method is
 * one hypercall, one trapped access or one message, each taken as one step; the frontend
 * vCPU of CPU `c` is paused from its access until its message has been handled.
 */
module Remio {
  import opened Counting
  import opened Options

  datatype ReqState = Free | Pending | Processing | Complete

  /** The fields of the trapped access. */
  datatype Access = Access(addr: nat, width: nat, reg: nat, write: bool, value: nat)

  /**
   * A request and its bit in the pool. `stamp`, which only the model has, tells the requests
   * that have used the same slot apart.
   */
  datatype Request = Request(used: bool, state: ReqState, key: nat, cpu: nat, acc: Access, value: nat, stamp: nat)

  /** The message of a completion, on its way to the frontend CPU. */
  datatype Msg = Msg(target: nat, read: bool, key: nat, id: nat)

  predicate Is(reqs: seq<Request>, i: nat, st: ReqState) {
    i < |reqs| && reqs[i].state == st
  }

  /** Each allocated request belongs to a paused CPU of its own, and each paused CPU has one. */
  ghost predicate OwnersOk(reqs: seq<Request>, active: seq<bool>) {
    && |reqs| == |active| <= 256
    && (forall i :: 0 <= i < |reqs| ==> (reqs[i].used <==> !reqs[i].state.Free?))
    && (forall i :: 0 <= i < |reqs| && reqs[i].used ==> reqs[i].cpu < |active| && !active[reqs[i].cpu])
    && (forall i, j :: 0 <= i < j < |reqs| && reqs[i].used && reqs[j].used ==> reqs[i].cpu != reqs[j].cpu)
    && (forall c :: 0 <= c < |active| && !active[c] ==> HasRequest(reqs, c))
  }

  ghost predicate HasRequest(reqs: seq<Request>, c: nat) {
    exists i :: 0 <= i < |reqs| && reqs[i].used && reqs[i].cpu == c
  }

  /** The list of a device is its pending requests, the oldest first. */
  ghost predicate PendingOk(reqs: seq<Request>, pending: map<nat, seq<nat>>) {
    && (forall k :: k in pending ==> k < 256)
    && (forall k, a :: k in pending && 0 <= a < |pending[k]| ==>
          Is(reqs, pending[k][a], Pending) && reqs[pending[k][a]].key == k)
    && (forall i: nat :: Is(reqs, i, Pending) ==> reqs[i].key in pending && i in pending[reqs[i].key])
    && (forall k, a, b :: k in pending && 0 <= a < b < |pending[k]| ==>
          reqs[pending[k][a]].stamp < reqs[pending[k][b]].stamp)
  }

  /** The messages on their way are the completed requests', one each. */
  ghost predicate MsgsOk(reqs: seq<Request>, msgs: seq<Msg>, pending: map<nat, seq<nat>>) {
    && (forall a :: 0 <= a < |msgs| ==>
          Is(reqs, msgs[a].id, Complete) && msgs[a].target == reqs[msgs[a].id].cpu && msgs[a].key == reqs[msgs[a].id].key)
    && (forall a, b :: 0 <= a < b < |msgs| ==> msgs[a].id != msgs[b].id)
    && (forall i: nat :: Is(reqs, i, Complete) ==> Sent(msgs, i))
    && (forall i :: 0 <= i < |reqs| && reqs[i].used ==> reqs[i].key in pending)
  }

  ghost predicate Sent(msgs: seq<Msg>, i: nat) {
    exists a :: 0 <= a < |msgs| && msgs[a].id == i
  }

  /** Every request ever created is either allocated or has had its one resume. */
  ghost predicate StampsOk(reqs: seq<Request>, next: nat, resumed: set<nat>) {
    && (forall i :: 0 <= i < |reqs| && reqs[i].used ==> reqs[i].stamp < next && reqs[i].stamp !in resumed)
    && (forall i, j :: 0 <= i < j < |reqs| && reqs[i].used && reqs[j].used ==> reqs[i].stamp != reqs[j].stamp)
    && (forall t: nat :: t < next ==> t in resumed || Alive(reqs, t))
    && (forall t :: t in resumed ==> t < next)
  }

  ghost predicate Alive(reqs: seq<Request>, t: nat) {
    exists i :: 0 <= i < |reqs| && reqs[i].used && reqs[i].stamp == t
  }

  // ----- the pool never runs out

  function CpusOf(reqs: seq<Request>): set<nat> {
    if reqs == [] then {} else CpusOf(reqs[..|reqs| - 1]) + {reqs[|reqs| - 1].cpu}
  }

  lemma {:induction false} CpusCount(reqs: seq<Request>)
    requires forall i, j :: 0 <= i < j < |reqs| ==> reqs[i].cpu != reqs[j].cpu
    ensures |CpusOf(reqs)| == |reqs| && forall c :: c in CpusOf(reqs) <==> exists i :: 0 <= i < |reqs| && reqs[i].cpu == c
  {
    if reqs != [] {
      var init := reqs[..|reqs| - 1];
      assert forall i :: 0 <= i < |init| ==> init[i].cpu == reqs[i].cpu;
      CpusCount(init);
      forall c | exists i :: 0 <= i < |reqs| && reqs[i].cpu == c ensures c in CpusOf(reqs) {
        var i :| 0 <= i < |reqs| && reqs[i].cpu == c;
        assert i < |init| ==> init[i] == reqs[i];
      }
      assert reqs[|reqs| - 1].cpu !in CpusOf(init);
    }
  }

  /** While a CPU runs, some slot of the pool is free. */
  lemma SlotLeft(reqs: seq<Request>, active: seq<bool>, c: nat)
    requires OwnersOk(reqs, active) && c < |active| && active[c]
    ensures exists i :: 0 <= i < |reqs| && !reqs[i].used
  {
    if forall i :: 0 <= i < |reqs| ==> reqs[i].used {
      CpusCount(reqs);
      var others := UpTo(|active|) - {c};
      assert CpusOf(reqs) <= others;
      SubsetCount(CpusOf(reqs), others);
      assert false;
    }
  }

  // ----- the system

  class RemoteIo {
    /** remio_request_pool, one slot for each CPU. */
    const reqs: array<Request>
    /** pending_requests_list of each device, by bind key. */
    var pending: map<nat, seq<nat>>
    /** vcpu->active */
    const active: array<bool>
    /** The completion messages that have not been handled. */
    var msgs: seq<Msg>
    /** The registers of the vCPUs, as far as reads have been completed. */
    var regs: map<(nat, nat), nat>
    /** The stamp of the next request; only the model counts them. */
    var next: nat
    /** The stamps of the requests whose vCPU has been resumed. */
    ghost var resumed: set<nat>

    ghost predicate Valid()
      reads this, reqs, active
    {
      && OwnersOk(reqs[..], active[..]) && PendingOk(reqs[..], pending)
      && MsgsOk(reqs[..], msgs, pending) && StampsOk(reqs[..], next, resumed)
    }

    /** remio_init, with every vCPU running */
    constructor (cpus: nat, keys: set<nat>)
      requires cpus <= 256 && forall k :: k in keys ==> k < 256
      ensures Valid() && pending.Keys == keys && active.Length == cpus && fresh(reqs) && fresh(active)
      ensures next == 0 && forall c :: 0 <= c < cpus ==> active[c]
    {
      reqs := new Request[cpus](_ => Request(false, Free, 0, 0, Access(0, 0, 0, false, 0), 0, 0));
      active := new bool[cpus](_ => true);
      pending := map k | k in keys :: [];
      msgs, regs, next, resumed := [], map[], 0, {};
    }

    /** objpool_alloc_with_id: the first free slot. */
    method Alloc() returns (id: Option<nat>)
      ensures id.Some? ==> id.value < reqs.Length && !reqs[id.value].used && forall i :: 0 <= i < id.value ==> reqs[i].used
      ensures id.None? ==> forall i :: 0 <= i < reqs.Length ==> reqs[i].used
    {
      for i := 0 to reqs.Length
        invariant forall j :: 0 <= j < i ==> reqs[j].used
      {
        if !reqs[i].used {
          return Some(i);
        }
      }
      return None;
    }

    /**
     * remio_mmio_emul_handler with remio_create_request: the access becomes the newest pending
     * request of the device and its vCPU is paused. It never fails for want of a slot.
     */
    method Create(c: nat, key: nat, acc: Access) returns (ok: bool, ghost id: nat)
      requires Valid() && c < active.Length && active[c] && key in pending
      modifies this`pending, this`next, reqs, active
      ensures Valid() && ok && id < reqs.Length && next == old(next) + 1
      ensures !old(reqs[id]).used
      ensures reqs[..] == old(reqs[..])[id := Request(true, Pending, key, c, acc, if acc.write then acc.value else 0, old(next))]
      ensures pending == old(pending)[key := old(pending)[key] + [id]]
      ensures active[..] == old(active[..])[c := false]
    {
      hide OwnersOk, PendingOk, MsgsOk, StampsOk;
      SlotLeft(reqs[..], active[..], c);
      var slot := Alloc();
      id := 0;
      if slot.None? {
        return false, id;
      }
      id := slot.value;
      ghost var before := reqs[..];
      var r := Request(true, Pending, key, c, acc, if acc.write then acc.value else 0, next);
      CreateOwners(before, active[..], slot.value, r);
      CreatePending(before, active[..], pending, next, resumed, slot.value, r);
      CreateMsgs(before, active[..], msgs, pending, slot.value, r);
      CreateStamps(before, next, resumed, slot.value, r);
      reqs[slot.value] := r;
      pending := pending[key := pending[key] + [slot.value]];
      active[c] := false;
      next := next + 1;
      ok := true;
    }

    /**
     * remio_handle_ask: hands the oldest pending request to the backend. `addr` and `value`
     * must be zero by convention.
     */
    method Ask(key: nat, addr: nat, value: nat) returns (id: Option<nat>, acc: Access, more: bool)
      requires Valid() && key in pending
      modifies this`pending, reqs
      ensures Valid() && pending.Keys == old(pending.Keys)
      ensures id.Some? <==> addr == 0 && value == 0 && old(pending[key]) != []
      ensures id.None? ==> reqs[..] == old(reqs[..]) && pending == old(pending)
      ensures id.Some? ==>
                && old(pending[key]) == [id.value] + pending[key] && pending == old(pending)[key := pending[key]]
                && id.value < reqs.Length && acc == old(reqs[id.value]).acc && more == (pending[key] != [])
                && reqs[..] == old(reqs[..])[id.value := old(reqs[id.value]).(state := Processing)]
    {
      hide OwnersOk, MsgsOk, StampsOk;
      id, acc, more := None, Access(0, 0, 0, false, 0), false;
      if addr != 0 || value != 0 || pending[key] == [] {
        return;
      }
      ghost var before := reqs[..];
      var i := pending[key][0];
      assert Is(before, i, Pending) && before[i].key == key;
      AskKeeps(before, active[..], pending, msgs, next, resumed, key);
      pending := pending[key := pending[key][1..]];
      more := pending[key] != [];
      acc := reqs[i].acc;
      reqs[i] := reqs[i].(state := Processing);
      id := Some(i);
    }

    /**
     * The completion of a request by its number: remio_handle_rw and the message of
     * remio_hypercall. The number -1 stands for the oldest pending request, which it takes
     * off the list and loses; apart from that every call keeps the invariant.
     */
    method Complete(key: nat, id: int, value: nat, read: bool) returns (ok: bool)
      requires Valid() && key in pending
      modifies this`pending, this`msgs, reqs
      ensures Valid() <==> id != -1 || old(pending[key]) == []
      ensures ok <==> 0 <= id < reqs.Length && old(reqs[id]).key == key && old(reqs[id]).state == Processing
      ensures ok ==>
                && reqs[..] == old(reqs[..])[id := old(reqs[id]).(value := value, state := ReqState.Complete)]
                && msgs == old(msgs) + [Msg(old(reqs[id]).cpu, read, key, id)]
      ensures !ok ==> reqs[..] == old(reqs[..]) && msgs == old(msgs)
      ensures pending == if id == -1 && old(pending[key]) != [] then old(pending)[key := old(pending[key])[1..]] else old(pending)
    {
      hide OwnersOk, PendingOk, MsgsOk, StampsOk;
      ok := false;
      if id == -1 {
        if pending[key] != [] {
          LostRequest(reqs[..], pending, key);
          pending := pending[key := pending[key][1..]];
        }
        return;
      }
      if id < 0 || id >= reqs.Length || reqs[id].key != key || reqs[id].state != Processing {
        return;
      }
      CompleteKeeps(reqs[..], active[..], pending, msgs, next, resumed, id, value, read);
      msgs := msgs + [Msg(reqs[id].cpu, read, key % 256, id % 256)];
      reqs[id] := reqs[id].(value := value, state := ReqState.Complete);
      ok := true;
    }

    /**
     * remio_cpu_msg_handler with remio_cpu_post_work: the frontend CPU frees the request,
     * takes the value that was read, and runs again. It always finds its request.
     */
    method PostWork(a: nat) returns (ok: bool)
      requires Valid() && a < |msgs|
      modifies this`msgs, this`regs, this`resumed, reqs, active
      ensures Valid() && ok
      ensures var m, r := old(msgs)[a], old(reqs[..])[old(msgs)[a].id];
              && m.id < reqs.Length && m.target == r.cpu < active.Length && r.state.Complete?
              && !old(active[m.target]) && active[..] == old(active[..])[m.target := true]
              && reqs[..] == old(reqs[..])[m.id := r.(used := false, state := Free)]
              && regs == (if m.read then old(regs)[(m.target, r.acc.reg) := r.value] else old(regs))
              && msgs == old(msgs)[..a] + old(msgs)[a + 1..]
              && r.stamp !in old(resumed) && resumed == old(resumed) + {r.stamp}
    {
      hide OwnersOk, PendingOk, MsgsOk, StampsOk;
      var m := msgs[a];
      MsgAt(reqs[..], active[..], pending, msgs, next, resumed, a);
      if m.key !in pending {
        return false;
      }
      if m.id >= reqs.Length || reqs[m.id].key != m.key {
        return false;
      }
      var r := reqs[m.id];
      if m.read {
        regs := regs[(m.target, r.acc.reg) := r.value];
      }
      PostKeeps(reqs[..], active[..], pending, msgs, next, resumed, a);
      reqs[m.id] := r.(used := false, state := Free);
      active[m.target] := true;
      msgs := msgs[..a] + msgs[a + 1..];
      resumed := resumed + {r.stamp};
      ok := true;
    }
  }

  lemma CreateOwners(reqs: seq<Request>, active: seq<bool>, i: nat, r: Request)
    requires OwnersOk(reqs, active) && i < |reqs| && !reqs[i].used && r.used && !r.state.Free?
    requires r.cpu < |active| && active[r.cpu]
    ensures OwnersOk(reqs[i := r], active[r.cpu := false])
  {
    var reqs', active' := reqs[i := r], active[r.cpu := false];
    forall c | 0 <= c < |active'| && !active'[c] ensures HasRequest(reqs', c) {
      if c == r.cpu {
        assert reqs'[i].cpu == c;
      } else {
        assert HasRequest(reqs, c);
        var j :| 0 <= j < |reqs| && reqs[j].used && reqs[j].cpu == c;
        assert reqs'[j].cpu == c;
      }
    }
  }

  lemma CreatePending(reqs: seq<Request>, active: seq<bool>, pending: map<nat, seq<nat>>, next: nat, resumed: set<nat>,
                      i: nat, r: Request)
    requires OwnersOk(reqs, active) && PendingOk(reqs, pending) && StampsOk(reqs, next, resumed)
    requires i < |reqs| && !reqs[i].used && r.state.Pending? && r.key in pending && r.stamp == next
    ensures PendingOk(reqs[i := r], pending[r.key := pending[r.key] + [i]])
  {
    hide PendingOk, OwnersOk, StampsOk;
    forall k, a | k in pending && 0 <= a < |pending[k]|
      ensures Is(reqs, pending[k][a], Pending) && reqs[pending[k][a]].stamp < next && pending[k][a] != i
    {
      ListedAt(reqs, active, pending, next, resumed, k, a, i);
    }
    NewListed(reqs, pending, i, r);
  }

  lemma ListedAt(reqs: seq<Request>, active: seq<bool>, pending: map<nat, seq<nat>>, next: nat, resumed: set<nat>,
                 k: nat, a: nat, i: nat)
    requires OwnersOk(reqs, active) && PendingOk(reqs, pending) && StampsOk(reqs, next, resumed)
    requires k in pending && a < |pending[k]| && i < |reqs| && !reqs[i].used
    ensures Is(reqs, pending[k][a], Pending) && reqs[pending[k][a]].stamp < next && pending[k][a] != i
  {
  }

  lemma NewListed(reqs: seq<Request>, pending: map<nat, seq<nat>>, i: nat, r: Request)
    requires PendingOk(reqs, pending) && i < |reqs| && r.state.Pending? && r.key in pending
    requires forall k, a :: k in pending && 0 <= a < |pending[k]| ==>
               Is(reqs, pending[k][a], Pending) && reqs[pending[k][a]].stamp < r.stamp && pending[k][a] != i
    ensures PendingOk(reqs[i := r], pending[r.key := pending[r.key] + [i]])
  {
    var reqs', pending' := reqs[i := r], pending[r.key := pending[r.key] + [i]];
    forall j: nat | Is(reqs', j, Pending) ensures reqs'[j].key in pending' && j in pending'[reqs'[j].key] {
      if j == i {
        assert pending'[r.key][|pending[r.key]|] == i;
      } else {
        assert Is(reqs, j, Pending);
        var k := reqs[j].key;
        var a :| 0 <= a < |pending[k]| && pending[k][a] == j;
        assert pending'[k][a] == j;
      }
    }
  }

  lemma CreateMsgs(reqs: seq<Request>, active: seq<bool>, msgs: seq<Msg>, pending: map<nat, seq<nat>>, i: nat, r: Request)
    requires OwnersOk(reqs, active) && MsgsOk(reqs, msgs, pending) && i < |reqs| && !reqs[i].used
    requires r.state.Pending? && r.key in pending
    ensures MsgsOk(reqs[i := r], msgs, pending[r.key := pending[r.key] + [i]])
  {
    var reqs' := reqs[i := r];
    forall a | 0 <= a < |msgs| ensures msgs[a].id != i && Is(reqs', msgs[a].id, Complete) {
      assert Is(reqs, msgs[a].id, Complete);
    }
    forall j: nat | Is(reqs', j, Complete) ensures Sent(msgs, j) {
      assert Is(reqs, j, Complete);
    }
  }

  lemma CreateStamps(reqs: seq<Request>, next: nat, resumed: set<nat>, i: nat, r: Request)
    requires StampsOk(reqs, next, resumed) && i < |reqs| && !reqs[i].used && r.used && r.stamp == next
    ensures StampsOk(reqs[i := r], next + 1, resumed)
  {
    var reqs' := reqs[i := r];
    forall t: nat | t < next + 1 ensures t in resumed || Alive(reqs', t) {
      if t == next {
        assert reqs'[i].stamp == t;
      } else if t !in resumed {
        assert Alive(reqs, t);
        var j :| 0 <= j < |reqs| && reqs[j].used && reqs[j].stamp == t;
        assert reqs'[j].stamp == t;
      }
    }
  }

  lemma AskKeeps(reqs: seq<Request>, active: seq<bool>, pending: map<nat, seq<nat>>, msgs: seq<Msg>, next: nat,
                 resumed: set<nat>, key: nat)
    requires OwnersOk(reqs, active) && PendingOk(reqs, pending) && MsgsOk(reqs, msgs, pending)
    requires StampsOk(reqs, next, resumed) && key in pending && pending[key] != []
    ensures pending[key][0] < |reqs|
    ensures var i := pending[key][0];
            var reqs', pending' := reqs[i := reqs[i].(state := Processing)], pending[key := pending[key][1..]];
            && OwnersOk(reqs', active) && PendingOk(reqs', pending') && MsgsOk(reqs', msgs, pending')
            && StampsOk(reqs', next, resumed)
  {
    hide OwnersOk, MsgsOk, StampsOk;
    var i := pending[key][0];
    assert Is(reqs, i, Pending) && reqs[i].key == key;
    AskPending(reqs, pending, key);
    hide PendingOk;
    PendingUsed(reqs, active, i);
    SameOwners(reqs, active, i, reqs[i].(state := Processing));
    SameStamps(reqs, next, resumed, i, reqs[i].(state := Processing));
    AskMsgs(reqs, pending, msgs, i, pending[key := pending[key][1..]]);
  }

  lemma PendingUsed(reqs: seq<Request>, active: seq<bool>, i: nat)
    requires OwnersOk(reqs, active) && i < |reqs| && !reqs[i].state.Free?
    ensures reqs[i].used && i < 256
  {
  }

  lemma AskPending(reqs: seq<Request>, pending: map<nat, seq<nat>>, key: nat)
    requires PendingOk(reqs, pending) && key in pending && pending[key] != []
    ensures pending[key][0] < |reqs|
    ensures var i := pending[key][0];
            PendingOk(reqs[i := reqs[i].(state := Processing)], pending[key := pending[key][1..]])
  {
    var i := pending[key][0];
    assert Is(reqs, i, Pending) && reqs[i].key == key;
    var reqs', pending' := reqs[i := reqs[i].(state := Processing)], pending[key := pending[key][1..]];
    forall j: nat | Is(reqs', j, Pending) ensures reqs'[j].key in pending' && j in pending'[reqs'[j].key] {
      assert Is(reqs, j, Pending);
      var a :| 0 <= a < |pending[reqs[j].key]| && pending[reqs[j].key][a] == j;
      assert reqs[j].key == key ==> pending'[key][a - 1] == j;
    }
    forall k, a | k in pending' && 0 <= a < |pending'[k]|
      ensures Is(reqs', pending'[k][a], Pending) && reqs'[pending'[k][a]].key == k
    {
      assert Is(reqs, pending[k][if k == key then a + 1 else a], Pending);
    }
  }

  lemma AskMsgs(reqs: seq<Request>, pending: map<nat, seq<nat>>, msgs: seq<Msg>, i: nat, pending': map<nat, seq<nat>>)
    requires MsgsOk(reqs, msgs, pending) && Is(reqs, i, Pending) && pending'.Keys == pending.Keys
    ensures MsgsOk(reqs[i := reqs[i].(state := Processing)], msgs, pending')
  {
    var reqs' := reqs[i := reqs[i].(state := Processing)];
    forall b | 0 <= b < |msgs| ensures Is(reqs', msgs[b].id, ReqState.Complete) && msgs[b].id != i {
      assert Is(reqs, msgs[b].id, ReqState.Complete);
    }
    forall j: nat | Is(reqs', j, ReqState.Complete) ensures Sent(msgs, j) {
      assert Is(reqs, j, ReqState.Complete);
    }
  }

  /** A request that changes only its state and its value keeps its owner and its stamp. */
  lemma SameOwners(reqs: seq<Request>, active: seq<bool>, i: nat, r: Request)
    requires OwnersOk(reqs, active) && i < |reqs| && reqs[i].used && r.used && !r.state.Free? && r.cpu == reqs[i].cpu
    ensures OwnersOk(reqs[i := r], active)
  {
    forall c | 0 <= c < |active| && !active[c] ensures HasRequest(reqs[i := r], c) {
      assert HasRequest(reqs, c);
      var j :| 0 <= j < |reqs| && reqs[j].used && reqs[j].cpu == c;
      assert reqs[i := r][j].cpu == c;
    }
  }

  lemma SameStamps(reqs: seq<Request>, next: nat, resumed: set<nat>, i: nat, r: Request)
    requires StampsOk(reqs, next, resumed) && i < |reqs| && reqs[i].used && r.used && r.stamp == reqs[i].stamp
    ensures StampsOk(reqs[i := r], next, resumed)
  {
    forall t: nat | t < next && t !in resumed ensures Alive(reqs[i := r], t) {
      assert Alive(reqs, t);
      var j :| 0 <= j < |reqs| && reqs[j].used && reqs[j].stamp == t;
      assert reqs[i := r][j].stamp == t;
    }
  }

  /** Off the list and still pending, a request is never handed out. */
  lemma LostRequest(reqs: seq<Request>, pending: map<nat, seq<nat>>, key: nat)
    requires PendingOk(reqs, pending) && key in pending && pending[key] != []
    ensures !PendingOk(reqs, pending[key := pending[key][1..]])
  {
    var i, rest := pending[key][0], pending[key][1..];
    assert Is(reqs, i, Pending) && reqs[i].key == key;
    forall a | 0 <= a < |rest| ensures rest[a] != i {
      assert reqs[pending[key][0]].stamp < reqs[pending[key][a + 1]].stamp;
    }
    assert pending[key := rest][key] == rest;
  }

  lemma CompleteKeeps(reqs: seq<Request>, active: seq<bool>, pending: map<nat, seq<nat>>, msgs: seq<Msg>, next: nat,
                      resumed: set<nat>, i: nat, value: nat, read: bool)
    requires OwnersOk(reqs, active) && PendingOk(reqs, pending) && MsgsOk(reqs, msgs, pending)
    requires StampsOk(reqs, next, resumed) && Is(reqs, i, Processing)
    ensures reqs[i].key < 256 && i < 256
    ensures var reqs' := reqs[i := reqs[i].(value := value, state := ReqState.Complete)];
            && OwnersOk(reqs', active) && PendingOk(reqs', pending) && StampsOk(reqs', next, resumed)
            && MsgsOk(reqs', msgs + [Msg(reqs[i].cpu, read, reqs[i].key, i)], pending)
  {
    hide OwnersOk, PendingOk, MsgsOk, StampsOk;
    var r := reqs[i].(value := value, state := ReqState.Complete);
    PendingUsed(reqs, active, i);
    SameOwners(reqs, active, i, r);
    SameStamps(reqs, next, resumed, i, r);
    CompletePending(reqs, pending, i, r);
    CompleteMsgs(reqs, pending, msgs, i, value, read);
  }

  lemma CompletePending(reqs: seq<Request>, pending: map<nat, seq<nat>>, i: nat, r: Request)
    requires PendingOk(reqs, pending) && Is(reqs, i, Processing) && r.state.Complete?
    ensures PendingOk(reqs[i := r], pending)
  {
    forall j: nat | Is(reqs[i := r], j, Pending) ensures Is(reqs, j, Pending) {
    }
    forall k, a | k in pending && 0 <= a < |pending[k]| ensures Is(reqs[i := r], pending[k][a], Pending) && pending[k][a] != i {
      assert Is(reqs, pending[k][a], Pending);
    }
  }

  lemma CompleteMsgs(reqs: seq<Request>, pending: map<nat, seq<nat>>, msgs: seq<Msg>, i: nat, value: nat, read: bool)
    requires MsgsOk(reqs, msgs, pending) && Is(reqs, i, Processing) && reqs[i].used && PendingOk(reqs, pending)
    ensures reqs[i].key < 256
    ensures MsgsOk(reqs[i := reqs[i].(value := value, state := ReqState.Complete)],
                   msgs + [Msg(reqs[i].cpu, read, reqs[i].key, i)], pending)
  {
    var reqs' := reqs[i := reqs[i].(value := value, state := ReqState.Complete)];
    var msgs' := msgs + [Msg(reqs[i].cpu, read, reqs[i].key, i)];
    forall b | 0 <= b < |msgs| ensures Is(reqs', msgs[b].id, ReqState.Complete) && msgs[b].id != i {
      assert Is(reqs, msgs[b].id, ReqState.Complete);
    }
    forall j: nat | Is(reqs', j, ReqState.Complete) ensures Sent(msgs', j) {
      if j == i {
        assert msgs'[|msgs|].id == i;
      } else {
        assert Is(reqs, j, ReqState.Complete) && Sent(msgs, j);
        var b :| 0 <= b < |msgs| && msgs[b].id == j;
        assert msgs'[b].id == j;
      }
    }
  }

  /** The request of a message is there, and its vCPU is paused. */
  lemma MsgAt(reqs: seq<Request>, active: seq<bool>, pending: map<nat, seq<nat>>, msgs: seq<Msg>, next: nat,
              resumed: set<nat>, a: nat)
    requires OwnersOk(reqs, active) && MsgsOk(reqs, msgs, pending) && StampsOk(reqs, next, resumed) && a < |msgs|
    ensures msgs[a].key in pending && msgs[a].id < |reqs| == |active|
    ensures var r := reqs[msgs[a].id];
            && r.used && r.state.Complete? && r.key == msgs[a].key && r.cpu == msgs[a].target < |active|
            && !active[r.cpu] && r.stamp !in resumed
  {
    assert Is(reqs, msgs[a].id, ReqState.Complete);
  }

  lemma PostKeeps(reqs: seq<Request>, active: seq<bool>, pending: map<nat, seq<nat>>, msgs: seq<Msg>, next: nat,
                  resumed: set<nat>, a: nat)
    requires OwnersOk(reqs, active) && PendingOk(reqs, pending) && MsgsOk(reqs, msgs, pending)
    requires StampsOk(reqs, next, resumed) && a < |msgs|
    ensures msgs[a].id < |reqs| && reqs[msgs[a].id].cpu < |active|
    ensures var i := msgs[a].id;
            var reqs' := reqs[i := reqs[i].(used := false, state := Free)];
            && OwnersOk(reqs', active[reqs[i].cpu := true]) && PendingOk(reqs', pending)
            && MsgsOk(reqs', msgs[..a] + msgs[a + 1..], pending) && StampsOk(reqs', next, resumed + {reqs[i].stamp})
  {
    hide OwnersOk, PendingOk, MsgsOk, StampsOk;
    MsgAt(reqs, active, pending, msgs, next, resumed, a);
    PostOwners(reqs, active, msgs[a].id);
    PostPending(reqs, pending, msgs[a].id);
    PostMsgs(reqs, pending, msgs, a);
    PostStamps(reqs, next, resumed, msgs[a].id);
  }

  lemma PostOwners(reqs: seq<Request>, active: seq<bool>, i: nat)
    requires OwnersOk(reqs, active) && i < |reqs| && reqs[i].used
    ensures reqs[i].cpu < |active|
    ensures OwnersOk(reqs[i := reqs[i].(used := false, state := Free)], active[reqs[i].cpu := true])
  {
    var reqs', active' := reqs[i := reqs[i].(used := false, state := Free)], active[reqs[i].cpu := true];
    forall c | 0 <= c < |active'| && !active'[c] ensures HasRequest(reqs', c) {
      assert HasRequest(reqs, c);
      var j :| 0 <= j < |reqs| && reqs[j].used && reqs[j].cpu == c;
      assert reqs'[j].used && reqs'[j].cpu == c;
    }
  }

  lemma PostPending(reqs: seq<Request>, pending: map<nat, seq<nat>>, i: nat)
    requires PendingOk(reqs, pending) && Is(reqs, i, ReqState.Complete)
    ensures PendingOk(reqs[i := reqs[i].(used := false, state := Free)], pending)
  {
    var reqs' := reqs[i := reqs[i].(used := false, state := Free)];
    forall j: nat | Is(reqs', j, Pending) ensures Is(reqs, j, Pending) {
    }
    forall k, a | k in pending && 0 <= a < |pending[k]| ensures Is(reqs', pending[k][a], Pending) && pending[k][a] != i {
      assert Is(reqs, pending[k][a], Pending);
    }
  }

  lemma PostMsgs(reqs: seq<Request>, pending: map<nat, seq<nat>>, msgs: seq<Msg>, a: nat)
    requires MsgsOk(reqs, msgs, pending) && a < |msgs| && msgs[a].id < |reqs|
    ensures MsgsOk(reqs[msgs[a].id := reqs[msgs[a].id].(used := false, state := Free)], msgs[..a] + msgs[a + 1..], pending)
  {
    var i := msgs[a].id;
    var reqs', msgs' := reqs[i := reqs[i].(used := false, state := Free)], msgs[..a] + msgs[a + 1..];
    assert forall b :: 0 <= b < |msgs'| ==> msgs'[b] == msgs[if b < a then b else b + 1];
    forall b | 0 <= b < |msgs'| ensures Is(reqs', msgs'[b].id, ReqState.Complete) && msgs'[b].id != i {
      assert Is(reqs, msgs[if b < a then b else b + 1].id, ReqState.Complete);
    }
    forall j: nat | Is(reqs', j, ReqState.Complete) ensures Sent(msgs', j) {
      assert Is(reqs, j, ReqState.Complete) && Sent(msgs, j);
      var b :| 0 <= b < |msgs| && msgs[b].id == j;
      assert msgs'[if b < a then b else b - 1].id == j;
    }
  }

  lemma PostStamps(reqs: seq<Request>, next: nat, resumed: set<nat>, i: nat)
    requires StampsOk(reqs, next, resumed) && i < |reqs| && reqs[i].used
    ensures StampsOk(reqs[i := reqs[i].(used := false, state := Free)], next, resumed + {reqs[i].stamp})
  {
    var reqs', resumed' := reqs[i := reqs[i].(used := false, state := Free)], resumed + {reqs[i].stamp};
    forall t: nat | t < next && t !in resumed' ensures Alive(reqs', t) {
      assert Alive(reqs, t);
      var j :| 0 <= j < |reqs| && reqs[j].used && reqs[j].stamp == t;
      assert reqs'[j].used && reqs'[j].stamp == t;
    }
  }
}
