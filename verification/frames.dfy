/** Sets of physical frames, and what allocation does to them. */
module Frames {
  import opened Arith
  import opened Options
  import opened PageTable

  /** The frames base .. base + n - 1. */
  function Run(base: nat, n: nat): (r: set<nat>)
    ensures forall f :: f in r <==> base <= f < base + n
  {
    if n == 0 then {} else Run(base, n - 1) + {base + n - 1}
  }

  lemma {:induction false} FramesBounded(s: set<nat>) returns (b: nat)
    ensures forall f :: f in s ==> f < b
  {
    if s == {} {
      b := 0;
    } else {
      var x :| x in s;
      assert forall f :: f in s ==> f == x || f in s - {x};
      var c := FramesBounded(s - {x});
      b := if x < c then c else x + 1;
    }
  }

  /** Distinct frames that the pools handed out in between. */
  ghost predicate Obtained(got: seq<nat>, before: set<nat>, after: set<nat>) {
    && (forall k :: 0 <= k < |got| ==> got[k] in after && got[k] !in before)
    && (forall k, l :: 0 <= k < l < |got| ==> got[k] != got[l])
  }

  /** Between two memories only tables were added, each in a frame taken from the pools. */
  ghost predicate TablesTaken(mem: Memory, frames: set<nat>, mem': Memory, frames': set<nat>) {
    && mem.Keys <= mem'.Keys && (mem'.Keys - mem.Keys) !! frames
    && frames' == frames + (mem'.Keys - mem.Keys)
  }

  ghost function FrameSet(got: seq<nat>): (r: set<nat>)
    ensures forall k :: 0 <= k < |got| ==> got[k] in r
    ensures forall f :: f in r ==> exists k :: 0 <= k < |got| && got[k] == f
  {
    set k | 0 <= k < |got| :: got[k]
  }

  /** Between two memories the pools handed out just `got` and the frames of new tables, all of them apart. */
  ghost predicate Spent(mem: Memory, frames: set<nat>, mem': Memory, frames': set<nat>, got: seq<nat>) {
    && mem.Keys <= mem'.Keys && (mem'.Keys - mem.Keys) !! frames
    && FrameSet(got) !! frames && FrameSet(got) !! mem'.Keys
    && frames' == frames + FrameSet(got) + (mem'.Keys - mem.Keys)
  }

  lemma SpentNone(mem: Memory, frames: set<nat>, mem': Memory)
    requires mem'.Keys == mem.Keys
    ensures Spent(mem, frames, mem', frames, [])
  {
    assert FrameSet([]) == {};
  }

  lemma SpentTable(mem: Memory, frames: set<nat>, mem': Memory, t: nat)
    requires mem.Keys <= frames && t !in frames && mem'.Keys == mem.Keys + {t}
    ensures Spent(mem, frames, mem', frames + {t}, [])
  {
    assert FrameSet([]) == {} && mem'.Keys - mem.Keys == {t};
  }

  lemma SpentRun(mem: Memory, frames: set<nat>, mem': Memory, base: nat, n: nat)
    requires mem.Keys <= frames && mem'.Keys == mem.Keys && Run(base, n) !! frames
    ensures Spent(mem, frames, mem', frames + Run(base, n), seq(n, k requires 0 <= k => base + k))
  {
    var got := seq(n, k requires 0 <= k => base + k);
    assert FrameSet(got) == Run(base, n) by {
      forall f | f in Run(base, n) ensures f in FrameSet(got) {
        assert got[f - base] == f;
      }
    }
  }

  lemma SpentMore(mem: Memory, frames: set<nat>, mem1: Memory, frames1: set<nat>, mem2: Memory, frames2: set<nat>,
                  got: seq<nat>, more: seq<nat>)
    requires mem.Keys <= frames
    requires Spent(mem, frames, mem1, frames1, got) && Spent(mem1, frames1, mem2, frames2, more)
    ensures Spent(mem, frames, mem2, frames2, got + more) && got + [] == got && [] + more == more
  {
    assert FrameSet(got + more) == FrameSet(got) + FrameSet(more) by {
      forall f | f in FrameSet(got) ensures f in FrameSet(got + more) {
        var k :| 0 <= k < |got| && got[k] == f;
        assert (got + more)[k] == f;
      }
      forall f | f in FrameSet(more) ensures f in FrameSet(got + more) {
        var k :| 0 <= k < |more| && more[k] == f;
        assert (got + more)[|got| + k] == f;
      }
    }
  }

  lemma ObtainedRun(base: nat, n: nat, s0: set<nat>, s1: set<nat>)
    requires Run(base, n) !! s0 && Run(base, n) <= s1
    ensures Obtained(seq(n, k requires 0 <= k => base + k), s0, s1)
  {
  }

  lemma ObtainedMore(got: seq<nat>, more: seq<nat>, s0: set<nat>, s1: set<nat>, s2: set<nat>)
    requires s0 <= s1 <= s2
    ensures Obtained(got, s0, s1) && Obtained(more, s1, s2) ==> Obtained(got + more, s0, s2)
  {
  }

  /**
   * Where the frames `got` of a mapping come from: the caller's consecutive frames, or distinct
   * fresh ones of the pools; besides them the pools have only handed out frames for tables.
   */
  ghost predicate Supplied(ppages: Option<nat>, mem: Memory, frames: set<nat>, mem': Memory, frames': set<nat>, got: seq<nat>) {
    if ppages.Some?
    then (forall k :: 0 <= k < |got| ==> got[k] == ppages.value + k) && Spent(mem, frames, mem', frames', [])
    else Obtained(got, frames, frames') && Spent(mem, frames, mem', frames', got)
  }

  lemma SuppliedNone(ppages: Option<nat>, mem: Memory, frames: set<nat>, mem': Memory, frames': set<nat>)
    requires Spent(mem, frames, mem', frames', [])
    ensures Supplied(ppages, mem, frames, mem', frames', [])
  {
  }

  /** The frames of one block. */
  lemma SuppliedRun(ppages: Option<nat>, mem: Memory, frames: set<nat>, mem': Memory, frames': set<nat>, base: nat, n: nat)
    requires mem.Keys <= frames && mem'.Keys == mem.Keys
    requires if ppages.Some? then base == ppages.value && frames' == frames
             else Run(base, n) !! frames && frames' == frames + Run(base, n)
    ensures Supplied(ppages, mem, frames, mem', frames', seq(n, k requires 0 <= k => base + k))
  {
    hide Spent;
    if ppages.Some? {
      SpentNone(mem, frames, mem');
    } else {
      SpentRun(mem, frames, mem', base, n);
      ObtainedRun(base, n, frames, frames');
    }
  }

  lemma SuppliedMore(ppages: Option<nat>, next: Option<nat>, mem: Memory, frames: set<nat>, mem1: Memory, frames1: set<nat>,
                     mem2: Memory, frames2: set<nat>, got: seq<nat>, more: seq<nat>)
    requires mem.Keys <= frames && frames <= frames1 <= frames2
    requires next == if ppages.Some? then Some(ppages.value + |got|) else None
    requires Supplied(ppages, mem, frames, mem1, frames1, got) && Supplied(next, mem1, frames1, mem2, frames2, more)
    ensures Supplied(ppages, mem, frames, mem2, frames2, got + more) && got + [] == got && [] + more == more
  {
    hide Spent, Obtained;
    if ppages.Some? {
      SpentMore(mem, frames, mem1, frames1, mem2, frames2, [], []);
    } else {
      SpentMore(mem, frames, mem1, frames1, mem2, frames2, got, more);
      ObtainedMore(got, more, frames, frames1, frames2);
    }
  }

  lemma MultipleOf(b: nat, n: nat)
    requires n > 0
    ensures b * n % n == 0 && b * n >= b
  {
    DivModUnique(b * n, n, b, 0);
    MulMono(1, n, b);
  }
}
