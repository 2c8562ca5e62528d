/**
 * Physical page pools: plain, aligned and coloured allocation, reservation and freeing over
 * a word-packed bitmap. Addresses are page numbers; `bit` and `index` are relative to the pool.
 */
module PagePools {
  import opened AlignedSearch
  import opened Bitmap
  import opened Colors
  import opened Frames
  import opened Granule
  import opened Arith

  datatype Ppages = Ppages(base: nat, numPages: nat, colors: set<nat>)

  // ----- counting free pages

  lemma {:induction false} CountSame(words: seq<Word>, words': seq<Word>, lo: nat, hi: nat, v: bool)
    requires hi <= 32 * |words| && hi <= 32 * |words'|
    requires forall i :: lo <= i < hi ==> Get(words', i) == Get(words, i)
    ensures Count(words', lo, hi, v) == Count(words, lo, hi, v)
    decreases hi
  {
    hide Get;
    if lo < hi {
      CountSame(words, words', lo, hi - 1, v);
    }
  }

  lemma {:induction false} CountSplit(words: seq<Word>, lo: nat, mid: nat, hi: nat, v: bool)
    requires lo <= mid <= hi <= 32 * |words|
    ensures Count(words, lo, hi, v) == Count(words, lo, mid, v) + Count(words, mid, hi, v)
    decreases hi
  {
    hide Get;
    if mid < hi {
      CountSplit(words, lo, mid, hi - 1, v);
    }
  }

  lemma {:induction false} CountAll(words: seq<Word>, lo: nat, hi: nat, v: bool)
    requires lo <= hi <= 32 * |words| && All(words, lo, hi, v)
    ensures Count(words, lo, hi, v) == hi - lo
    decreases hi
  {
    hide Get;
    if lo < hi {
      CountAll(words, lo, hi - 1, v);
    }
  }

  /** Setting a run of clear bits takes its length off the count of clear bits. */
  lemma CountSetRun(words: seq<Word>, words': seq<Word>, size: nat, start: nat, n: nat)
    requires size <= 32 * |words| && |words'| == |words| && start + n <= size
    requires All(words, start, start + n, false)
    requires forall i :: 0 <= i < 32 * |words| ==> Get(words', i) == (start <= i < start + n || Get(words, i))
    ensures Count(words', 0, size, false) == Count(words, 0, size, false) - n
  {
    hide Get;
    CountSplit(words, 0, start, size, false);
    CountSplit(words, start, start + n, size, false);
    CountSplit(words', 0, start, size, false);
    CountSplit(words', start, start + n, size, false);
    CountSame(words, words', 0, start, false);
    CountSame(words, words', start + n, size, false);
    CountAll(words, start, start + n, false);
    CountNone(words', start, start + n, false);
  }

  lemma {:induction false} NoneFree(words: seq<Word>, size: nat, n: nat)
    requires size <= 32 * |words| && Count(words, 0, size, false) == 0 && n > 0
    ensures forall j :: 0 <= j ==> !RunAt(words, size, j, n, false)
  {
    hide Get;
    CountNone(words, 0, size, false);
    forall j | 0 <= j ensures !RunAt(words, size, j, n, false) {
      if j < size {
        assert Get(words, j);
      }
    }
  }

  /** How far index `x` is past an aligned page, for a pool that starts `start` past one. */
  function Misalignment(x: nat, start: nat, n: nat): nat
    requires n > 0
  {
    (x + start) % n
  }

  class PagePool {
    const geometry: Geometry
    const base: nat
    const numPages: nat
    const bitmap: array<Word>
    var free: nat
    var last: nat
    /** The index sets handed out so far, in order. */
    ghost var granted: seq<set<nat>>

    ghost predicate Shape() {
      && numPages % 32 == 0 && numPages < 32 * bitmap.Length && numPages < SIZE_MAX
      && ValidGeometry(geometry)
    }

    predicate Used(i: nat)
      requires i < 32 * bitmap.Length
      reads bitmap
    {
      BitmapGet(bitmap, i)
    }

    /** What has been handed out is set in the bitmap, once, inside the pool; the rest is free. */
    ghost predicate Valid()
      reads this, bitmap
    {
      && Shape() && last <= numPages
      && free == Count(bitmap[..], 0, numPages, false)
      && Disjoint(granted)
      && (forall i :: 0 <= i < numPages ==> (Get(bitmap[..], i) <==> InSome(granted, i)))
      && (forall k, i :: 0 <= k < |granted| && i in granted[k] ==> i < numPages)
    }

    /** pp_init, with one readable granule past the end of the bitmap */
    constructor (geometry: Geometry, base: nat, numPages: nat)
      requires ValidGeometry(geometry) && numPages % 32 == 0 && numPages < SIZE_MAX
      ensures Valid() && granted == [] && free == numPages && last == 0 && fresh(bitmap)
      ensures this.geometry == geometry && this.base == base && this.numPages == numPages
    {
      this.geometry, this.base, this.numPages := geometry, base, numPages;
      bitmap := new Word[numPages / 32 + 1](_ => 0);
      free, last, granted := numPages, 0, [];
      new;
      AllClear(bitmap[..], numPages);
    }

    /** No `n` consecutive pages of the pool are free. */
    ghost predicate NoRun(n: nat)
      requires Shape()
      reads bitmap
    {
      forall j :: 0 <= j ==> !RunAt(bitmap[..], numPages, j, n, false)
    }

    /** The two passes of an aligned search, from the last page handed out and from the first aligned one. */
    ghost predicate AlignedFound(n: nat)
      requires Shape() && n > 0
      reads this, bitmap
    {
      || Reached(bitmap[..], numPages, base, n, last + Past(base, n, last))
      || Reached(bitmap[..], numPages, base, n, NextAligned(base, n))
    }

    /** The search stops at an aligned run, and hops on from any other, missing nothing it would have found. */
    lemma HopOn(n: nat, curr: nat, bit: nat)
      requires Shape() && n > 0 && curr <= bit && RunAt(bitmap[..], numPages, bit, n, false)
      requires forall j :: curr <= j < bit ==> !RunAt(bitmap[..], numPages, j, n, false)
      ensures var words := bitmap[..];
              if Past(base, n, bit) == 0 then Reached(words, numPages, base, n, curr)
              else Reached(words, numPages, base, n, curr) == Reached(words, numPages, base, n, bit + Past(base, n, bit))
    {
      hide RunAt;
      ReachedFirst(bitmap[..], numPages, base, n, curr, bit);
      if Past(base, n, bit) == 0 {
        ReachedHere(bitmap[..], numPages, base, n, bit);
      } else {
        ReachedHop(bitmap[..], numPages, base, n, bit);
      }
    }

    // ----- plain and aligned allocation

    /** The inner loop of pp_alloc: one pass, from page `from`. */
    method Search(n: nat, aligned: bool, from: nat) returns (bit: int)
      requires Valid() && n > 0
      ensures -1 <= bit
      ensures bit >= 0 ==> RunAt(bitmap[..], numPages, bit, n, false) && (aligned ==> (base + bit) % n == 0)
      ensures bit < 0 && !aligned ==> forall j :: from <= j ==> !RunAt(bitmap[..], numPages, j, n, false)
      ensures aligned ==> (bit >= 0 <==> Reached(bitmap[..], numPages, base, n, from))
    {
      hide Get, All, RunAt, Count, Disjoint, InSome, Misalignment, Reached;
      ghost var words := bitmap[..];
      var start, curr := base % n, from;
      while true
        invariant !aligned ==> curr == from
        invariant aligned ==> Reached(words, numPages, base, n, curr) == Reached(words, numPages, base, n, from)
        decreases if curr < numPages then numPages - curr else 0
      {
        bit := BitmapFindConsec(bitmap, numPages, curr, n, false);
        assert bitmap[..] == words;
        if bit < 0 {
          ReachedNone(words, numPages, base, n, curr);
          return;
        }
        RunFits(words, bit, n);
        MisalignmentIs(base, bit, n);
        HopOn(n, curr, bit);
        if !aligned || Misalignment(bit, start, n) == 0 {
          return;
        }
        curr := bit + Misalignment(bit, start, n);
      }
    }

    /** The two passes of pp_alloc. */
    method SearchTwice(n: nat, aligned: bool) returns (bit: int)
      requires Valid() && n > 0
      ensures -1 <= bit
      ensures bit >= 0 ==> RunAt(bitmap[..], numPages, bit, n, false) && (aligned ==> (base + bit) % n == 0)
      ensures !aligned ==> (bit >= 0 <==> !NoRun(n))
      ensures aligned ==> (bit >= 0 <==> AlignedFound(n))
    {
      hide Get, RunAt, Count, Disjoint, InSome, Misalignment, NextAligned, Reached;
      ghost var words := bitmap[..];
      var curr := last;
      if aligned {
        MisalignmentIs(base, last, n);
        curr := last + Misalignment(last, base % n, n);
      }
      ghost var from, next := curr, NextAligned(base, n);
      if free == 0 {
        NoneFree(words, numPages, n);
        ReachedNone(words, numPages, base, n, from);
        ReachedNone(words, numPages, base, n, next);
      }
      for i := 0 to 2
        invariant curr == if i == 0 then from else if aligned then next else 0
        invariant !aligned && (i == 2 || free == 0) ==> NoRun(n)
        invariant aligned && (i > 0 || free == 0) ==> !Reached(words, numPages, base, n, from)
        invariant aligned && (i == 2 || free == 0) ==> !Reached(words, numPages, base, n, next)
      {
        if free != 0 {
          bit := Search(n, aligned, curr);
          if bit >= 0 {
            return;
          }
        }
        curr := if aligned then NextAligned(base, n) else 0;
      }
      return -1;
    }

    /** pp_alloc */
    method PpAlloc(n: nat, aligned: bool) returns (ok: bool, ppages: Ppages)
      requires Valid()
      modifies this, bitmap
      ensures Valid()
      ensures ok && n > 0 ==>
                && base <= ppages.base && ppages.numPages == n && (aligned ==> ppages.base % n == 0)
                && RunAt(old(bitmap[..]), numPages, ppages.base - base, n, false)
                && granted == old(granted) + [Run(ppages.base - base, n)]
                && free == old(free) - n
      ensures !ok || n == 0 ==> granted == old(granted) && bitmap[..] == old(bitmap[..]) && free == old(free)
      ensures n == 0 ==> ok && ppages.numPages == 0
      ensures ppages.colors == {}
      ensures !aligned && n > 0 ==> (ok <==> !old(NoRun(n)))
      ensures aligned && n > 0 ==> (ok <==> old(AlignedFound(n)))
    {
      hide Get, RunAt, Count, Disjoint, InSome, AlignedFound, NoRun;
      ppages := Ppages(0, 0, {});
      if n == 0 {
        return true, ppages;
      }
      var bit := SearchTwice(n, aligned);
      ok := bit >= 0;
      if ok {
        ppages := Ppages(base + bit, n, {});
        Take(bit, n);
        RunFits(old(bitmap[..]), bit, n);
        last := bit + n;
      }
    }

    lemma RunFits(words: seq<Word>, bit: nat, n: nat)
      requires numPages <= 32 * |words| && RunAt(words, numPages, bit, n, false)
      ensures bit + n <= numPages
    {
    }

    /** Marks a free run as handed out. */
    method Take(start: nat, n: nat)
      requires Valid() && n > 0 && RunAt(bitmap[..], numPages, start, n, false)
      modifies this`free, this`granted, bitmap
      ensures Valid() && granted == old(granted) + [Run(start, n)] && free == old(free) - n
    {
      hide Get, Count, Disjoint, InSome;
      ghost var words, run := bitmap[..], Run(start, n);
      RunIsNew(words, granted, start, n);
      GrantSet(granted, run);
      BitmapSetConsecutive(bitmap, start, n);
      CountSetRun(words, bitmap[..], numPages, start, n);
      free := free - n;
      forall i | 0 <= i < numPages ensures Get(bitmap[..], i) <==> InSome(granted + [run], i) {
        InSomeMore(granted, run, i);
      }
      granted := granted + [run];
    }

    // ----- coloured allocation

    /** The k-th page of the coloured run that starts at or after `first`. */
    ghost function ClrPage(colors: set<nat>, first: nat, k: nat): nat
      requires ValidGeometry(geometry) && SomeColor(geometry, colors)
    {
      Kth(geometry, base, colors, first, k)
    }

    /** The first `n` coloured pages from `s` on are free and inside the pool. */
    ghost predicate ClrRunAt(words: seq<Word>, colors: set<nat>, s: nat, n: nat)
      requires ValidGeometry(geometry) && SomeColor(geometry, colors) && numPages <= 32 * |words|
    {
      forall k :: 0 <= k < n ==> ClrPage(colors, s, k) < numPages && !Get(words, ClrPage(colors, s, k))
    }

    /** No coloured run of `n` starts at a coloured page of lo .. hi - 1. */
    ghost predicate NoClrRun(words: seq<Word>, colors: set<nat>, n: nat, lo: nat, hi: nat)
      requires ValidGeometry(geometry) && SomeColor(geometry, colors) && numPages <= 32 * |words|
    {
      forall s :: lo <= s < hi && Colored(geometry, base, colors, s) ==> !ClrRunAt(words, colors, s, n)
    }

    /** A run cut short at its k-th page rules out every start up to that page. */
    lemma CutShort(words: seq<Word>, colors: set<nat>, n: nat, first: nat, k: nat)
      requires ValidGeometry(geometry) && SomeColor(geometry, colors) && numPages <= 32 * |words| && k < n
      requires var p := ClrPage(colors, first, k); p < numPages ==> Get(words, p)
      ensures NoClrRun(words, colors, n, first, ClrPage(colors, first, k) + 1)
    {
      hide Get, Kth, Colored;
      var p := ClrPage(colors, first, k);
      forall s | first <= s < p + 1 && Colored(geometry, base, colors, s) ensures !ClrRunAt(words, colors, s, n) {
        var j := KthCovers(geometry, base, colors, first, k, s);
        KthFrom(geometry, base, colors, first, j, k - j);
        assert ClrPage(colors, s, k - j) == p;
      }
    }

    lemma NextIsFirst(colors: set<nat>, from: nat)
      requires ValidGeometry(geometry) && SomeColor(geometry, colors)
      ensures var p := NextClr(geometry, base, colors, from);
              ClrPage(colors, from, 0) == p && ClrPage(colors, p, 0) == p
    {
      hide NextClr;
      NextClrUnique(geometry, base, colors, NextClr(geometry, base, colors, from), NextClr(geometry, base, colors, from));
    }

    lemma NextPage(colors: set<nat>, first: nat, k: nat)
      requires ValidGeometry(geometry) && SomeColor(geometry, colors)
      ensures ClrPage(colors, first, k + 1) == NextClr(geometry, base, colors, ClrPage(colors, first, k) + 1)
    {
    }

    lemma NoClrRunJoin(words: seq<Word>, colors: set<nat>, n: nat, lo: nat, mid: nat, hi: nat)
      requires ValidGeometry(geometry) && SomeColor(geometry, colors) && numPages <= 32 * |words|
      requires NoClrRun(words, colors, n, lo, mid) && NoClrRun(words, colors, n, mid, hi)
      ensures NoClrRun(words, colors, n, lo, hi)
    {
      hide Kth, Colored, ClrRunAt;
    }

    /** No page before the next coloured one is coloured. */
    lemma SkipUncolored(words: seq<Word>, colors: set<nat>, n: nat, from: nat)
      requires ValidGeometry(geometry) && SomeColor(geometry, colors) && numPages <= 32 * |words|
      ensures NoClrRun(words, colors, n, from, NextClr(geometry, base, colors, from))
    {
      hide Kth, Colored, ClrRunAt;
    }

    /**
     * One pass of the search of pp_alloc_clr, over the starts from .. limit - 1: a coloured
     * run of free pages, or none. `left` is the count an earlier pass stopped with.
     */
    method ClrSearch(n: nat, colors: set<nat>, from: nat, limit: nat, left: nat) returns (taken: nat, first: nat)
      requires Valid() && SomeColor(geometry, colors) && limit <= numPages && left < n
      ensures taken == n ==> ClrRunAt(bitmap[..], colors, first, n) && ClrPage(colors, first, 0) == first
      ensures taken != n ==> taken < n && NoClrRun(bitmap[..], colors, n, from, limit)
    {
      hide Get, NextClr, Kth, Colored, ClrRunAt, NoClrRun, Count, Disjoint, InSome, ClrPage;
      ghost var words := bitmap[..];
      taken, first := left, 0;
      var index := PpNextClr(geometry, base, from, colors);
      SkipUncolored(words, colors, n, from);
      NextIsFirst(colors, from);
      while taken < n && index < limit
        invariant taken <= n && from <= index
        invariant taken == n ==> ClrRunAt(words, colors, first, n) && ClrPage(colors, first, 0) == first
        invariant taken < n ==> NoClrRun(words, colors, n, from, index) && ClrPage(colors, index, 0) == index
        decreases limit - index
      {
        taken := 0;
        index := ClrFirstFree(n, colors, from, index, limit);
        if index >= limit {
          break;
        }
        first := index;
        taken, index := ClrCount(n, colors, from, first);
      }
      if taken != n {
        NoClrRunShorter(words, colors, n, from, limit, index);
      }
    }

    /** Finds the first free page on the colours. */
    method ClrFirstFree(n: nat, colors: set<nat>, ghost from: nat, index0: nat, limit: nat) returns (index: nat)
      requires Valid() && SomeColor(geometry, colors) && limit <= numPages && n > 0 && from <= index0
      requires NoClrRun(bitmap[..], colors, n, from, index0) && ClrPage(colors, index0, 0) == index0
      ensures index0 <= index && NoClrRun(bitmap[..], colors, n, from, index) && ClrPage(colors, index, 0) == index
      ensures index < limit ==> !Get(bitmap[..], index)
    {
      hide Get, NextClr, Kth, Colored, ClrRunAt, NoClrRun, Count, Disjoint, InSome, ClrPage;
      ghost var words := bitmap[..];
      index := index0;
      while index < limit && Used(index)
        invariant index0 <= index && NoClrRun(words, colors, n, from, index) && ClrPage(colors, index, 0) == index
      {
        GetIsBit(bitmap, index);
        CutShort(words, colors, n, index, 0);
        SkipUncolored(words, colors, n, index + 1);
        NextIsFirst(colors, index + 1);
        ghost var was := index;
        index := PpNextClr(geometry, base, index + 1, colors);
        NoClrRunJoin(words, colors, n, from, was, was + 1);
        NoClrRunJoin(words, colors, n, from, was + 1, index);
      }
      if index < limit {
        GetIsBit(bitmap, index);
      }
    }

    /** Counts the free pages of the coloured run from `first`, up to `n`. */
    method ClrCount(n: nat, colors: set<nat>, ghost from: nat, first: nat) returns (taken: nat, index: nat)
      requires Valid() && SomeColor(geometry, colors) && n > 0 && from <= first < numPages
      requires NoClrRun(bitmap[..], colors, n, from, first) && ClrPage(colors, first, 0) == first
      requires !Get(bitmap[..], first)
      ensures first < index && taken <= n
      ensures taken == n ==> ClrRunAt(bitmap[..], colors, first, n)
      ensures taken < n ==> NoClrRun(bitmap[..], colors, n, from, index) && ClrPage(colors, index, 0) == index
    {
      hide Get, NextClr, Kth, Colored, NoClrRun, Count, Disjoint, InSome, ClrPage;
      ghost var words := bitmap[..];
      taken, index := 0, first;
      GetIsBit(bitmap, first);
      NextIsFirst(colors, first);
      while index < numPages && !Used(index) && taken < n
        invariant taken <= n && first <= index == ClrPage(colors, first, taken) && (taken == 0 ==> index == first)
        invariant taken > 0 ==> first < index && ClrPage(colors, index, 0) == index
        invariant ClrRunAt(words, colors, first, taken)
        decreases n - taken
      {
        GetIsBit(bitmap, index);
        NextIsFirst(colors, index + 1);
        NextPage(colors, first, taken);
        taken := taken + 1;
        index := PpNextClr(geometry, base, index + 1, colors);
      }
      if taken < n {
        if index < numPages {
          GetIsBit(bitmap, index);
        }
        CutShort(words, colors, n, first, taken);
        NoClrRunJoin(words, colors, n, from, first, index + 1);
        NoClrRunShorter(words, colors, n, from, index, index + 1);
      }
    }

    lemma NoClrRunShorter(words: seq<Word>, colors: set<nat>, n: nat, lo: nat, mid: nat, hi: nat)
      requires ValidGeometry(geometry) && SomeColor(geometry, colors) && numPages <= 32 * |words|
      requires NoClrRun(words, colors, n, lo, hi) && mid <= hi
      ensures NoClrRun(words, colors, n, lo, mid)
    {
      hide Kth, Colored, ClrRunAt;
    }

    /** The pages of a coloured run. */
    ghost function ClrSet(colors: set<nat>, first: nat, n: nat): (r: set<nat>)
      requires ValidGeometry(geometry) && SomeColor(geometry, colors)
      ensures forall i :: i in r <==> exists k :: 0 <= k < n && ClrPage(colors, first, k) == i
    {
      set k: nat | 0 <= k < n :: ClrPage(colors, first, k)
    }

    /** pp_alloc_clr */
    method PpAllocClr(n: nat, colors: set<nat>) returns (ok: bool, ppages: Ppages)
      requires Valid() && SomeColor(geometry, colors)
      modifies this, bitmap
      ensures Valid()
      ensures ppages.colors == colors
      ensures ok && n > 0 ==>
                && base <= ppages.base && ppages.numPages == n
                && ClrPage(colors, ppages.base - base, 0) == ppages.base - base
                && ClrRunAt(old(bitmap[..]), colors, ppages.base - base, n)
                && granted == old(granted) + [ClrSet(colors, ppages.base - base, n)]
                && free == old(free) - n
      ensures n == 0 ==> ok && ppages.numPages == 0
      ensures !ok ==> granted == old(granted) && bitmap[..] == old(bitmap[..]) && free == old(free)
      ensures !ok ==> forall s :: 0 <= s && Colored(geometry, base, colors, s) ==> !ClrRunAt(bitmap[..], colors, s, n)
    {
      hide Get, NextClr, Kth, Colored, ClrRunAt, NoClrRun, Count, Disjoint, InSome, ClrPage, ClrSet;
      ppages := Ppages(base, 0, colors);
      if n == 0 {
        last := 0;
        return true, ppages;
      }
      var from: nat, limit: nat, taken: nat, first: nat := last, numPages, 0, 0;
      for i := 0 to 2
        invariant Valid() && taken < n && limit <= numPages
        invariant bitmap[..] == old(bitmap[..]) && free == old(free) && granted == old(granted) && last == old(last)
        invariant i == 0 ==> from == last && limit == numPages
        invariant i > 0 ==> NoClrRun(bitmap[..], colors, n, last, numPages) && from == 0 && limit == last
        invariant i > 1 ==> NoClrRun(bitmap[..], colors, n, 0, last)
      {
        taken, first := ClrSearch(n, colors, from, limit, taken);
        if taken == n {
          ppages := Ppages(base + first, n, colors);
          ClrTake(first, n, colors);
          return true, ppages;
        }
        from, limit := 0, last;
      }
      NoClrRunJoin(bitmap[..], colors, n, 0, last, numPages);
      NoClrRunAnywhere(bitmap[..], colors, n);
      return false, ppages;
    }

    /** Marks the pages of a coloured run, stepping with pp_next_clr as the search did. */
    method ClrTake(first0: nat, n: nat, colors: set<nat>)
      requires Valid() && SomeColor(geometry, colors) && n > 0
      requires ClrRunAt(bitmap[..], colors, first0, n) && ClrPage(colors, first0, 0) == first0
      modifies this, bitmap
      ensures Valid() && granted == old(granted) + [ClrSet(colors, first0, n)] && free == old(free) - n
    {
      hide Get, NextClr, Kth, Colored, Count, Disjoint, InSome, ClrPage;
      ghost var words, run := bitmap[..], ClrSet(colors, first0, n);
      var first, j := first0, 0;
      while j < n
        invariant j <= n && free == old(free) && granted == old(granted) && last == old(last)
        invariant j > 0 ==> first == ClrPage(colors, first0, j - 1) + 1
        invariant j == 0 ==> first == first0
        invariant first <= numPages
        invariant forall i :: 0 <= i < 32 * bitmap.Length ==>
                    (Get(bitmap[..], i) <==> i in ClrSet(colors, first0, j) || Get(words, i))
        invariant Count(bitmap[..], 0, numPages, false) == Count(words, 0, numPages, false) - j
      {
        if j == 0 {
          NextIsFirst(colors, first0);
        } else {
          NextPage(colors, first0, j - 1);
        }
        first := PpNextClr(geometry, base, first, colors);
        ClrSetMore(colors, first0, j);
        ghost var before := bitmap[..];
        BitmapSet(bitmap, first);
        CountSetRun(before, bitmap[..], numPages, first, 1);
        first, j := first + 1, j + 1;
      }
      free := free - n;
      last := first;
      ClrRunIsNew(words, colors, first0, n);
      GrantSet(granted, run);
      forall i | 0 <= i < numPages ensures Get(bitmap[..], i) <==> InSome(granted + [run], i) {
        InSomeMore(granted, run, i);
      }
      granted := granted + [run];
    }

    lemma NoClrRunAnywhere(words: seq<Word>, colors: set<nat>, n: nat)
      requires ValidGeometry(geometry) && SomeColor(geometry, colors) && numPages <= 32 * |words| && n > 0
      requires NoClrRun(words, colors, n, 0, numPages)
      ensures forall s :: 0 <= s && Colored(geometry, base, colors, s) ==> !ClrRunAt(words, colors, s, n)
    {
      hide Kth, Colored, Get;
      forall s | 0 <= s && Colored(geometry, base, colors, s) ensures !ClrRunAt(words, colors, s, n) {
        if s >= numPages {
          assert ClrPage(colors, s, 0) >= s;
        }
      }
    }

    lemma ClrSetMore(colors: set<nat>, first: nat, j: nat)
      requires ValidGeometry(geometry) && SomeColor(geometry, colors)
      ensures ClrPage(colors, first, j) !in ClrSet(colors, first, j)
      ensures forall i :: i in ClrSet(colors, first, j + 1) <==> i in ClrSet(colors, first, j) || i == ClrPage(colors, first, j)
    {
      hide Kth;
      forall k | 0 <= k < j ensures ClrPage(colors, first, k) != ClrPage(colors, first, j) {
        KthIncreases(geometry, base, colors, first, k, j);
      }
    }

    lemma ClrRunIsNew(words: seq<Word>, colors: set<nat>, first: nat, n: nat)
      requires ValidGeometry(geometry) && SomeColor(geometry, colors) && numPages <= 32 * |words|
      requires ClrRunAt(words, colors, first, n)
      requires forall i :: 0 <= i < numPages ==> (Get(words, i) <==> InSome(granted, i))
      ensures forall i :: i in ClrSet(colors, first, n) ==> i < numPages && !InSome(granted, i)
    {
      hide Kth, Get, InSome;
    }

    // ----- reservation and freeing

    predicate PpagesInPool(ppages: Ppages) {
      base <= ppages.base && ppages.base + ppages.numPages <= base + numPages
    }

    /** mem_are_ppages_reserved_in_pool */
    method ArePpagesReserved(ppages: Ppages) returns (reserved: bool)
      requires Valid() && ppages.numPages > 0
      ensures reserved <==> PpagesInPool(ppages) && !RunAt(bitmap[..], numPages, ppages.base - base, ppages.numPages, false)
    {
      hide Get, All, RunLen, Count;
      reserved := false;
      if PpagesInPool(ppages) {
        var pageoff := ppages.base - base;
        var isAlloced := BitmapGet(bitmap, pageoff);
        GetIsBit(bitmap, pageoff);
        var avail := BitmapCountConsecutive(bitmap, numPages, pageoff, ppages.numPages);
        RunAtLeast(bitmap[..], pageoff, ppages.numPages, numPages, isAlloced);
        if isAlloced {
          AllFirst(bitmap[..], pageoff, ppages.numPages);
        }
        reserved := isAlloced || avail < ppages.numPages;
      }
    }

    lemma AllFirst(words: seq<Word>, lo: nat, n: nat)
      requires n > 0 && lo + n <= 32 * |words| && Get(words, lo)
      ensures !All(words, lo, lo + n, false)
    {
    }

    /** mem_reserve_ppool_ppages: takes the caller's pages if all of them are in the pool and free. */
    method ReservePpages(ppages: Ppages) returns (reserved: bool)
      requires Valid() && ppages.numPages > 0
      modifies this`free, this`granted, bitmap
      ensures Valid()
      ensures reserved <==> PpagesInPool(ppages)
                            && RunAt(old(bitmap[..]), numPages, ppages.base - base, ppages.numPages, false)
      ensures reserved ==> granted == old(granted) + [Run(ppages.base - base, ppages.numPages)]
                           && free == old(free) - ppages.numPages
      ensures !reserved ==> granted == old(granted) && bitmap[..] == old(bitmap[..]) && free == old(free)
    {
      hide Get, All, Count, Disjoint, InSome;
      reserved := false;
      var already := ArePpagesReserved(ppages);
      if PpagesInPool(ppages) && !already {
        Take(ppages.base - base, ppages.numPages);
        reserved := true;
      }
    }

    /**
     * The part of mem_free_ppages that concerns one pool: clears exactly the pages of the
     * plain or the coloured run. The pool's count of free pages is left as it was.
     */
    method FreePpages(ppages: Ppages)
      requires Shape()
      requires base <= ppages.base < base + numPages ==> forall i :: i in FreedSet(ppages) ==> i < numPages
      modifies bitmap
      ensures forall i :: 0 <= i < numPages ==>
                Get(bitmap[..], i) ==
                (old(Get(bitmap[..], i)) && !(base <= ppages.base < base + numPages && i in FreedSet(ppages)))
    {
      hide Get, NextClr, Kth, Colored, ClrPage;
      if base <= ppages.base && ppages.base + 1 <= base + numPages {
        var index: nat := ppages.base - base;
        NotAllClrs(geometry, ppages.colors);
        if !AllClrs(geometry, ppages.colors) {
          ghost var first := index;
          var i := 0;
          while i < ppages.numPages
            invariant i <= ppages.numPages
            invariant if i == 0 then index == first else index == ClrPage(ppages.colors, first, i - 1) + 1
            invariant forall k :: 0 <= k < numPages ==>
                        Get(bitmap[..], k) == (old(Get(bitmap[..], k)) && k !in ClrSet(ppages.colors, first, i))
          {
            if i == 0 {
              NextIsFirst(ppages.colors, first);
            } else {
              NextPage(ppages.colors, first, i - 1);
            }
            index := PpNextClr(geometry, base, index, ppages.colors);
            ClrSetMore(ppages.colors, first, i);
            assert index in FreedSet(ppages) by {
              assert index == ClrPage(ppages.colors, first, i);
            }
            BitmapClear(bitmap, index);
            index, i := index + 1, i + 1;
          }
        } else {
          FreedAll(ppages);
          if ppages.numPages > 0 {
            assert index + ppages.numPages - 1 in FreedSet(ppages);
          }
          BitmapClearConsecutive(bitmap, index, ppages.numPages);
        }
      }
    }

    /** The pool-relative pages FreePpages clears: the run, or its coloured pages if the map names a colour. */
    ghost function FreedSet(ppages: Ppages): set<nat>
      requires ValidGeometry(geometry) && base <= ppages.base
    {
      if SomeColor(geometry, ppages.colors) then ClrSet(ppages.colors, ppages.base - base, ppages.numPages)
      else Run(ppages.base - base, ppages.numPages)
    }

    /** A map of all colours stands for the plain run. */
    lemma FreedAll(ppages: Ppages)
      requires ValidGeometry(geometry) && base <= ppages.base && AllClrs(geometry, ppages.colors)
      ensures FreedSet(ppages) == Run(ppages.base - base, ppages.numPages)
    {
      hide Kth;
      if SomeColor(geometry, ppages.colors) {
        var first := ppages.base - base;
        forall k | 0 <= k < ppages.numPages ensures ClrPage(ppages.colors, first, k) == first + k {
          KthAll(geometry, base, ppages.colors, first, k);
        }
        forall i | i in Run(first, ppages.numPages) ensures i in ClrSet(ppages.colors, first, ppages.numPages) {
          assert ClrPage(ppages.colors, first, i - first) == i;
        }
      }
    }

    // ----- what is allocated can be given back

    /** The bits of the pool. */
    ghost function Bits(): seq<bool>
      requires Shape()
      reads bitmap
    {
      var words := bitmap[..];
      seq(numPages, i requires 0 <= i < numPages => Get(words, i))
    }

    /** Freeing what pp_alloc has just handed out restores every bit of the pool. */
    method AllocFree(n: nat, aligned: bool) returns (ok: bool, ppages: Ppages)
      requires Valid() && n > 0
      modifies this, bitmap
      ensures Bits() == old(Bits())
      ensures ok ==> base <= ppages.base && FreedSet(ppages) == Run(ppages.base - base, n)
    {
      hide Get, Count, Disjoint, InSome, AlignedFound, NoRun;
      ok, ppages := PpAlloc(n, aligned);
      if ok {
        GrantedBits(old(granted), Run(ppages.base - base, n), old(bitmap[..]));
        assert FreedSet(ppages) == Run(ppages.base - base, n);
        FreePpages(ppages);
      }
    }

    /** Freeing what pp_alloc_clr has just handed out, likewise. */
    method ClrAllocFree(n: nat, colors: set<nat>) returns (ok: bool, ppages: Ppages)
      requires Valid() && SomeColor(geometry, colors) && n > 0
      modifies this, bitmap
      ensures Bits() == old(Bits())
      ensures ok ==> base <= ppages.base && FreedSet(ppages) == ClrSet(colors, ppages.base - base, n)
    {
      hide Get, Count, Disjoint, InSome, ClrSet, ClrRunAt, Kth, Colored;
      ok, ppages := PpAllocClr(n, colors);
      if ok {
        GrantedBits(old(granted), ClrSet(colors, ppages.base - base, n), old(bitmap[..]));
        FreePpages(ppages);
      }
    }

    /** What the last grant added to the bits. */
    lemma GrantedBits(before: seq<set<nat>>, run: set<nat>, words: seq<Word>)
      requires Valid() && granted == before + [run] && numPages <= 32 * |words|
      requires forall i :: 0 <= i < numPages ==> (Get(words, i) <==> InSome(before, i))
      ensures forall i :: i in run ==> i < numPages
      ensures forall i :: 0 <= i < numPages ==> (Get(bitmap[..], i) <==> Get(words, i) || i in run)
      ensures forall i :: 0 <= i < numPages && i in run ==> !Get(words, i)
    {
      hide Get, Count;
      assert granted[|before|] == run;
      forall i | 0 <= i < numPages
        ensures Get(bitmap[..], i) <==> Get(words, i) || i in run
        ensures i in run ==> !Get(words, i)
      {
        InSomeMore(before, run, i);
        if i in run {
          LastIsNew(before, run, i);
        }
      }
    }
  }

  lemma AllClear(words: seq<Word>, size: nat)
    requires size <= 32 * |words| && forall k :: 0 <= k < |words| ==> words[k] == 0
    ensures Count(words, 0, size, false) == size && forall i :: 0 <= i < size ==> !Get(words, i)
  {
    hide Bit, Count;
    forall i | 0 <= i < size ensures !Get(words, i) {
      ZeroHasNoBit(i % 32);
    }
    CountAll(words, 0, size, false);
  }

  /** Clear bits belong to nothing handed out. */
  lemma RunIsNew(words: seq<Word>, granted: seq<set<nat>>, start: nat, n: nat)
    requires start + n <= 32 * |words| && All(words, start, start + n, false)
    requires forall i :: start <= i < start + n ==> (Get(words, i) <==> InSome(granted, i))
    ensures forall i :: i in Run(start, n) ==> !InSome(granted, i)
  {
  }

  /** The search measures misalignment from the pool's own. */
  lemma MisalignmentIs(base: nat, x: nat, n: nat)
    requires n > 0
    ensures Misalignment(x, base % n, n) == Past(base, n, x)
  {
    var q, r := base / n, base % n;
    var k, m := (x + r) / n, (x + r) % n;
    assert base == q * n + r && x + r == k * n + m;
    assert base + x == (q + k) * n + m;
    DivModUnique(base + x, n, q + k, m);
  }

  // ----- what has been handed out

  ghost predicate Disjoint(granted: seq<set<nat>>) {
    forall k, l :: 0 <= k < l < |granted| ==> granted[k] !! granted[l]
  }

  ghost predicate InSome(granted: seq<set<nat>>, i: nat) {
    exists k :: 0 <= k < |granted| && i in granted[k]
  }

  lemma InSomeMore(granted: seq<set<nat>>, s: set<nat>, i: nat)
    ensures InSome(granted + [s], i) <==> InSome(granted, i) || i in s
  {
    var more := granted + [s];
    if i in s {
      assert i in more[|granted|];
    }
    if InSome(granted, i) {
      var k :| 0 <= k < |granted| && i in granted[k];
      assert i in more[k];
    }
  }

  lemma LastIsNew(granted: seq<set<nat>>, s: set<nat>, i: nat)
    requires Disjoint(granted + [s]) && i in s
    ensures !InSome(granted, i)
  {
    var more := granted + [s];
    forall k | 0 <= k < |granted| ensures i !in granted[k] {
      assert more[k] == granted[k] && more[|granted|] == s;
    }
  }

  lemma GrantSet(granted: seq<set<nat>>, s: set<nat>)
    requires Disjoint(granted) && forall i :: i in s ==> !InSome(granted, i)
    ensures Disjoint(granted + [s])
  {
    forall k | 0 <= k < |granted| ensures granted[k] !! s {
      forall i | i in granted[k] ensures i !in s {
        assert InSome(granted, i);
      }
    }
  }

  /**
   * Pages 3 to 10 of 32 are free. A request for four aligned pages enters at 3, hops to 6 and
   * to 8, and there is not room enough: the free aligned run at 4 is missed.
   */
  lemma AlignedExample(words: seq<Word>)
    requires |words| > 0 && forall i :: 0 <= i < 32 ==> Get(words, i) == !(3 <= i < 11)
    ensures RunAt(words, 32, 4, 4, false) && Past(0, 4, 4) == 0
    ensures !Reached(words, 32, 0, 4, 0)
  {
    hide Get;
    forall x: nat | Entry(words, 32, 0, x) ensures !Lands(words, 32, 0, 4, x) {
      if RunAt(words, 32, x, 4, false) {
        assert !Get(words, x) && !Get(words, x + 3);
        assert x == 3 && Past(0, 4, 3) == 3 && Past(0, 4, 6) == 2;
        assert !Lands(words, 32, 0, 4, 8) by {
          assert Get(words, 11);
        }
      }
    }
  }

  lemma ExampleFails(pool: PagePool, low: set<nat>, high: set<nat>)
    requires pool.Valid() && pool.base == 0 && pool.numPages == 32 && pool.last == 0
    requires pool.granted == [low, high] && forall i :: 0 <= i < 32 ==> (i in low <==> i < 3) && (i in high <==> 11 <= i)
    ensures RunAt(pool.bitmap[..], 32, 4, 4, false) && !pool.AlignedFound(4)
  {
    hide Get, RunAt, Count, Disjoint, InSome, Reached, PagePool.Valid, PagePool.AlignedFound;
    ghost var words := pool.bitmap[..];
    ValidBits(pool);
    TwoGranted(pool.granted, low, high);
    forall i | 0 <= i < 32 ensures Get(words, i) == !(3 <= i < 11) {
      assert Get(words, i) == InSome(pool.granted, i);
    }
    AlignedExample(words);
    OnePass(pool);
  }

  lemma OnePass(pool: PagePool)
    requires pool.Shape() && pool.base == 0 && pool.last == 0
    ensures pool.AlignedFound(4) == Reached(pool.bitmap[..], pool.numPages, 0, 4, 0)
  {
    hide Reached;
  }

  lemma ValidBits(pool: PagePool)
    requires pool.Valid()
    ensures pool.Shape()
    ensures forall i :: 0 <= i < pool.numPages ==> (Get(pool.bitmap[..], i) <==> InSome(pool.granted, i))
  {
    hide Get, InSome, Count, Disjoint;
  }

  lemma TwoGranted(granted: seq<set<nat>>, low: set<nat>, high: set<nat>)
    requires granted == [low, high]
    ensures forall i :: 0 <= i < 32 ==> InSome(granted, i) == (i in low || i in high)
  {
    assert granted[0] == low && granted[1] == high;
  }

  /** Pages that belong to nothing handed out can be reserved. */
  lemma StillFree(pool: PagePool, start: nat, n: nat)
    requires pool.Valid() && start + n <= pool.numPages
    requires forall i :: start <= i < start + n ==> !InSome(pool.granted, i)
    ensures RunAt(pool.bitmap[..], pool.numPages, start, n, false)
  {
    hide Get, Count, Disjoint, InSome;
  }

  /** The same as calls: two reservations leave pages 3 to 10 free, and the aligned request for four fails. */
  method AlignedFails(g: Geometry) returns (pool: PagePool, ok: bool)
    requires ValidGeometry(g)
    ensures pool.Valid() && !ok && pool.base == 0 && RunAt(pool.bitmap[..], pool.numPages, 4, 4, false)
  {
    hide Get, RunAt, Count, Disjoint, PagePool.Valid, PagePool.AlignedFound;
    pool := new PagePool(g, 0, 32);
    StillFree(pool, 0, 3);
    var low := pool.ReservePpages(Ppages(0, 3, {}));
    assert forall i :: i >= 3 ==> !InSome([Run(0, 3)], i);
    StillFree(pool, 11, 21);
    var high := pool.ReservePpages(Ppages(11, 21, {}));
    ExampleFails(pool, Run(0, 3), Run(11, 21));
    var ppages;
    ok, ppages := pool.PpAlloc(4, true);
  }
}
