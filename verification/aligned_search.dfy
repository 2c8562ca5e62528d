/**
 * The aligned search of pp_alloc (src/core/mem.c:59-129) as a property of the bitmap. From a
 * misaligned run the search moves on by the run's misalignment, so inside one stretch of free
 * pages it visits x, x + r, x + r + (2 * r % n), ...: the misalignment doubles at each hop.
 */
module AlignedSearch {
  import opened Arith
  import opened Bitmap
  import opened Granule

  /** How far page `x` of a pool that starts at page `base` is past an aligned page. */
  function Past(base: nat, n: nat, x: nat): (r: nat)
    requires n > 0
    ensures r < n
  {
    (base + x) % n
  }

  /** The first aligned page of the pool. */
  function NextAligned(base: nat, n: nat): nat
    requires n > 0
  {
    (n - base % n) % n
  }

  /** Hopping on from the free run at `x`, the search comes to an aligned one. */
  ghost predicate Lands(words: seq<Word>, size: nat, base: nat, n: nat, x: nat)
    requires n > 0 && size <= 32 * |words|
    decreases size - x
  {
    RunAt(words, size, x, n, false)
    && (Past(base, n, x) == 0 || Lands(words, size, base, n, x + Past(base, n, x)))
  }

  /** A search from page `from` enters a stretch of free pages there, or after a used page. */
  ghost predicate Entry(words: seq<Word>, size: nat, from: nat, x: nat)
    requires size <= 32 * |words|
  {
    from <= x < size && (x == from || Get(words, x - 1))
  }

  /** A search from page `from` finds an aligned run. */
  ghost predicate Reached(words: seq<Word>, size: nat, base: nat, n: nat, from: nat)
    requires n > 0 && size <= 32 * |words|
  {
    exists x: nat :: Entry(words, size, from, x) && Lands(words, size, base, n, x)
  }

  /** Moving on to the first free run changes nothing. */
  lemma ReachedFirst(words: seq<Word>, size: nat, base: nat, n: nat, from: nat, bit: nat)
    requires n > 0 && size <= 32 * |words| && from <= bit && RunAt(words, size, bit, n, false)
    requires forall j :: from <= j < bit ==> !RunAt(words, size, j, n, false)
    ensures Reached(words, size, base, n, from) == Reached(words, size, base, n, bit)
  {
    hide Get;
    if bit > from {
      assert !RunAt(words, size, bit - 1, n, false);
      assert Get(words, bit - 1);
    }
    forall x: nat | Lands(words, size, base, n, x)
      ensures Entry(words, size, from, x) <==> Entry(words, size, bit, x)
    {
    }
  }

  lemma ReachedNone(words: seq<Word>, size: nat, base: nat, n: nat, from: nat)
    requires n > 0 && size <= 32 * |words|
    requires forall j :: from <= j ==> !RunAt(words, size, j, n, false)
    ensures !Reached(words, size, base, n, from)
  {
    hide RunAt;
  }

  /** Neither does a hop from a misaligned run: it stays inside the run. */
  lemma ReachedHop(words: seq<Word>, size: nat, base: nat, n: nat, bit: nat)
    requires n > 0 && size <= 32 * |words| && RunAt(words, size, bit, n, false) && Past(base, n, bit) != 0
    ensures Reached(words, size, base, n, bit) == Reached(words, size, base, n, bit + Past(base, n, bit))
  {
    hide Get;
    var next := bit + Past(base, n, bit);
    forall x: nat | Entry(words, size, bit, x) && Lands(words, size, base, n, x)
      ensures Reached(words, size, base, n, next)
    {
      assert Entry(words, size, next, if x == bit then next else x);
    }
    forall x: nat | Entry(words, size, next, x) && Lands(words, size, base, n, x)
      ensures Reached(words, size, base, n, bit)
    {
      assert Entry(words, size, bit, if x == next then bit else x);
      assert Lands(words, size, base, n, if x == next then bit else x);
    }
  }

  lemma ReachedHere(words: seq<Word>, size: nat, base: nat, n: nat, bit: nat)
    requires n > 0 && size <= 32 * |words| && RunAt(words, size, bit, n, false) && Past(base, n, bit) == 0
    ensures Reached(words, size, base, n, bit)
  {
    assert Entry(words, size, bit, bit);
  }

  // ----- the chain of hops

  /** The page of the `k`-th hop from `x`. */
  function Hop(base: nat, n: nat, x: nat, k: nat): nat
    requires n > 0
  {
    if k == 0 then x else Hop(base, n, x, k - 1) + Past(base, n, Hop(base, n, x, k - 1))
  }

  function Pow2(k: nat): (r: nat)
    ensures r > 0
  {
    if k == 0 then 1 else 2 * Pow2(k - 1)
  }

  /** Each hop doubles the misalignment, modulo the size of the request. */
  lemma PastDoubles(base: nat, n: nat, x: nat)
    requires n > 0
    ensures Past(base, n, x + Past(base, n, x)) == 2 * Past(base, n, x) % n
  {
    var q, r := (base + x) / n, Past(base, n, x);
    var q', r' := 2 * r / n, 2 * r % n;
    assert base + x == q * n + r && 2 * r == q' * n + r';
    assert base + (x + r) == (q + q') * n + r';
    DivModUnique(base + (x + r), n, q + q', r');
  }

  /** The misalignment after `k` hops, in closed form. */
  lemma {:induction false} HopPast(base: nat, n: nat, x: nat, k: nat)
    requires n > 0
    ensures Past(base, n, Hop(base, n, x, k)) == Pow2(k) * Past(base, n, x) % n
  {
    hide Past;
    if k == 0 {
      DivModUnique(Past(base, n, x), n, 0, Past(base, n, x));
    } else {
      HopPast(base, n, x, k - 1);
      PastDoubles(base, n, Hop(base, n, x, k - 1));
      var y := Pow2(k - 1) * Past(base, n, x);
      TwiceRemainder(y, n);
      assert 2 * y == Pow2(k) * Past(base, n, x);
    }
  }

  lemma TwiceRemainder(y: nat, n: nat)
    requires n > 0
    ensures 2 * (y % n) % n == 2 * y % n
  {
    var q, r := y / n, y % n;
    var q', r' := 2 * r / n, 2 * r % n;
    assert y == q * n + r && 2 * r == q' * n + r';
    assert 2 * y == (2 * q + q') * n + r';
    DivModUnique(2 * y, n, 2 * q + q', r');
  }

  lemma {:induction false} HopSplit(base: nat, n: nat, x: nat, k: nat)
    requires n > 0
    ensures Hop(base, n, x, k + 1) == Hop(base, n, x + Past(base, n, x), k)
    ensures Hop(base, n, x, k) >= x
  {
    if k > 0 {
      HopSplit(base, n, x, k - 1);
    }
  }

  /** The stretch of free pages from `x` holds the hops up to the `k`-th and a whole run there. */
  ghost predicate Roomy(words: seq<Word>, size: nat, base: nat, n: nat, x: nat, k: nat)
    requires n > 0 && size <= 32 * |words|
  {
    Hop(base, n, x, k) + n <= size && All(words, x, Hop(base, n, x, k) + n, false)
  }

  /** The search lands exactly if the doubled misalignment vanishes while there is room. */
  lemma LandsIff(words: seq<Word>, size: nat, base: nat, n: nat, x: nat)
    requires n > 0 && size <= 32 * |words|
    ensures Lands(words, size, base, n, x) <==>
            exists k: nat :: Pow2(k) * Past(base, n, x) % n == 0 && Roomy(words, size, base, n, x, k)
  {
    hide Get, Hop, Pow2;
    if Lands(words, size, base, n, x) {
      var k := LandsHops(words, size, base, n, x);
      HopPast(base, n, x, k);
    }
    forall k: nat | Pow2(k) * Past(base, n, x) % n == 0 && Roomy(words, size, base, n, x, k)
      ensures Lands(words, size, base, n, x)
    {
      HopPast(base, n, x, k);
      HopsLand(words, size, base, n, x, k);
    }
  }

  lemma {:induction false} LandsHops(words: seq<Word>, size: nat, base: nat, n: nat, x: nat) returns (k: nat)
    requires n > 0 && size <= 32 * |words| && Lands(words, size, base, n, x)
    ensures Past(base, n, Hop(base, n, x, k)) == 0 && Roomy(words, size, base, n, x, k)
    decreases size - x
  {
    hide Get;
    var r := Past(base, n, x);
    if r == 0 {
      k := 0;
    } else {
      k := LandsHops(words, size, base, n, x + r);
      HopSplit(base, n, x, k);
      HopSplit(base, n, x + r, k);
      k := k + 1;
    }
  }

  lemma {:induction false} HopsLand(words: seq<Word>, size: nat, base: nat, n: nat, x: nat, k: nat)
    requires n > 0 && size <= 32 * |words|
    requires Past(base, n, Hop(base, n, x, k)) == 0 && Roomy(words, size, base, n, x, k)
    ensures Lands(words, size, base, n, x)
    decreases k
  {
    hide Get;
    HopSplit(base, n, x, k);
    if k > 0 && Past(base, n, x) != 0 {
      HopSplit(base, n, x, k - 1);
      HopSplit(base, n, x + Past(base, n, x), k - 1);
      HopsLand(words, size, base, n, x + Past(base, n, x), k - 1);
    }
  }

  // ----- what follows for particular requests

  /** An odd request is found only where the search enters at an aligned page. */
  lemma {:induction false} OddNeverLands(words: seq<Word>, size: nat, base: nat, n: nat, x: nat)
    requires n > 0 && size <= 32 * |words| && n % 2 == 1 && Past(base, n, x) != 0
    ensures !Lands(words, size, base, n, x)
    decreases size - x
  {
    hide Get;
    if RunAt(words, size, x, n, false) {
      var r := Past(base, n, x);
      PastDoubles(base, n, x);
      if 2 * r < n {
        DivModUnique(2 * r, n, 0, 2 * r);
      } else {
        DivModUnique(2 * r, n, 1, 2 * r - n);
      }
      OddNeverLands(words, size, base, n, x + r);
    }
  }

  /** For a power of two the misalignment has one factor of two more after each hop, so hops get shorter. */
  lemma {:induction false} Pow2Hops(base: nat, t: nat, x: nat, k: nat) returns (c: nat)
    requires k <= t
    ensures Past(base, Pow2(t), Hop(base, Pow2(t), x, k)) == Pow2(k) * c
    ensures Hop(base, Pow2(t), x, k) + Pow2(k) <= x + k * Pow2(t) + 1
  {
    if k == 0 {
      c := Past(base, Pow2(t), x);
    } else {
      hide Past;
      var n, y := Pow2(t), Hop(base, Pow2(t), x, k - 1);
      var d := Pow2Hops(base, t, x, k - 1);
      PastDoubles(base, n, y);
      var e := Pow2Factor(k, t);
      OneHop(Pow2(k - 1), Pow2(k), d, e, n, Past(base, n, y));
      c := d % e;
      assert k * n == (k - 1) * n + n;
    }
  }

  lemma OneHop(p: nat, p': nat, d: nat, e: nat, n: nat, r: nat)
    requires p > 0 && p' == 2 * p && e > 0 && n == p' * e && r == p * d && r < n
    ensures r + p <= n && 2 * r % n == p' * (d % e)
  {
    assert n == p * (2 * e);
    BelowMultiple(p, d, 2 * e);
    assert 2 * r == p' * d;
    FactorRemainder(p', d, e);
  }

  lemma {:induction false} Pow2Factor(k: nat, t: nat) returns (e: nat)
    requires k <= t
    ensures e > 0 && Pow2(t) == Pow2(k) * e
    decreases t - k
  {
    if k == t {
      e := 1;
    } else {
      var f := Pow2Factor(k + 1, t);
      e := 2 * f;
      assert Pow2(k) * (2 * f) == (2 * Pow2(k)) * f;
    }
  }

  /** A multiple of `p` below `p * e` is at least `p` below it. */
  lemma BelowMultiple(p: nat, d: nat, e: nat)
    requires p > 0 && p * d < p * e
    ensures p * d + p <= p * e
  {
    if d >= e {
      MulMono(e, d, p);
    } else {
      MulMono(d + 1, e, p);
    }
  }

  lemma FactorRemainder(p: nat, d: nat, e: nat)
    requires p > 0 && e > 0
    ensures p * e > 0 && p * d % (p * e) == p * (d % e)
  {
    var q, r := d / e, d % e;
    MulMono(1, e, p);
    MulMono(r + 1, e, p);
    assert p * d == q * (p * e) + p * r;
    DivModUnique(p * d, p * e, q, p * r);
  }

  /** For 2^t pages a stretch of t * 2^t + 1 free pages is always enough, wherever it lies. */
  lemma Pow2Reached(words: seq<Word>, size: nat, base: nat, t: nat, j: nat)
    requires size <= 32 * |words| && RunAt(words, size, j, t * Pow2(t) + 1, false)
    ensures Reached(words, size, base, Pow2(t), NextAligned(base, Pow2(t)))
  {
    hide Get, Hop, Lands, Past;
    var n, from := Pow2(t), NextAligned(base, Pow2(t));
    NextIsAligned(base, n);
    LongEnough(t);
    if j < from {
      assert Entry(words, size, from, from);
      assert RunAt(words, size, from, n, false);
      ReachedHere(words, size, base, n, from);
    } else {
      var x := EntryBefore(words, size, from, j);
      var c := Pow2Hops(base, t, x, t);
      HopSplit(base, n, x, t);
      AtMost(Past(base, n, Hop(base, n, x, t)), n, c);
      assert Roomy(words, size, base, n, x, t);
      HopsLand(words, size, base, n, x, t);
    }
  }

  lemma AtMost(r: nat, n: nat, c: nat)
    requires r == n * c && r < n
    ensures r == 0
  {
    if c > 0 {
      MulMono(1, c, n);
    }
  }

  /** t * 2^t + 1 pages hold an aligned run behind any misaligned first page. */
  lemma LongEnough(t: nat)
    ensures t * Pow2(t) + 1 >= 2 * Pow2(t) - 1
  {
    if t >= 2 {
      MulMono(2, t, Pow2(t));
    }
  }

  lemma NextIsAligned(base: nat, n: nat)
    requires n > 0
    ensures NextAligned(base, n) < n && Past(base, n, NextAligned(base, n)) == 0
  {
    var q, r := base / n, base % n;
    if r == 0 {
      DivModUnique(n, n, 1, 0);
    } else {
      DivModUnique(n - r, n, 0, n - r);
      assert base + (n - r) == (q + 1) * n;
      DivModUnique(base + (n - r), n, q + 1, 0);
    }
  }

  /** Below the first aligned page there is no aligned page. */
  lemma NoneBelow(base: nat, n: nat)
    requires n > 0
    ensures forall j: nat :: j < NextAligned(base, n) ==> Past(base, n, j) != 0
  {
    var q, r := base / n, base % n;
    if r == 0 {
      DivModUnique(n, n, 1, 0);
    } else {
      DivModUnique(n - r, n, 0, n - r);
      forall j: nat | j < NextAligned(base, n) ensures Past(base, n, j) != 0 {
        DivModUnique(base + j, n, q, r + j);
      }
    }
  }

  /** Where the search enters the stretch of free pages that page `j` lies in. */
  lemma {:induction false} EntryBefore(words: seq<Word>, size: nat, from: nat, j: nat) returns (x: nat)
    requires size <= 32 * |words| && from <= j < size
    ensures Entry(words, size, from, x) && x <= j && All(words, x, j, false)
    decreases j
  {
    hide Get;
    if j == from || Get(words, j - 1) {
      x := j;
    } else {
      x := EntryBefore(words, size, from, j - 1);
    }
  }

  /** Whatever its size, an aligned run right after a used page is found, and so is any run of one or two pages. */
  lemma CaughtReached(words: seq<Word>, size: nat, base: nat, n: nat, j: nat)
    requires n > 0 && size <= 32 * |words| && RunAt(words, size, j, n, false) && Past(base, n, j) == 0
    requires n <= 2 || j == 0 || Get(words, j - 1)
    ensures Reached(words, size, base, n, NextAligned(base, n))
  {
    hide Get;
    var from := NextAligned(base, n);
    NoneBelow(base, n);
    var x := EntryBefore(words, size, from, j);
    if x < j {
      assert !Get(words, j - 1);
      if n == 2 && Past(base, n, x) != 0 {
        assert Lands(words, size, base, n, x + 1);
      }
      assert Lands(words, size, base, n, x);
    } else {
      assert Lands(words, size, base, n, j);
    }
  }
}
