/**
 * Page colours. A colour map is the set of its one bits; page `p` has colour
 * p / size % num, so a pool-relative index is first moved by the pool's base page.
 */
module Colors {
  import opened Arith

  /** COLOR_NUM and COLOR_SIZE */
  datatype Geometry = Geometry(num: nat, size: nat)

  ghost predicate ValidGeometry(g: Geometry) {
    g.num > 0 && g.size > 0
  }

  /** Some colour of the map exists on this machine, as !all_clrs guarantees. */
  ghost predicate SomeColor(g: Geometry, colors: set<nat>) {
    exists c :: c in colors && c < g.num
  }

  /** all_clrs: the map names no colour, or all of them. */
  predicate AllClrs(g: Geometry, colors: set<nat>) {
    (forall c :: 0 <= c < g.num ==> c !in colors) || (forall c :: 0 <= c < g.num ==> c in colors)
  }

  lemma NotAllClrs(g: Geometry, colors: set<nat>)
    ensures !AllClrs(g, colors) ==> SomeColor(g, colors)
  {
  }

  function ColorOf(g: Geometry, page: nat): nat
    requires g.num > 0 && g.size > 0
  {
    page / g.size % g.num
  }

  /** Page `index` of a range that starts at page `base` has a colour of the map. */
  predicate Colored(g: Geometry, base: nat, colors: set<nat>, index: nat)
    requires g.num > 0 && g.size > 0
  {
    ColorOf(g, base + index) in colors
  }

  /** clr_offset of pp_next_clr, and the colour it tests. */
  function ClrOffset(g: Geometry, base: nat): nat
    requires g.num > 0 && g.size > 0
  {
    base % (g.num * g.size)
  }

  function ClrAt(g: Geometry, offset: nat, index: nat): nat
    requires g.num > 0 && g.size > 0
  {
    (index + offset) / g.size % g.num
  }

  /** The test of pp_next_clr reads the same colour from a base reduced modulo the colour cycle. */
  lemma OffsetColor(g: Geometry, base: nat, index: nat)
    requires g.num > 0 && g.size > 0
    ensures ClrAt(g, ClrOffset(g, base), index) == ColorOf(g, base + index)
  {
    var n, s := g.num, g.size;
    var cycle := n * s;
    var k, off := base / cycle, base % cycle;
    var q, r := (index + off) / s, (index + off) % s;
    assert base + index == k * cycle + (index + off);
    assert base + index == (k * n + q) * s + r by {
      assert k * cycle == k * n * s;
    }
    DivModUnique(base + index, s, k * n + q, r);
    var q', r' := q / n, q % n;
    assert k * n + q == (k + q') * n + r';
    DivModUnique(k * n + q, n, k + q', r');
  }

  /** The nearest page of colour `c` at or after `page`. */
  function PageOfColor(g: Geometry, page: nat, c: nat): (p: nat)
    requires g.num > 0 && g.size > 0 && c < g.num
    ensures page <= p && ColorOf(g, p) == c
  {
    var d := Distance(g.num, page / g.size, c);
    DistanceColor(g.num, page / g.size, c);
    if d == 0 then page
    else
      ColorPlace(g.num, g.size, page, page / g.size, page % g.size, d);
      (page / g.size + d) * g.size
  }

  /** The distance from colour q % n forward to colour `c`. */
  function Distance(n: nat, q: nat, c: nat): nat
    requires n > 0 && c < n
  {
    if c >= q % n then c - q % n else c + n - q % n
  }

  lemma DistanceColor(n: nat, q: nat, c: nat)
    requires n > 0 && c < n
    ensures Distance(n, q, c) < n && (q + Distance(n, q, c)) % n == c
  {
    var u, v := q / n, q % n;
    assert q == u * n + v && 0 <= v < n;
    if c >= v {
      DivModUnique(q + (c - v), n, u, c);
    } else {
      DivModUnique(q + (c + n - v), n, u + 1, c);
    }
  }

  lemma ColorPlace(n: nat, s: nat, page: nat, q: nat, r: nat, d: nat)
    requires page == q * s + r && r < s && 0 < d < n
    ensures page <= (q + d) * s < page + n * s && (q + d) * s / s == q + d
  {
    DivModUnique((q + d) * s, s, q + d, 0);
    MulMono(1, d, s);
    MulMono(d, n, s);
  }

  // ----- the colour-successive pages

  ghost function SomeOf(g: Geometry, colors: set<nat>): (c: nat)
    requires SomeColor(g, colors)
    ensures c in colors && c < g.num
  {
    var c :| c in colors && c < g.num;
    c
  }

  ghost function FirstFrom(g: Geometry, base: nat, colors: set<nat>, from: nat, limit: nat): (r: nat)
    requires g.num > 0 && g.size > 0 && from <= limit && Colored(g, base, colors, limit)
    ensures from <= r <= limit && Colored(g, base, colors, r)
    ensures forall i :: from <= i < r ==> !Colored(g, base, colors, i)
    decreases limit - from
  {
    if Colored(g, base, colors, from) then from else FirstFrom(g, base, colors, from + 1, limit)
  }

  /** The least coloured index at or after `from`. */
  ghost function NextClr(g: Geometry, base: nat, colors: set<nat>, from: nat): (r: nat)
    requires ValidGeometry(g) && SomeColor(g, colors)
    ensures from <= r && Colored(g, base, colors, r)
    ensures forall i :: from <= i < r ==> !Colored(g, base, colors, i)
  {
    var c := SomeOf(g, colors);
    FirstFrom(g, base, colors, from, PageOfColor(g, base + from, c) - base)
  }

  /** The k-th coloured index at or after `from`. */
  ghost function Kth(g: Geometry, base: nat, colors: set<nat>, from: nat, k: nat): (r: nat)
    requires ValidGeometry(g) && SomeColor(g, colors)
    ensures from <= r && Colored(g, base, colors, r)
  {
    if k == 0 then NextClr(g, base, colors, from) else NextClr(g, base, colors, Kth(g, base, colors, from, k - 1) + 1)
  }

  /** pp_next_clr: steps to the next coloured index, and terminates because there is one. */
  method PpNextClr(g: Geometry, base: nat, from: nat, colors: set<nat>) returns (index: nat)
    requires ValidGeometry(g) && SomeColor(g, colors)
    ensures index == NextClr(g, base, colors, from)
  {
    hide NextClr, ClrAt, ClrOffset, ColorOf;
    var clrOffset := ClrOffset(g, base);
    index := from;
    OffsetColor(g, base, index);
    while ClrAt(g, clrOffset, index) !in colors
      invariant from <= index <= NextClr(g, base, colors, from)
      invariant ClrAt(g, clrOffset, index) == ColorOf(g, base + index)
      invariant forall i :: from <= i < index ==> !Colored(g, base, colors, i)
      decreases NextClr(g, base, colors, from) - index
    {
      assert !Colored(g, base, colors, index);
      index := index + 1;
      OffsetColor(g, base, index);
    }
    assert Colored(g, base, colors, index);
  }

  lemma NextClrUnique(g: Geometry, base: nat, colors: set<nat>, from: nat, r: nat)
    requires ValidGeometry(g) && SomeColor(g, colors)
    requires from <= r && Colored(g, base, colors, r)
    requires forall i :: from <= i < r ==> !Colored(g, base, colors, i)
    ensures NextClr(g, base, colors, from) == r
  {
  }

  lemma NextClrShift(g: Geometry, base: nat, colors: set<nat>, d: nat, from: nat)
    requires ValidGeometry(g) && SomeColor(g, colors)
    ensures NextClr(g, base, colors, d + from) == d + NextClr(g, base + d, colors, from)
  {
    hide NextClr;
    var r := NextClr(g, base + d, colors, from);
    assert Colored(g, base, colors, d + r) by { assert base + d + r == base + (d + r); }
    forall i | d + from <= i < d + r ensures !Colored(g, base, colors, i) {
      assert base + d + (i - d) == base + i;
      assert !Colored(g, base + d, colors, i - d);
    }
    NextClrUnique(g, base, colors, d + from, d + r);
  }

  /** Colours are absolute: counting from another base moves every index by the distance. */
  lemma {:induction false} KthShift(g: Geometry, base: nat, colors: set<nat>, d: nat, from: nat, k: nat)
    requires ValidGeometry(g) && SomeColor(g, colors)
    ensures Kth(g, base, colors, d + from, k) == d + Kth(g, base + d, colors, from, k)
  {
    hide NextClr;
    if k == 0 {
      NextClrShift(g, base, colors, d, from);
    } else {
      KthShift(g, base, colors, d, from, k - 1);
      NextClrShift(g, base, colors, d, Kth(g, base + d, colors, from, k - 1) + 1);
    }
  }

  lemma {:induction false} KthIncreases(g: Geometry, base: nat, colors: set<nat>, from: nat, j: nat, k: nat)
    requires ValidGeometry(g) && SomeColor(g, colors) && j < k
    ensures Kth(g, base, colors, from, j) < Kth(g, base, colors, from, k)
    decreases k
  {
    hide NextClr;
    if j < k - 1 {
      KthIncreases(g, base, colors, from, j, k - 1);
    }
  }

  /** Every coloured index between the first and the k-th is one of those between. */
  lemma {:induction false} KthCovers(g: Geometry, base: nat, colors: set<nat>, from: nat, k: nat, s: nat) returns (j: nat)
    requires ValidGeometry(g) && SomeColor(g, colors)
    requires from <= s <= Kth(g, base, colors, from, k) && Colored(g, base, colors, s)
    ensures j <= k && Kth(g, base, colors, from, j) == s
  {
    hide NextClr;
    if k > 0 && s <= Kth(g, base, colors, from, k - 1) {
      j := KthCovers(g, base, colors, from, k - 1, s);
    } else {
      j := k;
    }
  }

  /** Counting on from the j-th index. */
  lemma {:induction false} KthFrom(g: Geometry, base: nat, colors: set<nat>, from: nat, j: nat, m: nat)
    requires ValidGeometry(g) && SomeColor(g, colors)
    ensures Kth(g, base, colors, Kth(g, base, colors, from, j), m) == Kth(g, base, colors, from, j + m)
  {
    hide NextClr;
    if m == 0 {
      NextClrUnique(g, base, colors, Kth(g, base, colors, from, j), Kth(g, base, colors, from, j));
    } else {
      KthFrom(g, base, colors, from, j, m - 1);
    }
  }

  /** A map that names every colour excludes no page. */
  lemma {:induction false} KthAll(g: Geometry, base: nat, colors: set<nat>, from: nat, k: nat)
    requires ValidGeometry(g) && SomeColor(g, colors) && AllClrs(g, colors)
    ensures Kth(g, base, colors, from, k) == from + k
  {
    hide NextClr;
    assert forall c :: 0 <= c < g.num ==> c in colors;
    assert Colored(g, base, colors, from + k);
    if k > 0 {
      KthAll(g, base, colors, from, k - 1);
    }
    NextClrUnique(g, base, colors, from + k, from + k);
  }

  /** The page behind the k-th page of a coloured range that starts at page `base`. */
  ghost function PhysPage(g: Geometry, base: nat, colors: set<nat>, k: nat): nat
    requires ValidGeometry(g) && SomeColor(g, colors)
  {
    base + Kth(g, base, colors, 0, k)
  }

  /**
   * The pages pp_alloc_clr marks and mem_free_ppages clears, counted from the pool's base,
   * are the pages mem_map maps, counted from the base of the range.
   */
  lemma ColoredPagesAgree(g: Geometry, poolBase: nat, colors: set<nat>, first: nat, k: nat)
    requires ValidGeometry(g) && SomeColor(g, colors)
    ensures poolBase + Kth(g, poolBase, colors, first, k) == PhysPage(g, poolBase + first, colors, k)
  {
    KthShift(g, poolBase, colors, first, 0, k);
  }
}
