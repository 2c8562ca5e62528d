/**
 * Bitmaps packed into 32-bit granules. The word-at-a-time scans are proved against the
 * bit-by-bit reading `Bits`. Sizes are multiples of the granule length, and one granule
 * past the size may be read, as the scans do.
 */
module Bitmap {
  import opened Granule

  const SIZE_MAX: nat := 0xffff_ffff_ffff_ffff

  /** Bit `i` of a sequence of granules. */
  function Get(words: seq<Word>, i: nat): bool
    requires i < 32 * |words|
  {
    Bit(words[i / 32], i % 32)
  }

  /** Bits lo .. hi - 1 all equal `v`. */
  ghost predicate All(words: seq<Word>, lo: nat, hi: nat, v: bool)
    requires hi <= 32 * |words|
  {
    forall i :: lo <= i < hi ==> Get(words, i) == v
  }

  /** The number of bits lo .. hi - 1 that equal `v`. */
  ghost function Count(words: seq<Word>, lo: nat, hi: nat, v: bool): nat
    requires hi <= 32 * |words|
    decreases hi
  {
    if hi <= lo then 0 else Count(words, lo, hi - 1, v) + if Get(words, hi - 1) == v then 1 else 0
  }

  // ----- single bits

  function BitmapGet(bm: array<Word>, bit: nat): bool
    requires bit < 32 * bm.Length
    reads bm
  {
    Bit(bm[bit / 32], bit % 32)
  }

  method BitmapSet(bm: array<Word>, bit: nat)
    requires bit < 32 * bm.Length
    modifies bm
    ensures forall i :: 0 <= i < 32 * bm.Length ==> Get(bm[..], i) == (i == bit || old(Get(bm[..], i)))
  {
    hide WithBit, Bit;
    bm[bit / 32] := WithBit(bm[bit / 32], bit % 32);
  }

  method BitmapClear(bm: array<Word>, bit: nat)
    requires bit < 32 * bm.Length
    modifies bm
    ensures forall i :: 0 <= i < 32 * bm.Length ==> Get(bm[..], i) == (i != bit && old(Get(bm[..], i)))
  {
    hide WithoutBit, Bit;
    bm[bit / 32] := WithoutBit(bm[bit / 32], bit % 32);
  }

  method BitmapClearConsecutive(bm: array<Word>, start: nat, n: nat)
    requires start + n <= 32 * bm.Length
    modifies bm
    ensures forall i :: 0 <= i < 32 * bm.Length ==>
              Get(bm[..], i) == (!(start <= i < start + n) && old(Get(bm[..], i)))
  {
    hide Get;
    for k := 0 to n
      invariant forall i :: 0 <= i < 32 * bm.Length ==>
                  Get(bm[..], i) == (!(start <= i < start + k) && old(Get(bm[..], i)))
    {
      BitmapClear(bm, start + k);
    }
  }

  /** The n-th bit equal to `set_` at or after `start`. */
  method BitmapFindNth(bm: array<Word>, size: nat, nth: nat, start: nat, set_: bool) returns (r: int)
    requires size <= 32 * bm.Length
    ensures -1 <= r < size
    ensures r >= 0 ==> start <= r && nth > 0 && Get(bm[..], r) == set_ && Count(bm[..], start, r, set_) == nth - 1
    ensures r == -1 <==> nth == 0 || size <= start || Count(bm[..], start, size, set_) < nth
  {
    hide Get;
    if size <= 0 || nth <= 0 {
      return -1;
    }
    var count, i := 0, start;
    while i < size
      invariant start <= i && (i <= size || i == start)
      invariant if i <= size then count == Count(bm[..], start, i, set_) < nth else count == 0
    {
      assert BitmapGet(bm, i) == Get(bm[..], i) by { GetIsBit(bm, i); }
      if BitmapGet(bm, i) == set_ {
        count := count + 1;
        if count == nth {
          CountMonotone(bm[..], start, i + 1, size, set_);
          return i;
        }
      }
      i := i + 1;
    }
    return -1;
  }

  lemma GetIsBit(bm: array<Word>, i: nat)
    requires i < 32 * bm.Length
    ensures BitmapGet(bm, i) == Get(bm[..], i)
  {
  }

  lemma {:induction false} CountMonotone(words: seq<Word>, lo: nat, mid: nat, hi: nat, v: bool)
    requires mid <= hi <= 32 * |words|
    ensures Count(words, lo, mid, v) <= Count(words, lo, hi, v)
    decreases hi
  {
    if mid < hi {
      CountMonotone(words, lo, mid, hi - 1, v);
    }
  }

  lemma {:induction false} CountNone(words: seq<Word>, lo: nat, hi: nat, v: bool)
    requires hi <= 32 * |words|
    ensures Count(words, lo, hi, v) == 0 <==> All(words, lo, hi, !v)
    decreases hi
  {
    if lo < hi {
      CountNone(words, lo, hi - 1, v);
    }
  }

  // ----- word-at-a-time scans

  /** The length of the run of bits equal to `v` that starts at `i`, up to `size`. */
  ghost function RunLen(words: seq<Word>, i: nat, size: nat, v: bool): (r: nat)
    requires size <= 32 * |words|
    ensures i <= size ==> i + r <= size && All(words, i, i + r, v)
    ensures i + r < size ==> Get(words, i + r) != v
    decreases size - i
  {
    if i < size && Get(words, i) == v then 1 + RunLen(words, i + 1, size, v) else 0
  }

  function Min(a: nat, b: nat): nat {
    if a <= b then a else b
  }

  /** A run is at least as long as any stretch of equal bits from its start. */
  lemma {:induction false} RunAtLeast(words: seq<Word>, i: nat, n: nat, size: nat, v: bool)
    requires i + n <= size <= 32 * |words|
    ensures All(words, i, i + n, v) <==> n <= RunLen(words, i, size, v)
    decreases n
  {
    if n > 0 && Get(words, i) == v {
      RunAtLeast(words, i + 1, n - 1, size, v);
    }
  }

  lemma AllJoin(words: seq<Word>, lo: nat, mid: nat, hi: nat, v: bool)
    requires lo <= mid <= hi <= 32 * |words|
    ensures All(words, lo, hi, v) <==> All(words, lo, mid, v) && All(words, mid, hi, v)
  {
    if All(words, lo, mid, v) && All(words, mid, hi, v) {
      forall i | lo <= i < hi ensures Get(words, i) == v {
        assert i < mid || mid <= i;
      }
    }
  }

  lemma AllOne(words: seq<Word>, i: nat, v: bool)
    requires i < 32 * |words|
    ensures All(words, i, i + 1, v) <==> Get(words, i) == v
    ensures All(words, i, i, v)
  {
  }

  /** The scan reads part of one granule as the bits it holds. */
  lemma PartReads(words: seq<Word>, pos: nat, len: nat, v: bool)
    requires pos < 32 * |words| && 0 < len && pos % 32 + len <= 32
    ensures PartIs(words[pos / 32], v, pos % 32, len) <==> All(words, pos, pos + len, v)
  {
    hide Bit, PartIs;
    PartIsBits(words[pos / 32], v, pos % 32, len);
    var w, off := words[pos / 32], pos % 32;
    forall i | pos <= i < pos + len ensures Get(words, i) == Bit(w, off + (i - pos)) {
    }
    if All(words, pos, pos + len, v) {
      forall k | off <= k < off + len ensures Bit(w, k) == v {
        assert Get(words, pos + (k - off)) == v;
      }
    }
  }

  lemma WordReads(words: seq<Word>, pos: nat, v: bool)
    requires pos < 32 * |words| && pos % 32 == 0
    ensures WordIs(words[pos / 32], v) <==> All(words, pos, pos + 32, v)
  {
    hide Bit, WordIs;
    WordIsBits(words[pos / 32], v);
    var w := words[pos / 32];
    forall i | pos <= i < pos + 32 ensures Get(words, i) == Bit(w, i - pos) {
    }
    if All(words, pos, pos + 32, v) {
      forall k | 0 <= k < 32 ensures Bit(w, k) == v {
        assert Get(words, pos + k) == v;
      }
    }
  }

  /**
   * bitmap_count_consecutive: the run of equal bits from `start`, exact below `n`. At
   * `start == size` the granule past the end is read and the count says nothing.
   */
  method BitmapCountConsecutive(bm: array<Word>, size: nat, start: nat, n: nat) returns (count: nat)
    requires size % 32 == 0 && start <= size <= 32 * bm.Length && start < 32 * bm.Length && n > 0
    ensures start < size ==>
              var run := RunLen(bm[..], start, size, BitmapGet(bm, start));
              count <= run && Min(count, n) == Min(run, n)
  {
    hide Get, Bit, PartIs, WordIs, All, RunLen;
    var pos := start;
    count := 0;
    var startOffset := start % 32;
    var firstWordBits := Min(32 - startOffset, n);
    var set_ := BitmapGet(bm, start);
    ghost var words := bm[..];
    GetIsBit(bm, start);
    AllOne(words, start, set_);
    if n <= 1 {
      if start < size {
        RunAtLeast(words, start, 1, size, set_);
      }
      return n;
    }
    PartReads(words, start, firstWordBits, set_);
    if PartIs(bm[pos / 32], set_, startOffset, firstWordBits) {
      count := count + firstWordBits;
      pos := pos + firstWordBits;
    }
    while pos < size && WordIs(bm[pos / 32], set_) && count < n
      invariant pos == start + count && (start < size ==> pos <= size && All(words, start, pos, set_))
      invariant 0 < count < n ==> pos % 32 == 0
      invariant count == 0 ==> !PartIs(words[start / 32], set_, startOffset, firstWordBits)
      decreases size - pos
    {
      if count == 0 {
        PartIsBits(words[start / 32], set_, startOffset, firstWordBits);
        WordIsBits(words[start / 32], set_);
      }
      WordReads(words, pos, set_);
      AllJoin(words, start, pos, pos + 32, set_);
      count := count + 32;
      pos := pos + 32;
    }
    while pos < size && BitmapGet(bm, pos) == set_ && count < n
      invariant pos == start + count && (start < size ==> pos <= size && All(words, start, pos, set_))
      decreases size - pos
    {
      GetIsBit(bm, pos);
      AllOne(words, pos, set_);
      AllJoin(words, start, pos, pos + 1, set_);
      count := count + 1;
      pos := pos + 1;
    }
    if pos < size {
      GetIsBit(bm, pos);
    }
    RunCounted(words, start, count, n, size, set_);
  }

  /** A scan that stopped at `n`, at the end, or at the first other bit has found the run. */
  lemma RunCounted(words: seq<Word>, start: nat, count: nat, n: nat, size: nat, v: bool)
    requires size <= 32 * |words|
    requires start < size ==> start + count <= size && All(words, start, start + count, v)
    requires count < n && start + count < size ==> Get(words, start + count) != v
    ensures start < size ==> var run := RunLen(words, start, size, v); count <= run && Min(count, n) == Min(run, n)
  {
    if start < size {
      hide Get, RunLen;
      RunAtLeast(words, start, count, size, v);
      RunWithin(words, start, size, v);
      if count < n && start + count < size {
        RunAtLeast(words, start, count + 1, size, v);
      }
    }
  }

  lemma RunWithin(words: seq<Word>, i: nat, size: nat, v: bool)
    requires i <= size <= 32 * |words|
    ensures i + RunLen(words, i, size, v) <= size
  {
  }

  /** A run of `n` bits equal to `v` starts at `j`. */
  ghost predicate RunAt(words: seq<Word>, size: nat, j: nat, n: nat, v: bool)
    requires size <= 32 * |words|
  {
    j + n <= size && All(words, j, j + n, v)
  }

  /** bitmap_find_consec: the first run of `n` equal bits at or after `start`. */
  method BitmapFindConsec(bm: array<Word>, size: nat, start: nat, n: nat, set_: bool) returns (i: int)
    requires size % 32 == 0 && size < 32 * bm.Length && size < SIZE_MAX && n > 0
    ensures -1 <= i
    ensures i >= 0 ==> start <= i && RunAt(bm[..], size, i, n, set_)
    ensures i >= 0 ==> forall j :: start <= j < i ==> !RunAt(bm[..], size, j, n, set_)
    ensures i == -1 ==> forall j :: start <= j ==> !RunAt(bm[..], size, j, n, set_)
  {
    hide Get, RunLen, All, Count;
    ghost var words := bm[..];
    i := BitmapFindNth(bm, size, 1, start, set_);
    NoneBefore(words, size, start, n, set_, if i < 0 then size else i, i < 0);
    if i < 0 {
      return -1;
    }
    var count: nat := 0;
    while i < size
      invariant start <= i && count >= 0
      invariant i < size ==> Get(words, i) == set_
      invariant forall j :: start <= j < i ==> !RunAt(words, size, j, n, set_)
    {
      GetIsBit(bm, i);
      count := BitmapCountConsecutive(bm, size, i, n);
      RunAtLeast(words, i, if i + n <= size then n else 0, size, set_);
      RunWithin(words, i, size, set_);
      if count < n {
        ShortRun(words, size, i, n, set_);
        RunAtLeast(words, i, 1, size, set_);
        AllOne(words, i, set_);
        i := i + count;
        var more := BitmapCountConsecutive(bm, size, i, SIZE_MAX);
        if i < size {
          GetIsBit(bm, i);
          OtherRun(words, size, i, n, set_);
        }
        i := i + more;
      } else {
        break;
      }
    }
    if i >= size {
      i := -1;
    }
  }

  /** No run starts before the first bit that equals `v`. */
  lemma NoneBefore(words: seq<Word>, size: nat, start: nat, n: nat, v: bool, i: nat, none: bool)
    requires size <= 32 * |words| && i <= size && n > 0
    requires if none then size <= start || Count(words, start, size, v) < 1 else Count(words, start, i, v) == 0
    ensures none ==> forall j :: start <= j ==> !RunAt(words, size, j, n, v)
    ensures !none ==> forall j :: start <= j < i ==> !RunAt(words, size, j, n, v)
  {
    hide Get;
    var end := if none then size else i;
    if start <= end {
      CountNone(words, start, end, v);
    }
    forall j | start <= j < end ensures !RunAt(words, size, j, n, v) {
      assert Get(words, j) != v;
    }
  }

  /** No run of `n` starts inside a run that is shorter than `n`. */
  lemma ShortRun(words: seq<Word>, size: nat, i: nat, n: nat, v: bool)
    requires i < size <= 32 * |words| && RunLen(words, i, size, v) < n
    ensures forall j :: i <= j < i + RunLen(words, i, size, v) ==> !RunAt(words, size, j, n, v)
  {
    hide Get;
    var end := i + RunLen(words, i, size, v);
    forall j | i <= j < end ensures !RunAt(words, size, j, n, v) {
      assert end < size ==> Get(words, end) != v;
    }
  }

  lemma OtherRun(words: seq<Word>, size: nat, i: nat, n: nat, v: bool)
    requires i < size <= 32 * |words| && n > 0
    ensures forall j :: i <= j < i + RunLen(words, i, size, !v) ==> !RunAt(words, size, j, n, v)
    ensures var end := i + RunLen(words, i, size, !v); end < size ==> Get(words, end) == v
    ensures i + RunLen(words, i, size, !v) <= size
  {
    hide Get;
    var end := i + RunLen(words, i, size, !v);
    forall j | i <= j < end ensures !RunAt(words, size, j, n, v) {
      assert Get(words, j) == !v;
    }
  }

  /** Bits `off` .. `off` + n - 1 of one word. */
  method SetPart(bm: array<Word>, w: nat, off: nat, n: nat)
    requires w < bm.Length && 0 < n && off + n <= 32
    modifies bm
    ensures forall i :: 0 <= i < 32 * bm.Length ==>
              Get(bm[..], i) == (32 * w + off <= i < 32 * w + off + n || old(Get(bm[..], i)))
  {
    hide Bit, WithBits;
    bm[w] := WithBits(bm[w], off, n);
  }

  method SetWhole(bm: array<Word>, w: nat)
    requires w < bm.Length
    modifies bm
    ensures forall i :: 0 <= i < 32 * bm.Length ==>
              Get(bm[..], i) == (32 * w <= i < 32 * w + 32 || old(Get(bm[..], i)))
  {
    hide Bit, WithAll;
    bm[w] := WithAll(bm[w]);
  }

  /** bitmap_set_consecutive */
  method BitmapSetConsecutive(bm: array<Word>, start: nat, n: nat)
    requires n > 0 && start + n <= 32 * bm.Length
    modifies bm
    ensures forall i :: 0 <= i < 32 * bm.Length ==> Get(bm[..], i) == (start <= i < start + n || old(Get(bm[..], i)))
  {
    hide Get;
    var pos, count := start, n;
    var startOffset := start % 32;
    var firstWordBits := Min(32 - startOffset, count);
    SetPart(bm, pos / 32, startOffset, firstWordBits);
    pos := pos + firstWordBits;
    count := count - firstWordBits;
    while count >= 32
      invariant pos + count == start + n && start < pos && (count > 0 ==> pos % 32 == 0)
      invariant forall i :: 0 <= i < 32 * bm.Length ==> Get(bm[..], i) == (start <= i < pos || old(Get(bm[..], i)))
    {
      SetWhole(bm, pos / 32);
      pos := pos + 32;
      count := count - 32;
    }
    if count > 0 {
      SetPart(bm, pos / 32, 0, count);
    }
  }
}
