/**
 * The 32-bit granules of a bitmap and their masks. A shift by a variable amount is built
 * from shifts by one, so that every fact about bits follows by induction on the amount.
 */
module Granule {
  type Word = bv32

  const LEN: nat := 32

  /** ONE << k */
  function One(k: nat): (w: Word)
    requires k < LEN
  {
    if k == 0 then 1 else One(k - 1) << 1
  }

  /** w << k */
  function Shl(w: Word, k: nat): Word {
    if k == 0 then w else Shl(w, k - 1) << 1
  }

  /** The words have a bit in common. */
  predicate Touches(w: Word, o: Word) {
    w & o != 0
  }

  predicate Single(o: Word) {
    o != 0 && o & (o - 1) == 0
  }

  predicate Bit(w: Word, k: nat)
    requires k < LEN
  {
    Touches(w, One(k))
  }

  /** BIT32_MASK(off, len) for len > 0 */
  function Mask(off: nat, len: nat): Word
    requires 0 < len <= LEN
  {
    Shl((One(len - 1) << 1) - 1, off)
  }

  /** The word whose bits all equal `set`. */
  function Uniform(set_: bool): Word {
    if set_ then 0xffff_ffff else 0
  }

  // ----- single bits

  /** ONE << k is a single bit, and no bit but the last is shifted out. */
  lemma OneIsBit(k: nat)
    requires k < LEN
    ensures Single(One(k))
    ensures k < LEN - 1 ==> One(k) << 1 != 0
  {
    hide One;
    OneValues();
  }

  lemma OneValues()
    ensures One(0) == 0x1
    ensures One(1) == 0x2
    ensures One(2) == 0x4
    ensures One(3) == 0x8
    ensures One(4) == 0x10
    ensures One(5) == 0x20
    ensures One(6) == 0x40
    ensures One(7) == 0x80
    ensures One(8) == 0x100
    ensures One(9) == 0x200
    ensures One(10) == 0x400
    ensures One(11) == 0x800
    ensures One(12) == 0x1000
    ensures One(13) == 0x2000
    ensures One(14) == 0x4000
    ensures One(15) == 0x8000
    ensures One(16) == 0x10000
    ensures One(17) == 0x20000
    ensures One(18) == 0x40000
    ensures One(19) == 0x80000
    ensures One(20) == 0x100000
    ensures One(21) == 0x200000
    ensures One(22) == 0x400000
    ensures One(23) == 0x800000
    ensures One(24) == 0x1000000
    ensures One(25) == 0x2000000
    ensures One(26) == 0x4000000
    ensures One(27) == 0x8000000
    ensures One(28) == 0x10000000
    ensures One(29) == 0x20000000
    ensures One(30) == 0x40000000
    ensures One(31) == 0x80000000
  {
    assert One(1) == 0x2;
    assert One(2) == 0x4;
    assert One(3) == 0x8;
    assert One(4) == 0x10;
    assert One(5) == 0x20;
    assert One(6) == 0x40;
    assert One(7) == 0x80;
    assert One(8) == 0x100;
    assert One(9) == 0x200;
    assert One(10) == 0x400;
    assert One(11) == 0x800;
    assert One(12) == 0x1000;
    assert One(13) == 0x2000;
    assert One(14) == 0x4000;
    assert One(15) == 0x8000;
    assert One(16) == 0x10000;
    assert One(17) == 0x20000;
    assert One(18) == 0x40000;
    assert One(19) == 0x80000;
    assert One(20) == 0x100000;
    assert One(21) == 0x200000;
    assert One(22) == 0x400000;
    assert One(23) == 0x800000;
    assert One(24) == 0x1000000;
    assert One(25) == 0x2000000;
    assert One(26) == 0x4000000;
    assert One(27) == 0x8000000;
    assert One(28) == 0x10000000;
    assert One(29) == 0x20000000;
    assert One(30) == 0x40000000;
    assert One(31) == 0x80000000;
  }

  lemma {:induction false} OneDistinct(j: nat, k: nat)
    requires j < LEN && k < LEN && j != k
    ensures !Touches(One(j), One(k))
  {
    hide Touches;
    if j > 0 && k > 0 {
      OneDistinct(j - 1, k - 1);
      ShiftBoth(One(j - 1), One(k - 1));
    } else if j == 0 {
      ShiftLow(One(k - 1));
    } else {
      ShiftLow(One(j - 1));
    }
  }

  lemma ShiftBoth(a: Word, b: Word)
    ensures !Touches(a, b) ==> !Touches(a << 1, b << 1)
  {
  }

  lemma ShiftLow(a: Word)
    ensures !Touches(a << 1, 1) && !Touches(1, a << 1)
  {
  }

  lemma OrLeft(a: Word, b: Word, o: Word)
    requires Touches(a, o)
    ensures Touches(a | b, o)
  {
  }

  lemma OrRight(a: Word, b: Word, o: Word)
    requires Touches(b, o)
    ensures Touches(a | b, o)
  {
  }

  lemma OrNeither(a: Word, b: Word, o: Word)
    requires !Touches(a, o) && !Touches(b, o)
    ensures !Touches(a | b, o)
  {
  }

  lemma XorBit(a: Word, b: Word, o: Word)
    requires Single(o)
    ensures Touches(a ^ b, o) <==> Touches(a, o) != Touches(b, o)
  {
  }

  lemma AndBit(a: Word, b: Word, o: Word)
    requires Single(o)
    ensures Touches(a & b, o) <==> Touches(a, o) && Touches(b, o)
  {
  }

  lemma NotBit(a: Word, o: Word)
    requires Single(o)
    ensures Touches(!a, o) <==> !Touches(a, o)
  {
  }

  lemma BitXor(a: Word, b: Word, r: Word, k: nat)
    requires k < LEN && r == a ^ b
    ensures Bit(r, k) <==> Bit(a, k) != Bit(b, k)
  {
    hide One, Touches, Single;
    OneIsBit(k);
    XorBit(a, b, One(k));
  }

  lemma BitAnd(a: Word, b: Word, r: Word, k: nat)
    requires k < LEN && r == a & b
    ensures Bit(r, k) <==> Bit(a, k) && Bit(b, k)
  {
    hide One, Touches, Single;
    OneIsBit(k);
    AndBit(a, b, One(k));
  }

  lemma BitNot(a: Word, r: Word, k: nat)
    requires k < LEN && r == !a
    ensures Bit(r, k) <==> !Bit(a, k)
  {
    hide One, Touches, Single;
    OneIsBit(k);
    NotBit(a, One(k));
  }

  lemma BitOr(a: Word, b: Word, r: Word, k: nat)
    requires k < LEN && r == a | b
    ensures Bit(r, k) <==> Bit(a, k) || Bit(b, k)
  {
    hide One, Touches;
    if Bit(a, k) {
      OrLeft(a, b, One(k));
    } else if Bit(b, k) {
      OrRight(a, b, One(k));
    } else {
      OrNeither(a, b, One(k));
    }
  }

  lemma BitOne(j: nat, k: nat)
    requires j < LEN && k < LEN
    ensures Bit(One(j), k) <==> j == k
  {
    hide One, Touches, Single;
    if j == k {
      OneIsBit(k);
      SelfTouch(One(k));
    } else {
      OneDistinct(j, k);
    }
  }

  lemma BitUniform(set_: bool, k: nat)
    requires k < LEN
    ensures Bit(Uniform(set_), k) == set_
  {
    hide One, Touches, Single;
    OneIsBit(k);
    AllOnes(One(k));
  }

  lemma SelfTouch(o: Word)
    requires Single(o)
    ensures Touches(o, o)
  {
  }

  lemma AllOnes(o: Word)
    ensures Single(o) ==> Touches(0xffff_ffff, o)
    ensures !Touches(0, o)
  {
  }

  // ----- masks

  lemma BitShl1(w: Word, w': Word, k: nat)
    requires k < LEN && w' == w << 1
    ensures Bit(w', k) <==> k > 0 && Bit(w, k - 1)
  {
    hide Bit;
    if k > 0 {
      BitShlUp(w, w', k);
    } else {
      BitShlLow(w, w');
    }
  }

  lemma BitShlLow(w: Word, w': Word)
    requires w' == w << 1
    ensures !Bit(w', 0)
  {
    hide Touches;
    ShiftLow(w);
  }

  lemma BitShlUp(w: Word, w': Word, k: nat)
    requires 0 < k < LEN && w' == w << 1
    ensures Bit(w', k) <==> Bit(w, k - 1)
  {
    hide One, Touches, Single;
    OneSteps(k);
    OneIsBit(k);
    OneIsBit(k - 1);
    ShiftOne(w, One(k - 1));
  }

  lemma OneSteps(k: nat)
    requires k < LEN
    ensures One(k) == if k == 0 then 1 else One(k - 1) << 1
  {
  }

  lemma ShiftOne(w: Word, o: Word)
    requires Single(o) && Single(o << 1)
    ensures Touches(w << 1, o << 1) <==> Touches(w, o)
  {
  }

  lemma {:induction false} BitShl(w: Word, off: nat, k: nat)
    requires k < LEN
    ensures Bit(Shl(w, off), k) <==> k >= off && Bit(w, k - off)
  {
    hide Bit;
    if off > 0 {
      BitShl1(Shl(w, off - 1), Shl(w, off), k);
      if k > 0 {
        BitShl(w, off - 1, k - 1);
      }
    }
  }

  /** The low `len` bits. */
  lemma {:induction false} BitLow(len: nat, k: nat)
    requires 0 < len <= LEN && k < LEN
    ensures Bit((One(len - 1) << 1) - 1, k) <==> k < len
  {
    hide Bit, Touches, Single;
    OneIsBit(len - 1);
    LowStep(One(len - 1));
    BitOr(One(len - 1), One(len - 1) - 1, (One(len - 1) << 1) - 1, k);
    BitOne(len - 1, k);
    if len > 1 {
      BitLow(len - 1, k);
    } else {
      ZeroHasNoBit(k);
    }
  }

  lemma LowStep(o: Word)
    requires Single(o)
    ensures (o << 1) - 1 == o | (o - 1)
  {
  }

  lemma BitMask(off: nat, len: nat, k: nat)
    requires 0 < len <= LEN && k < LEN
    ensures Bit(Mask(off, len), k) <==> off <= k < off + len
  {
    BitShl((One(len - 1) << 1) - 1, off, k);
    if k >= off {
      BitLow(len, k - off);
    }
  }

  // ----- whole words

  lemma {:induction false} LowBitsZero(w: Word, n: nat)
    requires 0 < n <= LEN && forall k :: 0 <= k < n ==> !Bit(w, k)
    ensures !Touches(w, (One(n - 1) << 1) - 1)
  {
    hide Touches, Single;
    OneIsBit(n - 1);
    LowStep(One(n - 1));
    assert !Bit(w, n - 1);
    if n > 1 {
      LowBitsZero(w, n - 1);
      assert One(n - 1) == One(n - 2) << 1;
    } else {
      NoWord(w);
    }
    JoinZero(w, One(n - 1), One(n - 1) - 1);
  }

  lemma NoWord(w: Word)
    ensures !Touches(w, 0)
  {
  }

  lemma JoinZero(w: Word, a: Word, b: Word)
    requires !Touches(w, a) && !Touches(w, b)
    ensures !Touches(w, a | b)
  {
  }

  lemma AllBitsClear(w: Word)
    requires forall k :: 0 <= k < LEN ==> !Bit(w, k)
    ensures w == 0
  {
    hide Bit, Touches, One;
    LowBitsZero(w, LEN);
    OneValues();
    Whole(w, One(31));
  }

  lemma ZeroHasNoBit(k: nat)
    requires k < LEN
    ensures !Bit(0, k)
  {
    hide One, Touches;
    AllOnes(One(k));
  }

  /** A word is zero exactly when all its bits are. */
  lemma ZeroWord(w: Word)
    ensures w == 0 <==> forall k :: 0 <= k < LEN ==> !Bit(w, k)
  {
    hide Bit;
    if w == 0 {
      forall k | 0 <= k < LEN ensures !Bit(w, k) {
        ZeroHasNoBit(k);
      }
    } else if forall k :: 0 <= k < LEN ==> !Bit(w, k) {
      AllBitsClear(w);
    }
  }

  lemma Whole(w: Word, o: Word)
    requires o == 0x8000_0000 && !Touches(w, (o << 1) - 1)
    ensures w == 0
  {
  }

  lemma DiffersUnder(w: Word, v: Word, x: Word, m: Word, d: Word, off: nat, len: nat)
    requires 0 < len <= LEN && off + len <= LEN
    requires x == w ^ v && m == Mask(off, len) && d == x & m
    ensures d == 0 <==> forall k :: off <= k < off + len ==> Bit(w, k) == Bit(v, k)
  {
    hide Mask, Bit;
    forall k | 0 <= k < LEN ensures Bit(d, k) <==> off <= k < off + len && Bit(w, k) != Bit(v, k) {
      BitAnd(x, m, d, k);
      BitXor(w, v, x, k);
      BitMask(off, len, k);
    }
    NoDifference(w, v, d, off, len);
  }

  lemma NoDifference(w: Word, v: Word, d: Word, off: nat, len: nat)
    requires 0 < len <= LEN && off + len <= LEN
    requires forall k :: 0 <= k < LEN ==> (Bit(d, k) <==> off <= k < off + len && Bit(w, k) != Bit(v, k))
    ensures d == 0 <==> forall k :: off <= k < off + len ==> Bit(w, k) == Bit(v, k)
  {
    hide Bit;
    ZeroWord(d);
  }

  lemma WordEqual(w: Word, v: Word)
    ensures w ^ v == 0 <==> forall k :: 0 <= k < LEN ==> Bit(w, k) == Bit(v, k)
  {
    hide Bit;
    var d := w ^ v;
    ZeroWord(d);
    forall k | 0 <= k < LEN ensures Bit(d, k) <==> Bit(w, k) != Bit(v, k) {
      BitXor(w, v, d, k);
    }
  }

  // ----- what the updates of a bitmap do to one granule

  lemma SetBit(w: Word, w': Word, b: nat)
    requires b < LEN && w' == w | One(b)
    ensures forall k :: 0 <= k < LEN ==> Bit(w', k) == (k == b || Bit(w, k))
  {
    hide Bit, One;
    forall k | 0 <= k < LEN ensures Bit(w', k) == (k == b || Bit(w, k)) {
      BitOr(w, One(b), w', k);
      BitOne(b, k);
    }
  }

  lemma ClearBit(w: Word, w': Word, o: Word, n: Word, b: nat)
    requires b < LEN && o == One(b) && n == !o && w' == w & n
    ensures forall k :: 0 <= k < LEN ==> Bit(w', k) == (k != b && Bit(w, k))
  {
    hide Bit, One;
    forall k | 0 <= k < LEN ensures Bit(w', k) == (k != b && Bit(w, k)) {
      BitAnd(w, n, w', k);
      BitNot(o, n, k);
      BitOne(b, k);
    }
  }

  lemma SetBits(w: Word, w': Word, off: nat, len: nat)
    requires 0 < len && off + len <= LEN && w' == w | Mask(off, len)
    ensures forall k :: 0 <= k < LEN ==> Bit(w', k) == (off <= k < off + len || Bit(w, k))
  {
    hide Bit, Mask;
    forall k | 0 <= k < LEN ensures Bit(w', k) == (off <= k < off + len || Bit(w, k)) {
      BitOr(w, Mask(off, len), w', k);
      BitMask(off, len, k);
    }
  }

  /** The scan's test of part of a granule against all ones or all zeros. */
  lemma PartUniform(w: Word, v: bool, m: Word, x: Word, y: Word, d: Word, off: nat, len: nat)
    requires 0 < len && off + len <= LEN
    requires m == Mask(off, len) && x == (if v then m else !m) && y == w ^ x && d == y & m
    ensures d == 0 <==> forall k :: off <= k < off + len ==> Bit(w, k) == v
  {
    hide Bit, Mask;
    DiffersUnder(w, x, y, m, d, off, len);
    SameBits(w, x, v, m, off, len);
  }

  lemma SameBits(w: Word, x: Word, v: bool, m: Word, off: nat, len: nat)
    requires 0 < len && off + len <= LEN && m == Mask(off, len) && x == if v then m else !m
    ensures (forall k :: off <= k < off + len ==> Bit(w, k) == Bit(x, k))
            <==> (forall k :: off <= k < off + len ==> Bit(w, k) == v)
  {
    hide Bit, Mask;
    forall k | off <= k < off + len ensures Bit(x, k) == v {
      BitOfMask(v, m, x, off, len, k);
    }
  }

  lemma BitOfMask(v: bool, m: Word, x: Word, off: nat, len: nat, k: nat)
    requires 0 < len && off + len <= LEN && off <= k < off + len
    requires m == Mask(off, len) && x == if v then m else !m
    ensures Bit(x, k) == v
  {
    hide Bit, Mask;
    BitMask(off, len, k);
    if !v {
      BitNot(m, x, k);
    }
  }

  lemma WholeUniform(w: Word, v: bool, test: bool)
    requires test == (w ^ Uniform(v) == 0)
    ensures test <==> forall k :: 0 <= k < LEN ==> Bit(w, k) == v
  {
    hide Bit, Uniform;
    WordEqual(w, Uniform(v));
    forall k | 0 <= k < LEN ensures Bit(Uniform(v), k) == v {
      BitUniform(v, k);
    }
  }

  // ----- the same as operations

  function WithBit(w: Word, b: nat): (r: Word)
    requires b < LEN
    ensures forall k :: 0 <= k < LEN ==> Bit(r, k) == (k == b || Bit(w, k))
  {
    var r := w | One(b);
    SetBit(w, r, b);
    r
  }

  function WithoutBit(w: Word, b: nat): (r: Word)
    requires b < LEN
    ensures forall k :: 0 <= k < LEN ==> Bit(r, k) == (k != b && Bit(w, k))
  {
    var o := One(b);
    var n := !o;
    var r := w & n;
    ClearBit(w, r, o, n, b);
    r
  }

  function WithBits(w: Word, off: nat, len: nat): (r: Word)
    requires 0 < len && off + len <= LEN
    ensures forall k :: 0 <= k < LEN ==> Bit(r, k) == (off <= k < off + len || Bit(w, k))
  {
    var r := w | Mask(off, len);
    SetBits(w, r, off, len);
    r
  }

  /** The masked comparison of the scans: do bits off .. off + len - 1 all equal `v`? */
  predicate PartIs(w: Word, v: bool, off: nat, len: nat)
    requires 0 < len && off + len <= LEN
  {
    var m := Mask(off, len);
    var x := if v then m else !m;
    (w ^ x) & m == 0
  }

  lemma PartIsBits(w: Word, v: bool, off: nat, len: nat)
    requires 0 < len && off + len <= LEN
    ensures PartIs(w, v, off, len) <==> forall k :: off <= k < off + len ==> Bit(w, k) == v
  {
    hide Bit, Mask, PartIs;
    var m := Mask(off, len);
    var x := if v then m else !m;
    var y := w ^ x;
    var d := y & m;
    PartIsTest(w, v, off, len, m, x, y, d);
    PartUniform(w, v, m, x, y, d, off, len);
  }

  lemma PartIsTest(w: Word, v: bool, off: nat, len: nat, m: Word, x: Word, y: Word, d: Word)
    requires 0 < len && off + len <= LEN
    requires m == Mask(off, len) && x == (if v then m else !m) && y == w ^ x && d == y & m
    ensures PartIs(w, v, off, len) == (d == 0)
  {
    hide Mask;
  }

  /** The comparison of a whole granule against all ones or all zeros. */
  predicate WordIs(w: Word, v: bool) {
    w ^ Uniform(v) == 0
  }

  lemma WordIsBits(w: Word, v: bool)
    ensures WordIs(w, v) <==> forall k :: 0 <= k < LEN ==> Bit(w, k) == v
  {
    hide Bit, Uniform;
    WholeUniform(w, v, WordIs(w, v));
  }

  function WithAll(w: Word): (r: Word)
    ensures forall k :: 0 <= k < LEN ==> Bit(r, k)
  {
    var r := w | Uniform(true);
    SetAll(w, r);
    r
  }

  lemma SetAll(w: Word, w': Word)
    requires w' == w | Uniform(true)
    ensures forall k :: 0 <= k < LEN ==> Bit(w', k)
  {
    hide Bit, Uniform;
    forall k | 0 <= k < LEN ensures Bit(w', k) {
      BitOr(w, Uniform(true), w', k);
      BitUniform(true, k);
    }
  }
}
