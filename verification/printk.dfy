/**
 * The resumable formatter of src/lib/printk.c and the chunk loop of src/core/console.c. A
 * variable argument list is a sequence with a cursor.
 */
module Printk {
  import opened Arith
  import opened Digits

  datatype Arg = Word(bits: nat) | Str(chars: string)

  /** What one conversion, or one character of text, prints, and where the cursors are after it. */
  datatype Item = Item(text: string, next: nat, arg: nat)

  /** The conversion character of a '%', or the end of the format, and whether a long is asked for. */
  datatype Conv = Conv(at: nat, long: bool)

  const TWO32: nat := 0x1_0000_0000
  const TWO64: nat := 0x1_0000_0000_0000_0000

  // ----- arguments; reading one that is missing or of the other kind is undefined in C

  function WordAt(args: seq<Arg>, a: nat): (w: nat)
    ensures w < TWO64
  {
    if a < |args| && args[a].Word? then args[a].bits % TWO64 else 0
  }

  function StrAt(args: seq<Arg>, a: nat): string {
    if a < |args| && args[a].Str? then args[a].chars else []
  }

  function AsUnsigned(long: bool, w: nat): (u: nat)
    requires w < TWO64
    ensures u < TWO64
  {
    if long then w else w % TWO32
  }

  /** The two's complement value of a long or an int. */
  function AsSigned(long: bool, w: nat): (s: int)
    requires w < TWO64
    ensures -0x8000_0000_0000_0000 <= s < 0x8000_0000_0000_0000
  {
    if long then (if w < 0x8000_0000_0000_0000 then w else w - TWO64)
    else (if w % TWO32 < 0x8000_0000 then w % TWO32 else w % TWO32 - TWO32)
  }

  // ----- what a format prints

  predicate IsFlag(c: char) {
    ('0' <= c <= '9') || c == '-' || c == '+' || c == ' ' || c == '#' || c == '.'
  }

  function SkipFlags(fmt: string, i: nat): (j: nat)
    requires i <= |fmt|
    ensures i <= j <= |fmt| && (j < |fmt| ==> !IsFlag(fmt[j]))
    decreases |fmt| - i
  {
    if i < |fmt| && IsFlag(fmt[i]) then SkipFlags(fmt, i + 1) else i
  }

  predicate CharIs(fmt: string, i: nat, c: char) {
    i < |fmt| && fmt[i] == c
  }

  function ConvAt(fmt: string, i: nat): (c: Conv)
    requires i < |fmt|
    ensures i < c.at <= |fmt|
  {
    var j := SkipFlags(fmt, i + 1);
    if CharIs(fmt, j, 'l') then Conv(if CharIs(fmt, j + 1, 'l') then j + 2 else j + 1, true)
    else if CharIs(fmt, j, 'z') then Conv(j + 1, true)
    else Conv(j, false)
  }

  /** An integer as vprintd prints it. */
  function IntText(hex: bool, unsigned: bool, long: bool, w: nat): string
    requires w < TWO64
  {
    if unsigned || hex then Numeral(AsUnsigned(long, w), if hex then 16 else 10)
    else if AsSigned(long, w) < 0 then ['-'] + Numeral(-AsSigned(long, w), 10)
    else Numeral(AsSigned(long, w), 10)
  }

  /** The number a text of digits with a sign stands for. */
  function Signed(text: string, base: nat): int {
    if text != [] && text[0] == '-' then -(Value(text[1..], base) as int) else Value(text, base)
  }

  /**
   * What is printed stands for the number that the argument's low 64 or 32 bits are: without
   * a sign the one below 2^64 or 2^32, with a sign the two's complement one.
   */
  lemma IntDecodes(hex: bool, unsigned: bool, long: bool, w: nat)
    requires w < TWO64
    ensures var v, n := Signed(IntText(hex, unsigned, long, w), if hex then 16 else 10), if long then TWO64 else TWO32;
            && (w - v) % n == 0
            && if unsigned || hex then 0 <= v < n else 0 <= 2 * v + n < 2 * n
  {
    hide Numeral, Value;
    var base, n := if hex then 16 else 10, if long then TWO64 else TWO32;
    var v: int := if unsigned || hex then AsUnsigned(long, w) else AsSigned(long, w);
    assert (w - v) % n == 0 by {
      LowBits(w, TWO32);
    }
    var u: nat := if v < 0 then -v else v;
    NumeralDecodes(u, base);
    NoSign(u, base);
    var text := IntText(hex, unsigned, long, w);
    assert v < 0 ==> text[1..] == Numeral(u, base);
  }

  lemma LowBits(w: nat, n: nat)
    requires n > 0
    ensures (w - w % n) % n == 0 && (w - (w % n - n)) % n == 0
  {
    DivModUnique(w - w % n, n, w / n, 0);
    assert w - (w % n - n) == (w / n + 1) * n;
    DivModUnique(w - (w % n - n), n, w / n + 1, 0);
  }

  /** A numeral does not begin with a minus sign. */
  lemma NoSign(u: nat, base: nat)
    requires 2 <= base <= 16
    ensures Numeral(u, base)[..1] != ['-']
  {
    hide Pow, TopPow, Digit, Below;
  }

  predicate IsInt(c: char) {
    c == 'x' || c == 'X' || c == 'u' || c == 'd' || c == 'i'
  }

  function Cut(s: string, size: nat): string {
    if |s| <= size then s else s[..size]
  }

  /** One step through the format, for buffers of `size` characters: a string is cut to that. */
  function ItemAt(fmt: string, i: nat, args: seq<Arg>, a: nat, size: nat): (r: Item)
    requires i < |fmt|
    ensures i < r.next <= |fmt|
  {
    if fmt[i] != '%' then Item([fmt[i]], i + 1, a)
    else
      var c := ConvAt(fmt, i);
      if c.at == |fmt| then Item([], c.at, a)
      else
        var ch := fmt[c.at];
        if IsInt(ch) then
          Item(IntText(ch == 'x' || ch == 'X', ch == 'u', c.long, WordAt(args, a)), c.at + 1, a + 1)
        else if ch == 's' then Item(Cut(StrAt(args, a), size), c.at + 1, a + 1)
        else if ch == 'c' then Item([(WordAt(args, a) % 256) as char], c.at + 1, a + 1)
        else if ch == '%' then Item(['%'], c.at + 1, a)
        else Item([], c.at, a)
  }

  lemma {:induction false} FlagsSkipped(fmt: string, i: nat, j: nat)
    requires i <= j < |fmt| && !IsFlag(fmt[j]) && forall m :: i <= m < j ==> IsFlag(fmt[m])
    ensures SkipFlags(fmt, i) == j
    decreases j - i
  {
    if i < j {
      FlagsSkipped(fmt, i + 1, j);
    }
  }

  lemma FlagChars(c: char)
    ensures c in "0123456789-+ #." <==> IsFlag(c)
  {
    var digits := "0123456789-+ #.";
    if '0' <= c <= '9' {
      assert digits[c as int - '0' as int] == c;
    }
    assert digits[10..] == ['-', '+', ' ', '#', '.'];
  }

  /** A conversion with any flags, width and precision, and a length, is this one. */
  lemma ConvIs(fmt: string, flags: string, length: string, ch: char, rest: string)
    requires forall c :: c in flags ==> c in "0123456789-+ #."
    requires length in {"", "l", "ll", "z"} && ch !in "0123456789-+ #." && ch != 'l' && (ch == 'z' ==> length != "")
    requires fmt == "%" + flags + length + [ch] + rest
    ensures ConvAt(fmt, 0) == Conv(1 + |flags| + |length|, length != "") && fmt[1 + |flags| + |length|] == ch
  {
    var j := 1 + |flags|;
    forall m | 1 <= m < j ensures IsFlag(fmt[m]) {
      assert fmt[m] == flags[m - 1] && fmt[m] in flags;
      FlagChars(fmt[m]);
    }
    FlagChars(ch);
    assert forall m :: 0 <= m < |length| ==> fmt[j + m] == length[m];
    assert fmt[j + |length|] == ch;
    FlagsSkipped(fmt, 1, j);
  }

  /** What each conversion prints and consumes. */
  lemma Conversions(fmt: string, flags: string, length: string, ch: char, rest: string, args: seq<Arg>, a: nat, size: nat)
    requires forall c :: c in flags ==> c in "0123456789-+ #."
    requires length in {"", "l", "ll", "z"} && ch !in "0123456789-+ #." && ch != 'l' && (ch == 'z' ==> length != "")
    requires fmt == "%" + flags + length + [ch] + rest && a < |args|
    ensures var item, at, arg := ItemAt(fmt, 0, args, a, size), 1 + |flags| + |length|, args[a];
            if ch in "diuxX" then
              item.next == at + 1 && item.arg == a + 1
              && (arg.Word? && arg.bits < TWO64 ==> item.text == IntText(ch in "xX", ch == 'u', length != "", arg.bits))
            else if ch == 's' then
              item.next == at + 1 && item.arg == a + 1
              && (arg.Str? ==> item.text == if |arg.chars| <= size then arg.chars else arg.chars[..size])
            else if ch == 'c' then
              item.next == at + 1 && item.arg == a + 1 && (arg.Word? ==> |item.text| == 1 && item.text[0] as int == arg.bits % 256)
            else item == if ch == '%' then Item("%", at + 1, a) else Item("", at, a)
  {
    hide IntText, ConvAt;
    ConvIs(fmt, flags, length, ch, rest);
    if args[a].Word? {
      LowByte(args[a].bits);
    }
  }

  lemma LowByte(w: nat)
    ensures w % TWO64 % 256 == w % 256
  {
    assert w == w / TWO64 * TWO64 + w % TWO64;
    DivModUnique(w, 256, w / TWO64 * (TWO64 / 256) + w % TWO64 / 256, w % TWO64 % 256);
  }

  /** The whole rendering of a format from position `i`, with no limit on the output. */
  function Render(fmt: string, i: nat, args: seq<Arg>, a: nat, size: nat): string
    requires i <= |fmt|
    decreases |fmt| - i
  {
    if i == |fmt| then []
    else
      var item := ItemAt(fmt, i, args, a, size);
      item.text + Render(fmt, item.next, args, item.arg, size)
  }

  /** A buffer of 20 characters holds any item: 2^64 - 1 and -2^63 have 20 characters. */
  lemma ItemFits(fmt: string, i: nat, args: seq<Arg>, a: nat, size: nat)
    requires i < |fmt| && size >= 20
    ensures |ItemAt(fmt, i, args, a, size).text| <= size
  {
    hide Numeral, ConvAt;
    var w := WordAt(args, a);
    IntFits(true, true, w, true);
    IntFits(true, true, w, false);
    IntFits(true, false, w, true);
    IntFits(true, false, w, false);
    IntFits(false, true, w, true);
    IntFits(false, true, w, false);
    IntFits(false, false, w, true);
    IntFits(false, false, w, false);
  }

  lemma IntFits(hex: bool, unsigned: bool, w: nat, long: bool)
    requires w < TWO64
    ensures |IntText(hex, unsigned, long, w)| <= 20
  {
    hide Numeral;
    Powers();
    if unsigned || hex {
      NumeralLength(AsUnsigned(long, w), if hex then 16 else 10, if hex then 16 else 20);
    } else {
      var s := AsSigned(long, w);
      NumeralLength(if s < 0 then -s else s, 10, 19);
    }
  }

  lemma Powers()
    ensures Pow(16, 16) == TWO64 && Pow(10, 19) > 0x8000_0000_0000_0000 && Pow(10, 20) > TWO64
  {
    PowSum(16, 8, 8);
    PowSum(16, 4, 4);
    assert Pow(16, 4) == 65536;
    PowSum(10, 10, 10);
    PowSum(10, 10, 9);
    PowSum(10, 5, 5);
    PowSum(10, 5, 4);
    assert Pow(10, 4) == 10000 && Pow(10, 5) == 100000;
  }

  lemma {:induction false} PowSum(base: nat, j: nat, k: nat)
    ensures Pow(base, j + k) == Pow(base, j) * Pow(base, k)
  {
    if j > 0 {
      PowSum(base, j - 1, k);
      assert base * (Pow(base, j - 1) * Pow(base, k)) == base * Pow(base, j - 1) * Pow(base, k);
    }
  }

  // ----- printing into a buffer, or only counting when there is none

  ghost predicate Room(buf: array?<char>, pos: nat, n: nat) {
    buf == null || pos + n <= buf.Length
  }

  /** Position `pos'` is past `text`, which now follows `before` in the buffer. */
  ghost predicate Printed(buf: array?<char>, before: string, pos: nat, pos': nat, text: string)
    reads buf
  {
    if buf == null then pos' == pos
    else pos' == pos + |text| && pos' <= buf.Length && buf[..pos'] == before + text
  }

  ghost function Before(buf: array?<char>, pos: nat): string
    requires Room(buf, pos, 0)
    reads buf
  {
    if buf == null then [] else buf[..pos]
  }

  method PrintC(buf: array?<char>, pos: nat, c: char) returns (pos': nat)
    requires Room(buf, pos, 1)
    modifies buf
    ensures Printed(buf, old(Before(buf, pos)), pos, pos', [c])
  {
    pos' := pos;
    if buf != null {
      buf[pos] := c;
      pos' := pos + 1;
    }
  }

  /** prints and printsn: at most `max` characters of a string. */
  method PrintSN(buf: array?<char>, pos: nat, s: string, max: nat) returns (count: nat, pos': nat)
    requires Room(buf, pos, |Cut(s, max)|)
    modifies buf
    ensures count == |Cut(s, max)| && Printed(buf, old(Before(buf, pos)), pos, pos', Cut(s, max))
  {
    count, pos' := 0, pos;
    while count < max && count < |s|
      invariant count <= |Cut(s, max)| && Printed(buf, old(Before(buf, pos)), pos, pos', s[..count])
    {
      pos' := PrintC(buf, pos', s[count]);
      assert s[..count + 1] == s[..count] + [s[count]];
      count := count + 1;
    }
    assert Cut(s, max) == s[..count];
  }

  /** vprintd */
  method VPrintD(buf: array?<char>, pos: nat, hex: bool, unsigned: bool, long: bool, w: nat) returns (count: nat, pos': nat)
    requires w < TWO64 && Room(buf, pos, |IntText(hex, unsigned, long, w)|)
    modifies buf
    ensures count == |IntText(hex, unsigned, long, w)|
    ensures Printed(buf, old(Before(buf, pos)), pos, pos', IntText(hex, unsigned, long, w))
  {
    hide Numeral, AsSigned, AsUnsigned;
    var base := if hex then 16 else 10;
    var u: nat;
    count, pos' := 0, pos;
    ghost var before := Before(buf, pos);
    ghost var sign := [];
    if unsigned || base != 10 {
      u := AsUnsigned(long, w);
    } else {
      var s := AsSigned(long, w);
      if s < 0 {
        pos' := PrintC(buf, pos', '-');
        count, sign := 1, ['-'];
        u := -s;
      } else {
        u := s;
      }
    }
    assert IntText(hex, unsigned, long, w) == sign + Numeral(u, base);
    var n: nat;
    n, pos' := PrintNumeral(buf, pos', u, base);
    count := count + n;
  }

  /** The first loop of vprintd: the greatest power of the base that is not above `u`. */
  method TopDivisor(u: nat, base: nat) returns (divisor: nat)
    requires base >= 2
    ensures divisor == Pow(base, TopPow(u, base))
  {
    hide Pow, TopPow;
    var tmp: nat := u;
    ghost var k: nat := 0;
    divisor := 1;
    PowUnfold(base, 0);
    while tmp >= base
      invariant divisor == Pow(base, k) && TopPow(u, base) == k + TopPow(tmp, base)
      decreases tmp
    {
      TopPowUnfold(tmp, base);
      QuotientSmaller(tmp, base);
      PowUnfold(base, k);
      divisor, tmp, k := divisor * base, tmp / base, k + 1;
    }
    TopPowUnfold(tmp, base);
  }

  /** The digits not printed yet, when `m` are left. */
  ghost function Rest(u: nat, m: nat, base: nat): string
    requires 2 <= base <= 16
  {
    if m == 0 then [] else DigitsOf(u, m - 1, base)
  }

  /** The first digit, as the second loop of vprintd computes it. */
  lemma RestStep(u: nat, m: nat, base: nat, q: nat, r: nat)
    requires 2 <= base <= 16 && 0 < m && u < Pow(base, m) && q < base
    requires q == Digit(u, Pow(base, m - 1), base) && r == Below(u, Pow(base, m - 1))
    ensures Rest(u, m, base) == [DigitToChar(q, base)] + Rest(r, m - 1, base)
  {
    hide Pow, DigitToChar, DigitsOf, Digit, Below;
    DigitsUnfold(u, m - 1, base);
  }

  /** One round of the second loop of vprintd, when `m` digits are left. */
  method NextDigit(u: nat, divisor: nat, base: nat, ghost m: nat) returns (digit: nat, u': nat, divisor': nat)
    requires 2 <= base <= 16 && m > 0 && u < Pow(base, m) && divisor == Pow(base, m - 1) > 0
    ensures digit < base && u' < Pow(base, m - 1)
    ensures Rest(u, m, base) == [DigitToChar(digit, base)] + Rest(u', m - 1, base)
    ensures divisor' == (if m == 1 then 0 else Pow(base, m - 2)) && (m > 1 ==> divisor' > 0)
  {
    hide Pow, Rest, DigitToChar, Digit, Below;
    DigitSplits(u, m - 1, base);
    digit := u / divisor;
    u' := u - digit * divisor;
    RestStep(u, m, base, digit, u');
    divisor' := divisor / base;
    PowUnfold(base, 0);
    PowStep(base, if m == 1 then 0 else m - 2);
    if m > 1 {
      PowPositive(base, m - 2);
    }
  }

  /** The two loops of vprintd. */
  method PrintNumeral(buf: array?<char>, pos: nat, u0: nat, base: nat) returns (count: nat, pos': nat)
    requires 2 <= base <= 16 && Room(buf, pos, |Numeral(u0, base)|)
    modifies buf
    ensures count == |Numeral(u0, base)| && Printed(buf, old(Before(buf, pos)), pos, pos', Numeral(u0, base))
  {
    hide Pow, TopPow, Rest, DigitToChar, Numeral, DigitsOf;
    ghost var before, text := Before(buf, pos), Numeral(u0, base);
    var u: nat := u0;
    var divisor := TopDivisor(u0, base);
    ghost var m := NumeralRest(u0, base);
    count, pos' := 0, pos;
    while divisor > 0
      invariant divisor == (if m == 0 then 0 else Pow(base, m - 1)) && (m > 0 ==> divisor > 0) && u < Pow(base, m)
      invariant count <= |text| && text == text[..count] + Rest(u, m, base)
      invariant Printed(buf, before, pos, pos', text[..count])
      decreases m
    {
      var digit;
      digit, u, divisor := NextDigit(u, divisor, base, m);
      assert text[count] == DigitToChar(digit, base);
      assert text[..count + 1] == text[..count] + [text[count]];
      pos' := PrintC(buf, pos', DigitToChar(digit, base));
      count, m := count + 1, m - 1;
    }
    RestNone(u, base);
    assert text[..count] == text;
  }

  lemma NumeralRest(u: nat, base: nat) returns (m: nat)
    requires 2 <= base <= 16
    ensures m == TopPow(u, base) + 1 && u < Pow(base, m) && Pow(base, m - 1) > 0 && Numeral(u, base) == Rest(u, m, base)
  {
    m := TopPow(u, base) + 1;
    TopPowBounds(u, base);
    PowPositive(base, m - 1);
  }

  lemma RestNone(u: nat, base: nat)
    requires 2 <= base <= 16
    ensures Rest(u, 0, base) == []
  {
  }

  // ----- the format loop

  /** The flags, width and length of a conversion are skipped. */
  method ParseConv(fmt: string, i: nat) returns (c: Conv)
    requires i < |fmt|
    ensures c == ConvAt(fmt, i)
  {
    var j := i + 1;
    while j < |fmt| && IsFlag(fmt[j])
      invariant i < j <= |fmt| && SkipFlags(fmt, j) == SkipFlags(fmt, i + 1)
    {
      j := j + 1;
    }
    var long := false;
    if j < |fmt| && fmt[j] == 'l' {
      j, long := j + 1, true;
      if j < |fmt| && fmt[j] == 'l' {
        j := j + 1;
      }
    } else if j < |fmt| && fmt[j] == 'z' {
      j, long := j + 1, true;
    }
    c := Conv(j, long);
  }

  /** One round of vsnprintk: prints the item at `i`, or only reports its length if it does not fit. */
  method PrintItem(buf: array<char>, pos: nat, fmt: string, i: nat, args: seq<Arg>, a: nat)
    returns (count: nat, next: nat, arg: nat)
    requires i < |fmt| && pos < buf.Length
    modifies buf
    ensures ItemAt(fmt, i, args, a, buf.Length) == Item(ItemAt(fmt, i, args, a, buf.Length).text, next, arg)
    ensures count > buf.Length - pos <==> |ItemAt(fmt, i, args, a, buf.Length).text| > buf.Length - pos
    ensures count <= buf.Length - pos ==>
              count == |ItemAt(fmt, i, args, a, buf.Length).text|
              && buf[..pos + count] == old(buf[..pos]) + ItemAt(fmt, i, args, a, buf.Length).text
    ensures count > buf.Length - pos ==> buf[..pos] == old(buf[..pos])
  {
    hide IntText, ConvAt;
    var left := buf.Length - pos;
    var pos';
    if fmt[i] != '%' {
      pos' := PrintC(buf, pos, fmt[i]);
      return 1, i + 1, a;
    }
    var c := ParseConv(fmt, i);
    count, next, arg := 0, c.at, a;
    if c.at < |fmt| {
      var ch := fmt[c.at];
      if IsInt(ch) {
        var w := WordAt(args, a);
        count, pos' := VPrintD(null, 0, ch == 'x' || ch == 'X', ch == 'u', c.long, w);
        if count <= left {
          count, pos' := VPrintD(buf, pos, ch == 'x' || ch == 'X', ch == 'u', c.long, w);
        }
        next, arg := c.at + 1, a + 1;
      } else if ch == 's' {
        var s := StrAt(args, a);
        count, pos' := PrintSN(null, 0, s, |s|);
        if count <= left {
          count, pos' := PrintSN(buf, pos, s, |s|);
        } else if left == buf.Length {
          count, pos' := PrintSN(buf, pos, s, left);
        }
        next, arg := c.at + 1, a + 1;
      } else if ch == 'c' {
        pos' := PrintC(buf, pos, (WordAt(args, a) % 256) as char);
        count, next, arg := 1, c.at + 1, a + 1;
      } else if ch == '%' {
        pos' := PrintC(buf, pos, '%');
        count, next := 1, c.at + 1;
      }
    }
  }

  /**
   * vsnprintk: fills the buffer with whole items from format position `i` and argument `a`,
   * and returns where to go on.
   */
  method Vsnprintk(buf: array<char>, fmt: string, i: nat, args: seq<Arg>, a: nat)
    returns (written: nat, next: nat, arg: nat)
    requires i <= |fmt|
    modifies buf
    ensures written <= buf.Length && i <= next <= |fmt|
    ensures Render(fmt, i, args, a, buf.Length) == buf[..written] + Render(fmt, next, args, arg, buf.Length)
    ensures next < |fmt| && written < buf.Length ==>
              |ItemAt(fmt, next, args, arg, buf.Length).text| > buf.Length - written
    ensures i < |fmt| && buf.Length > 0 ==> (next > i <==> |ItemAt(fmt, i, args, a, buf.Length).text| <= buf.Length)
  {
    hide ItemAt;
    ghost var size := buf.Length;
    written, next, arg := 0, i, a;
    while next < |fmt| && written < buf.Length
      invariant written <= size && i <= next <= |fmt|
      invariant Render(fmt, i, args, a, size) == buf[..written] + Render(fmt, next, args, arg, size)
      invariant next == i ==> written == 0 && arg == a
      invariant next > i && size > 0 ==> |ItemAt(fmt, i, args, a, size).text| <= size
      decreases |fmt| - next
    {
      ghost var item := ItemAt(fmt, next, args, arg, size);
      var count, next', arg' := PrintItem(buf, written, fmt, next, args, arg);
      if count > buf.Length - written {
        break;
      }
      assert Render(fmt, next, args, arg, size) == item.text + Render(fmt, item.next, args, item.arg, size);
      written, next, arg := written + count, next', arg';
    }
  }

  // ----- the console

  /** console_write puts a carriage return before every line feed. */
  function Crlf(s: string): string {
    if s == [] then [] else (if s[0] == '\n' then ['\r', '\n'] else [s[0]]) + Crlf(s[1..])
  }

  lemma {:induction false} CrlfAppend(s: string, t: string)
    ensures Crlf(s + t) == Crlf(s) + Crlf(t)
  {
    if s == [] {
      assert s + t == t;
    } else {
      assert (s + t)[1..] == s[1..] + t;
      CrlfAppend(s[1..], t);
    }
  }

  /** console_write, onto the characters the UART has received. */
  method ConsoleWrite(uart: string, buf: array<char>, n: nat) returns (uart': string)
    requires n <= buf.Length
    ensures uart' == uart + Crlf(buf[..n])
  {
    uart' := uart;
    assert buf[..n] == buf[..0] + buf[..n];
    for i := 0 to n
      invariant uart' == uart + Crlf(buf[..i])
    {
      assert buf[..i + 1] == buf[..i] + [buf[i]];
      CrlfAppend(buf[..i], [buf[i]]);
      assert [buf[i]][1..] == [];
      if buf[i] == '\n' {
        uart' := uart' + ['\r'];
      }
      uart' := uart' + [buf[i]];
    }
  }

  /**
   * console_printk with a buffer of any size from 20 characters: the chunks add up to the one
   * rendering of the format, and the loop ends.
   */
  method ConsolePrintk(uart: string, buf: array<char>, fmt: string, args: seq<Arg>) returns (uart': string)
    requires buf.Length >= 20
    modifies buf
    ensures uart' == uart + Crlf(Render(fmt, 0, args, 0, buf.Length))
  {
    hide ItemAt, Render, Crlf;
    var i, a := 0, 0;
    uart' := uart;
    CrlfEmpty();
    ghost var done := [];
    while i < |fmt|
      invariant i <= |fmt| && Render(fmt, 0, args, 0, buf.Length) == done + Render(fmt, i, args, a, buf.Length)
      invariant uart' == uart + Crlf(done)
      decreases |fmt| - i
    {
      ItemFits(fmt, i, args, a, buf.Length);
      var n;
      n, i, a := Vsnprintk(buf, fmt, i, args, a);
      uart' := ConsoleWrite(uart', buf, if n < buf.Length then n else buf.Length);
      CrlfAppend(done, buf[..n]);
      done := done + buf[..n];
    }
    RenderEnd(fmt, args, a, buf.Length);
    assert done + [] == done;
  }

  lemma CrlfEmpty()
    ensures Crlf([]) == []
  {
  }

  lemma RenderEnd(fmt: string, args: seq<Arg>, a: nat, size: nat)
    ensures Render(fmt, |fmt|, args, a, size) == []
  {
  }

  /** With a smaller buffer a number may never fit: nothing is printed and the loop stays where it is. */
  lemma StuckExample() returns (fmt: string, args: seq<Arg>)
    ensures |fmt| > 0 && |ItemAt(fmt, 0, args, 0, 1).text| > 1
  {
    fmt, args := "%u", [Word(10)];
    assert SkipFlags(fmt, 1) == 1 && ConvAt(fmt, 0) == Conv(1, false);
    DigitsDecode(10, 1, 10);
    assert TopPow(10, 10) == 1;
  }
}
