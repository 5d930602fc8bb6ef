/** The integer text codec of `include/stdplus/numeric/str.hpp`. */
module NumericStr {
  import opened Text
  import opened Bits

  // ---------------------------------------------------------------- tables

  const MAX_BASE := 36

  /** `singleIntTable` */
  function Digit(d: nat): char
    requires d < MAX_BASE
  {
    if d < 10 then '0' + d as char else 'a' + (d - 10) as char
  }

  /** `multiIntTable<size, base>` */
  function MultiIntTable(size: nat, base: nat): (t: seq<char>)
    requires size > 1 && 1 <= base <= MAX_BASE
  {
    seq(Pow(base, size) * size, (k: nat) =>
      Digit(Rem(Quot(k / size, Pow(base, k % size)), base)))
  }

  /** `charTable`. Texts are 7-bit; any other character is no digit. */
  function DigitValue(c: char): int {
    if '0' <= c <= '9' then (c - '0') as int
    else if 'A' <= c <= 'Z' then (c - 'A') as int + 10
    else if 'a' <= c <= 'z' then (c - 'a') as int + 10
    else -1
  }

  /** `multiIntSupport`. The source's table has no entry for base 36. */
  function MultiIntSupport(base: nat): nat
    requires base < MAX_BASE
  {
    if base == 10 then 2 else 1
  }

  // ---------------------------------------------------------------- positional notation

  ghost predicate IsNumeral(s: string, base: nat) {
    forall i | 0 <= i < |s| :: 0 <= DigitValue(s[i]) < base
  }

  /** One more digit behind a number. */
  function Push(v: nat, base: nat, d: nat): nat {
    v * base + d
  }

  /** The number a numeral denotes, most significant digit first. */
  ghost function Value(s: string, base: nat): nat
    requires IsNumeral(s, base)
  {
    if s == "" then 0
    else
      var n := |s| - 1;
      Push(Value(s[..n], base), base, DigitValue(s[n]))
  }

  /** The numeral of `v` without leading zeros; the empty string for zero. */
  ghost function Digits(v: nat, base: nat): string
    requires 2 <= base <= MAX_BASE
  {
    if v == 0 then "" else Digits(Quot(v, base), base) + [Digit(Rem(v, base))]
  }

  ghost function Zeros(n: nat): (s: string)
    ensures |s| == n
  {
    seq(n, _ => '0')
  }

  function Max(a: int, b: int): int {
    if a < b then b else a
  }

  /** What the printer is to write: the digits, zero-padded to the width asked for, and one
      zero for zero. */
  ghost function UintText(v: nat, base: nat, minWidth: nat): string
    requires 2 <= base <= MAX_BASE
  {
    Zeros(Max(Max(minWidth, 1) - |Digits(v, base)|, 0)) + Digits(v, base)
  }

  lemma DigitInverse(d: nat)
    requires d < MAX_BASE
    ensures DigitValue(Digit(d)) == d
    ensures Digit(d) == '0' <==> d == 0
    ensures '0' <= Digit(d) <= '9' || 'a' <= Digit(d) <= 'z'
  {
  }

  lemma {:induction false} DigitsDenote(v: nat, base: nat)
    requires 2 <= base <= MAX_BASE
    ensures var s := Digits(v, base);
            IsNumeral(s, base) && Value(s, base) == v && (s != "" ==> s[0] != '0')
  {
    if v > 0 {
      DigitsDenote(Quot(v, base), base);
      DigitInverse(Rem(v, base));
      var s, t := Digits(v, base), Digits(Quot(v, base), base);
      assert s[..|s| - 1] == t;
      QuotRem(v, base);
    }
  }

  lemma {:induction false} LeadingZeros(n: nat, s: string, base: nat)
    requires base >= 1 && IsNumeral(s, base)
    ensures IsNumeral(Zeros(n) + s, base) && Value(Zeros(n) + s, base) == Value(s, base)
    decreases |s|, n
  {
    var t := Zeros(n) + s;
    if s != "" {
      var m := |s| - 1;
      LeadingZeros(n, s[..m], base);
      assert t[..|t| - 1] == Zeros(n) + s[..m];
    } else if n > 0 {
      LeadingZeros(n - 1, s, base);
      assert t[..n - 1] == Zeros(n - 1) + s;
    }
  }

  /** The printed text is a numeral for the value, of the width promised. */
  lemma UintTextDenotes(v: nat, base: nat, minWidth: nat)
    requires 2 <= base <= MAX_BASE
    ensures var s := UintText(v, base, minWidth);
            && IsNumeral(s, base) && Value(s, base) == v
            && |s| == Max(Max(minWidth, |Digits(v, base)|), 1)
  {
    DigitsDenote(v, base);
    LeadingZeros(Max(Max(minWidth, 1) - |Digits(v, base)|, 0), Digits(v, base), base);
  }

  lemma DigitsSnoc(v: nat, d: nat, base: nat)
    requires 2 <= base <= MAX_BASE && d < base && (v > 0 || d > 0)
    ensures Digits(Push(v, base, d), base) == Digits(v, base) + [Digit(d)]
  {
    TimesAtLeast(v, base);
    QuotUnique(v * base + d, base, v, d);
  }

  lemma DigitsEmpty(v: nat, base: nat)
    requires 2 <= base <= MAX_BASE
    ensures Digits(v, base) == "" <==> v == 0
  {
  }

  lemma ValueLast(s: string, n: nat, base: nat)
    requires IsNumeral(s, base)
    ensures s == "" ==> Value(s, base) == 0
    ensures n + 1 == |s| ==>
      IsNumeral(s[..n], base) && 0 <= DigitValue(s[n]) < base
      && Value(s, base) == Push(Value(s[..n], base), base, DigitValue(s[n]))
  {
  }

  lemma LowerDigit(c: char)
    requires 0 <= DigitValue(c) < MAX_BASE && !('A' <= c <= 'Z')
    ensures Digit(DigitValue(c)) == c && (c != '0' ==> DigitValue(c) > 0)
  {
  }

  /** Only lower-case numerals without a leading zero are the unpadded text of a number. */
  lemma {:induction false} DigitsUnique(s: string, base: nat)
    requires 2 <= base <= MAX_BASE && IsNumeral(s, base)
    requires s != "" ==> s[0] != '0'
    requires forall i | 0 <= i < |s| :: !('A' <= s[i] <= 'Z')
    ensures s == Digits(Value(s, base), base)
  {
    hide Quot, Rem, Digits, Value, Push, Digit, DigitValue, IsNumeral;
    var n: int := |s| - 1;
    if n < 0 {
      ValueLast(s, 0, base);
      DigitsEmpty(0, base);
    } else {
      ValueLast(s, n, base);
      var v, d := Value(s[..n], base), DigitValue(s[n]);
      LowerDigit(s[n]);
      DigitsUnique(s[..n], base);
      DigitsEmpty(v, base);
      DigitsSnoc(v, d, base);
      assert s == s[..n] + [s[n]];
    }
  }

  // ---------------------------------------------------------------- the alphabet

  const LOWER := "0123456789abcdefghijklmnopqrstuvwxyz"
  const UPPER := "0123456789ABCDEFGHIJKLMNOPQRSTUVWXYZ"

  /** The ten digits and the 26 letters from this one on. */
  ghost predicate Letters(s: string, first: char)
    requires first < 128 as char
  {
    && |s| == 36
    && (forall k | 0 <= k < 10 :: s[k] == '0' + k as char)
    && (forall k | 10 <= k < 36 :: s[k] == first + (k - 10) as char)
  }

  lemma LowerLetters()
    ensures Letters(LOWER, 'a')
  {
  }

  lemma UpperLetters()
    ensures Letters(UPPER, 'A')
  {
  }

  lemma Alphabet(lower: string, upper: string, d: nat, c: char)
    requires Letters(lower, 'a') && Letters(upper, 'A') && d < 36
    ensures Digit(d) == lower[d] && DigitValue(lower[d]) == d && DigitValue(upper[d]) == d
    ensures (forall k | 0 <= k < 36 :: lower[k] != c && upper[k] != c) <==> DigitValue(c) == -1
    ensures DigitValue(c) >= -1
  {
    if DigitValue(c) >= 0 {
      var k := DigitValue(c);
      assert lower[k] == c || upper[k] == c;
    }
  }

  /** The tables by their characters: digits and small letters are printed, digits and letters of either
      case are read, each with its place in the alphabet, and nothing else is a digit. */
  lemma DigitAlphabet(d: nat, c: char)
    requires d < 36
    ensures |LOWER| == 36 && |UPPER| == 36 && Digit(d) == LOWER[d]
    ensures DigitValue(LOWER[d]) == d && DigitValue(UPPER[d]) == d
    ensures (forall k | 0 <= k < 36 :: LOWER[k] != c && UPPER[k] != c) <==> DigitValue(c) == -1
    ensures DigitValue(c) >= -1
  {
    hide Letters, Digit, DigitValue;
    LowerLetters();
    UpperLetters();
    Alphabet(LOWER, UPPER, d, c);
  }

  function Lower(c: char): char {
    if 'A' <= c <= 'Z' then 'a' + (c - 'A') else c
  }

  function Lowered(s: string): (t: string)
    ensures |t| == |s|
  {
    seq(|s|, i requires 0 <= i < |s| => Lower(s[i]))
  }

  /** Letters are read without regard to case. */
  lemma {:induction false} CaseInsensitive(s: string, base: nat)
    ensures IsNumeral(Lowered(s), base) <==> IsNumeral(s, base)
    ensures IsNumeral(s, base) ==> Value(Lowered(s), base) == Value(s, base)
  {
    assert forall i | 0 <= i < |s| :: DigitValue(Lowered(s)[i]) == DigitValue(s[i]);
    if s != "" && IsNumeral(s, base) {
      var n := |s| - 1;
      CaseInsensitive(s[..n], base);
      assert Lowered(s)[..n] == Lowered(s[..n]);
      ValueLast(s, n, base);
      ValueLast(Lowered(s), n, base);
    }
  }

  /** Up to case, a numeral is the printed text of its value behind some zeros. */
  lemma {:induction false} NumeralForm(s: string, base: nat) returns (k: nat)
    requires 2 <= base <= MAX_BASE && IsNumeral(s, base)
    ensures Lowered(s) == Zeros(k) + Digits(Value(s, base), base)
  {
    hide Quot, Rem, Digits, Value, Push;
    var n: int := |s| - 1;
    if n < 0 {
      k := 0;
      ValueLast(s, 0, base);
      DigitsEmpty(0, base);
    } else {
      ValueLast(s, n, base);
      var v, d := Value(s[..n], base), DigitValue(s[n]);
      k := NumeralForm(s[..n], base);
      DigitsEmpty(v, base);
      assert Lowered(s) == Lowered(s[..n]) + [Digit(d)];
      if v > 0 || d > 0 {
        DigitsSnoc(v, d, base);
      } else {
        PushNone(base);
        k := k + 1;
      }
    }
  }

  lemma PushNone(base: nat)
    ensures Push(0, base, 0) == 0
  {
  }

  lemma {:induction false} DigitsMonotone(v: nat, u: nat, base: nat)
    requires 2 <= base <= MAX_BASE && v <= u
    ensures |Digits(v, base)| <= |Digits(u, base)|
  {
    if v > 0 {
      QuotMonotone(v, u, base);
      DigitsMonotone(Quot(v, base), Quot(u, base), base);
    }
  }

  lemma {:induction false} DigitsOfPow2(v: nat, k: nat, base: nat)
    requires 2 <= base <= MAX_BASE && v < Shl(1, k)
    ensures |Digits(v, base)| <= k
  {
    if v > 0 {
      DigitsOfPow2(Quot(v, base), k - 1, base);
    }
  }

  // ---------------------------------------------------------------- printing

  /** The `n` lowest digits of `v`, least significant first, as the printing loop lays them down. */
  ghost function LowDigits(v: nat, base: nat, n: nat): (s: string)
    requires 2 <= base <= MAX_BASE
    ensures |s| == n
  {
    if n == 0 then "" else [Digit(Rem(v, base))] + LowDigits(Quot(v, base), base, n - 1)
  }

  /** What is left of `v` after its `n` lowest digits. */
  ghost function Rest(v: nat, base: nat, n: nat): nat
    requires base >= 2
  {
    if n == 0 then v else Rest(Quot(v, base), base, n - 1)
  }

  lemma {:induction false} LowDigitsSplit(v: nat, base: nat, n: nat, m: nat)
    requires 2 <= base <= MAX_BASE
    ensures LowDigits(v, base, n + m) == LowDigits(v, base, n) + LowDigits(Rest(v, base, n), base, m)
    ensures Rest(v, base, n + m) == Rest(Rest(v, base, n), base, m)
  {
    if n > 0 { LowDigitsSplit(Quot(v, base), base, n - 1, m); }
  }

  lemma {:induction false} RestZero(v: nat, base: nat, n: nat)
    requires 2 <= base <= MAX_BASE
    ensures Rest(v, base, n) == 0 <==> n >= |Digits(v, base)|
  {
    if n > 0 && v > 0 { RestZero(Quot(v, base), base, n - 1); }
    else if n > 0 { RestZero(0, base, n - 1); }
  }

  lemma {:induction false} LowDigitsReversed(v: nat, base: nat, n: nat)
    requires 2 <= base <= MAX_BASE && n >= |Digits(v, base)|
    ensures Reverse(LowDigits(v, base, n)) == Zeros(n - |Digits(v, base)|) + Digits(v, base)
  {
    if n > 0 { LowDigitsReversed(Quot(v, base), base, n - 1); }
  }

  /** Entry `v` of the table holds the `size` digits of `v` in that order. */
  lemma {:induction false} MultiIntTableAt(size: nat, base: nat, v: nat, j: nat)
    requires size > 1 && 2 <= base <= MAX_BASE && v < Pow(base, size) && j < size
    ensures 0 <= v * size + j < |MultiIntTable(size, base)|
    ensures MultiIntTable(size, base)[v * size + j] == LowDigits(v, base, size)[j]
  {
    TableIndex(Pow(base, size), size, v, j);
    LowDigitsAt(v, base, size, j);
  }

  lemma TableIndex(rows: nat, size: nat, v: nat, j: nat)
    requires v < rows && j < size
    ensures 0 <= v * size + j < rows * size
    ensures (v * size + j) / size == v && (v * size + j) % size == j
  {
    assert (v + 1) * size <= rows * size;
    assert (v + 1) * size == v * size + size;
    DivModUnique(v * size + j, size, v, j);
  }

  lemma {:induction false} LowDigitsAt(v: nat, base: nat, n: nat, j: nat)
    requires 2 <= base <= MAX_BASE && j < n
    ensures LowDigits(v, base, n)[j] == Digit(Rem(Quot(v, Pow(base, j)), base))
  {
    if j == 0 {
      QuotUnique(v, 1, v, 0);
    } else {
      LowDigitsAt(Quot(v, base), base, n - 1, j - 1);
      QuotQuot(v, base, Pow(base, j - 1));
    }
  }

  /** A number of digits rounded up to whole chunks. */
  function Chunked(len: nat, base: nat): nat
    requires base < MAX_BASE
  {
    if MultiIntSupport(base) == 2 then (len + 1) / 2 * 2 else len
  }

  lemma ChunkedMonotone(a: nat, b: nat, base: nat)
    requires a <= b && base < MAX_BASE
    ensures Chunked(a, base) <= Chunked(b, base)
  {
  }

  /** The size of the region of the buffer that printing `v` may touch: whole chunks, or the width. */
  ghost function Scratch(v: nat, base: nat, minWidth: nat): nat
    requires 2 <= base < MAX_BASE
  {
    Max(Chunked(Max(|Digits(v, base)|, 1), base), minWidth)
  }

  /** `intStrWrite<size, base>` */
  method IntStrWrite(size: nat, base: nat, buf: array<char>, at: nat, v: nat)
    requires size >= 1 && 2 <= base <= MAX_BASE && v < Pow(base, size)
    requires at + size <= buf.Length
    modifies buf
    ensures buf[at..at + size] == LowDigits(v, base, size)
    ensures OnlyWithin(buf, at, at + size)
  {
    if size > 1 {
      for j := 0 to size
        invariant forall k :: 0 <= k < j ==> buf[at + k] == LowDigits(v, base, size)[k]
        invariant forall k :: 0 <= k < buf.Length && !(at <= k < at + size) ==> buf[k] == old(buf[k])
      {
        MultiIntTableAt(size, base, v, j);
        buf[at + j] := MultiIntTable(size, base)[v * size + j];
      }
    } else {
      Pow1(base);
      buf[at] := Digit(v);
      assert LowDigits(v, base, 1) == [Digit(v)] + LowDigits(Quot(v, base), base, 0);
    }
  }

  /** `std::reverse(buf + lo, buf + hi)` */
  method ReverseRange(buf: array<char>, lo: nat, hi: nat)
    requires lo <= hi <= buf.Length
    modifies buf
    ensures buf[lo..hi] == Reverse(old(buf[lo..hi]))
    ensures OnlyWithin(buf, lo, hi)
  {
    var i, j := lo, hi;
    while i + 1 < j
      invariant lo <= i && j <= hi && i + j == lo + hi && i <= j + 1
      invariant forall k :: lo <= k < i || j <= k < hi ==> buf[k] == old(buf[lo + hi - 1 - k])
      invariant forall k :: 0 <= k < buf.Length && !(lo <= k < i || j <= k < hi) ==> buf[k] == old(buf[k])
      decreases j - i
    {
      j := j - 1;
      buf[i], buf[j] := buf[j], buf[i];
      i := i + 1;
    }
    ghost var was := old(buf[lo..hi]);
    forall k | 0 <= k < hi - lo
      ensures buf[lo..hi][k] == Reverse(was)[k]
    {
      ReverseAt(was, k);
      assert buf[lo + k] == old(buf[hi - 1 - k]) == was[hi - 1 - k - lo];
    }
  }

  /** `std::popcount(base) == 1` */
  predicate IsPow2(base: nat) {
    PopCount(base) == 1
  }

  lemma Pow1(base: nat)
    ensures Pow(base, 1) == base
  {
    assert Pow(base, 1) == base * Pow(base, 0);
  }

  /** Taking one chunk off the value by shift and mask or by division: the same digits. */
  lemma TakeChunk(v: nat, base: nat)
    requires 2 <= base < MAX_BASE
    ensures var m := MultiIntSupport(base); var div := Pow(base, m);
            && div > 0
            && LowDigits(v % div, base, m) == LowDigits(v, base, m)
            && v / div == Rest(v, base, m)
            && (IsPow2(base) ==> BitAnd(v, Shl(1, CountrZero(div)) - 1) == v % div
                                 && Shr(v, CountrZero(div)) == v / div)
  {
    Pow1(base);
    if base == 10 {
      TakeTwoDecimals(v);
    } else {
      QuotRem(v, base);
      QuotUnique(v % base, base, 0, v % base);
      LowDigits1(v, base);
      LowDigits1(v % base, base);
      if IsPow2(base) {
        OneBit(base);
        ShrAndMask(v, CountrZero(base));
      }
    }
  }

  lemma LowDigits1(v: nat, base: nat)
    requires 2 <= base <= MAX_BASE
    ensures LowDigits(v, base, 1) == [Digit(Rem(v, base))] && Rest(v, base, 1) == Quot(v, base)
  {
    assert LowDigits(v, base, 1) == [Digit(Rem(v, base))] + LowDigits(Quot(v, base), base, 0);
    assert Rest(v, base, 1) == Rest(Quot(v, base), base, 0);
  }

  lemma TakeTwoDecimals(v: nat)
    ensures Pow(10, 2) == 100 && !IsPow2(10)
    ensures LowDigits(v % 100, 10, 2) == LowDigits(v, 10, 2)
    ensures v / 100 == Rest(v, 10, 2)
  {
    Pow1(10);
    assert Pow(10, 2) == 10 * Pow(10, 1);
    assert PopCount(10) == PopCount(5) == 1 + PopCount(2) && PopCount(2) == PopCount(1) == 1 + PopCount(0);
    var u := v % 100;
    QuotRem(v, 10);
    QuotRem(v / 10, 10);
    QuotRem(u, 10);
    QuotRem(u / 10, 10);
    LowDigits1(v / 10, 10);
    LowDigits1(u / 10, 10);
    assert u % 10 == v % 10 && u / 10 % 10 == v / 10 % 10 && v / 100 == v / 10 / 10;
    assert LowDigits(v, 10, 2) == [Digit(Rem(v, 10))] + LowDigits(Quot(v, 10), 10, 1);
    assert LowDigits(u, 10, 2) == [Digit(Rem(u, 10))] + LowDigits(Quot(u, 10), 10, 1);
    assert Rest(v, 10, 2) == Rest(Quot(v, 10), 10, 1);
  }

  /** Everything outside `[lo, hi)` is as it was. */
  twostate predicate OnlyWithin(buf: array<char>, lo: int, hi: int)
    reads buf
  {
    forall k :: 0 <= k < buf.Length && !(lo <= k < hi) ==> buf[k] == old(buf[k])
  }

  /** One turn of the do-while loop: the lowest digits of what is left go into the buffer behind
      the `i` digits already there. */
  method PutChunk(base: nat, multi: nat, buf: array<char>, at: nat, i: nat, v: nat, ghost value: nat)
    returns (rest: nat)
    requires 2 <= base < MAX_BASE && multi == MultiIntSupport(base) && v == Rest(value, base, i)
    requires at + i + multi <= buf.Length
    requires buf[at..at + i] == LowDigits(value, base, i)
    modifies buf
    ensures rest == Rest(value, base, i + multi)
    ensures rest > 0 ==> i + multi < |Digits(value, base)|
    ensures buf[at..at + (i + multi)] == LowDigits(value, base, i + multi)
    ensures OnlyWithin(buf, at + i, at + i + multi)
  {
    hide LowDigits, Digits, Pow, Rest;
    var div := Pow(base, multi);
    TakeChunk(v, base);
    if IsPow2(base) {
      var shift := CountrZero(div);
      var mask := Shl(1, shift) - 1;
      IntStrWrite(multi, base, buf, at + i, BitAnd(v, mask));
      rest := Shr(v, shift);
    } else {
      IntStrWrite(multi, base, buf, at + i, v % div);
      rest := v / div;
    }
    LowDigitsSplit(value, base, i, multi);
    RestZero(value, base, i + multi);
    assert buf[at..at + i] == old(buf[at..at + i]);
    assert buf[at..at + (i + multi)] == buf[at..at + i] + buf[at + i..at + i + multi];
  }

  /** The do-while loop of `uintToStr`: lays down chunks until nothing is left. The counter is a
      `uint8_t` in the source; it does not wrap. */
  method EmitChunks(base: nat, buf: array<char>, at: nat, value: nat) returns (i: nat)
    requires 2 <= base < MAX_BASE && |Digits(value, base)| <= 128
    requires at + Scratch(value, base, 0) <= buf.Length
    modifies buf
    ensures 1 <= i == Scratch(value, base, 0) <= 255 && Rest(value, base, i) == 0
    ensures buf[at..at + i] == LowDigits(value, base, i)
    ensures OnlyWithin(buf, at, at + Scratch(value, base, 0))
  {
    hide Digits, LowDigits, Rest, Scratch;
    var v := value;
    i := 0;
    var multi := MultiIntSupport(base);
    EmitStart(value, base);
    ghost var len, size := |Digits(value, base)|, Scratch(value, base, 0);
    ghost var turns: nat := 0;
    while true
      invariant multi == 2 ==> i == 2 * turns
      invariant i == 0 || i < len
      invariant v == Rest(value, base, i)
      invariant buf[at..at + i] == LowDigits(value, base, i)
      invariant OnlyWithin(buf, at, at + size)
      decreases len - i
    {
      v := PutChunk(base, multi, buf, at, i, v, value);
      i, turns := i + multi, turns + 1;
      if v == 0 { break; }
    }
    EmitEnd(value, base, i, turns);
  }

  lemma EmitStart(value: nat, base: nat)
    requires 2 <= base < MAX_BASE
    ensures LowDigits(value, base, 0) == "" && Rest(value, base, 0) == value
    ensures |Digits(value, base)| <= Scratch(value, base, 0) && MultiIntSupport(base) <= Scratch(value, base, 0)
    ensures MultiIntSupport(base) == 2 ==> Scratch(value, base, 0) % 2 == 0
  {
  }

  /** The loop has stopped at the first whole chunk behind the digits. */
  lemma EmitEnd(value: nat, base: nat, i: nat, turns: nat)
    requires 2 <= base < MAX_BASE && i >= MultiIntSupport(base) && Rest(value, base, i) == 0
    requires MultiIntSupport(base) == 2 ==> i == 2 * turns
    requires i == MultiIntSupport(base) || i - MultiIntSupport(base) < |Digits(value, base)|
    ensures i == Scratch(value, base, 0)
  {
    hide Digits, Rest;
    RestZero(value, base, i);
  }

  /** What a chunk has put before the first digit is left behind the text. */
  ghost predicate ZerosIn(buf: array<char>, lo: int, hi: int)
    reads buf
  {
    forall k | 0 <= k < buf.Length && lo <= k < hi :: buf[k] == '0'
  }

  /** The trimming loop: drops the zeros a chunk may have put before the first digit. */
  method TrimZeros(base: nat, buf: array<char>, at: nat, value: nat, from: nat, width: nat) returns (i: nat)
    requires 2 <= base < MAX_BASE && 1 <= width
    requires 1 <= from && at + from <= buf.Length && Rest(value, base, from) == 0
    requires buf[at..at + from] == LowDigits(value, base, from)
    ensures 1 <= i <= from && Rest(value, base, i) == 0 && i <= Max(width, |Digits(value, base)|)
    ensures buf[at..at + i] == LowDigits(value, base, i) && ZerosIn(buf, at + i, at + from)
  {
    i := from;
    while i > width && buf[at + i - 1] == '0'
      invariant 1 <= i <= from && ZerosIn(buf, at + i, at + from)
      invariant buf[at..at + i] == LowDigits(value, base, i)
      invariant Rest(value, base, i) == 0
    {
      LastDigit(value, base, i);
      assert buf[at..at + i][i - 1] == buf[at + i - 1];
      assert buf[at..at + i - 1] == buf[at..at + i][..i - 1];
      i := i - 1;
    }
    LastDigit(value, base, i);
    assert buf[at..at + i][i - 1] == buf[at + i - 1];
    RestZero(value, base, i - 1);
  }

  /** `uintToStr<base>`: writes at `buf + at` and returns the index after the last character.
      The type of the value has `bits` bits, 128 at most. */
  method UintToStr(base: nat, ghost bits: nat, buf: array<char>, at: nat, value: nat, minWidth: nat)
    returns (end: nat)
    requires 2 <= base < MAX_BASE && bits <= 128 && value < Shl(1, bits) && minWidth <= 255
    requires at + Scratch(value, base, minWidth) <= buf.Length
    modifies buf
    ensures end == at + |UintText(value, base, minWidth)| <= buf.Length
    ensures buf[at..end] == UintText(value, base, minWidth)
    ensures OnlyWithin(buf, at, at + Scratch(value, base, minWidth))
    ensures ZerosIn(buf, end, at + Scratch(value, base, minWidth))
  {
    hide Digits, LowDigits, Rest, Shl;
    DigitsOfPow2(value, bits, base);
    var i := EmitChunks(base, buf, at, value);
    if MultiIntSupport(base) > 1 {
      i := TrimZeros(base, buf, at, value, i, Max(minWidth, 1));
    }
    PaddedText(value, base, minWidth, i);
    end := at + Max(i, minWidth);
    PadAndReverse(buf, at, at + i, end);
  }

  /** `std::fill(buf + mid, buf + end, '0')` and `std::reverse(buf + at, buf + end)` */
  method PadAndReverse(buf: array<char>, at: nat, mid: nat, end: nat)
    requires at <= mid <= end <= buf.Length
    modifies buf
    ensures buf[at..end] == Reverse(old(buf[at..mid]) + Zeros(end - mid))
    ensures OnlyWithin(buf, at, end)
  {
    for k := mid to end
      invariant forall j :: mid <= j < k ==> buf[j] == '0'
      invariant OnlyWithin(buf, mid, end)
    {
      buf[k] := '0';
    }
    assert buf[at..end] == old(buf[at..mid]) + Zeros(end - mid);
    ReverseRange(buf, at, end);
  }

  /** The digits laid down, padded and reversed, are the text. */
  lemma PaddedText(v: nat, base: nat, minWidth: nat, i: nat)
    requires 2 <= base <= MAX_BASE && i >= 1 && Rest(v, base, i) == 0
    requires i <= Max(Max(minWidth, 1), |Digits(v, base)|)
    ensures var n := Max(i, minWidth);
            Reverse(LowDigits(v, base, i) + Zeros(n - i)) == UintText(v, base, minWidth)
  {
    var n := Max(i, minWidth);
    RestZero(v, base, i);
    LowDigitsSplit(v, base, i, n - i);
    LowDigitsOfZero(base, n - i);
    LowDigitsReversed(v, base, n);
  }

  lemma LastDigit(v: nat, base: nat, n: nat)
    requires 2 <= base <= MAX_BASE && n > 0 && Rest(v, base, n) == 0
    ensures LowDigits(v, base, n)[..n - 1] == LowDigits(v, base, n - 1)
    ensures LowDigits(v, base, n)[n - 1] == '0' <==> Rest(v, base, n - 1) == 0
  {
    LowDigitsSplit(v, base, n - 1, 1);
    var r := Rest(v, base, n - 1);
    LowDigits1(r, base);
    DigitInverse(Rem(r, base));
    QuotRem(r, base);
  }

  lemma {:induction false} LowDigitsOfZero(base: nat, n: nat)
    requires 2 <= base <= MAX_BASE
    ensures LowDigits(0, base, n) == Zeros(n)
  {
    if n > 0 { LowDigitsOfZero(base, n - 1); }
  }

  // ---------------------------------------------------------------- parsing

  /** The largest value of an unsigned type of `bits` bits. */
  function MaxOf(bits: nat): nat {
    Shl(1, bits) - 1
  }

  /** Some prefix is a numeral too large for the type. */
  ghost predicate PrefixOverflows(s: string, base: nat, max: nat) {
    exists k :: 0 <= k <= |s| && TooLarge(s[..k], base, max)
  }

  ghost predicate TooLarge(s: string, base: nat, max: nat) {
    IsNumeral(s, base) && Value(s, base) > max
  }

  /** What decoding an unsigned integer means: the value of a non-empty numeral that fits the
      type. The digits are read from the left, so a numeral that has grown too large is reported
      before a bad character behind it. */
  ghost function UintOf(s: string, base: nat, max: nat): Result<nat> {
    if PrefixOverflows(s, base, max) then Err(Overflow)
    else if s == "" || !IsNumeral(s, base) then Err(Invalid)
    else Ok(Value(s, base))
  }

  /** Appending a digit multiplies and adds. */
  lemma ValueSnoc(s: string, k: nat, base: nat)
    requires k < |s| && IsNumeral(s[..k], base)
    ensures IsNumeral(s[..k + 1], base) <==> 0 <= DigitValue(s[k]) < base
    ensures 0 <= DigitValue(s[k]) < base ==>
              Value(s[..k + 1], base) == Push(Value(s[..k], base), base, DigitValue(s[k]))
  {
    assert s[..k + 1] == s[..k] + [s[k]];
    assert s[..k + 1][..k] == s[..k];
  }

  lemma {:induction false} ValueGrows(s: string, k: nat, base: nat)
    requires base >= 1 && k <= |s| && IsNumeral(s, base)
    ensures IsNumeral(s[..k], base) && Value(s[..k], base) <= Value(s, base)
    decreases |s|
  {
    if k < |s| {
      var n := |s| - 1;
      ValueGrows(s[..n], k, base);
      assert s[..n][..k] == s[..k];
      TimesAtLeast(Value(s[..n], base), base);
    } else {
      assert s[..k] == s;
    }
  }

  /** On a numeral, only the value decides. */
  lemma UintOfNumeral(s: string, base: nat, max: nat)
    requires base >= 1 && s != "" && IsNumeral(s, base)
    ensures UintOf(s, base, max) == if Value(s, base) <= max then Ok(Value(s, base)) else Err(Overflow)
  {
    forall k | 0 <= k <= |s|
      ensures IsNumeral(s[..k], base) && Value(s[..k], base) <= Value(s, base)
    {
      ValueGrows(s, k, base);
    }
    assert s[..|s|] == s;
    assert Value(s, base) > max ==> TooLarge(s[..|s|], base, max);
  }

  lemma UintOfOk(s: string, base: nat, max: nat)
    requires base >= 1
    ensures UintOf(s, base, max).Ok? <==> s != "" && IsNumeral(s, base) && Value(s, base) <= max
  {
    if s != "" && IsNumeral(s, base) { UintOfNumeral(s, base, max); }
  }

  /** The error on any text: the digits in front of the first other character, if they are too many, and
      that character otherwise. */
  lemma UintKind(s: string, base: nat, max: nat, n: nat)
    requires 1 <= base <= MAX_BASE && n <= |s| && IsNumeral(s[..n], base)
    requires n < |s| ==> !(0 <= DigitValue(s[n]) < base)
    ensures UintOf(s, base, max) ==
      if Value(s[..n], base) > max then Err(Overflow)
      else if n < |s| || s == "" then Err(Invalid)
      else Ok(Value(s[..n], base))
  {
    assert n == |s| ==> s[..n] == s;
    if Value(s[..n], base) > max {
      assert TooLarge(s[..n], base, max);
    } else {
      forall k | 0 <= k <= |s| ensures !TooLarge(s[..k], base, max) {
        if k > n {
          assert s[..k][n] == s[n];
        } else {
          assert s[..n][..k] == s[..k];
          ValueGrows(s[..n], k, base);
        }
      }
      assert n < |s| ==> !IsNumeral(s, base);
    }
  }

  /** The overflow tests of the decoding loop, exact for both branches. */
  lemma StepFits(ret: nat, base: nat, max: nat, v: nat)
    requires base >= 1 && v < base && ret <= max
    ensures ret > Quot(max, base) ==> ret * base + v > max
    ensures ret <= Quot(max, base) ==> ret * base <= max
    ensures (max + 1) % base == 0 && ret <= Quot(max, base) ==> ret * base + v <= max
  {
    var q, r := Quot(max, base), Rem(max, base);
    QuotRem(max, base);
    if ret > q { TimesGrows(q, ret, base); } else { TimesSum(ret, q - ret, base); TimesNat(q - ret, base); }
    if (max + 1) % base == 0 && r + 1 < base {
      DivModUnique(max + 1, base, q, r + 1);
      assert false;
    }
  }

  lemma {:induction false} Pow2Divides(k: nat, bits: nat)
    requires k <= bits
    ensures Shl(1, bits) % Shl(1, k) == 0
    decreases bits
  {
    if k == bits {
      DivModUnique(Shl(1, k), Shl(1, k), 1, 0);
    } else {
      Pow2Divides(k, bits - 1);
      var m, q := Shl(1, k), Shl(1, bits - 1) / Shl(1, k);
      assert Shl(1, bits - 1) == q * m;
      assert Shl(1, bits) == (2 * q) * m by { TimesSum(q, q, m); }
      DivModUnique(Shl(1, bits), m, 2 * q, 0);
    }
  }

  lemma {:induction false} CountrZeroBound(v: nat, k: nat)
    requires 0 < v < Shl(1, k)
    ensures CountrZero(v) < k
  {
    if v % 2 == 0 { CountrZeroBound(v / 2, k - 1); }
  }

  /** The shift branch: what its pieces come to for a power of two. */
  lemma ShiftBranch(ret: nat, base: nat, bits: nat, v: nat)
    requires 1 <= base <= MAX_BASE && IsPow2(base) && bits >= 8 && v < base
    ensures var shift := CountrZero(base);
            && Shr(MaxOf(bits), shift) == Quot(MaxOf(bits), base)
            && BitOr(Shl(ret, shift), v) == ret * base + v
            && (MaxOf(bits) + 1) % base == 0
  {
    var shift := CountrZero(base);
    OneBit(base);
    ShrAndMask(MaxOf(bits), shift);
    QuotRem(MaxOf(bits), base);
    OrIntoShifted(ret, shift, v);
    ShlIsTimes(ret, shift);
    assert Shl(1, 6) == 64;
    CountrZeroBound(base, 6);
    Pow2Divides(shift, bits);
  }

  /** `strToUInt<base, T>` for an unsigned type of `bits` bits. */
  method StrToUInt(base: nat, bits: nat, s: string) returns (r: Result<nat>)
    requires 1 <= base <= MAX_BASE && bits >= 8
    ensures r == UintOf(s, base, MaxOf(bits))
  {
    hide Shl, Shr, BitOr, CountrZero, IsPow2, MaxOf;
    var max := MaxOf(bits);
    if s == "" {
      return Err(Invalid);
    }
    var ret := 0;
    assert s[..0] == "";
    for k := 0 to |s|
      invariant IsNumeral(s[..k], base) && ret == Value(s[..k], base) <= max
      invariant forall j :: 0 <= j <= k ==> !TooLarge(s[..j], base, max)
    {
      ValueSnoc(s, k, base);
      var v := DigitValue(s[k]);
      if v < 0 || v >= base {
        forall j | k < j <= |s|
          ensures !IsNumeral(s[..j], base)
        {
          assert s[..j][k] == s[k];
        }
        return Err(Invalid);
      }
      StepFits(ret, base, max, v);
      QuotRem(max, base);
      if IsPow2(base) {
        ShiftBranch(ret, base, bits, v);
        var shift := CountrZero(base);
        var maxShift := Shr(max, shift);
        if ret > maxShift {
          assert TooLarge(s[..k + 1], base, max);
          return Err(Overflow);
        }
        ret := BitOr(Shl(ret, shift), v);
      } else {
        var maxBase := max / base;
        if ret > maxBase {
          assert TooLarge(s[..k + 1], base, max);
          return Err(Overflow);
        }
        ret := ret * base;
        if max - v < ret {
          assert TooLarge(s[..k + 1], base, max);
          return Err(Overflow);
        }
        ret := ret + v;
      }
    }
    assert s[..|s|] == s;
    return Ok(ret);
  }

  // ---------------------------------------------------------------- integer types

  /** An integral type of the source by width and signedness. */
  datatype IntType = IntType(bits: nat, signed: bool) {
    ghost predicate Valid() { 8 <= bits <= 128 }

    function MaxValue(): nat
      requires bits >= 1
    {
      MaxOf(if signed then bits - 1 else bits)
    }

    ghost predicate Holds(v: int)
      requires bits >= 1
    {
      (if signed then 0 - MaxValue() - 1 else 0) <= v <= MaxValue()
    }

    /** The type the codec computes in: pointer-sized, or `T` itself when that is wider. */
    function Widened(): IntType {
      IntType(Max(bits, 64), signed)
    }

    /** The conversion of a computed value to this type keeps its low bits. */
    function Narrow(v: int): int
      requires bits >= 1
    {
      var m := Shl(1, bits);
      if signed then Wrap(v + Shl(1, bits - 1), m) - Shl(1, bits - 1) else Wrap(v, m)
    }
  }

  const UINT8 := IntType(8, false)
  const UINT16 := IntType(16, false)

  lemma {:induction false} ShlMonotone(j: nat, k: nat)
    requires j <= k
    ensures Shl(1, j) <= Shl(1, k)
  {
    if j > 0 { ShlMonotone(j - 1, k - 1); }
  }

  ghost function IntText(v: int, base: nat, minWidth: nat): string
    requires 2 <= base <= MAX_BASE
  {
    if v < 0 then "-" + UintText(-v, base, minWidth) else UintText(v, base, minWidth)
  }

  /** The region of the buffer that printing `v` may touch. */
  ghost function IntScratch(v: int, base: nat, minWidth: nat): nat
    requires 2 <= base < MAX_BASE
  {
    if v < 0 then 1 + Scratch(-v, base, minWidth) else Scratch(v, base, minWidth)
  }

  /** `intToStr<base>`: a sign and the magnitude. */
  method SignedToStr(base: nat, ghost bits: nat, signed: bool, buf: array<char>, at: nat, v: int, minWidth: nat)
    returns (end: nat)
    requires 2 <= base < MAX_BASE && bits <= 128 && (v < 0 ==> signed)
    requires v < Shl(1, bits) && 0 - v < Shl(1, bits)
    requires minWidth <= 255 && at + IntScratch(v, base, minWidth) <= buf.Length
    modifies buf
    ensures end == at + |IntText(v, base, minWidth)| <= buf.Length
    ensures buf[at..end] == IntText(v, base, minWidth)
    ensures OnlyWithin(buf, at, at + IntScratch(v, base, minWidth))
    ensures ZerosIn(buf, end, at + IntScratch(v, base, minWidth))
  {
    hide UintText, Scratch, Shl;
    if signed && v < 0 {
      buf[at] := '-';
      end := UintToStr(base, bits, buf, at + 1, -v, minWidth);
      assert buf[at] == '-';
      assert buf[at..end] == [buf[at]] + buf[at + 1..end];
    } else {
      end := UintToStr(base, bits, buf, at, v, minWidth);
    }
  }

  /** `IntToStr<base, T>::operator()`. Negating the least value of the widened type is undefined in
      the source, so that value is excluded. */
  method IntToStr(base: nat, t: IntType, buf: array<char>, at: nat, v: int, minWidth: nat) returns (end: nat)
    requires 2 <= base < MAX_BASE && t.Valid() && t.Holds(v) && 0 - v <= t.Widened().MaxValue()
    requires minWidth <= 255 && at + IntScratch(v, base, minWidth) <= buf.Length
    modifies buf
    ensures end == at + |IntText(v, base, minWidth)| <= buf.Length
    ensures buf[at..end] == IntText(v, base, minWidth)
    ensures OnlyWithin(buf, at, at + IntScratch(v, base, minWidth))
    ensures ZerosIn(buf, end, at + IntScratch(v, base, minWidth))
  {
    MagnitudeFits(v, t);
    end := SignedToStr(base, t.Widened().bits, t.signed, buf, at, v, minWidth);
  }

  /** The same, seen from the start `at` of a text of which `[at, p)` is already written. */
  method AppendInt(base: nat, t: IntType, buf: array<char>, ghost at: nat, p: nat, v: int, minWidth: nat)
    returns (end: nat)
    requires 2 <= base < MAX_BASE && t.Valid() && t.Holds(v) && 0 - v <= t.Widened().MaxValue()
    requires minWidth <= 255 && at <= p && p + IntScratch(v, base, minWidth) <= buf.Length
    modifies buf
    ensures end == p + |IntText(v, base, minWidth)| <= buf.Length
    ensures buf[at..end] == old(buf[at..p]) + IntText(v, base, minWidth)
    ensures OnlyWithin(buf, p, p + IntScratch(v, base, minWidth))
    ensures ZerosIn(buf, end, p + IntScratch(v, base, minWidth))
  {
    hide IntText, IntScratch, IntType.Holds, IntType.MaxValue, Shl;
    end := IntToStr(base, t, buf, p, v, minWidth);
    assert buf[at..p] == old(buf[at..p]);
    assert buf[at..end] == buf[at..p] + buf[p..end];
  }

  /** `*(buf++) = c`, seen from the start of the text. */
  method AppendChar(buf: array<char>, ghost at: nat, p: nat, c: char) returns (end: nat)
    requires at <= p < buf.Length
    modifies buf
    ensures end == p + 1 && buf[at..end] == old(buf[at..p]) + [c]
    ensures OnlyWithin(buf, p, p + 1)
  {
    buf[p] := c;
    end := p + 1;
  }

  lemma MagnitudeFits(v: int, t: IntType)
    requires t.Valid() && t.Holds(v) && 0 - v <= t.Widened().MaxValue()
    ensures (if v < 0 then 0 - v else v) < Shl(1, t.Widened().bits)
    ensures v < 0 ==> t.signed && 0 - v <= MaxOf(t.Widened().bits - 1) <= MaxOf(t.Widened().bits)
    ensures t.signed ==> v <= MaxOf(t.Widened().bits - 1)
  {
    hide Shl;
    var bits := t.Widened().bits;
    ShlMonotone(bits - 1, bits);
    ShlMonotone(t.bits - 1, bits - 1);
    ShlMonotone(t.bits, bits);
  }

  /** `IntToStr<base, T>::buf_size` */
  ghost function BufSize(base: nat, t: IntType): nat
    requires 2 <= base < MAX_BASE && t.bits >= 1
  {
    Chunked(|Digits(t.MaxValue(), base)|, base) + (if t.signed then 1 else 0)
  }

  /** The loop that computes `buf_size`. */
  method ComputeBufSize(base: nat, t: IntType) returns (size: nat)
    requires 2 <= base < MAX_BASE && t.Valid()
    ensures size == BufSize(base, t)
  {
    var v: nat, i: nat := t.MaxValue(), 0;
    while v != 0
      invariant i + |Digits(v, base)| == |Digits(t.MaxValue(), base)|
    {
      QuotRem(v, base);
      v := v / base;
      i := i + 1;
    }
    var div := MultiIntSupport(base);
    assert (i + div - 1) / div * div == Chunked(i, base);
    size := (i + div - 1) / div * div + (if t.signed then 1 else 0);
  }

  lemma ChunksOf(m: nat, base: nat, t: IntType)
    requires 2 <= base < MAX_BASE && t.Valid() && m <= t.MaxValue()
    ensures Chunked(Max(|Digits(m, base)|, 1), base) <= Chunked(|Digits(t.MaxValue(), base)|, base)
  {
    var max := t.MaxValue();
    assert Shl(1, 7) == 128;
    ShlMonotone(7, if t.signed then t.bits - 1 else t.bits);
    DigitsMonotone(1, max, base);
    assert |Digits(1, base)| == |Digits(Quot(1, base), base)| + 1;
    DigitsMonotone(m, max, base);
    ChunkedMonotone(Max(|Digits(m, base)|, 1), |Digits(max, base)|, base);
  }

  /** The scratch writes of a value stay inside `buf_size` exactly when the width leaves room for the sign
      and the value is not the least of its type with a magnitude that takes more chunks than the largest
      value. */
  lemma ScratchInsideBufSize(v: int, base: nat, t: IntType, minWidth: nat)
    requires 2 <= base < MAX_BASE && t.Valid() && t.Holds(v)
    ensures IntScratch(v, base, minWidth) <= BufSize(base, t) <==>
      && minWidth + (if v < 0 then 1 else 0) <= BufSize(base, t)
      && (v == 0 - t.MaxValue() - 1 ==>
            Chunked(|Digits(t.MaxValue() + 1, base)|, base) == Chunked(|Digits(t.MaxValue(), base)|, base))
  {
    hide Digits, Chunked, IntType.MaxValue;
    var m: nat := if v < 0 then 0 - v else v;
    var max := t.MaxValue();
    if m <= max {
      ChunksOf(m, base, t);
    } else {
      DigitsMonotone(max, max + 1, base);
      ChunkedMonotone(|Digits(max, base)|, |Digits(max + 1, base)|, base);
      SomeDigits(max + 1, base);
    }
  }

  lemma SomeDigits(m: nat, base: nat)
    requires 2 <= base < MAX_BASE && m > 0
    ensures |Digits(m, base)| >= 1
  {
  }

  lemma {:induction false} BinaryDigits(k: nat)
    ensures |Digits(Shl(1, k), 2)| == k + 1 && |Digits(Shl(1, k) - 1, 2)| == k
  {
    if k == 0 {
      QuotUnique(1, 2, 0, 1);
    } else {
      var half := Shl(1, k - 1);
      BinaryDigits(k - 1);
      assert Shl(1, k) == 2 * half;
      QuotUnique(2 * half, 2, half, 0);
      QuotUnique(2 * half - 1, 2, half - 1, 1);
    }
  }

  /** The least value of `int8_t` in base 2 writes past `buf_size`. */
  lemma LeastOverruns()
    ensures BufSize(2, IntType(8, true)) == 8 && IntScratch(-128, 2, 0) == 9
  {
    hide Digits;
    assert Shl(1, 7) == 128;
    BinaryDigits(7);
  }

  ghost predicate HasPrefix0x(s: string) {
    |s| >= 2 && s[0] == '0' && s[1] == 'x'
  }

  /** `strToUInt0`: base 0 means hexadecimal behind `0x` and decimal otherwise. */
  ghost function MagnitudeOf(s: string, base: nat, max: nat): Result<nat> {
    if base > 0 then UintOf(s, base, max)
    else if HasPrefix0x(s) then UintOf(s[2..], 16, max)
    else UintOf(s, 10, max)
  }

  /** Base 0 by its texts */
  lemma BaseZero(h: string, s: string, max: nat)
    ensures MagnitudeOf("0x" + h, 0, max) == UintOf(h, 16, max)
    ensures s[..if |s| < 2 then |s| else 2] != "0x" ==> MagnitudeOf(s, 0, max) == UintOf(s, 10, max)
  {
    assert ("0x" + h)[2..] == h;
    if HasPrefix0x(s) { assert s[..2] == "0x"; }
  }

  method StrToUInt0(base: nat, bits: nat, s: string) returns (r: Result<nat>)
    requires base <= MAX_BASE && bits >= 8
    ensures r == MagnitudeOf(s, base, MaxOf(bits))
  {
    if base > 0 {
      r := StrToUInt(base, bits, s);
    } else if |s| >= 2 && s[0] == '0' && s[1] == 'x' {
      r := StrToUInt(16, bits, s[2..]);
    } else {
      r := StrToUInt(10, bits, s);
    }
  }

  ghost predicate Negated(s: string, t: IntType) {
    t.signed && s != "" && s[0] == '-'
  }

  /** What `StrToInt<base, T>` returns: the magnitude with its sign, checked against the upper end
      of the widened type and of `T`, and then converted to `T`. */
  ghost function IntOf(s: string, base: nat, t: IntType): Result<int>
    requires t.Valid()
  {
    var neg, w := Negated(s, t), t.Widened();
    match MagnitudeOf(if neg then s[1..] else s, base, MaxOf(w.bits))
    case Err(e) => Err(e)
    case Ok(m) =>
      if m > w.MaxValue() || (!neg && m > t.MaxValue()) then Err(Overflow)
      else Ok(t.Narrow(if neg then 0 - m else m))
  }

  /** `StrToInt<base, T>::operator()` around `strToInt`. */
  method StrToInt(base: nat, t: IntType, s: string) returns (r: Result<int>)
    requires base <= MAX_BASE && t.Valid()
    ensures r == IntOf(s, base, t)
  {
    var w := t.Widened();
    var ret: int;
    if !w.signed {
      var m := StrToUInt0(base, w.bits, s);
      if m.Err? { return Err(m.error); }
      ret := m.value;
    } else {
      var isNeg := s != "" && s[0] == '-';
      var m := StrToUInt0(base, w.bits, s[if isNeg then 1 else 0..]);
      assert !isNeg ==> s[0..] == s;
      if m.Err? { return Err(m.error); }
      if m.value > w.MaxValue() { return Err(Overflow); }
      ret := if isNeg then 0 - m.value else m.value;
    }
    ShlMonotone(if t.signed then t.bits - 1 else t.bits, if t.signed then w.bits - 1 else w.bits);
    if ret > t.MaxValue() { return Err(Overflow); }
    return Ok(t.Narrow(ret));
  }

  lemma NarrowKeeps(v: int, t: IntType)
    requires t.Valid()
    ensures t.Narrow(v) == v <==> t.Holds(v)
  {
    var h := Shl(1, t.bits - 1);
    assert Shl(1, t.bits) == 2 * h;
  }

  lemma {:induction false} WrapIs(v: int, m: nat) returns (q: int)
    requires m > 0
    ensures Wrap(v, m) == v + q * m
    decreases if v >= 0 then v else m - v
  {
    if v < 0 {
      q := WrapIs(v + m, m);
      q := q + 1;
    } else if v >= m {
      q := WrapIs(v - m, m);
      q := q - 1;
    } else {
      q := 0;
    }
  }

  /** The conversion gives the value of the type that is the same up to whole turns. */
  lemma NarrowIs(v: int, t: IntType) returns (q: int)
    requires t.Valid()
    ensures t.Holds(t.Narrow(v)) && t.Narrow(v) == v + q * Shl(1, t.bits)
  {
    var h := Shl(1, t.bits - 1);
    assert Shl(1, t.bits) == 2 * h;
    q := WrapIs(if t.signed then v + h else v, Shl(1, t.bits));
  }

  /** The base a text is read in, */
  function Radix(s: string, base: nat): nat {
    if base > 0 then base else if |s| >= 2 && s[0] == '0' && s[1] == 'x' then 16 else 10
  }

  /** its digits, */
  function Body(s: string, base: nat): string {
    if base == 0 && |s| >= 2 && s[0] == '0' && s[1] == 'x' then s[2..] else s
  }

  /** and whether there are any, and nothing else. */
  ghost predicate Spelled(s: string, base: nat) {
    Body(s, base) != "" && IsNumeral(Body(s, base), Radix(s, base))
  }

  ghost function ValueOf(s: string, base: nat): nat
    requires Spelled(s, base)
  {
    Value(Body(s, base), Radix(s, base))
  }

  lemma MagnitudeOk(s: string, base: nat, max: nat)
    requires base <= MAX_BASE
    ensures MagnitudeOf(s, base, max).Ok? <==> Spelled(s, base) && ValueOf(s, base) <= max
    ensures MagnitudeOf(s, base, max).Ok? ==> MagnitudeOf(s, base, max).value == ValueOf(s, base)
  {
    UintOfOk(Body(s, base), Radix(s, base), max);
  }

  /** An unsigned decoder accepts exactly the non-empty numerals that fit, and returns their value. */
  lemma UnsignedDecode(s: string, base: nat, t: IntType, v: int)
    requires base <= MAX_BASE && t.Valid() && !t.signed
    ensures IntOf(s, base, t) == Ok(v) <==> Spelled(s, base) && ValueOf(s, base) == v && v <= t.MaxValue()
  {
    MagnitudeOk(s, base, MaxOf(t.Widened().bits));
    ShlMonotone(t.bits, t.Widened().bits);
    if Spelled(s, base) && ValueOf(s, base) <= t.MaxValue() {
      NarrowKeeps(ValueOf(s, base), t);
    }
  }

  /** The largest magnitude a signed decoder takes: it has no check at the lower end of the type. */
  ghost function Limit(neg: bool, t: IntType): nat
    requires t.Valid()
  {
    if neg then t.Widened().MaxValue() else t.MaxValue()
  }

  /** A signed decoder accepts exactly the numerals, with or without a sign, up to its limit, and converts
      them to the type. */
  lemma SignedDecode(s: string, base: nat, t: IntType, v: int)
    requires base <= MAX_BASE && t.Valid() && t.signed
    ensures var neg := Negated(s, t);
      var body := if neg then s[1..] else s;
      IntOf(s, base, t) == Ok(v) <==>
        && Spelled(body, base) && ValueOf(body, base) <= Limit(neg, t)
        && v == t.Narrow(if neg then 0 - ValueOf(body, base) else ValueOf(body, base))
  {
    hide IntType.Narrow, Spelled, ValueOf, MagnitudeOf, Shl;
    var w := t.Widened();
    ShlMonotone(w.bits - 1, w.bits);
    ShlMonotone(t.bits - 1, w.bits - 1);
    MagnitudeOk(if Negated(s, t) then s[1..] else s, base, MaxOf(w.bits));
  }

  /** What it converts comes back as itself exactly when the type can hold it: always without a sign, and
      with one only down to the least value. */
  lemma SignedKeeps(m: nat, neg: bool, t: IntType)
    requires t.Valid() && t.signed && m <= Limit(neg, t)
    ensures var n: int := if neg then 0 - m else m;
      t.Narrow(n) == n <==> (neg ==> m <= t.MaxValue() + 1)
  {
    NarrowKeeps(if neg then 0 - m else m, t);
  }

  lemma MagnitudeRoundTrip(m: nat, base: nat, minWidth: nat, decodeBase: nat, max: nat)
    requires 2 <= base < MAX_BASE && m <= max
    requires decodeBase == base || (decodeBase == 0 && base == 10)
    ensures var s := UintText(m, base, minWidth);
            && MagnitudeOf(s, decodeBase, max) == Ok(m)
            && s != "" && s[0] != '-'
  {
    var s := UintText(m, base, minWidth);
    UintTextDenotes(m, base, minWidth);
    UintOfNumeral(s, base, max);
  }

  lemma Spells200()
    ensures UintText(200, 10, 0) == "200"
  {
    QuotUnique(200, 10, 20, 0);
    QuotUnique(20, 10, 2, 0);
    QuotUnique(2, 10, 0, 2);
    assert Digits(0, 10) == "" && Digits(2, 10) == "2" && Digits(20, 10) == "20" && Digits(200, 10) == "200";
  }

  /** The text of -200 is below the range of `int8_t`; it is accepted and comes back as 56. */
  lemma SignedDecodeWraps()
    ensures IntText(-200, 10, 0) == "-200" && IntOf("-200", 10, IntType(8, true)) == Ok(56)
  {
    hide UintText, Digits, MagnitudeOf, Shl, IntType.Narrow;
    Spells200();
    Narrows200();
    MagnitudeRoundTrip(200, 10, 0, 10, MaxOf(64));
    assert "-200"[1..] == "200";
  }

  lemma Narrows200()
    ensures IntType(8, true).Narrow(-200) == 56 && 200 <= MaxOf(63) <= MaxOf(64)
  {
    ShlMonotone(8, 63);
    ShlMonotone(63, 64);
    assert Shl(1, 7) == 128 && Shl(1, 8) == 256;
    assert Wrap(-200 + 128, 256) == 184;
  }

  /** Decoding an encoding gives the value back, at every base and width, and at base 0 for
      decimal text. Only the least value of the widened type, which cannot be encoded, is out. */
  lemma IntRoundTrip(v: int, base: nat, t: IntType, minWidth: nat, decodeBase: nat)
    requires 2 <= base < MAX_BASE && t.Valid() && t.Holds(v) && 0 - v <= t.Widened().MaxValue()
    requires decodeBase == base || (decodeBase == 0 && base == 10)
    ensures IntOf(IntText(v, base, minWidth), decodeBase, t) == Ok(v)
  {
    hide UintText, MagnitudeOf, IntType.Narrow, Shl;
    var m: nat := if v < 0 then 0 - v else v;
    MagnitudeFits(v, t);
    MagnitudeRoundTrip(m, base, minWidth, decodeBase, MaxOf(t.Widened().bits));
    NarrowKeeps(v, t);
    var text := IntText(v, base, minWidth);
    if v < 0 {
      assert text[1..] == UintText(m, base, minWidth);
      assert Negated(text, t);
    } else {
      assert !Negated(text, t);
    }
  }
}
