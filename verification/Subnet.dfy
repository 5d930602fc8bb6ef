/** The subnet arithmetic of `include/stdplus/net/addr/subnet.hpp`. */
module Subnet {
  import opened Text
  import opened Bits
  import opened NumericStr
  import opened Endian
  import opened Delimited
  import opened Ip4
  import opened Ip6Parse
  import opened Ip6Grammar
  import opened Ip6Print
  import opened IpAny

  // ---------------------------------------------------------------- one word

  /** `~uint32_t{0} << n`. Shifting by the whole width is undefined: `undef` is whatever it yields. */
  function OnesShifted(n: nat, undef: nat): nat {
    if n < 32 then Shl(WORD - 1, n) % WORD else undef
  }

  /** `addr32Mask` */
  function Addr32Mask(pfx: nat, undef: nat): (m: nat)
    requires pfx <= 32 && undef < WORD
    ensures m < WORD
  {
    var v := OnesShifted(32 - pfx, undef);
    var keep := if pfx > 0 then WORD - 1 else 0;
    MaskBound(keep, v);
    Swap32(BitAnd(keep, v))
  }

  /** The word with its first `p` bits kept and the rest cleared. */
  ghost function High(x: nat, p: nat): (h: nat)
    requires p <= 32 && x < WORD
    ensures h <= x
  {
    ShrAndMask(x, 32 - p);
    x - x % Shl(1, 32 - p)
  }

  /** Bit `i` of a word, counted from the most significant. */
  ghost function Bit(x: nat, i: nat): nat
    requires i < 32
  {
    Shr(x, 31 - i) % 2
  }

  lemma {:induction false} AndBound(a: nat, b: nat)
    ensures BitAnd(a, b) <= a && BitAnd(a, b) <= b
  {
    if a > 0 && b > 0 { AndBound(a / 2, b / 2); }
  }

  lemma MaskBound(a: nat, b: nat)
    requires a < WORD || b < WORD
    ensures BitAnd(a, b) < WORD
  {
    AndBound(a, b);
  }

  lemma Width()
    ensures Shl(1, 32) == WORD
  {
    assert Shl(1, 8) == 256;
    ShlAdd(1, 8, 8);
    ShiftByte(256);
    ShlAdd(1, 16, 8);
    ShiftByte(0x1_0000);
    ShlAdd(1, 24, 8);
    ShiftByte(0x100_0000);
  }

  /** The mask of a prefix in host order, whatever the undefined shift yields. */
  lemma MaskValue(pfx: nat, undef: nat)
    requires pfx <= 32 && undef < WORD
    ensures Shl(1, 32 - pfx) <= WORD && Addr32Mask(pfx, undef) == Swap32(WORD - Shl(1, 32 - pfx))
  {
    var k := 32 - pfx;
    Width();
    if pfx == 0 {
      assert BitAnd(0, undef) == 0;
    } else {
      ShlMonotone(k, 32);
      ShlIsTimes(WORD - 1, k);
      var m := Shl(1, k);
      assert (WORD - 1) * m == (m - 1) * WORD + (WORD - m);
      DivModUnique((WORD - 1) * m, WORD, m - 1, WORD - m);
      AndHigh(WORD - 1, 32, k);
      ModMax(k);
    }
  }

  lemma ModMax(k: nat)
    requires k <= 32
    ensures (WORD - 1) % Shl(1, k) == Shl(1, k) - 1
  {
    hide Shl;
    Width();
    var m, q := Shl(1, k), Shl(1, 32 - k);
    ShlAdd(1, 32 - k, k);
    ShlIsTimes(q, k);
    TimesSum(q - 1, 1, m);
    DivModUnique(WORD - 1, m, q - 1, m - 1);
  }

  // ---------------------------------------------------------------- bytes and masks

  lemma {:induction false} AndSplit(a: nat, q: nat, b: nat, r: nat, k: nat)
    requires a < Shl(1, k) && b < Shl(1, k)
    ensures BitAnd(a + Shl(q, k), b + Shl(r, k)) == BitAnd(a, b) + Shl(BitAnd(q, r), k)
  {
    if k > 0 {
      AndSplit(a / 2, q, b / 2, r, k - 1);
      var x, y := a + Shl(q, k), b + Shl(r, k);
      assert x / 2 == a / 2 + Shl(q, k - 1) && x % 2 == a % 2;
      assert y / 2 == b / 2 + Shl(r, k - 1) && y % 2 == b % 2;
      AndStep(x, y);
      AndStep(a, b);
    }
  }

  lemma AndStep(x: nat, y: nat)
    ensures BitAnd(x, y) == 2 * BitAnd(x / 2, y / 2) + (if x % 2 == 1 && y % 2 == 1 then 1 else 0)
  {
    if x == 0 || y == 0 { assert BitAnd(x / 2, y / 2) == 0; }
  }

  lemma AndByte(a: Byte, q: nat, b: Byte, r: nat)
    ensures BitAnd(a + 256 * q, b + 256 * r) == BitAnd(a, b) + 256 * BitAnd(q, r)
    ensures BitAnd(a, b) < 256
  {
    ShiftByte(q);
    ShiftByte(r);
    ShiftByte(BitAnd(q, r));
    assert Shl(1, 8) == 256;
    AndSplit(a, q, b, r, 8);
    AndBound(a, b);
  }

  /** Masking commutes with swapping the byte order. */
  lemma AndSwap(x: nat, y: nat)
    requires x < WORD && y < WORD
    ensures BitAnd(x, y) < WORD && BitAnd(Swap32(x), Swap32(y)) == Swap32(BitAnd(x, y))
  {
    var a, b := Bytes32(x), Bytes32(y);
    Le32OfBytes(x);
    Le32OfBytes(y);
    AndLe32(a, b);
    AndLe32([a[3], a[2], a[1], a[0]], [b[3], b[2], b[1], b[0]]);
    AndByte(a[0], 0, b[0], 0);
    AndByte(a[1], 0, b[1], 0);
    AndByte(a[2], 0, b[2], 0);
    AndByte(a[3], 0, b[3], 0);
    Swap32Bytes(BitAnd(a[0], b[0]), BitAnd(a[1], b[1]), BitAnd(a[2], b[2]), BitAnd(a[3], b[3]));
  }

  function Pack(b: nat, q: nat): nat {
    b + 256 * q
  }

  lemma AndLe32(a: seq<Byte>, b: seq<Byte>)
    requires |a| == 4 && |b| == 4
    ensures forall i | 0 <= i < 4 :: BitAnd(a[i], b[i]) < 256
    ensures BitAnd(Le32(a[0], a[1], a[2], a[3]), Le32(b[0], b[1], b[2], b[3]))
         == Le32(BitAnd(a[0], b[0]), BitAnd(a[1], b[1]), BitAnd(a[2], b[2]), BitAnd(a[3], b[3]))
  {
    hide BitAnd;
    AndByte(a[3], 0, b[3], 0);
    AndByte(a[2], a[3], b[2], b[3]);
    AndByte(a[1], Pack(a[2], a[3]), b[1], Pack(b[2], b[3]));
    AndByte(a[0], Pack(a[1], Pack(a[2], a[3])), b[0], Pack(b[1], Pack(b[2], b[3])));
  }

  /** Masking an address word keeps the first `pfx` bits of the number it stands for. */
  lemma MaskWord(w: nat, pfx: nat, undef: nat)
    requires w < WORD && pfx <= 32 && undef < WORD
    ensures var m := BitAnd(w, Addr32Mask(pfx, undef)); m < WORD && Swap32(m) == High(Swap32(w), pfx)
  {
    hide Swap32, BitAnd, Addr32Mask;
    var x, k := Swap32(w), 32 - pfx;
    Width();
    Swap32Involution(w);
    MaskValue(pfx, undef);
    AndHigh(x, 32, k);
    AndSwap(x, WORD - Shl(1, k));
    Swap32Involution(High(x, pfx));
  }

  // ---------------------------------------------------------------- what the mask means

  lemma {:induction false} ShrStep(x: nat, k: nat)
    ensures Shr(x, k + 1) == Shr(x, k) / 2
  {
    if k > 0 { ShrStep(x / 2, k - 1); }
  }

  lemma {:induction false} ShrZero(x: nat, k: nat)
    requires x < Shl(1, k)
    ensures Shr(x, k) == 0
  {
    if k > 0 { ShrZero(x / 2, k - 1); }
  }

  /** The first `p` bits of two words agree. */
  ghost predicate AgreeOn(x: nat, y: nat, p: nat)
    requires p <= 32
  {
    forall i | 0 <= i < p :: Bit(x, i) == Bit(y, i)
  }

  lemma {:induction false} AgreeIsShr(x: nat, y: nat, p: nat)
    requires p <= 32 && x < WORD && y < WORD
    ensures AgreeOn(x, y, p) <==> Shr(x, 32 - p) == Shr(y, 32 - p)
  {
    if p == 0 {
      Width();
      ShrZero(x, 32);
      ShrZero(y, 32);
    } else {
      AgreeIsShr(x, y, p - 1);
      ShrStep(x, 32 - p);
      ShrStep(y, 32 - p);
      assert AgreeOn(x, y, p) <==> AgreeOn(x, y, p - 1) && Bit(x, p - 1) == Bit(y, p - 1);
    }
  }

  /** Two words have the same masked part exactly when their first bits agree. */
  lemma HighAgree(x: nat, y: nat, p: nat)
    requires p <= 32 && x < WORD && y < WORD
    ensures High(x, p) == High(y, p) <==> AgreeOn(x, y, p)
    ensures AgreeOn(x, y, p) ==> High(x, p) <= y
    ensures High(High(x, p), p) == High(x, p)
  {
    var m := Shl(1, 32 - p);
    AgreeIsShr(x, y, p);
    ShrAndMask(x, 32 - p);
    ShrAndMask(y, 32 - p);
    HighTimes(x, m);
    HighTimes(y, m);
    assert High(x, p) == x / m * m && High(y, p) == y / m * m;
    if x / m * m == y / m * m {
      DivModUnique(x / m * m, m, y / m, 0);
    }
  }

  lemma HighTimes(x: nat, m: nat)
    requires m > 0
    ensures x - x % m == x / m * m && (x / m * m) / m == x / m && (x / m * m) % m == 0
  {
    DivModUnique(x / m * m, m, x / m, 0);
  }

  // ---------------------------------------------------------------- addresses

  /** `addrToSubnet(In4Addr, pfx)` */
  function AddrToSubnet4(a: In4Addr, pfx: nat, undef: nat): (r: In4Addr)
    requires a.Valid() && pfx <= 32 && undef < WORD
    ensures r.Valid()
  {
    MaskBound(a.word, Addr32Mask(pfx, undef));
    In4Addr(BitAnd(a.word, Addr32Mask(pfx, undef)))
  }

  function WordOf(s6: seq<Word16>, i: nat): nat
    requires |s6| == 8 && i < 4
  {
    Words(s6[2 * i], s6[2 * i + 1])
  }

  /** `ret.word(i, w)` */
  function SetWord(ret: In6Addr, i: nat, w: nat): (r: In6Addr)
    requires ret.Valid() && i < 4 && w < WORD
    ensures r.Valid()
  {
    In6Addr(ret.s6[2 * i := w % 0x1_0000][2 * i + 1 := w / 0x1_0000])
  }

  const ZERO6 := In6Addr([0, 0, 0, 0, 0, 0, 0, 0])

  /** `addrToSubnet(In6Addr, pfx, i, s, ret)` */
  function AddrToSubnet6(a: In6Addr, pfx: nat, i: nat, s: nat, ret: In6Addr, undef: nat): (r: In6Addr)
    requires a.Valid() && ret.Valid() && pfx <= 128 && i < 4 && s == 32 * i && undef < WORD
    requires s <= pfx
    ensures r.Valid()
    decreases 4 - i
  {
    if s + 32 < pfx then
      AddrToSubnet6(a, pfx, i + 1, s + 32, SetWord(ret, i, a.Word(i)), undef)
    else
      MaskBound(a.Word(i), Addr32Mask(pfx - s, undef));
      SetWord(ret, i, BitAnd(a.Word(i), Addr32Mask(pfx - s, undef)))
  }

  /** The four words of an address as numbers. */
  ghost function Num6(a: In6Addr, i: nat): (n: nat)
    requires a.Valid() && i < 4
    ensures n < WORD
  {
    Swap32(a.Word(i))
  }

  /** The part of a prefix that falls into word `i`. */
  function Part(pfx: nat, i: nat): (p: nat)
    ensures p <= 32
  {
    if pfx <= 32 * i then 0 else if pfx >= 32 * i + 32 then 32 else pfx - 32 * i
  }

  lemma SetWordWord(ret: In6Addr, i: nat, w: nat, j: nat)
    requires ret.Valid() && i < 4 && j < 4 && w < WORD
    ensures SetWord(ret, i, w).Word(j) == if i == j then w else ret.Word(j)
  {
  }

  /** The recursion masks every word by its part of the prefix. */
  lemma {:induction false} Subnet6Words(a: In6Addr, pfx: nat, i: nat, s: nat, ret: In6Addr, undef: nat, j: nat)
    requires a.Valid() && ret.Valid() && pfx <= 128 && i < 4 && s == 32 * i && undef < WORD && j < 4
    requires s <= pfx
    requires forall k | 0 <= k < i :: ret.Word(k) == a.Word(k) && Part(pfx, k) == 32
    requires forall k | i <= k < 4 :: ret.Word(k) == 0
    ensures Num6(AddrToSubnet6(a, pfx, i, s, ret, undef), j) == High(Num6(a, j), Part(pfx, j))
    decreases 4 - i
  {
    hide BitAnd, Swap32, Addr32Mask, SetWord, In6Addr.Word, High, Bytes32;
    if s + 32 < pfx {
      forall k | 0 <= k < 4 { SetWordWord(ret, i, a.Word(i), k); }
      Subnet6Words(a, pfx, i + 1, s + 32, SetWord(ret, i, a.Word(i)), undef, j);
    } else {
      MaskWord(a.Word(i), pfx - s, undef);
      SetWordWord(ret, i, BitAnd(a.Word(i), Addr32Mask(pfx - s, undef)), j);
      HighEnds(Num6(a, j));
    }
  }

  lemma HighEnds(x: nat)
    requires x < WORD
    ensures High(x, 32) == x && High(x, 0) == 0 && Swap32(0) == 0
  {
    Width();
    assert x % 1 == 0;
    DivModUnique(x, WORD, 0, x);
  }

  lemma Zero6Words()
    ensures ZERO6.Valid() && forall k | 0 <= k < 4 :: ZERO6.Word(k) == 0
  {
  }

  /** `network()` of a `Subnet46`. */
  function Network(a: InAnyAddr, pfx: nat, undef: nat): (r: InAnyAddr)
    requires a.Valid() && pfx <= AddrBits(a) && undef < WORD
    ensures r.Valid() && r.V4? == a.V4?
  {
    match a
    case V4(a4) => V4(AddrToSubnet4(a4, pfx, undef))
    case V6(a6) => V6(AddrToSubnet6(a6, pfx, 0, 0, ZERO6, undef))
  }

  /** `addrBits` */
  function AddrBits(a: InAnyAddr): nat {
    if a.V4? then 32 else 128
  }

  /** `subnetContains`: addresses of different families never match. */
  predicate SubnetContains(l: InAnyAddr, r: InAnyAddr, pfx: nat, undef: nat)
    requires l.Valid() && r.Valid() && pfx <= AddrBits(l) && undef < WORD
  {
    l.V4? == r.V4? && Network(l, pfx, undef) == Network(r, pfx, undef)
  }

  /** Bit `k` of an address, from the left of its text. */
  ghost function AddrBit(a: InAnyAddr, k: nat): nat
    requires a.Valid() && k < AddrBits(a)
  {
    match a
    case V4(a4) => Bit(Swap32(a4.word), k)
    case V6(a6) => Bit(Num6(a6, k / 32), k % 32)
  }

  lemma Network4Number(a: In4Addr, pfx: nat, undef: nat)
    requires a.Valid() && pfx <= 32 && undef < WORD
    ensures Swap32(AddrToSubnet4(a, pfx, undef).word) == High(Swap32(a.word), pfx)
  {
    MaskWord(a.word, pfx, undef);
  }

  lemma Network6Number(a: In6Addr, pfx: nat, undef: nat, j: nat)
    requires a.Valid() && pfx <= 128 && undef < WORD && j < 4
    ensures Num6(AddrToSubnet6(a, pfx, 0, 0, ZERO6, undef), j) == High(Num6(a, j), Part(pfx, j))
  {
    hide High, In6Addr.Word, AddrToSubnet6;
    Zero6Words();
    Subnet6Words(a, pfx, 0, 0, ZERO6, undef, j);
  }

  lemma SwapInjective(x: nat, y: nat)
    requires x < WORD && y < WORD
    ensures Swap32(x) == Swap32(y) ==> x == y
  {
    Swap32Involution(x);
    Swap32Involution(y);
  }

  lemma Num6Injective(a: In6Addr, b: In6Addr)
    requires a.Valid() && b.Valid() && forall j | 0 <= j < 4 :: Num6(a, j) == Num6(b, j)
    ensures a == b
  {
    hide Swap32;
    forall j | 0 <= j < 4
      ensures a.s6[2 * j] == b.s6[2 * j] && a.s6[2 * j + 1] == b.s6[2 * j + 1]
    {
      assert Num6(a, j) == Num6(b, j);
      SwapInjective(a.Word(j), b.Word(j));
      assert Words(a.s6[2 * j], a.s6[2 * j + 1]) == Words(b.s6[2 * j], b.s6[2 * j + 1]);
    }
    assert a.s6 == b.s6 by {
      forall k | 0 <= k < 8 ensures a.s6[k] == b.s6[k] {
        assert k == 2 * (k / 2) || k == 2 * (k / 2) + 1;
      }
    }
  }

  /** The first `pfx` bits of two addresses of one family agree. */
  ghost predicate PrefixesAgree(l: InAnyAddr, r: InAnyAddr, pfx: nat)
    requires l.Valid() && r.Valid() && l.V4? == r.V4? && pfx <= AddrBits(l)
  {
    forall k | 0 <= k < pfx :: AddrBit(l, k) == AddrBit(r, k)
  }

  lemma Agree4(l: In4Addr, r: In4Addr, pfx: nat, undef: nat)
    requires l.Valid() && r.Valid() && pfx <= 32 && undef < WORD
    ensures AddrToSubnet4(l, pfx, undef) == AddrToSubnet4(r, pfx, undef) <==>
              AgreeOn(Swap32(l.word), Swap32(r.word), pfx)
  {
    hide Swap32, High, AgreeOn;
    Network4Number(l, pfx, undef);
    Network4Number(r, pfx, undef);
    HighAgree(Swap32(l.word), Swap32(r.word), pfx);
    SwapInjective(AddrToSubnet4(l, pfx, undef).word, AddrToSubnet4(r, pfx, undef).word);
  }

  lemma Agree6(l: In6Addr, r: In6Addr, pfx: nat, undef: nat)
    requires l.Valid() && r.Valid() && pfx <= 128 && undef < WORD
    ensures AddrToSubnet6(l, pfx, 0, 0, ZERO6, undef) == AddrToSubnet6(r, pfx, 0, 0, ZERO6, undef) <==>
              forall j | 0 <= j < 4 :: AgreeOn(Num6(l, j), Num6(r, j), Part(pfx, j))
  {
    hide Num6, High, AgreeOn, AddrToSubnet6;
    forall j | 0 <= j < 4
      ensures High(Num6(l, j), Part(pfx, j)) == High(Num6(r, j), Part(pfx, j)) <==>
                AgreeOn(Num6(l, j), Num6(r, j), Part(pfx, j))
      ensures Num6(AddrToSubnet6(l, pfx, 0, 0, ZERO6, undef), j) == High(Num6(l, j), Part(pfx, j))
      ensures Num6(AddrToSubnet6(r, pfx, 0, 0, ZERO6, undef), j) == High(Num6(r, j), Part(pfx, j))
    {
      Network6Number(l, pfx, undef, j);
      Network6Number(r, pfx, undef, j);
      HighAgree(Num6(l, j), Num6(r, j), Part(pfx, j));
    }
    var a, b := AddrToSubnet6(l, pfx, 0, 0, ZERO6, undef), AddrToSubnet6(r, pfx, 0, 0, ZERO6, undef);
    if forall j | 0 <= j < 4 :: AgreeOn(Num6(l, j), Num6(r, j), Part(pfx, j)) {
      Num6Injective(a, b);
    }
  }

  lemma PartsAgree(l: In6Addr, r: In6Addr, pfx: nat)
    requires l.Valid() && r.Valid() && pfx <= 128
    ensures (forall j | 0 <= j < 4 :: AgreeOn(Num6(l, j), Num6(r, j), Part(pfx, j))) <==>
              PrefixesAgree(V6(l), V6(r), pfx)
  {
    hide Num6, Bit;
    if PrefixesAgree(V6(l), V6(r), pfx) {
      forall j | 0 <= j < 4
        ensures AgreeOn(Num6(l, j), Num6(r, j), Part(pfx, j))
      {
        forall i | 0 <= i < Part(pfx, j)
          ensures Bit(Num6(l, j), i) == Bit(Num6(r, j), i)
        {
          var k := 32 * j + i;
          assert k / 32 == j && k % 32 == i;
          assert AddrBit(V6(l), k) == AddrBit(V6(r), k);
        }
      }
    }
    if forall j | 0 <= j < 4 :: AgreeOn(Num6(l, j), Num6(r, j), Part(pfx, j)) {
      forall k | 0 <= k < pfx
        ensures AddrBit(V6(l), k) == AddrBit(V6(r), k)
      {
        assert AgreeOn(Num6(l, k / 32), Num6(r, k / 32), Part(pfx, k / 32));
      }
    }
  }

  /** An address is contained exactly when it is of the subnet's family and shares its prefix,
      whatever the undefined shift yields. */
  lemma ContainsMeansPrefix(l: InAnyAddr, r: InAnyAddr, pfx: nat, undef: nat)
    requires l.Valid() && r.Valid() && pfx <= AddrBits(l) && undef < WORD
    ensures SubnetContains(l, r, pfx, undef) <==> l.V4? == r.V4? && PrefixesAgree(l, r, pfx)
  {
    hide AddrToSubnet4, AddrToSubnet6, Bit;
    if l.V4? && r.V4? {
      Agree4(l.a4, r.a4, pfx, undef);
      assert PrefixesAgree(l, r, pfx) <==> AgreeOn(Swap32(l.a4.word), Swap32(r.a4.word), pfx) by {
        assert forall k | 0 <= k < pfx :: AddrBit(l, k) == Bit(Swap32(l.a4.word), k);
      }
    } else if l.V6? && r.V6? {
      Agree6(l.a6, r.a6, pfx, undef);
      PartsAgree(l.a6, r.a6, pfx);
    }
  }

  /** A shorter prefix contains whatever a longer one does. */
  lemma ShorterContainsMore(l: InAnyAddr, r: InAnyAddr, p: nat, q: nat, undef: nat)
    requires l.Valid() && r.Valid() && p <= q <= AddrBits(l) && undef < WORD
    requires SubnetContains(l, r, q, undef)
    ensures SubnetContains(l, r, p, undef)
  {
    hide SubnetContains, AddrBit;
    ContainsMeansPrefix(l, r, q, undef);
    ContainsMeansPrefix(l, r, p, undef);
  }

  /** The number an address stands for. */
  ghost function AddrNumber(a: InAnyAddr): nat
    requires a.Valid()
  {
    match a
    case V4(a4) => Swap32(a4.word)
    case V6(a6) => FourWords(Num6(a6, 0), Num6(a6, 1), Num6(a6, 2), Num6(a6, 3))
  }

  ghost function FourWords(a: nat, b: nat, c: nat, d: nat): nat {
    ((a * WORD + b) * WORD + c) * WORD + d
  }

  /** The network address is in the subnet, is its least member, and is its own network. */
  lemma NetworkIsLeast(l: InAnyAddr, r: InAnyAddr, pfx: nat, undef: nat)
    requires l.Valid() && r.Valid() && pfx <= AddrBits(l) && undef < WORD
    ensures var net := Network(l, pfx, undef);
            && Network(net, pfx, undef) == net && SubnetContains(l, net, pfx, undef)
            && (SubnetContains(l, r, pfx, undef) ==> AddrNumber(net) <= AddrNumber(r))
  {
    hide AddrToSubnet4, AddrToSubnet6, High, Swap32, Num6, AgreeOn;
    match l
    case V4(a) =>
      var net := AddrToSubnet4(a, pfx, undef);
      Network4Number(a, pfx, undef);
      Network4Number(net, pfx, undef);
      HighAgree(Swap32(a.word), Swap32(a.word), pfx);
      SwapInjective(AddrToSubnet4(net, pfx, undef).word, net.word);
      if SubnetContains(l, r, pfx, undef) {
        Agree4(a, r.a4, pfx, undef);
        HighAgree(Swap32(a.word), Swap32(r.a4.word), pfx);
      }
    case V6(a) =>
      Network6IsFixed(a, pfx, undef);
      if SubnetContains(l, r, pfx, undef) {
        Agree6(a, r.a6, pfx, undef);
        forall j | 0 <= j < 4
          ensures Num6(AddrToSubnet6(a, pfx, 0, 0, ZERO6, undef), j) <= Num6(r.a6, j)
        {
          Network6Number(a, pfx, undef, j);
          HighAgree(Num6(a, j), Num6(r.a6, j), Part(pfx, j));
        }
      }
  }

  lemma Network6IsFixed(a: In6Addr, pfx: nat, undef: nat)
    requires a.Valid() && pfx <= 128 && undef < WORD
    ensures var net := AddrToSubnet6(a, pfx, 0, 0, ZERO6, undef);
            AddrToSubnet6(net, pfx, 0, 0, ZERO6, undef) == net
  {
    hide AddrToSubnet6, High, Num6, AgreeOn;
    var net := AddrToSubnet6(a, pfx, 0, 0, ZERO6, undef);
    var again := AddrToSubnet6(net, pfx, 0, 0, ZERO6, undef);
    forall j | 0 <= j < 4
      ensures Num6(again, j) == Num6(net, j)
    {
      Network6Number(a, pfx, undef, j);
      Network6Number(net, pfx, undef, j);
      HighAgree(Num6(a, j), Num6(a, j), Part(pfx, j));
    }
    Num6Injective(again, net);
  }

  // ---------------------------------------------------------------- netmasks

  /** `pfxToMask<In4Addr>` */
  function PfxToMask(pfx: nat, undef: nat): (m: In4Addr)
    requires pfx <= 32 && undef < WORD
    ensures m.Valid()
  {
    In4Addr(Addr32Mask(pfx, undef))
  }

  /** `maskToPfx` */
  function MaskToPfx(mask: In4Addr): Result<nat>
    requires mask.Valid()
  {
    MaskWordToPfx(Swap32(mask.word))
  }

  function MaskWordToPfx(x: nat): Result<nat>
    requires x < WORD
  {
    var nx := WORD - 1 - x;
    if BitAnd(nx, (nx + 1) % WORD) != 0 then Err(Invalid)
    else Ok(32 - (if x == 0 then 32 else if CountrZero(x) < 32 then CountrZero(x) else 32))
  }

  /** A word shares no bit with its successor exactly when it is all ones up to some bit. */
  lemma {:induction false} NoSharedBit(n: nat) returns (k: nat)
    ensures BitAnd(n, n + 1) == 0 <==> n + 1 == Shl(1, k)
  {
    if n == 0 {
      k := 0;
    } else if n % 2 == 0 {
      AndStep(n, n + 1);
      AndSelf(n / 2);
      k := 0;
    } else {
      k := NoSharedBit(n / 2);
      AndStep(n, n + 1);
      assert (n + 1) / 2 == n / 2 + 1;
      k := k + 1;
    }
  }

  lemma {:induction false} AndSelf(n: nat)
    ensures BitAnd(n, n) == n
  {
    if n > 0 { AndSelf(n / 2); }
  }

  lemma AndDouble(h: nat)
    requires h > 0
    ensures BitAnd(2 * h - 1, 2 * h) == 2 * BitAnd(h - 1, h)
  {
    hide BitAnd;
    AndStep(2 * h - 1, 2 * h);
    DivModUnique(2 * h - 1, 2, h - 1, 1);
    DivModUnique(2 * h, 2, h, 0);
  }

  lemma {:induction false} OnesNoShared(k: nat)
    ensures BitAnd(Shl(1, k) - 1, Shl(1, k)) == 0
  {
    hide BitAnd;
    if k > 0 {
      OnesNoShared(k - 1);
      AndDouble(Shl(1, k - 1));
    } else {
      AndNone(1);
    }
  }

  lemma AndNone(n: nat)
    ensures BitAnd(0, n) == 0
  {
  }

  lemma {:induction false} TrailingZeros(n: nat, k: nat)
    requires k < n
    ensures Shl(1, n) - Shl(1, k) > 0 && CountrZero(Shl(1, n) - Shl(1, k)) == k
    decreases k
  {
    hide CountrZero;
    if k == 0 {
      ZerosOfOdd(Shl(1, n - 1) - 1);
    } else {
      TrailingZeros(n - 1, k - 1);
      ZerosOfDouble(Shl(1, n - 1) - Shl(1, k - 1));
    }
  }

  lemma ZerosOfOdd(h: nat)
    ensures CountrZero(2 * h + 1) == 0
  {
  }

  lemma ZerosOfDouble(h: nat)
    requires h > 0
    ensures CountrZero(2 * h) == 1 + CountrZero(h)
  {
    assert 2 * h % 2 == 0 && 2 * h / 2 == h;
  }

  lemma {:induction false} ShlStrict(j: nat, k: nat)
    ensures Shl(1, j) <= Shl(1, k) ==> j <= k
  {
    if j > k { ShlMonotone(k + 1, j); }
  }

  lemma OnesToPfx(k: nat)
    requires k <= 32
    ensures Shl(1, k) <= WORD && MaskWordToPfx(WORD - Shl(1, k)) == Ok(32 - k)
  {
    hide BitAnd, CountrZero;
    Width();
    if k < 32 {
      ShlMonotone(k + 1, 32);
      OnesNoShared(k);
      TrailingZeros(32, k);
      assert Shl(1, k + 1) == 2 * Shl(1, k);
      assert Shl(1, k) % WORD == Shl(1, k);
    } else {
      AndZero(WORD - 1);
    }
  }

  lemma AndZero(n: nat)
    ensures BitAnd(n, 0) == 0
  {
  }

  lemma MaskOfPfx(p: nat, undef: nat)
    requires p <= 32 && undef < WORD
    ensures MaskToPfx(PfxToMask(p, undef)) == Ok(p)
  {
    hide Swap32, Addr32Mask, MaskWordToPfx;
    MaskValue(p, undef);
    Swap32Involution(WORD - Shl(1, 32 - p));
    OnesToPfx(32 - p);
  }

  /** The masks accepted are exactly those made from a prefix, and the prefix comes back. */
  lemma MaskExact(mask: In4Addr, p: nat, undef: nat)
    requires mask.Valid() && undef < WORD
    ensures MaskToPfx(mask) == Ok(p) <==> p <= 32 && mask == PfxToMask(p, undef)
  {
    hide PfxToMask;
    if p <= 32 && mask == PfxToMask(p, undef) {
      MaskOfPfx(p, undef);
    }
    if MaskToPfx(mask).Ok? {
      var q := MaskHasPfx(mask, undef);
      MaskOfPfx(q, undef);
    }
  }

  lemma MaskHasPfx(mask: In4Addr, undef: nat) returns (q: nat)
    requires mask.Valid() && undef < WORD && MaskToPfx(mask).Ok?
    ensures q <= 32 && mask == PfxToMask(q, undef)
  {
    hide Swap32, Addr32Mask, BitAnd, CountrZero, Shl;
    var x := Swap32(mask.word);
    var nx := WORD - 1 - x;
    Width();
    assert nx + 1 < WORD ==> (nx + 1) % WORD == nx + 1;
    Swap32Involution(mask.word);
    if nx + 1 == WORD {
      q := 0;
    } else {
      var k := NoSharedBit(nx);
      ShlStrict(k, 32);
      q := 32 - k;
    }
    MaskValue(q, undef);
  }

  // ---------------------------------------------------------------- texts

  /** Which `Subnet46` or `SubnetAny` a text is for. */
  datatype Family = Only4 | Only6 | Either

  /** A subnet: an address and a prefix its constructor has checked. */
  datatype Sub = Sub(addr: InAnyAddr, pfx: nat) {
    ghost predicate Valid() { addr.Valid() && pfx <= AddrBits(addr) }
  }

  ghost predicate Fits(f: Family, a: InAnyAddr) {
    f == Either || (f == Only4 && a.V4?) || (f == Only6 && a.V6?)
  }

  ghost function AddrOf(f: Family, text: string): Result<InAnyAddr> {
    match f
    case Only4 => (match In4Of(text) case Err(e) => Err(e) case Ok(a) => Ok(V4(a)))
    case Only6 => (match In6Of(text) case Err(e) => Err(e) case Ok(a) => Ok(V6(a)))
    case Either => AnyOf(text)
  }

  /** The constructors of `Subnet46` and `SubnetAny`. */
  function MakeSub(addr: InAnyAddr, pfx: nat): Result<Sub> {
    if AddrBits(addr) < pfx then Err(Invalid) else Ok(Sub(addr, pfx))
  }

  /** What parsing means: an address, the last slash, and a decimal prefix that fits the address. */
  ghost function SubOf(f: Family, text: string): Result<Sub> {
    var pos := RFind(text, '/');
    if pos < 0 then Err(Invalid)
    else
      match AddrOf(f, text[..pos])
      case Err(e) => Err(e)
      case Ok(a) =>
        match PieceOf(text[pos + 1..], 10, UINT8)
        case Err(e) => Err(e)
        case Ok(p) => MakeSub(a, p)
  }

  lemma AddrOfFits(f: Family, text: string)
    ensures AddrOf(f, text).Ok? ==> AddrOf(f, text).value.Valid() && Fits(f, AddrOf(f, text).value)
  {
    hide In4Of, In6Of;
    In4OfValid(text);
    In6OfValid(text);
  }

  /** The text of a subnet in parts: an address of the family and a decimal number behind a slash. */
  ghost predicate SubParts(f: Family, text: string, s: Sub, t: string, q: string) {
    text == t + "/" + q && Without(q, '/') && AddrOf(f, t) == Ok(s.addr) && Denotes(q, s.pfx, 10, UINT8)
  }

  /** A text is accepted as a subnet exactly when the subnet is valid, its prefix no longer than its address,
      and the text has such parts. */
  lemma SubExact(f: Family, text: string, s: Sub)
    ensures SubOf(f, text) == Ok(s) <==>
      && s.addr.Valid() && s.pfx <= (if s.addr.V4? then 32 else 128)
      && exists t, q :: SubParts(f, text, s, t, q)
  {
    hide AddrOf, PieceOf, Denotes;
    if SubOf(f, text) == Ok(s) {
      var pos := RFind(text, '/');
      var t, q := text[..pos], text[pos + 1..];
      AddrOfFits(f, t);
      PieceDenotes(q, s.pfx, 10, UINT8);
      assert text == t + "/" + q;
      assert SubParts(f, text, s, t, q);
    }
    if s.Valid() && exists t, q :: SubParts(f, text, s, t, q) {
      var t, q :| SubParts(f, text, s, t, q);
      SplitText(t, '/', q);
      RFindAt(text, '/', |t|);
      PieceDenotes(q, s.pfx, 10, UINT8);
    }
  }

  method ParseAddr(f: Family, text: string) returns (r: Result<InAnyAddr>)
    ensures r == AddrOf(f, text)
  {
    hide In4Of, In6Of, AnyOf;
    match f {
      case Only4 =>
        var a := In4FromStr(text);
        r := if a.Err? then Err(a.error) else Ok(V4(a.value));
      case Only6 =>
        var a := In6FromStr(text);
        r := if a.Err? then Err(a.error) else Ok(V6(a.value));
      case Either =>
        r := AnyFromStr(text);
    }
  }

  /** `FromStr<Sub>` */
  method SubFromStr(f: Family, sv: string) returns (r: Result<Sub>)
    ensures r == SubOf(f, sv)
    ensures r.Ok? ==> r.value.Valid() && Fits(f, r.value.addr)
  {
    hide AddrOf, PieceOf, Fits;
    var pos := RFind(sv, '/');
    if pos < 0 {
      return Err(Invalid);
    }
    var a := ParseAddr(f, sv[..pos]);
    if a.Err? { return Err(a.error); }
    AddrOfFits(f, sv[..pos]);
    var v := StrToInt(10, UINT8, sv[pos + 1..]);
    OctetOf(sv[pos + 1..], 10, v);
    if v.Err? { return Err(v.error); }
    return MakeSub(a.value, v.value);
  }

  ghost predicate SubText(s: Sub, text: string)
    requires s.Valid()
  {
    exists t :: AnyText(s.addr, t) && text == t + "/" + IntText(s.pfx, 10, 0)
  }

  /** `ToStr<Sub::Addr>::buf_size` */
  function AddrBufSize(f: Family): nat {
    match f
    case Only4 => IN4_BUF_SIZE
    case Only6 => IN6_BUF_SIZE
    case Either => ANY_BUF_SIZE
  }

  /** `ToStr<Sub>::buf_size` */
  function SubBufSize(f: Family): nat {
    AddrBufSize(f) + 1 + 4
  }

  method AddrToStr(f: Family, buf: array<char>, at: nat, a: InAnyAddr) returns (end: nat)
    requires a.Valid() && Fits(f, a) && at + AddrBufSize(f) <= buf.Length
    modifies buf
    ensures at <= end <= at + AddrBufSize(f) && AnyText(a, buf[at..end])
    ensures OnlyWithin(buf, at, at + AddrBufSize(f))
  {
    hide Rfc5952, In4Text;
    match f {
      case Only4 => end := In4ToStr(buf, at, a.a4);
      case Only6 => end := In6ToStr(buf, at, a.a6);
      case Either => end := AnyToStr(buf, at, a);
    }
  }

  /** `ToStr<Sub>` of a `Subnet46` of the family, or of a `SubnetAny` */
  method SubToStr(f: Family, buf: array<char>, at: nat, v: Sub) returns (end: nat)
    requires v.Valid() && Fits(f, v.addr) && at + SubBufSize(f) <= buf.Length
    modifies buf
    ensures at <= end <= at + SubBufSize(f) && SubText(v, buf[at..end])
    ensures OnlyWithin(buf, at, at + SubBufSize(f))
  {
    hide AnyText, IntText, IntScratch, SubText, Fits;
    Uint8Max();
    OctetText(v.pfx);
    end := AddrToStr(f, buf, at, v.addr);
    ghost var t := buf[at..end];
    end := AppendChar(buf, at, end, '/');
    end := AppendInt(10, UINT8, buf, at, end, v.pfx, 0);
    SubTextIs(v, t);
  }

  lemma SubTextIs(s: Sub, t: string)
    requires s.Valid() && AnyText(s.addr, t)
    ensures SubText(s, t + "/" + IntText(s.pfx, 10, 0))
  {
  }

  /** Parsing a printed subnet gives it back, as its own family or as either. */
  lemma SubRoundTrip(f: Family, s: Sub, text: string)
    requires s.Valid() && SubText(s, text) && Fits(f, s.addr)
    ensures SubOf(f, text) == Ok(s)
  {
    hide AnyText, IntText, In4Of, In6Of, AnyOf, RFind, PieceOf, Denotes;
    var t :| AnyText(s.addr, t) && text == t + "/" + IntText(s.pfx, 10, 0);
    var q := IntText(s.pfx, 10, 0);
    OctetText(s.pfx);
    DecimalChars(s.pfx, '/');
    UintIsInt(s.pfx);
    SplitText(t, '/', q);
    RFindAt(text, '/', |t|);
    PieceDenotes(q, s.pfx, 10, UINT8);
    AnyRoundTrip(s.addr, t);
    FamilyRoundTrip(f, s.addr, t);
  }

  lemma SplitText(t: string, c: char, q: string)
    ensures var text := t + [c] + q; text[|t|] == c && text[|t| + 1..] == q && text[..|t|] == t
  {
  }

  lemma UintIsInt(v: nat)
    ensures IntText(v, 10, 0) == UintText(v, 10, 0)
  {
  }

  lemma FamilyRoundTrip(f: Family, a: InAnyAddr, t: string)
    requires a.Valid() && AnyText(a, t) && Fits(f, a)
    ensures AddrOf(f, t) == Ok(a)
  {
    hide In4Of, In6Of, AnyOf, Rfc5952, In4Text;
    match a
    case V4(a4) => In4RoundTrip(a4); AnyRoundTrip(a, t);
    case V6(a6) => In6RoundTrip(a6, t); AnyRoundTrip(a, t);
  }

  /** Families never mix, and a text of the other family is rejected. */
  lemma FamiliesApart(s: Sub, text: string, a: InAnyAddr, undef: nat)
    requires s.Valid() && SubText(s, text) && a.Valid() && undef < WORD
    ensures a.V4? != s.addr.V4? ==> !SubnetContains(s.addr, a, s.pfx, undef)
    ensures SubOf(if s.addr.V4? then Only6 else Only4, text).Err?
  {
    hide AnyText, IntText, In6Of, AnyOf, RFind, PieceOf, Denotes, Rfc5952, In4Of, SubnetContains;
    ContainsMeansPrefix(s.addr, a, s.pfx, undef);
    var t :| AnyText(s.addr, t) && text == t + "/" + IntText(s.pfx, 10, 0);
    DecimalChars(s.pfx, '/');
    UintIsInt(s.pfx);
    assert text[..|t|] == t;
    RFindAt(text, '/', |t|);
    AnyTextChars(s.addr, t, '/');
    OtherFamilyRejects(t);
  }
}
