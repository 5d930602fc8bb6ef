/** The IPv6 printer of `include/stdplus/net/addr/ip.hpp`, and the canonical form of sections 4 and 5
    of RFC 5952 that it is to produce. */
module Ip6Print {
  import opened Text
  import opened Bits
  import opened NumericStr
  import opened Endian
  import opened Delimited
  import opened Ip4
  import opened Ip6Parse
  import opened Ip6Grammar

  ghost function HexTexts(hs: seq<Word16>): (ps: seq<string>)
    ensures |ps| == |hs|
  {
    seq(|hs|, i requires 0 <= i < |hs| => IntText(hs[i], 16, 0))
  }

  /** Section 5: the IPv4-mapped prefix. */
  ghost predicate Mapped(h: seq<Word16>)
    requires |h| == 8
  {
    h[0] == h[1] == h[2] == h[3] == h[4] == 0 && h[5] == 0xffff
  }

  ghost predicate ZeroRun(h: seq<Word16>, start: nat, size: nat) {
    start + size <= |h| && size >= 1 && forall k | start <= k < start + size :: h[k] == 0
  }

  /** Section 4.2.3: of the longest runs of zero hextets, the first. */
  ghost predicate LongestRun(h: seq<Word16>, start: nat, size: nat) {
    && ZeroRun(h, start, size)
    && forall s: nat, z: nat | ZeroRun(h, s, z) :: z < size || (z == size && start <= s)
  }

  /** Section 4.2.2: only a run of two or more is shortened. */
  ghost predicate Shortened(h: seq<Word16>, start: nat, size: nat) {
    LongestRun(h, start, size) && size >= 2
  }

  ghost function GapText(h: seq<Word16>, start: nat, size: nat): string
    requires start + size <= |h|
  {
    Join(HexTexts(h[..start]), ':') + "::" + Join(HexTexts(h[start + size..]), ':')
  }

  /** The canonical text of an address. */
  ghost predicate Rfc5952(a: In6Addr, text: string)
    requires a.Valid()
  {
    var h := HextetsIn(a);
    if Mapped(h) then text == "::ffff:" + In4Text(In4Addr(a.Word(3)))
    else
      && (forall st: nat, sz: nat | Shortened(h, st, sz) :: text == GapText(h, st, sz))
      && ((forall st: nat, sz: nat :: !Shortened(h, st, sz)) ==> text == Join(HexTexts(h), ':'))
  }

  // ---------------------------------------------------------------- about the canonical form

  /** Where there is a zero hextet there is a longest run, so the form is never left open. */
  lemma {:induction false} LongestRunExists(h: seq<Word16>, s: nat, z: nat) returns (start: nat, size: nat)
    requires ZeroRun(h, s, z)
    ensures LongestRun(h, start, size) && size >= z
    decreases |h| - z, s
  {
    if s': nat, z': nat :| ZeroRun(h, s', z') && (z' > z || (z' == z && s' < s)) {
      start, size := LongestRunExists(h, s', z');
    } else {
      start, size := s, z;
    }
  }

  lemma LongestRunUnique(h: seq<Word16>, s: nat, z: nat, s': nat, z': nat)
    requires LongestRun(h, s, z) && LongestRun(h, s', z')
    ensures s == s' && z == z'
  {
  }

  /** An address has one canonical text. */
  lemma Rfc5952Unique(a: In6Addr, t: string, u: string)
    requires a.Valid() && Rfc5952(a, t) && Rfc5952(a, u)
    ensures t == u
  {
    hide Join;
    var h := HextetsIn(a);
    if !Mapped(h) {
      if st: nat, sz: nat :| Shortened(h, st, sz) {
        assert t == GapText(h, st, sz) == u;
      }
    }
  }

  /** Sections 4.1 and 4.3: a hextet is one to four lower-case digits without leading zeros. */
  lemma HexText(v: Word16)
    ensures var p := IntText(v, 16, 0);
            && Denotes(p, v, 16, UINT16)
            && 1 <= |p| <= 4 && IntScratch(v, 16, 0) <= 4 == BufSize(16, UINT16)
            && (p[0] == '0' ==> p == "0")
            && forall i | 0 <= i < |p| :: '0' <= p[i] <= '9' || 'a' <= p[i] <= 'f'
  {
    Uint8Max();
    QuotUnique(0xffff, 16, 0xfff, 15);
    QuotUnique(0xfff, 16, 0xff, 15);
    QuotUnique(0xff, 16, 15, 15);
    QuotUnique(15, 16, 0, 15);
    assert |Digits(15, 16)| == |Digits(0, 16)| + 1;
    assert |Digits(0xff, 16)| == |Digits(15, 16)| + 1;
    assert |Digits(0xfff, 16)| == |Digits(0xff, 16)| + 1;
    assert |Digits(0xffff, 16)| == 4;
    DigitsMonotone(v, 0xffff, 16);
    UintTextDenotes(v, 16, 0);
    DigitsDenote(v, 16);
    LowerDigits(v, 16);
    ScratchInsideBufSize(v, 16, UINT16, 0);
  }

  lemma {:induction false} LowerDigits(v: nat, base: nat)
    requires 2 <= base <= 16
    ensures forall i | 0 <= i < |Digits(v, base)| ::
              '0' <= Digits(v, base)[i] <= '9' || 'a' <= Digits(v, base)[i] <= 'f'
  {
    if v > 0 { LowerDigits(Quot(v, base), base); }
  }

  // ---------------------------------------------------------------- printing

  /** The scan for the run to shorten: what the loop knows about runs that have ended before `i`. */
  ghost predicate BestBefore(h: seq<Word16>, i: nat, start: nat, size: nat)
    requires |h| == 8
  {
    forall s: nat, z: nat | ZeroRun(h, s, z) && s + z < i && (s + z == 8 || h[s + z] != 0) ::
      z < size || (z == size && start <= s)
  }

  lemma {:induction false} RunEnds(h: seq<Word16>, s: nat, z: nat) returns (z': nat)
    requires |h| == 8 && ZeroRun(h, s, z)
    ensures z' >= z && ZeroRun(h, s, z') && (s + z' == 8 || h[s + z'] != 0)
    decreases 8 - z
  {
    if s + z == 8 || h[s + z] != 0 { z' := z; } else { z' := RunEnds(h, s, z + 1); }
  }

  lemma BestIsLongest(h: seq<Word16>, start: nat, size: nat)
    requires |h| == 8 && BestBefore(h, 9, start, size) && (size > 0 ==> ZeroRun(h, start, size))
    ensures size > 0 ==> LongestRun(h, start, size)
    ensures size == 0 ==> forall s: nat, z: nat :: !ZeroRun(h, s, z)
  {
    forall s: nat, z: nat | ZeroRun(h, s, z)
      ensures z < size || (z == size && start <= s)
    {
      var z' := RunEnds(h, s, z);
    }
  }

  /** The state of the scan before index `i`: the best run that has ended, and the last run seen. */
  ghost predicate Scanning(h: seq<Word16>, i: nat, start: nat, size: nat, newStart: nat, newSize: nat)
    requires |h| == 8
  {
    && start <= newStart && newStart + newSize <= i <= 9
    && (size > 0 ==> ZeroRun(h, start, size))
    && (if newSize > 0 then ZeroRun(h, newStart, newSize) else newStart == 0)
    && (0 < i <= 8 && h[i - 1] == 0 ==>
          newSize > 0 && newStart + newSize == i && (newStart == 0 || h[newStart - 1] != 0))
    && BestBefore(h, i, start, size)
  }

  lemma ScanZero(h: seq<Word16>, i: nat, start: nat, size: nat, ns: nat, nz: nat)
    requires |h| == 8 && i < 8 && h[i] == 0 && Scanning(h, i, start, size, ns, nz)
    ensures if ns + nz == i then Scanning(h, i + 1, start, size, ns, nz + 1)
            else Scanning(h, i + 1, start, size, i, 1)
  {
  }

  /** A run that ends at `i` is a tail of the last run seen. */
  lemma ScanEnd(h: seq<Word16>, i: nat, start: nat, size: nat, ns: nat, nz: nat)
    requires |h| == 8 && i <= 8 && (i < 8 ==> h[i] != 0) && Scanning(h, i, start, size, ns, nz)
    ensures if ns + nz == i && nz > size then Scanning(h, i + 1, ns, nz, ns, nz)
            else Scanning(h, i + 1, start, size, ns, nz)
  {
    forall s: nat, z: nat | ZeroRun(h, s, z) && s + z == i
      ensures ns + nz == i && nz > 0 && ns <= s && z <= nz
    {
      assert h[i - 1] == 0;
      assert s < ns ==> s <= ns - 1 < s + z;
    }
  }

  /** A hextet is zero in either byte order. */
  lemma ZeroHextet(v: In6Addr, i: nat)
    requires v.Valid() && i < 8
    ensures HextetsIn(v)[i] == 0 <==> v.s6[i] == 0
  {
    SwapExtremes(v.s6[i]);
  }

  /** The scan over the hextets and one past them. */
  method FindSkip(v: In6Addr) returns (start: nat, size: nat)
    requires v.Valid()
    ensures size > 0 ==> LongestRun(HextetsIn(v), start, size)
    ensures size == 0 ==> forall s: nat, z: nat :: !ZeroRun(HextetsIn(v), s, z)
  {
    hide ZeroRun, Scanning, BestBefore, LongestRun, HextetsIn, Swap16;
    ghost var h := HextetsIn(v);
    start, size := 0, 0;
    var newStart: nat, newSize: nat := 0, 0;
    ScanStart(h);
    for i := 0 to 9
      invariant Scanning(h, i, start, size, newStart, newSize)
    {
      if i < 8 { ZeroHextet(v, i); }
      if i < 8 && v.s6[i] == 0 {
        ScanZero(h, i, start, size, newStart, newSize);
        if newStart + newSize == i {
          newSize := newSize + 1;
        } else {
          newStart := i;
          newSize := 1;
        }
      } else {
        ScanEnd(h, i, start, size, newStart, newSize);
        if newStart + newSize == i && newSize > size {
          start := newStart;
          size := newSize;
        }
      }
    }
    ScanDone(h, start, size, newStart, newSize);
    BestIsLongest(h, start, size);
  }

  lemma ScanStart(h: seq<Word16>)
    requires |h| == 8
    ensures Scanning(h, 0, 0, 0, 0, 0)
  {
  }

  lemma ScanDone(h: seq<Word16>, start: nat, size: nat, ns: nat, nz: nat)
    requires |h| == 8 && Scanning(h, 9, start, size, ns, nz)
    ensures BestBefore(h, 9, start, size) && (size > 0 ==> ZeroRun(h, start, size))
  {
  }

  // The text written before index `i`: a colon follows every hextet but the eighth.

  ghost function Separated(ps: seq<string>, i: nat): string {
    if i < 8 then Terminated(ps, ':') else Join(ps, ':')
  }

  ghost function Shown(h: seq<Word16>, start: nat, size: nat, i: nat): string
    requires |h| == 8 && i <= 8 && start + size <= 8
    requires size >= 2 ==> i <= start || start + size <= i
  {
    if size < 2 then Separated(HexTexts(h[..i]), i)
    else if i <= start then Terminated(HexTexts(h[..i]), ':')
    else Join(HexTexts(h[..start]), ':') + "::" + Separated(HexTexts(h[start + size..i]), i)
  }

  lemma HexTextsSnoc(h: seq<Word16>, j: nat, i: nat)
    requires j <= i < |h|
    ensures HexTexts(h[j..i + 1]) == HexTexts(h[j..i]) + [IntText(h[i], 16, 0)]
    ensures HexTexts(h[..i + 1]) == HexTexts(h[..i]) + [IntText(h[i], 16, 0)]
  {
    hide IntText;
  }

  lemma SeparatedSnoc(ps: seq<string>, p: string, i: nat)
    requires i < 8
    ensures Separated(ps + [p], i + 1) == Separated(ps, i) + p + (if i < 7 then ":" else "")
  {
    TerminatedSnoc(ps, p, ':');
    JoinTerminated(ps, p, ':');
  }

  lemma ShownHextet(h: seq<Word16>, start: nat, size: nat, i: nat)
    requires |h| == 8 && i < 8 && start + size <= 8
    requires size >= 2 ==> i < start || start + size <= i
    ensures Shown(h, start, size, i + 1)
         == Shown(h, start, size, i) + IntText(h[i], 16, 0) + (if i < 7 then ":" else "")
  {
    hide IntText, HexTexts, Separated;
    HexTextsSnoc(h, 0, i);
    var p := IntText(h[i], 16, 0);
    if size < 2 {
      SeparatedSnoc(HexTexts(h[..i]), p, i);
    } else if i < start {
      TerminatedSnoc(HexTexts(h[..i]), p, ':');
    } else {
      HexTextsSnoc(h, start + size, i);
      SeparatedSnoc(HexTexts(h[start + size..i]), p, i);
    }
  }

  lemma ShownGap(h: seq<Word16>, start: nat, size: nat)
    requires |h| == 8 && start + size <= 8 && size >= 2
    ensures Shown(h, start, size, start + size)
         == Shown(h, start, size, start) + (if start == 0 then "::" else ":")
  {
    hide IntText;
    var e := HexTexts(h[start + size..start + size]);
    assert e == [];
    assert Separated(e, start + size) == "";
    if start > 0 {
      HexTextsSnoc(h, 0, start - 1);
      var ps, p := HexTexts(h[..start - 1]), IntText(h[start - 1], 16, 0);
      JoinTerminated(ps, p, ':');
      TerminatedSnoc(ps, p, ':');
    }
  }

  lemma ShownAll(h: seq<Word16>, start: nat, size: nat)
    requires |h| == 8 && start + size <= 8
    ensures size < 2 ==> Shown(h, start, size, 8) == Join(HexTexts(h), ':')
    ensures size >= 2 ==> Shown(h, start, size, 8) == GapText(h, start, size)
    ensures Shown(h, start, size, 0) == ""
  {
    hide IntText;
    assert h[..8] == h && h[start + size..8] == h[start + size..];
    if size >= 2 && start == 8 - size {
      assert HexTexts(h[start + size..8]) == [];
    }
  }

  const IN6_BUF_SIZE: nat := 35 + 4

  lemma MappedWords(a: In6Addr)
    requires a.Valid()
    ensures Mapped(HextetsIn(a)) <==>
              a.Word(0) == 0 && a.Word(1) == 0 && a.s6[4] == 0 && a.s6[5] == 0xffff
  {
    hide Swap16;
    forall i | 0 <= i < 6 { SwapExtremes(a.s6[i]); }
  }

  lemma SwapExtremes(x: Word16)
    ensures Swap16(x) == 0 <==> x == 0
    ensures Swap16(x) == 0xffff <==> x == 0xffff
  {
  }

  /** `ToStr<In6Addr>` */
  method In6ToStr(buf: array<char>, at: nat, v: In6Addr) returns (end: nat)
    requires v.Valid() && at + IN6_BUF_SIZE <= buf.Length
    modifies buf
    ensures at <= end <= at + IN6_BUF_SIZE && Rfc5952(v, buf[at..end])
    ensures OnlyWithin(buf, at, at + IN6_BUF_SIZE)
  {
    MappedWords(v);
    if v.Word(0) == 0 && v.Word(1) == 0 && v.s6[4] == 0 && v.s6[5] == 0xffff {
      end := MappedToStr(buf, at, v);
      return;
    }
    var skipStart, skipSize := FindSkip(v);
    end := HextetsToStr(buf, at, v, skipStart, skipSize);
  }

  method MappedToStr(buf: array<char>, at: nat, v: In6Addr) returns (end: nat)
    requires v.Valid() && Mapped(HextetsIn(v)) && at + IN6_BUF_SIZE <= buf.Length
    modifies buf
    ensures at <= end <= at + IN6_BUF_SIZE && Rfc5952(v, buf[at..end])
    ensures OnlyWithin(buf, at, at + IN6_BUF_SIZE)
  {
    hide HextetsIn, In4Text, Shortened;
    var prefix := "::ffff:";
    for k := 0 to 7
      invariant buf[at..at + k] == prefix[..k]
      invariant OnlyWithin(buf, at, at + 7)
    {
      buf[at + k] := prefix[k];
    }
    end := In4ToStr(buf, at + 7, In4Addr(v.Word(3)));
    assert buf[at..at + 7] == prefix;
    assert buf[at..end] == buf[at..at + 7] + buf[at + 7..end];
  }

  /** One hextet, and a colon unless it is the eighth. */
  method AppendHextet(buf: array<char>, ghost at: nat, p: nat, v: In6Addr, i: nat) returns (end: nat)
    requires v.Valid() && i < 8 && at <= p && p + (if i < 7 then 5 else 4) <= buf.Length
    modifies buf
    ensures p <= end <= p + (if i < 7 then 5 else 4)
    ensures buf[at..end] == old(buf[at..p]) + IntText(HextetsIn(v)[i], 16, 0) + (if i < 7 then ":" else "")
    ensures OnlyWithin(buf, p, p + (if i < 7 then 5 else 4))
  {
    hide IntText, IntScratch;
    Uint8Max();
    HexText(HextetsIn(v)[i]);
    end := AppendInt(16, UINT16, buf, at, p, Swap16(v.s6[i]), 0);
    if i < 7 {
      end := AppendChar(buf, at, end, ':');
    }
  }

  /** The printing loop. */
  method HextetsToStr(buf: array<char>, at: nat, v: In6Addr, skipStart: nat, skipSize: nat) returns (end: nat)
    requires v.Valid() && !Mapped(HextetsIn(v)) && at + IN6_BUF_SIZE <= buf.Length
    requires skipSize > 0 ==> LongestRun(HextetsIn(v), skipStart, skipSize)
    requires skipSize == 0 ==> forall s: nat, z: nat :: !ZeroRun(HextetsIn(v), s, z)
    modifies buf
    ensures at <= end <= at + IN6_BUF_SIZE && Rfc5952(v, buf[at..end])
    ensures OnlyWithin(buf, at, at + IN6_BUF_SIZE)
  {
    hide Shown, IntText, HextetsIn;
    ghost var h := HextetsIn(v);
    end := at;
    var i := 0;
    ghost var start := if skipSize == 0 then 0 else skipStart;
    ShownAll(h, start, skipSize);
    while i < 8
      invariant i <= 8 && (skipSize >= 2 ==> i <= start || start + skipSize <= i)
      invariant at <= end <= at + 5 * i && end <= at + IN6_BUF_SIZE
      invariant buf[at..end] == Shown(h, start, skipSize, i)
      invariant OnlyWithin(buf, at, at + IN6_BUF_SIZE)
    {
      if i == skipStart && skipSize > 1 {
        ShownGap(h, start, skipSize);
        if i == 0 {
          end := AppendChar(buf, at, end, ':');
        }
        end := AppendChar(buf, at, end, ':');
        i := i + (skipSize - 1) + 1;
      } else {
        ShownHextet(h, start, skipSize, i);
        end := AppendHextet(buf, at, end, v, i);
        i := i + 1;
      }
    }
    CanonicalShown(v, skipStart, skipSize);
  }

  lemma CanonicalShown(v: In6Addr, skipStart: nat, skipSize: nat)
    requires v.Valid() && !Mapped(HextetsIn(v))
    requires skipSize > 0 ==> LongestRun(HextetsIn(v), skipStart, skipSize)
    requires skipSize == 0 ==> forall s: nat, z: nat :: !ZeroRun(HextetsIn(v), s, z)
    ensures Rfc5952(v, Shown(HextetsIn(v), if skipSize == 0 then 0 else skipStart, skipSize, 8))
  {
    hide Shown, GapText, HextetsIn;
    var h := HextetsIn(v);
    ShownAll(h, if skipSize == 0 then 0 else skipStart, skipSize);
    if skipSize >= 2 {
      assert Shortened(h, skipStart, skipSize);
      forall st: nat, sz: nat | Shortened(h, st, sz)
        ensures st == skipStart && sz == skipSize
      {
        LongestRunUnique(h, st, sz, skipStart, skipSize);
      }
    } else {
      forall st: nat, sz: nat
        ensures !Shortened(h, st, sz)
      {
        if skipSize > 0 && ZeroRun(h, st, sz) { assert sz <= skipSize; }
      }
    }
  }

  // ---------------------------------------------------------------- the round trip

  lemma {:induction false} HexTextsDenote(h: seq<Word16>)
    ensures Hexes(HexTexts(h), h)
  {
    hide IntText, Denotes;
    forall i | 0 <= i < |h| { HexText(h[i]); }
  }

  lemma AppendF(s: string)
    requires s == "" || IsNumeral(s, 16)
    ensures IsNumeral(s, 16) && IsNumeral(s + "f", 16) && Value(s + "f", 16) == 16 * Value(s, 16) + 15
    ensures IsNumeral("", 16) && Value("", 16) == 0
  {
    var t := s + "f";
    assert t[..|s|] == s;
  }

  lemma Ffff()
    ensures Hexes(["ffff"], [0xffff])
  {
    hide Value, IsNumeral;
    assert "" + "f" == "f" && "f" + "f" == "ff" && "ff" + "f" == "fff" && "fff" + "f" == "ffff";
    AppendF("");
    AppendF("f");
    AppendF("ff");
    AppendF("fff");
    Uint8Max();
  }

  lemma MappedQuad(a: In6Addr)
    requires a.Valid()
    ensures var q := In4Addr(a.Word(3)); q.Valid() && QuadHextets(q) == HextetsIn(a)[6..]
  {
    var lo, hi := a.s6[6], a.s6[7];
    Le32OfHalves(lo, hi);
    assert HextetsIn(a)[6..] == [Swap16(lo), Swap16(hi)];
  }

  lemma Le32OfHalves(lo: Word16, hi: Word16)
    ensures Words(lo, hi) < WORD
    ensures Bytes32(Words(lo, hi)) == [lo % 256, lo / 256, hi % 256, hi / 256]
  {
    assert Words(lo, hi) == Le32(lo % 256, lo / 256, hi % 256, hi / 256);
    BytesOfLe32(lo % 256, lo / 256, hi % 256, hi / 256);
  }

  lemma MappedForm(a: In6Addr)
    requires a.Valid() && Mapped(HextetsIn(a))
    ensures var text := "::ffff:" + In4Text(In4Addr(a.Word(3)));
            DropLoneColon(text) == text
            && Spells(GapQuad([], ["ffff"], In4Text(In4Addr(a.Word(3)))), text, HextetsIn(a))
  {
    hide In4Text, HextetsIn, In4Of, QuadHextets;
    var h, q := HextetsIn(a), In4Addr(a.Word(3));
    var t := In4Text(q);
    MappedQuad(a);
    In4RoundTrip(q);
    Ffff();
    assert h[5..6] == [0xffff] && h[..0] == [];
    assert ["ffff"] + [t] == ["ffff", t] && ["ffff", t][1..] == [t];
    assert Join(["ffff", t], ':') == "ffff" + ":" + Join([t], ':');
    assert "::ffff:" + t == "" + "::" + ("ffff" + ":" + t);
  }

  lemma GapForm(h: seq<Word16>, st: nat, sz: nat) returns (f: Form)
    requires |h| == 8 && ZeroRun(h, st, sz) && sz >= 2
    ensures DropLoneColon(GapText(h, st, sz)) == GapText(h, st, sz) && Spells(f, GapText(h, st, sz), h)
  {
    hide IntText, Join, HexTexts;
    var ls, rs := HexTexts(h[..st]), HexTexts(h[st + sz..]);
    HexTextsDenote(h[..st]);
    HexTextsDenote(h[st + sz..]);
    HexesFacts(ls, h[..st]);
    JoinStart(ls);
    JoinNone("");
    JoinNonEmpty(ls);
    f := Gap(ls, rs);
  }

  /** The canonical text has a form that spells the address. */
  lemma CanonicalForm(a: In6Addr, text: string) returns (f: Form)
    requires a.Valid() && Rfc5952(a, text)
    ensures DropLoneColon(text) == text && Spells(f, text, HextetsIn(a))
  {
    hide In4Text, HextetsIn, IntText, In4Of, Join;
    var h := HextetsIn(a);
    if Mapped(h) {
      MappedForm(a);
      f := GapQuad([], ["ffff"], In4Text(In4Addr(a.Word(3))));
    } else if st: nat, sz: nat :| Shortened(h, st, sz) {
      f := GapForm(h, st, sz);
    } else {
      var ps := HexTexts(h);
      HexTextsDenote(h);
      HexesFacts(ps, h);
      JoinStart(ps);
      JoinNonEmpty(ps);
      f := Whole(ps);
    }
  }

  /** Parsing the printed text of an address gives the address back. */
  lemma In6RoundTrip(a: In6Addr, text: string)
    requires a.Valid() && Rfc5952(a, text)
    ensures In6Of(text) == Ok(a)
  {
    hide Rfc5952, Spells, In6Of, HextetsIn;
    var f := CanonicalForm(a, text);
    In6Exact(text, a);
  }

  lemma {:induction false} JoinLength(ps: seq<string>)
    requires forall i | 0 <= i < |ps| :: |ps[i]| <= 4
    ensures |Join(ps, ':')| <= if ps == [] then 0 else 5 * |ps| - 1
  {
    if |ps| > 1 { JoinLength(ps[1..]); }
  }

  lemma HexTextsLength(h: seq<Word16>)
    ensures |Join(HexTexts(h), ':')| <= if h == [] then 0 else 5 * |h| - 1
  {
    hide IntText;
    forall i | 0 <= i < |h| { HexText(h[i]); }
    JoinLength(HexTexts(h));
  }

  /** A canonical text has at most 39 characters. */
  lemma Rfc5952Length(a: In6Addr, text: string)
    requires a.Valid() && Rfc5952(a, text)
    ensures |text| <= IN6_BUF_SIZE
  {
    hide In4Text, HextetsIn, HexTexts, Join;
    var h := HextetsIn(a);
    if Mapped(h) {
      MappedQuad(a);
      In4TextChars(In4Addr(a.Word(3)), ':');
    } else if st: nat, sz: nat :| Shortened(h, st, sz) {
      HexTextsLength(h[..st]);
      HexTextsLength(h[st + sz..]);
      assert text == GapText(h, st, sz);
    } else {
      HexTextsLength(h);
    }
  }
}
