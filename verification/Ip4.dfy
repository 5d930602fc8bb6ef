/** The IPv4 half of `include/stdplus/net/addr/ip.hpp`. */
module Ip4 {
  import opened Text
  import opened Bits
  import opened NumericStr
  import opened Endian
  import opened Delimited

  /** `In4Addr`: the word as it lies in memory, in network byte order. */
  datatype In4Addr = In4Addr(word: nat) {
    ghost predicate Valid() { word < WORD }
  }

  /** The four octets in the order they are written in. */
  function OctetsIn(a: In4Addr): (os: seq<Byte>)
    requires a.Valid()
    ensures |os| == 4
  {
    Bytes32(a.word)
  }

  function FromOctets(os: seq<Byte>): (a: In4Addr)
    requires |os| == 4
    ensures a.Valid()
  {
    In4Addr(Le32(os[0], os[1], os[2], os[3]))
  }

  lemma OctetsInverse(a: In4Addr, os: seq<Byte>)
    ensures a.Valid() ==> FromOctets(OctetsIn(a)) == a
    ensures |os| == 4 ==> OctetsIn(FromOctets(os)) == os
  {
    if a.Valid() { Le32OfBytes(a.word); }
    if |os| == 4 { BytesOfLe32(os[0], os[1], os[2], os[3]); }
  }

  /** The octets lie in memory in the order they are written in, so the word on the host, which `ntoh` gives,
      has the first as its most significant byte. */
  lemma OctetsInMemory(o0: Byte, o1: Byte, o2: Byte, o3: Byte)
    ensures var a := In4Addr(Le32(o0, o1, o2, o3));
      a.Valid() && OctetsIn(a) == [o0, o1, o2, o3] && Swap32(a.word) == ((o0 * 256 + o1) * 256 + o2) * 256 + o3
  {
    BytesOfLe32(o0, o1, o2, o3);
    Swap32Bytes(o0, o1, o2, o3);
  }

  /** What parsing means: exactly four decimal octets between dots. */
  ghost function In4Of(text: string): Result<In4Addr> {
    match OctetsOf(text, '.', 4, 10)
    case Err(e) => Err(e)
    case Ok(os) => Ok(FromOctets(os))
  }

  /** Octets read as one number, the first the most significant. */
  ghost function Number(os: seq<Byte>): nat {
    if os == [] then 0 else 256 * Number(os[..|os| - 1]) + os[|os| - 1]
  }

  lemma NumberSnoc(os: seq<Byte>, v: Byte)
    ensures Number(os + [v]) == 256 * Number(os) + v
  {
    assert (os + [v])[..|os|] == os;
  }

  lemma {:induction false} NumberBound(os: seq<Byte>)
    ensures |os| <= 3 ==> Number(os) < 0x100_0000
    ensures |os| <= 2 ==> Number(os) < 0x1_0000
    ensures |os| <= 1 ==> Number(os) < 0x100
    ensures |os| <= 0 ==> Number(os) == 0
  {
    if os != [] { NumberBound(os[..|os| - 1]); }
  }

  lemma NumberSwapped(os: seq<Byte>)
    requires |os| == 4
    ensures Number(os) < WORD && In4Addr(Swap32(Number(os))) == FromOctets(os)
  {
    var s1, s2, s3 := os[..1], os[..2], os[..3];
    assert s1 == [] + [os[0]] && s2 == s1 + [os[1]] && s3 == s2 + [os[2]] && os == s3 + [os[3]];
    NumberSnoc([], os[0]);
    NumberSnoc(s1, os[1]);
    NumberSnoc(s2, os[2]);
    NumberSnoc(s3, os[3]);
    assert Number(os) == Le32(os[3], os[2], os[1], os[0]);
    Swap32Bytes(os[3], os[2], os[1], os[0]);
  }

  /** Or-ing an octet into the shifted address appends it, and shifting on loses no bit of the
      32 before the fourth octet. */
  lemma OrOctet(os: seq<Byte>, v: Byte)
    ensures BitOr(256 * Number(os), v) == Number(os + [v])
    ensures |os| <= 2 ==> Shl(Number(os + [v]), 8) % WORD == 256 * Number(os + [v])
  {
    OrIntoByte(Number(os), v);
    NumberSnoc(os, v);
    NumberBound(os + [v]);
    ShiftByte(Number(os + [v]));
  }

  lemma ShiftByte(n: nat)
    ensures Shl(n, 8) == 256 * n
    ensures n < 0x100_0000 ==> Shl(n, 8) % WORD == 256 * n
  {
    assert Shl(1, 8) == 256;
    ShlIsTimes(n, 8);
  }

  lemma OrIntoByte(n: nat, v: Byte)
    ensures BitOr(256 * n, v) == 256 * n + v
  {
    assert Shl(1, 8) == 256;
    OrIntoShifted(n, 8, v);
    ShiftByte(n);
  }

  /** `FromStr<In4Addr>` */
  method In4FromStr(text: string) returns (r: Result<In4Addr>)
    ensures r == In4Of(text)
    ensures r.Ok? ==> r.value.Valid()
  {
    var sv := text;
    var addr: nat := 0;
    ghost var os: seq<Byte> := [];
    ProgressStart(text, '.', 4, 10);
    for i := 0 to 3
      invariant |os| == i && addr == 256 * Number(os)
      invariant Progress(text, '.', 4, 10, os, sv)
    {
      var loc := Find(sv, '.');
      var v := StrToInt(10, UINT8, Before(sv, loc));
      OctetOf(Before(sv, loc), 10, v);
      if v.Err? || After(sv, loc) == "" { ProgressStops(text, '.', 4, 10, os, sv); }
      if v.Err? { return Err(v.error); }
      OrOctet(os, v.value);
      addr := BitOr(addr, v.value);
      addr := Shl(addr, 8) % WORD;
      if After(sv, loc) != "" { ProgressStep(text, '.', 4, 10, os, sv, v.value); }
      os := os + [v.value];
      sv := After(sv, loc);
      if sv == "" { return Err(Invalid); }
    }
    var v := StrToInt(10, UINT8, sv);
    ProgressEnd(text, '.', 4, 10, os, sv, v);
    if v.Err? { return Err(v.error); }
    OrOctet(os, v.value);
    addr := BitOr(addr, v.value);
    NumberSwapped(os + [v.value]);
    return Ok(In4Addr(Swap32(addr)));
  }

  // ---------------------------------------------------------------- printing

  ghost function OctetTexts(os: seq<Byte>): (ps: seq<string>)
    ensures |ps| == |os|
  {
    seq(|os|, i requires 0 <= i < |os| => IntText(os[i], 10, 0))
  }

  /** The dotted quad: four decimal octets without leading zeros. */
  ghost function In4Text(a: In4Addr): string
    requires a.Valid()
  {
    Join(OctetTexts(OctetsIn(a)), '.')
  }

  lemma OctetText(o: Byte)
    ensures Denotes(IntText(o, 10, 0), o, 10, UINT8)
    ensures |IntText(o, 10, 0)| <= 3 && IntScratch(o, 10, 0) <= 4 == BufSize(10, UINT8)
  {
    Uint8Max();
    QuotUnique(255, 10, 25, 5);
    QuotUnique(25, 10, 2, 5);
    QuotUnique(2, 10, 0, 2);
    assert |Digits(2, 10)| == |Digits(0, 10)| + 1;
    assert |Digits(25, 10)| == |Digits(2, 10)| + 1;
    assert |Digits(255, 10)| == 3;
    DigitsMonotone(o, 255, 10);
    UintTextDenotes(o, 10, 0);
    ScratchInsideBufSize(o, 10, UINT8, 0);
  }

  /** `n >> 8`, `i` times */
  ghost function DropBytes(n: nat, i: nat): nat {
    if i == 0 then n else DropBytes(n, i - 1) / 256
  }

  lemma OctetAt(a: In4Addr, i: nat)
    requires a.Valid() && i < 4
    ensures OctetsIn(a)[i] == DropBytes(a.word, i) % 256
  {
    assert DropBytes(a.word, 1) == a.word / 256;
    assert DropBytes(a.word, 2) == a.word / 256 / 256;
    assert DropBytes(a.word, 3) == a.word / 256 / 256 / 256;
  }

  lemma LowByte(n: nat)
    ensures BitAnd(n, 0xff) == n % 256 && Shr(n, 8) == n / 256
  {
    assert Shl(1, 8) == 256;
    ShrAndMask(n, 8);
  }

  const IN4_BUF_SIZE: nat := 12 + 4

  /** `ToStr<In4Addr>` */
  method In4ToStr(buf: array<char>, at: nat, a: In4Addr) returns (end: nat)
    requires a.Valid() && at + IN4_BUF_SIZE <= buf.Length
    modifies buf
    ensures end == at + |In4Text(a)| <= at + 15
    ensures buf[at..end] == In4Text(a)
    ensures OnlyWithin(buf, at, at + IN4_BUF_SIZE)
  {
    hide Swap32, OctetsIn, OctetTexts;
    Swap32Involution(a.word);
    var n := Swap32(Swap32(a.word));
    end := at;
    ghost var ps := OctetTexts(OctetsIn(a));
    for i := 0 to 3
      invariant n == DropBytes(a.word, i)
      invariant at <= end <= at + 4 * i
      invariant buf[at..end] == Terminated(ps[..i], '.')
      invariant OnlyWithin(buf, at, at + IN4_BUF_SIZE)
    {
      end := PutOctet(buf, at, end, a, i, n);
      end := AppendChar(buf, at, end, '.');
      TerminatedSnoc(ps[..i], ps[i], '.');
      assert ps[..i + 1] == ps[..i] + [ps[i]];
      LowByte(n);
      n := Shr(n, 8);
    }
    end := PutOctet(buf, at, end, a, 3, n);
    JoinTerminated(ps[..3], ps[3], '.');
    assert ps == ps[..3] + [ps[3]];
  }

  /** `ToOct{}(buf, n & 0xff)` behind what is already written. */
  method PutOctet(buf: array<char>, ghost at: nat, p: nat, ghost a: In4Addr, ghost i: nat, n: nat)
    returns (end: nat)
    requires a.Valid() && i < 4 && n == DropBytes(a.word, i)
    requires at <= p && p + 4 <= buf.Length
    modifies buf
    ensures var text := OctetTexts(OctetsIn(a))[i];
            end == p + |text| <= p + 3 && buf[at..end] == old(buf[at..p]) + text
    ensures OnlyWithin(buf, p, p + 4)
  {
    LowByte(n);
    OctetAt(a, i);
    Uint8Max();
    ghost var o: Byte := n % 256;
    OctetText(o);
    end := AppendInt(10, UINT8, buf, at, p, BitAnd(n, 0xff), 0);
  }

  /** Parsing the printed address gives it back. */
  lemma In4RoundTrip(a: In4Addr)
    requires a.Valid()
    ensures In4Of(In4Text(a)) == Ok(a)
  {
    var os, ps := OctetsIn(a), OctetTexts(OctetsIn(a));
    forall i | 0 <= i < 4
      ensures Denotes(ps[i], os[i], 10, UINT8)
    {
      OctetText(os[i]);
    }
    OctetsRoundTrip(ps, os, '.', 10);
    OctetsInverse(a, os);
  }

  /** A text is accepted exactly when it splits at its dots into four decimal octets. */
  lemma In4Exact(text: string, a: In4Addr)
    requires a.Valid()
    ensures In4Of(text) == Ok(a) <==>
              |Split(text, '.')| == 4 && AllDenote(Split(text, '.'), OctetsIn(a), 10, UINT8)
  {
    OctetsExact(text, '.', 4, 10, OctetsIn(a));
    OctetsInverse(a, OctetsIn(a));
    if In4Of(text) == Ok(a) {
      var os := OctetsOf(text, '.', 4, 10).value;
      OctetsInverse(a, os);
    }
  }

  lemma In4TextParts(a: In4Addr)
    requires a.Valid()
    ensures var ps := OctetTexts(OctetsIn(a)); In4Text(a) == ps[0] + "." + (ps[1] + "." + (ps[2] + "." + ps[3]))
  {
    hide OctetTexts;
    var ps := OctetTexts(OctetsIn(a));
    assert ps[1..][0] == ps[1] && ps[2..][0] == ps[2] && ps[3..][0] == ps[3];
    assert ps[1..][1..] == ps[2..] && ps[2..][1..] == ps[3..];
    assert Join(ps[3..], '.') == ps[3];
    assert Join(ps[2..], '.') == ps[2] + "." + ps[3];
    assert Join(ps[1..], '.') == ps[1] + "." + (ps[2] + "." + ps[3]);
  }

  lemma OctetChars(o: Byte, c: char)
    requires !('0' <= c <= '9')
    ensures Without(IntText(o, 10, 0), c) && 1 <= |IntText(o, 10, 0)| <= 3
  {
    hide UintText;
    OctetText(o);
    DecimalChars(o, c);
  }

  /** What a dotted quad is made of. */
  lemma In4TextChars(a: In4Addr, c: char)
    requires a.Valid() && !('0' <= c <= '9') && c != '.'
    ensures Without(In4Text(a), c) && !Without(In4Text(a), '.')
    ensures 1 <= |In4Text(a)| <= 15
  {
    hide In4Text, OctetsIn, IntText, Join;
    var os, ps := OctetsIn(a), OctetTexts(OctetsIn(a));
    OctetChars(os[0], c);
    OctetChars(os[1], c);
    OctetChars(os[2], c);
    OctetChars(os[3], c);
    In4TextParts(a);
    assert In4Text(a)[|ps[0]|] == '.';
  }

  lemma {:induction false} DigitsChars(v: nat, base: nat, c: char)
    requires 2 <= base <= 16 && !('0' <= c <= '9')
    requires base <= 10 || !('a' <= c <= 'f')
    ensures Without(Digits(v, base), c)
  {
    if v > 0 { DigitsChars(Quot(v, base), base, c); }
  }

  lemma DecimalChars(v: nat, c: char)
    requires !('0' <= c <= '9')
    ensures Without(UintText(v, 10, 0), c)
  {
    DigitsChars(v, 10, c);
  }
}
